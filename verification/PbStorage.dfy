/** What storage held before is forgotten: whatever is decoded into it. */
module PbStorage {
  import opened Common
  import opened PbWire
  import opened PbMessage
  import opened PbDefaults
  import opened PbRoundTrip

  // ---- Equality of all that is ever read again.

  ghost predicate AlikeItem(t: LType, a: Item, b: Item)
    decreases t, 0
  {
    match t
    case StringT(size) => a.StrV? && b.StrV? && |a.buf| == |b.buf| == size && CString(a.buf) == CString(b.buf)
    case MessageT(fields) => a.MsgV? && b.MsgV? && AlikeMsg(fields, a.msg, b.msg)
    case _ => a.IntV? && a == b
  }

  /** An absent item counts, as later parts of a message are read into it; entries past the count do not. */
  ghost predicate AlikeSlot(f: Field, a: Slot, b: Slot)
    decreases f
  {
    match f.htype
    case Required => a.Single? && b.Single? && AlikeItem(f.ltype, a.item, b.item)
    case Optional => a.Flagged? && b.Flagged? && a.has == b.has && AlikeItem(f.ltype, a.item, b.item)
    case Repeated(max) =>
      && a.Counted? && b.Counted? && a.count == b.count <= max == |a.items| == |b.items|
      && forall i :: 0 <= i < max ==> AlikeEntry(f.ltype, i < a.count, a.items[i], b.items[i])
    case Oneof => a.Shared? && b.Shared?
  }

  ghost predicate AlikeEntry(t: LType, used: bool, a: Item, b: Item)
    decreases t, 1
  {
    if used then AlikeItem(t, a, b) else ItemOk(Shape, t, a) && ItemOk(Shape, t, b)
  }

  ghost predicate AlikeMember(f: Field, a: Msg, b: Msg)
    decreases f
  {
    Selected(f, a.which) ==> AlikeItem(f.ltype, a.union, b.union)
  }

  ghost predicate AlikeMsg(fs: seq<Field>, a: Msg, b: Msg)
    decreases fs
  {
    && a.which == b.which && |a.slots| == |b.slots| == |fs|
    && (forall i :: 0 <= i < |fs| ==> AlikeSlot(fs[i], a.slots[i], b.slots[i]))
    && (forall i :: 0 <= i < |fs| ==> AlikeMember(fs[i], a, b))
  }

  // ---- Initialised storage is alike.

  lemma {:induction false} DefaultItemAlike(t: LType, a: Item, b: Item)
    requires WellFormedType(t) && ItemOk(Shape, t, a) && ItemOk(Shape, t, b)
    ensures AlikeItem(t, DefaultItem(t, a), DefaultItem(t, b))
    decreases t, 1
  {
    if t.MessageT? { DefaultMsgAlike(t.fields, a.msg, b.msg); }
  }

  lemma {:induction false} DefaultSlotAlike(f: Field, a: Slot, b: Slot)
    requires WellFormedField(f) && SlotOk(Shape, f, a) && SlotOk(Shape, f, b)
    ensures AlikeSlot(f, DefaultSlot(f, a), DefaultSlot(f, b))
    decreases f, 0
  {
    if !f.htype.Repeated? && !f.htype.Oneof? { DefaultItemAlike(f.ltype, a.item, b.item); }
  }

  lemma {:induction false} DefaultSlotsAlike(fs: seq<Field>, a: seq<Slot>, b: seq<Slot>)
    requires WellFormedFields(fs) && SlotsOk(Shape, fs, a) && SlotsOk(Shape, fs, b)
    ensures |DefaultSlots(fs, a)| == |DefaultSlots(fs, b)| == |fs|
    ensures forall i :: 0 <= i < |fs| ==> AlikeSlot(fs[i], DefaultSlots(fs, a)[i], DefaultSlots(fs, b)[i])
    decreases fs, 0
  {
    hide DefaultSlot, AlikeSlot, SlotOk, WellFormedField;
    if fs == [] {
    } else {
      DefaultSlotAlike(fs[0], a[0], b[0]);
      DefaultSlotsAlike(fs[1..], a[1..], b[1..]);
    }
  }

  lemma {:induction false} DefaultMsgAlike(fs: seq<Field>, a: Msg, b: Msg)
    requires WellFormedFields(fs) && MsgOk(Shape, fs, a) && MsgOk(Shape, fs, b)
    ensures AlikeMsg(fs, DefaultMsg(fs, a), DefaultMsg(fs, b))
    decreases fs, 1
  {
    hide AlikeSlot, DefaultSlots, SlotOk;
    DefaultSlotsAlike(fs, a.slots, b.slots);
    forall i | 0 <= i < |fs| ensures AlikeMember(fs[i], DefaultMsg(fs, a), DefaultMsg(fs, b)) {
      assert WellFormedField(fs[i]);
    }
  }

  // ---- Reading keeps storage alike.

  /** Same success, same bytes left, and items alike. */
  ghost predicate ItemsMatch(t: LType, r: Option<(Item, seq<byte>)>, r': Option<(Item, seq<byte>)>) {
    && (r.Some? <==> r'.Some?)
    && (r.Some? ==> r.value.1 == r'.value.1 && AlikeItem(t, r.value.0, r'.value.0))
  }

  ghost predicate MessagesMatch(fs: seq<Field>, r: Option<(Msg, seq<byte>)>, r': Option<(Msg, seq<byte>)>) {
    && (r.Some? <==> r'.Some?)
    && (r.Some? ==> r.value.1 == r'.value.1 && AlikeMsg(fs, r.value.0, r'.value.0))
  }

  lemma {:induction false} ItemStaysAlike(t: LType, entry: bool, bytes: seq<byte>, a: Item, b: Item)
    requires WellFormedType(t)
    requires if entry then ItemOk(Shape, t, a) && ItemOk(Shape, t, b) else AlikeItem(t, a, b)
    ensures ItemsMatch(t, DecItem(t, entry, bytes, a), DecItem(t, entry, bytes, b))
    decreases t, 3
  {
    match t {
      case StringT(size) => TextStaysAlike(size, entry, bytes, a, b);
      case MessageT(fields) =>
        hide DecMsg, DecDelimited, AlikeMsg, WellFormedFields, MsgOk;
        var body := DecDelimited(bytes);
        if entry { DefaultMsgAlike(fields, a.msg, b.msg); }
        if body.Some? {
          MessageStaysAlike(fields, body.value.0, if entry then DefaultMsg(fields, a.msg) else a.msg,
                            if entry then DefaultMsg(fields, b.msg) else b.msg);
        }
      case _ =>
        hide Dec64;
    }
  }

  lemma TextStaysAlike(size: nat, entry: bool, bytes: seq<byte>, a: Item, b: Item)
    requires a.StrV? && b.StrV? && |a.buf| == |b.buf| == size
    ensures ItemsMatch(StringT(size), DecItem(StringT(size), entry, bytes, a), DecItem(StringT(size), entry, bytes, b))
  {
    hide DecDelimited;
    var text := DecDelimited(bytes);
    if text.Some? && |text.value.0| < size {
      var s := text.value.0;
      FilledText(s, a.buf[|s| + 1..], b.buf[|s| + 1..]);
    }
  }

  /** The text is read up to its first zero byte, so what is behind the terminator does not show. */
  lemma {:induction false} FilledText(s: seq<byte>, x: seq<byte>, y: seq<byte>)
    ensures CString(s + [0] + x) == CString(s + [0] + y)
  {
    if s == [] {
      assert s + [0] + x == [0] + x && s + [0] + y == [0] + y;
    } else {
      FilledText(s[1..], x, y);
      assert (s + [0] + x)[1..] == s[1..] + [0] + x && (s + [0] + y)[1..] == s[1..] + [0] + y;
    }
  }

  lemma SlotReplaced(fs: seq<Field>, i: nat, a: Msg, b: Msg, x: Slot, y: Slot)
    requires AlikeMsg(fs, a, b) && i < |fs| && AlikeSlot(fs[i], x, y)
    ensures AlikeMsg(fs, a.(slots := a.slots[i := x]), b.(slots := b.slots[i := y]))
  {
    hide AlikeSlot, AlikeItem;
    forall k | 0 <= k < |fs| ensures AlikeMember(fs[k], a.(slots := a.slots[i := x]), b.(slots := b.slots[i := y])) {
      assert AlikeMember(fs[k], a, b);
    }
  }

  lemma UnionReplaced(fs: seq<Field>, i: nat, a: Msg, b: Msg, item: Item, item': Item)
    requires WellFormedFields(fs) && AlikeMsg(fs, a, b) && i < |fs| && AlikeItem(fs[i].ltype, item, item')
    ensures AlikeMsg(fs, a.(which := fs[i].tag, union := item), b.(which := fs[i].tag, union := item'))
  {
    hide AlikeSlot, AlikeItem, WellFormedField;
    var a', b' := a.(which := fs[i].tag, union := item), b.(which := fs[i].tag, union := item');
    forall k | 0 <= k < |fs| ensures AlikeMember(fs[k], a', b') {
      if k != i { assert fs[k].tag != fs[i].tag; }
    }
  }

  /** A field that is not an array's or a oneof's. */
  lemma {:induction false} SingleStaysAlike(fs: seq<Field>, i: nat, bytes: seq<byte>, a: Msg, b: Msg)
    requires WellFormedFields(fs) && i < |fs| && AlikeMsg(fs, a, b) && (fs[i].htype.Required? || fs[i].htype.Optional?)
    ensures MessagesMatch(fs, DecField(fs[i], i, bytes, a), DecField(fs[i], i, bytes, b))
    decreases fs[i], 0
  {
    hide DecItem, AlikeItem, AlikeMsg, WellFormedType, WellFormedFields;
    var f := fs[i];
    SlotAlike(fs, i, a, b);
    var x, y := a.slots[i], b.slots[i];
    ItemStaysAlike(f.ltype, false, bytes, x.item, y.item);
    var r, r' := DecItem(f.ltype, false, bytes, x.item), DecItem(f.ltype, false, bytes, y.item);
    if r.Some? {
      SlotReplaced(fs, i, a, b, if f.htype.Required? then Single(r.value.0) else Flagged(true, r.value.0),
                   if f.htype.Required? then Single(r'.value.0) else Flagged(true, r'.value.0));
    }
  }

  lemma SlotAlike(fs: seq<Field>, i: nat, a: Msg, b: Msg)
    requires WellFormedFields(fs) && i < |fs| && AlikeMsg(fs, a, b)
    ensures |a.slots| == |b.slots| == |fs| && AlikeSlot(fs[i], a.slots[i], b.slots[i]) && WellFormedType(fs[i].ltype)
  {
    hide AlikeSlot, AlikeMember, WellFormedType;
    assert WellFormedField(fs[i]);
  }

  lemma {:induction false} EntryStaysAlike(fs: seq<Field>, i: nat, bytes: seq<byte>, a: Msg, b: Msg)
    requires WellFormedFields(fs) && i < |fs| && AlikeMsg(fs, a, b) && fs[i].htype.Repeated?
    ensures MessagesMatch(fs, DecField(fs[i], i, bytes, a), DecField(fs[i], i, bytes, b))
    decreases fs[i], 0
  {
    hide DecItem, AlikeItem, AlikeMsg, WellFormedType, WellFormedFields, ItemOk;
    var f := fs[i];
    SlotAlike(fs, i, a, b);
    var x, y := a.slots[i], b.slots[i];
    if x.count < f.htype.max {
      assert AlikeEntry(f.ltype, false, x.items[x.count], y.items[x.count]);
      ItemStaysAlike(f.ltype, true, bytes, x.items[x.count], y.items[x.count]);
      var r := DecItem(f.ltype, true, bytes, x.items[x.count]);
      var r' := DecItem(f.ltype, true, bytes, y.items[x.count]);
      if r.Some? {
        var x' := Counted(x.count + 1, x.items[x.count := r.value.0]);
        var y' := Counted(x.count + 1, y.items[x.count := r'.value.0]);
        forall k | 0 <= k < f.htype.max ensures AlikeEntry(f.ltype, k < x.count + 1, x'.items[k], y'.items[k]) {
          if k != x.count { assert AlikeEntry(f.ltype, k < x.count, x.items[k], y.items[k]); }
        }
        SlotReplaced(fs, i, a, b, x', y');
      }
    }
  }

  lemma {:induction false} MemberStaysAlike(fs: seq<Field>, i: nat, bytes: seq<byte>, a: Msg, b: Msg)
    requires WellFormedFields(fs) && i < |fs| && AlikeMsg(fs, a, b) && fs[i].htype.Oneof?
    ensures MessagesMatch(fs, DecField(fs[i], i, bytes, a), DecField(fs[i], i, bytes, b))
    decreases fs[i], 0
  {
    hide DecItem, AlikeItem, AlikeMsg, WellFormedType, WellFormedFields, ZeroItem;
    var t := fs[i].ltype;
    SlotAlike(fs, i, a, b);
    ZeroItemAlike(t);
    ItemStaysAlike(t, false, bytes, ZeroItem(t), ZeroItem(t));
    var r := DecItem(t, false, bytes, ZeroItem(t));
    if r.Some? { UnionReplaced(fs, i, a, b, r.value.0, r.value.0); }
  }

  lemma {:induction false} ZeroItemAlike(t: LType)
    requires WellFormedType(t)
    ensures AlikeItem(t, ZeroItem(t), ZeroItem(t))
  {
    hide AlikeItem, ItemOk;
    ZeroItemFresh(t);
    assert ItemOk(Shape, t, ZeroItem(t)) by { FreshItemShape(t, ZeroItem(t)); }
    DefaultItemAlike(t, ZeroItem(t), ZeroItem(t));
    DefaultOfZero(t);
  }

  lemma FreshItemShape(t: LType, item: Item)
    requires FreshItem(t, item)
    ensures ItemOk(Shape, t, item)
  {}

  lemma {:induction false} FieldStaysAlike(fs: seq<Field>, i: nat, bytes: seq<byte>, a: Msg, b: Msg)
    requires WellFormedFields(fs) && i < |fs| && AlikeMsg(fs, a, b)
    ensures MessagesMatch(fs, DecField(fs[i], i, bytes, a), DecField(fs[i], i, bytes, b))
    decreases fs[i], 1
  {
    hide DecField, AlikeMsg, WellFormedFields, MessagesMatch;
    match fs[i].htype {
      case Required => SingleStaysAlike(fs, i, bytes, a, b);
      case Optional => SingleStaysAlike(fs, i, bytes, a, b);
      case Repeated(_) => EntryStaysAlike(fs, i, bytes, a, b);
      case Oneof => MemberStaysAlike(fs, i, bytes, a, b);
    }
  }

  /** Loop states that differ in storage only. */
  ghost predicate StatesMatch(fs: seq<Field>, r: Option<(State, seq<byte>)>, r': Option<(State, seq<byte>)>) {
    && (r.Some? <==> r'.Some?)
    && (r.Some? ==> r.value.1 == r'.value.1 && r.value.0.seen == r'.value.0.seen
                    && AlikeMsg(fs, r.value.0.msg, r'.value.0.msg))
  }

  lemma {:induction false} FieldsStayAlike(fs: seq<Field>, bytes: seq<byte>, s: State, b: Msg)
    requires WellFormedFields(fs) && AlikeMsg(fs, s.msg, b) && |s.msg.slots| == |b.slots| == |fs|
    requires fs == [] || s.pos < |fs|
    ensures StatesMatch(fs, DecFields(fs, bytes, s), DecFields(fs, bytes, s.(msg := b)))
    decreases fs, 0, |bytes|
  {
    hide DecTag, SkipField, DecField, Find, MarkSeen, RequiredCount, WellFormedFields, AlikeMsg;
    if bytes == [] {
    } else {
      var t := DecTag(bytes);
      if t.Tag? {
        var found := Find(fs, s.pos, t.tag);
        if found.None? {
          var skipped := SkipField(t.rest, t.wire);
          if skipped.Some? && !(fs == [] && t.tag == 0) { FieldsStayAlike(fs, skipped.value, s, b); }
        } else {
          var i := found.value;
          FieldStaysAlike(fs, i, t.rest, s.msg, b);
          var r, r' := DecField(fs[i], i, t.rest, s.msg), DecField(fs[i], i, t.rest, b);
          if r.Some? {
            var s1 := State(i, MarkSeen(s.seen, fs[i], RequiredCount(fs[..i])), r.value.0);
            FieldsStayAlike(fs, r.value.1, s1, r'.value.0);
          }
        }
      }
    }
  }

  lemma {:induction false} MessageStaysAlike(fs: seq<Field>, bytes: seq<byte>, a: Msg, b: Msg)
    requires WellFormedFields(fs) && AlikeMsg(fs, a, b)
    ensures MessagesMatch(fs, DecMsg(fs, bytes, a), DecMsg(fs, bytes, b))
    decreases fs, 1
  {
    hide DecFields, AlikeSlot, AlikeMember, AllSeen, RequiredCount, WellFormedFields;
    FieldsStayAlike(fs, bytes, State(0, NONE_SEEN, a), b);
  }

  // ---- Messages that are alike have the same encoding.

  lemma {:induction false} AlikeItemEncodes(t: LType, a: Item, b: Item)
    requires AlikeItem(t, a, b)
    ensures EncItem(t, a) == EncItem(t, b)
    decreases t, 0
  {
    if t.MessageT? {
      var fs := t.fields;
      AlikeSlotsEncode(fs, 0, a.msg, b.msg);
      assert fs[0..] == fs && a.msg.slots[0..] == a.msg.slots && b.msg.slots[0..] == b.msg.slots;
    }
  }

  lemma {:induction false} AlikeEntriesEncode(f: Field, a: seq<Item>, b: seq<Item>)
    requires |a| == |b| && forall i :: 0 <= i < |a| ==> AlikeItem(f.ltype, a[i], b[i])
    ensures EncEach(f, a) == EncEach(f, b)
    decreases f, 0, |a|
  {
    hide AlikeItem, EncItem;
    if a == [] {
    } else {
      AlikeItemEncodes(f.ltype, a[0], b[0]);
      AlikeEntriesEncode(f, a[1..], b[1..]);
    }
  }

  lemma {:induction false} AlikeSlotEncodes(f: Field, a: Slot, b: Slot, m: Msg, m': Msg)
    requires AlikeSlot(f, a, b) && AlikeMember(f, m, m') && m.which == m'.which
    ensures EncSlot(f, a, m.which, m.union) == EncSlot(f, b, m'.which, m'.union)
    decreases f, 1
  {
    hide AlikeItem, EncItem, EncEach, ItemOk;
    match f.htype {
      case Required => AlikeItemEncodes(f.ltype, a.item, b.item);
      case Optional => AlikeItemEncodes(f.ltype, a.item, b.item);
      case Repeated(max) =>
        forall i | 0 <= i < a.count ensures AlikeItem(f.ltype, a.items[i], b.items[i]) {
          assert AlikeEntry(f.ltype, i < a.count, a.items[i], b.items[i]);
        }
        AlikeEntriesEncode(f, a.items[..a.count], b.items[..a.count]);
      case Oneof => if m.which == f.tag { AlikeItemEncodes(f.ltype, m.union, m'.union); }
    }
  }

  lemma {:induction false} AlikeSlotsEncode(fs: seq<Field>, n: nat, a: Msg, b: Msg)
    requires n <= |fs| && AlikeMsg(fs, a, b)
    ensures EncSlots(fs[n..], a.slots[n..], a.which, a.union) == EncSlots(fs[n..], b.slots[n..], b.which, b.union)
    decreases fs, |fs| - n
  {
    hide AlikeSlot, AlikeMember, EncSlot;
    if n == |fs| {
    } else {
      assert fs[n..][1..] == fs[n + 1..] && a.slots[n..][1..] == a.slots[n + 1..];
      assert b.slots[n..][1..] == b.slots[n + 1..];
      AlikeSlotEncodes(fs[n], a.slots[n], b.slots[n], a, b);
      AlikeSlotsEncode(fs, n + 1, a, b);
    }
  }

  // ---- The results.

  /** Any bytes decode alike into any two pieces of storage: both or neither, with the same bytes left, and into
      messages that are the same for everything that reads them, the encoder included. */
  lemma StorageForgotten(fs: seq<Field>, bytes: seq<byte>, dest: Msg, dest': Msg)
    requires WellFormedFields(fs) && MsgOk(Shape, fs, dest) && MsgOk(Shape, fs, dest')
    ensures var r, r' := Decode(fs, bytes, dest), Decode(fs, bytes, dest');
            && MessagesMatch(fs, r, r')
            && (r.Some? ==> EncMsg(fs, r.value.0) == EncMsg(fs, r'.value.0))
  {
    hide DecMsg, DefaultMsg, AlikeMsg, MsgOk, WellFormedFields, EncSlots;
    DefaultMsgAlike(fs, dest, dest');
    MessageStaysAlike(fs, bytes, DefaultMsg(fs, dest), DefaultMsg(fs, dest'));
    var r, r' := Decode(fs, bytes, dest), Decode(fs, bytes, dest');
    if r.Some? { AlikeMessagesEncode(fs, r.value.0, r'.value.0); }
  }

  lemma AlikeMessagesEncode(fs: seq<Field>, a: Msg, b: Msg)
    requires AlikeMsg(fs, a, b)
    ensures EncMsg(fs, a) == EncMsg(fs, b)
  {
    hide AlikeSlot, AlikeMember, EncSlots;
    AlikeSlotsEncode(fs, 0, a, b);
    assert fs[0..] == fs && a.slots[0..] == a.slots && b.slots[0..] == b.slots;
  }
}
