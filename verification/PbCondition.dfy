/** Exactly which messages survive encoding and decoding. */
module PbCondition {
  import opened Common
  import opened PbWire
  import opened PbMessage
  import opened PbSize
  import opened PbRoundTrip

  /** An item that cannot travel, once encoded, does not decode. */
  lemma {:induction false} BadItem(t: LType, entry: bool, item: Item, dest: Item, tail: seq<byte>)
    requires WellFormedType(t) && ItemOk(Range, t, item) && !ItemOk(Wire, t, item) && EncItem(t, item).Some?
    requires if entry then ItemOk(Shape, t, dest) else FreshItem(t, dest)
    ensures DecItem(t, entry, EncItem(t, item).value + tail, dest).None?
    decreases t, 2
  {
    hide TwoTo, EncVarint, DecDelimited, DecMsg, EncMsg, CString;
    match t {
      case StringT(size) => BadString(size, entry, item, dest, tail);
      case MessageT(fields) => BadSubmessage(fields, entry, item, dest, tail);
    }
  }

  lemma BadString(size: nat, entry: bool, item: Item, dest: Item, tail: seq<byte>)
    requires WellFormedType(StringT(size)) && item.StrV? && |item.buf| == size && 0 !in item.buf
    ensures DecItem(StringT(size), entry, EncItem(StringT(size), item).value + tail, dest).None?
  {
    hide Delimited, DecDelimited;
    CStringFull(item.buf);
    DelimitedRoundTrip(CString(item.buf), tail);
  }

  lemma {:induction false} BadSubmessage(fields: seq<Field>, entry: bool, item: Item, dest: Item, tail: seq<byte>)
    requires WellFormedType(MessageT(fields)) && item.MsgV? && dest.MsgV?
    requires MsgOk(Range, fields, item.msg) && !MsgOk(Wire, fields, item.msg) && EncMsg(fields, item.msg).Some?
    requires if entry then MsgOk(Shape, fields, dest.msg) else FreshMsg(fields, dest.msg)
    ensures DecItem(MessageT(fields), entry, EncItem(MessageT(fields), item).value + tail, dest).None?
    decreases fields, 4
  {
    hide Delimited, DecDelimited, EncMsg, DecMsg, MsgOk, FreshMsg, DefaultMsg, MaxMsg, WellFormedFields;
    var body := EncMsg(fields, item.msg).value;
    var start := if entry then DefaultMsg(fields, dest.msg) else dest.msg;
    if entry { DefaultFresh(fields, dest.msg); }
    MsgBound(STORED, fields, item.msg);
    BadMsg(fields, item.msg, start);
    DelimitedRoundTrip(body, tail);
  }

  lemma DefaultFresh(fields: seq<Field>, m: Msg)
    requires MsgOk(Shape, fields, m)
    ensures FreshMsg(fields, DefaultMsg(fields, m))
  {
    DefaultSlotsFresh(fields, m.slots);
  }

  lemma {:induction false} BadMsg(fs: seq<Field>, m: Msg, start: Msg)
    requires WellFormedFields(fs) && FreshMsg(fs, start)
    requires MsgOk(Range, fs, m) && !MsgOk(Wire, fs, m) && EncMsg(fs, m).Some?
    ensures DecMsg(fs, EncMsg(fs, m).value, start).None?
    decreases fs, 3
  {
    hide SlotOk, MemberOk, WellFormedField, FreshSlot, EncSlots, DecFields, AllSeen, RequiredCount;
    assert fs[0..] == fs && m.slots[0..] == m.slots && fs[..0] == [];
    NoneRequired();
    if forall i :: 0 <= i < |fs| ==> GoodEntry(fs, i, m) { AllGood(fs, m); }
    BadFields(fs, 0, m, State(0, NONE_SEEN, start));
  }

  /** This entry of the message can travel. */
  predicate GoodEntry(fs: seq<Field>, i: nat, m: Msg)
    requires i < |fs| == |m.slots|
  {
    SlotOk(Wire, fs[i], m.slots[i]) && MemberOk(Wire, fs[i], m.which, m.union)
  }

  lemma AllGood(fs: seq<Field>, m: Msg)
    requires |m.slots| == |fs| && forall i :: 0 <= i < |fs| ==> GoodEntry(fs, i, m)
    ensures MsgOk(Wire, fs, m)
  {
    hide SlotOk, MemberOk;
    forall i | 0 <= i < |fs| ensures SlotOk(Wire, fs[i], m.slots[i]) && MemberOk(Wire, fs[i], m.which, m.union) {
      assert GoodEntry(fs, i, m);
    }
  }

  /** The decoder gets as far as the first entry that cannot travel. */
  lemma {:induction false} BadFields(fs: seq<Field>, n: nat, m: Msg, s: State)
    requires n <= |fs| == |m.slots| && WellFormedFields(fs) && MsgOk(Range, fs, m) && Progress(fs, n, m, s)
    requires EncSlots(fs[n..], m.slots[n..], m.which, m.union).Some?
    requires exists i :: n <= i < |fs| && !GoodEntry(fs, i, m)
    ensures |s.msg.slots| == |fs| && (fs == [] || s.pos < |fs|)
    ensures DecFields(fs, EncSlots(fs[n..], m.slots[n..], m.which, m.union).value, s).None?
    decreases fs, 2, |fs| - n
  {
    hide WellFormedField, SlotOk, MemberOk, Progress, EncSlot, DecFields;
    ProgressShape(fs, n, m, s);
    assert fs[n..][1..] == fs[n + 1..] && m.slots[n..][1..] == m.slots[n + 1..];
    var tail := EncSlots(fs[n + 1..], m.slots[n + 1..], m.which, m.union).value;
    if GoodEntry(fs, n, m) {
      var s1 := SlotTurn(fs, n, m, s, tail);
      BadFields(fs, n + 1, m, s1);
    } else {
      BadSlot(fs, n, m, s, tail);
    }
  }

  lemma {:induction false} BadSlot(fs: seq<Field>, n: nat, m: Msg, s: State, tail: seq<byte>)
    requires n < |fs| == |m.slots| && WellFormedFields(fs) && MsgOk(Range, fs, m) && Progress(fs, n, m, s)
    requires !GoodEntry(fs, n, m) && EncSlot(fs[n], m.slots[n], m.which, m.union).Some?
    ensures Fits(fs, s)
    ensures DecFields(fs, EncSlot(fs[n], m.slots[n], m.which, m.union).value + tail, s).None?
    decreases fs, 1
  {
    hide WellFormedField, DecFields, ItemOk, SeenExactly, SamePrefix, FreshItem, EncItem, EncTag, RequiredCount;
    var f, slot := fs[n], m.slots[n];
    assert WellFormedField(f) && FreshSlot(f, s.msg.slots[n]);
    assert SlotOk(Range, f, slot) && MemberOk(Range, f, m.which, m.union);
    match f.htype {
      case Required =>
        BadField(f, n, slot.item, s.msg, tail);
        FieldFails(fs, n, EncItem(f.ltype, slot.item).value, tail, s);
      case Optional =>
        BadField(f, n, slot.item, s.msg, tail);
        FieldFails(fs, n, EncItem(f.ltype, slot.item).value, tail, s);
      case Repeated(max) =>
        EntriesStart(fs, n, m, s);
        assert slot.items[0..slot.count] == slot.items[..slot.count];
        BadEntries(fs, n, m, 0, s, tail);
      case Oneof =>
        BadField(f, n, m.union, s.msg, tail);
        FieldFails(fs, n, EncItem(f.ltype, m.union).value, tail, s);
    }
  }

  /** A field outside arrays with an item that cannot travel. */
  lemma {:induction false} BadField(f: Field, i: nat, item: Item, dest: Msg, tail: seq<byte>)
    requires WellFormedField(f) && i < |dest.slots| && FreshSlot(f, dest.slots[i]) && !f.htype.Repeated?
    requires ItemOk(Range, f.ltype, item) && !ItemOk(Wire, f.ltype, item) && EncItem(f.ltype, item).Some?
    ensures DecField(f, i, EncItem(f.ltype, item).value + tail, dest).None?
    decreases f
  {
    hide DecItem, EncItem, ItemOk, FreshItem;
    ZeroItemFresh(f.ltype);
    BadItem(f.ltype, false, item, if f.htype.Oneof? then ZeroItem(f.ltype) else dest.slots[i].item, tail);
  }

  /** An array entry that cannot travel. */
  lemma {:induction false} BadEntry(f: Field, i: nat, item: Item, dest: Msg, tail: seq<byte>)
    requires WellFormedField(f) && i < |dest.slots| && f.htype.Repeated? && dest.slots[i].Counted?
    requires dest.slots[i].count < f.htype.max == |dest.slots[i].items|
    requires ItemOk(Shape, f.ltype, dest.slots[i].items[dest.slots[i].count])
    requires ItemOk(Range, f.ltype, item) && !ItemOk(Wire, f.ltype, item) && EncItem(f.ltype, item).Some?
    ensures DecField(f, i, EncItem(f.ltype, item).value + tail, dest).None?
    decreases f
  {
    hide DecItem, EncItem, ItemOk;
    BadItem(f.ltype, true, item, dest.slots[i].items[dest.slots[i].count], tail);
  }

  lemma FieldFails(fs: seq<Field>, i: nat, body: seq<byte>, tail: seq<byte>, s: State)
    requires WellFormedFields(fs) && i < |fs| && |s.msg.slots| == |fs| && s.pos < |fs|
    requires DecField(fs[i], i, body + tail, s.msg).None?
    ensures DecFields(fs, EncTag(fs[i].tag, WireTypeFor(fs[i].ltype)) + body + tail, s).None?
  {
    hide DecField, EncTag, DecTag, MarkSeen, RequiredCount, SkipField, FindWithin, WellFormedType;
    var f, w := fs[i], WireTypeFor(fs[i].ltype);
    assert WellFormedField(f);
    TagRoundTrip(f.tag, w, body + tail);
    var bytes := EncTag(f.tag, w) + body + tail;
    assert bytes == EncTag(f.tag, w) + (body + tail);
    FindWithinHits(fs, s.pos, |fs|, i);
    TagNonEmpty(f.tag, w);
  }

  /** The decoder gets as far as the first such entry of an array. */
  lemma {:induction false} BadEntries(fs: seq<Field>, n: nat, m: Msg, c: nat, s: State, tail: seq<byte>)
    requires n < |fs| && WellFormedFields(fs) && Entries(fs, n, m, c, s) && SlotOk(Range, fs[n], m.slots[n])
    requires exists k :: c <= k < m.slots[n].count && !ItemOk(Wire, fs[n].ltype, m.slots[n].items[k])
    requires EncEach(fs[n], m.slots[n].items[c..m.slots[n].count]).Some?
    ensures Fits(fs, s)
    ensures DecFields(fs, EncEach(fs[n], m.slots[n].items[c..m.slots[n].count]).value + tail, s).None?
    decreases fs, 0, m.slots[n].count - c
  {
    hide DecFields, DecField, EncItem, EncTag, SamePrefix, SameItem, ItemOk, FreshSlot, SeenExactly,
         RequiredCount, EncEach, WellFormedField, EntriesSame;
    var f, slot := fs[n], m.slots[n];
    EntriesNow(f, slot, c, s.msg.slots[n]);
    var items := slot.items[c..slot.count];
    assert items[1..] == slot.items[c + 1..slot.count] && items[0] == slot.items[c];
    EachFirst(f, items);
    var rest := EncEach(f, items[1..]).value;
    var body := EncItem(f.ltype, items[0]).value;
    assert WellFormedField(f) && ItemOk(Range, f.ltype, items[0]);
    Regroup(EncTag(f.tag, WireTypeFor(f.ltype)) + body, rest, tail);
    if ItemOk(Wire, f.ltype, items[0]) {
      var b := EntryField(f, n, items[0], c, s.msg, rest + tail);
      FieldTurn(fs, n, body, rest + tail, s, b);
      EntriesNext(fs, n, m, c, s, b);
      BadEntries(fs, n, m, c + 1, State(n, MarkSeen(s.seen, f, RequiredCount(fs[..n])), b), tail);
    } else {
      BadEntry(f, n, items[0], s.msg, rest + tail);
      FieldFails(fs, n, body, rest + tail, s);
    }
  }

  /** A message whose numbers fit their fields survives encoding and decoding if and only if all its strings are
      terminated and all its counts are within their arrays. */
  lemma SurvivesExactly(fs: seq<Field>, m: Msg, dest: Msg)
    requires WellFormedFields(fs) && MsgOk(Range, fs, m) && MsgOk(Shape, fs, dest)
    ensures EncMsg(fs, m).Some? && Decode(fs, EncMsg(fs, m).value, dest).Some? <==> MsgOk(Wire, fs, m)
  {
    hide EncMsg, DecMsg, MsgOk, DefaultMsg, WellFormedFields;
    if MsgOk(Wire, fs, m) {
      var back := RoundTrip(fs, m, dest);
    } else if EncMsg(fs, m).Some? {
      DefaultFresh(fs, dest);
      BadMsg(fs, m, DefaultMsg(fs, dest));
    }
  }
}
