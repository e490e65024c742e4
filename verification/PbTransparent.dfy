/** Unknown fields are transparent in any input, between any two complete fields and at any depth. */
module PbTransparent {
  import opened Common
  import opened PbWire
  import opened PbMessage
  import opened PbSize
  import opened PbRoundTrip
  import opened PbUnknown
  import opened PbCondition

  /** The loop state after a run of complete fields, known or not; None when the input is anything else. */
  function AfterFields(fs: seq<Field>, bytes: seq<byte>, s: State): (r: Option<State>)
    requires |s.msg.slots| == |fs| && (fs == [] || s.pos < |fs|)
    ensures r.Some? ==> |r.value.msg.slots| == |fs| && (fs == [] || r.value.pos < |fs|)
    decreases |bytes|
  {
    if bytes == [] then Some(s)
    else
      match DecTag(bytes)
      case TagEnd(_) => None
      case TagError => None
      case Tag(tag, wire, rest) =>
        var found := Find(fs, s.pos, tag);
        if found.None? then
          if fs == [] && tag == 0 then None
          else
            var skipped := SkipField(rest, wire);
            if skipped.None? then None else AfterFields(fs, skipped.value, s)
        else
          var i := found.value;
          var r := DecField(fs[i], i, rest, s.msg);
          if r.None? then None
          else AfterFields(fs, r.value.1, State(i, MarkSeen(s.seen, fs[i], RequiredCount(fs[..i])), r.value.0))
  }

  // ---- What is read does not depend on what follows.

  lemma DecDelimitedStable(bytes: seq<byte>, tail: seq<byte>)
    requires DecDelimited(bytes).Some?
    ensures var r := DecDelimited(bytes).value; DecDelimited(bytes + tail) == Some((r.0, r.1 + tail))
  {
    hide Dec32;
    Dec32Stable(bytes, tail);
    var len := Dec32(bytes).value;
    assert (len.1 + tail)[..len.0] == len.1[..len.0] && (len.1 + tail)[len.0..] == len.1[len.0..] + tail;
  }

  lemma DecItemStable(t: LType, entry: bool, bytes: seq<byte>, item: Item, tail: seq<byte>)
    requires DecItem(t, entry, bytes, item).Some?
    ensures var r := DecItem(t, entry, bytes, item).value;
            DecItem(t, entry, bytes + tail, item) == Some((r.0, r.1 + tail))
  {
    hide DecDelimited, DecMsg, DefaultMsg, Dec64, DecInt, FillString;
    if t.StringT? || t.MessageT? {
      DecDelimitedStable(bytes, tail);
    } else {
      Dec64WholeStable(bytes, tail);
    }
  }

  lemma Dec64WholeStable(bytes: seq<byte>, tail: seq<byte>)
    requires Dec64(bytes).Some?
    ensures var r := Dec64(bytes).value; Dec64(bytes + tail) == Some((r.0, r.1 + tail))
  {
    Dec64Stable(bytes, 0, 0, tail);
  }

  lemma DecFieldStable(f: Field, i: nat, bytes: seq<byte>, m: Msg, tail: seq<byte>)
    requires i < |m.slots| && DecField(f, i, bytes, m).Some?
    ensures var r := DecField(f, i, bytes, m).value; DecField(f, i, bytes + tail, m) == Some((r.0, r.1 + tail))
  {
    hide DecItem, ZeroItem;
    match f.htype {
      case Required => DecItemStable(f.ltype, false, bytes, m.slots[i].item, tail);
      case Optional => DecItemStable(f.ltype, false, bytes, m.slots[i].item, tail);
      case Repeated(_) => DecItemStable(f.ltype, true, bytes, m.slots[i].items[m.slots[i].count], tail);
      case Oneof => DecItemStable(f.ltype, false, bytes, ZeroItem(f.ltype), tail);
    }
  }

  /** The loop takes a run of complete fields and goes on with what follows. */
  lemma {:induction false} FieldsThen(fs: seq<Field>, bytes: seq<byte>, tail: seq<byte>, s: State)
    requires |s.msg.slots| == |fs| && (fs == [] || s.pos < |fs|) && AfterFields(fs, bytes, s).Some?
    ensures DecFields(fs, bytes + tail, s) == DecFields(fs, tail, AfterFields(fs, bytes, s).value)
    decreases |bytes|
  {
    hide DecField, DecTag, SkipField, Find, MarkSeen, RequiredCount;
    if bytes == [] {
      assert bytes + tail == tail;
    } else {
      var t := DecTag(bytes);
      DecTagStable(bytes, tail);
      var found := Find(fs, s.pos, t.tag);
      if found.None? {
        SkipFieldStable(t.rest, t.wire, tail);
        FieldsThen(fs, SkipField(t.rest, t.wire).value, tail, s);
      } else {
        var i := found.value;
        var r := DecField(fs[i], i, t.rest, s.msg).value;
        DecFieldStable(fs[i], i, t.rest, s.msg, tail);
        FieldsThen(fs, r.1, tail, State(i, MarkSeen(s.seen, fs[i], RequiredCount(fs[..i])), r.0));
      }
    }
  }

  /** Unknown fields after any run of complete fields change nothing about the result, whatever follows them. */
  lemma UnknownTransparent(fs: seq<Field>, before: seq<byte>, junk: seq<byte>, rest: seq<byte>, m: Msg)
    requires |m.slots| == |fs| && Unknown(fs, junk) && AfterFields(fs, before, State(0, NONE_SEEN, m)).Some?
    ensures DecMsg(fs, before + (junk + rest), m) == DecMsg(fs, before + rest, m)
  {
    hide DecFields, AfterFields, Unknown, AllSeen, RequiredCount;
    var s := State(0, NONE_SEEN, m);
    FieldsThen(fs, before, junk + rest, s);
    FieldsThen(fs, before, rest, s);
    JunkSkipped(fs, junk, rest, AfterFields(fs, before, s).value);
  }

  /** So they do inside a nested message. */
  lemma UnknownTransparentInside(fs: seq<Field>, entry: bool, before: seq<byte>, junk: seq<byte>, rest: seq<byte>,
                                 tail: seq<byte>, m: Msg)
    requires Unknown(fs, junk) && |before + (junk + rest)| < TWO32
    requires var start := if entry then DefaultMsg(fs, m) else m;
             |start.slots| == |fs| && AfterFields(fs, before, State(0, NONE_SEEN, start)).Some?
    ensures DecItem(MessageT(fs), entry, Delimited(before + (junk + rest)) + tail, MsgV(m)) ==
            DecItem(MessageT(fs), entry, Delimited(before + rest) + tail, MsgV(m))
  {
    hide DecMsg, AfterFields, Unknown, DecDelimited, Delimited, DefaultMsg;
    UnknownTransparent(fs, before, junk, rest, if entry then DefaultMsg(fs, m) else m);
    DelimitedRoundTrip(before + (junk + rest), tail);
    DelimitedRoundTrip(before + rest, tail);
  }

  // ---- Encoded fields are complete, each entry of an array by itself.

  lemma FieldIsComplete(fs: seq<Field>, i: nat, body: seq<byte>, s: State, m: Msg)
    requires WellFormedFields(fs) && i < |fs| && |s.msg.slots| == |fs| && s.pos < |fs|
    requires DecField(fs[i], i, body, s.msg) == Some((m, []))
    ensures AfterFields(fs, EncTag(fs[i].tag, WireTypeFor(fs[i].ltype)) + body, s) ==
            Some(State(i, MarkSeen(s.seen, fs[i], RequiredCount(fs[..i])), m))
  {
    hide DecField, EncTag, DecTag, MarkSeen, RequiredCount, SkipField, FindWithin, WellFormedType;
    var f, w := fs[i], WireTypeFor(fs[i].ltype);
    assert WellFormedField(f);
    TagRoundTrip(f.tag, w, body);
    FindWithinHits(fs, s.pos, |fs|, i);
    TagNonEmpty(f.tag, w);
  }

  /** What follows an encoded item does not matter to reading it, whether it can be read or not. */
  lemma ItemAlone(t: LType, entry: bool, item: Item, dest: Item, tail: seq<byte>)
    requires WellFormedType(t) && ItemOk(Range, t, item) && EncItem(t, item).Some?
    ensures var enc := EncItem(t, item).value;
            var r := DecItem(t, entry, enc, dest);
            && (r.Some? ==> r.value.1 == [])
            && DecItem(t, entry, enc + tail, dest) == if r.None? then None else Some((r.value.0, tail))
  {
    hide Delimited, DecDelimited, EncMsg, DecMsg, MaxMsg, DefaultMsg, Dec64, DecInt, EncVarint, TwoTo, MsgOk;
    match t {
      case StringT(size) =>
        var text := CString(item.buf);
        CStringShort(item.buf);
        DelimitedRoundTrip(text, tail);
        DelimitedRoundTrip(text, []);
        assert Delimited(text) + [] == Delimited(text);
      case MessageT(fields) =>
        var body := EncMsg(fields, item.msg).value;
        MsgBound(STORED, fields, item.msg);
        DelimitedRoundTrip(body, tail);
        DelimitedRoundTrip(body, []);
        assert Delimited(body) + [] == Delimited(body);
      case _ =>
        TwoToValues();
        Varint64RoundTrip(Unsigned64(item.n), tail);
        Varint64RoundTrip(Unsigned64(item.n), []);
        assert EncVarint(Unsigned64(item.n)) + [] == EncVarint(Unsigned64(item.n));
    }
  }

  lemma FieldAlone(f: Field, i: nat, item: Item, m: Msg, tail: seq<byte>)
    requires WellFormedField(f) && i < |m.slots| && ItemOk(Range, f.ltype, item) && EncItem(f.ltype, item).Some?
    ensures var enc := EncItem(f.ltype, item).value;
            var r := DecField(f, i, enc, m);
            && (r.Some? ==> r.value.1 == [])
            && DecField(f, i, enc + tail, m) == if r.None? then None else Some((r.value.0, tail))
  {
    hide DecItem, EncItem, ItemOk, ZeroItem, WellFormedType;
    match f.htype {
      case Required => if m.slots[i].Single? { ItemAlone(f.ltype, false, item, m.slots[i].item, tail); }
      case Optional => if m.slots[i].Flagged? { ItemAlone(f.ltype, false, item, m.slots[i].item, tail); }
      case Repeated(max) =>
        var slot := m.slots[i];
        if slot.Counted? && slot.count < max && slot.count < |slot.items| {
          ItemAlone(f.ltype, true, item, slot.items[slot.count], tail);
        }
      case Oneof => ItemAlone(f.ltype, false, item, ZeroItem(f.ltype), tail);
    }
  }

  // ---- A message as the sequence of its encoded fields.

  /** A value under its descriptor entry. An array contributes one for each of its entries. */
  datatype Carried = Carried(entry: nat, item: Item)

  ghost predicate Encodable(fs: seq<Field>, c: Carried) {
    c.entry < |fs| && ItemOk(Range, fs[c.entry].ltype, c.item) && EncTagged(fs[c.entry], c.item).Some?
  }

  ghost predicate AllEncodable(fs: seq<Field>, cs: seq<Carried>) {
    forall i :: 0 <= i < |cs| ==> Encodable(fs, cs[i])
  }

  ghost function Flat(fs: seq<Field>, cs: seq<Carried>): seq<byte>
    requires AllEncodable(fs, cs)
  {
    if cs == [] then [] else EncTagged(fs[cs[0].entry], cs[0].item).value + Flat(fs, cs[1..])
  }

  /** The same with unknown fields before each of them and at the end. */
  ghost function Strewn(fs: seq<Field>, cs: seq<Carried>, junk: seq<seq<byte>>): seq<byte>
    requires AllEncodable(fs, cs) && |junk| == |cs| + 1
  {
    if cs == [] then junk[0]
    else junk[0] + (EncTagged(fs[cs[0].entry], cs[0].item).value + Strewn(fs, cs[1..], junk[1..]))
  }

  /** The loop on an encoded field and what follows it. */
  lemma CarriedThen(fs: seq<Field>, c: Carried, s: State, tail: seq<byte>)
    requires WellFormedFields(fs) && Encodable(fs, c) && |s.msg.slots| == |fs| && s.pos < |fs|
    ensures var f := fs[c.entry];
            var r := DecField(f, c.entry, EncItem(f.ltype, c.item).value, s.msg);
            DecFields(fs, EncTagged(f, c.item).value + tail, s) ==
            if r.None? then None
            else DecFields(fs, tail, State(c.entry, MarkSeen(s.seen, f, RequiredCount(fs[..c.entry])), r.value.0))
  {
    hide DecField, DecFields, AfterFields, EncTag, EncItem, MarkSeen, RequiredCount, WellFormedField, ItemOk;
    var f, i := fs[c.entry], c.entry;
    var enc := EncItem(f.ltype, c.item).value;
    assert WellFormedField(f);
    FieldAlone(f, i, c.item, s.msg, tail);
    if DecField(f, i, enc, s.msg).None? {
      FieldFails(fs, i, enc, tail, s);
    } else {
      FieldIsComplete(fs, i, enc, s, DecField(f, i, enc, s.msg).value.0);
      FieldsThen(fs, EncTagged(f, c.item).value, tail, s);
    }
  }

  /** Unknown fields between encoded ones, wherever, change nothing: neither for fields that decode nor for fields that
      do not. */
  lemma {:induction false} StrewnSame(fs: seq<Field>, cs: seq<Carried>, junk: seq<seq<byte>>, s: State)
    requires WellFormedFields(fs) && AllEncodable(fs, cs) && |junk| == |cs| + 1 && AllUnknown(fs, junk)
    requires |s.msg.slots| == |fs| && (fs == [] || s.pos < |fs|)
    ensures DecFields(fs, Strewn(fs, cs, junk), s) == DecFields(fs, Flat(fs, cs), s)
    decreases |cs|
  {
    hide DecField, DecFields, EncItem, EncTag, MarkSeen, RequiredCount, WellFormedFields, Unknown, ItemOk;
    if cs == [] {
      JunkSkipped(fs, junk[0], [], s);
      assert junk[0] + [] == junk[0];
    } else {
      assert Encodable(fs, cs[0]);
      var f := fs[cs[0].entry];
      var chunk, later := EncTagged(f, cs[0].item).value, Strewn(fs, cs[1..], junk[1..]);
      JunkSkipped(fs, junk[0], chunk + later, s);
      CarriedThen(fs, cs[0], s, later);
      CarriedThen(fs, cs[0], s, Flat(fs, cs[1..]));
      var r := DecField(f, cs[0].entry, EncItem(f.ltype, cs[0].item).value, s.msg);
      if r.Some? {
        var t := State(cs[0].entry, MarkSeen(s.seen, f, RequiredCount(fs[..cs[0].entry])), r.value.0);
        StrewnSame(fs, cs[1..], junk[1..], t);
      }
    }
  }

  /** What a message carries from entry n on. */
  function CarriedFrom(fs: seq<Field>, m: Msg, n: nat): seq<Carried>
    requires n <= |fs| == |m.slots|
    decreases |fs| - n
  {
    if n == |fs| then [] else CarriedAt(fs[n], m.slots[n], m.which, m.union, n) + CarriedFrom(fs, m, n + 1)
  }

  function CarriedAt(f: Field, slot: Slot, which: nat, union: Item, n: nat): seq<Carried> {
    match slot
    case Single(item) => [Carried(n, item)]
    case Flagged(has, item) => if has then [Carried(n, item)] else []
    case Counted(count, items) => if count <= |items| then Each(n, items[..count]) else []
    case Shared => if which == f.tag then [Carried(n, union)] else []
  }

  function Each(n: nat, items: seq<Item>): (r: seq<Carried>)
    ensures |r| == |items|
  {
    if items == [] then [] else [Carried(n, items[0])] + Each(n, items[1..])
  }

  lemma {:induction false} FlatConcat(fs: seq<Field>, a: seq<Carried>, b: seq<Carried>)
    requires AllEncodable(fs, a) && AllEncodable(fs, b)
    ensures AllEncodable(fs, a + b) && Flat(fs, a + b) == Flat(fs, a) + Flat(fs, b)
  {
    hide EncTagged, ItemOk;
    if a == [] {
      assert a + b == b;
    } else {
      assert (a + b)[1..] == a[1..] + b;
      FlatConcat(fs, a[1..], b);
    }
  }

  lemma {:induction false} EachFlat(fs: seq<Field>, n: nat, items: seq<Item>)
    requires n < |fs| && EncEach(fs[n], items).Some?
    requires forall i :: 0 <= i < |items| ==> ItemOk(Range, fs[n].ltype, items[i])
    ensures AllEncodable(fs, Each(n, items)) && Flat(fs, Each(n, items)) == EncEach(fs[n], items).value
  {
    hide EncTagged, ItemOk;
    if items == [] {
    } else {
      EachFlat(fs, n, items[1..]);
      assert Each(n, items)[1..] == Each(n, items[1..]);
    }
  }

  lemma OneFlat(fs: seq<Field>, n: nat, item: Item)
    requires n < |fs| && ItemOk(Range, fs[n].ltype, item) && EncTagged(fs[n], item).Some?
    ensures AllEncodable(fs, [Carried(n, item)])
    ensures Flat(fs, [Carried(n, item)]) == EncTagged(fs[n], item).value
  {
    hide EncTagged, ItemOk;
    assert [Carried(n, item)][1..] == [];
    assert EncTagged(fs[n], item).value + [] == EncTagged(fs[n], item).value;
  }

  lemma SlotFlat(fs: seq<Field>, n: nat, slot: Slot, which: nat, union: Item)
    requires n < |fs| && SlotOk(Range, fs[n], slot) && MemberOk(Range, fs[n], which, union)
    requires EncSlot(fs[n], slot, which, union).Some?
    ensures var cs := CarriedAt(fs[n], slot, which, union, n);
            AllEncodable(fs, cs) && Flat(fs, cs) == EncSlot(fs[n], slot, which, union).value
  {
    hide EncTagged, EncEach, ItemOk;
    match fs[n].htype {
      case Required => OneFlat(fs, n, slot.item);
      case Optional => if slot.has { OneFlat(fs, n, slot.item); }
      case Repeated(_) => EachFlat(fs, n, slot.items[..slot.count]);
      case Oneof => if which == fs[n].tag { OneFlat(fs, n, union); }
    }
  }

  /** The fields a message carries, one after another, are its encoding. */
  lemma {:induction false} CarriedFlat(fs: seq<Field>, m: Msg, n: nat)
    requires n <= |fs| == |m.slots| && MsgOk(Range, fs, m)
    requires EncSlots(fs[n..], m.slots[n..], m.which, m.union).Some?
    ensures AllEncodable(fs, CarriedFrom(fs, m, n))
    ensures Flat(fs, CarriedFrom(fs, m, n)) == EncSlots(fs[n..], m.slots[n..], m.which, m.union).value
    decreases |fs| - n
  {
    hide EncSlot, SlotOk, MemberOk, CarriedAt;
    if n == |fs| {
    } else {
      assert fs[n..][1..] == fs[n + 1..] && m.slots[n..][1..] == m.slots[n + 1..];
      assert SlotOk(Range, fs[n], m.slots[n]) && MemberOk(Range, fs[n], m.which, m.union);
      SlotFlat(fs, n, m.slots[n], m.which, m.union);
      CarriedFlat(fs, m, n + 1);
      FlatConcat(fs, CarriedAt(fs[n], m.slots[n], m.which, m.union, n), CarriedFrom(fs, m, n + 1));
    }
  }

  /** An encoded message with unknown fields before every field it carries, between two entries of an array included,
      and at the end, decodes to the message and uses up exactly its bytes. */
  lemma RoundTripStrewn(fs: seq<Field>, m: Msg, dest: Msg, junk: seq<seq<byte>>) returns (back: Msg)
    requires WellFormedFields(fs) && MsgOk(Wire, fs, m) && MsgOk(Shape, fs, dest) && |m.slots| == |fs|
    requires |junk| == |CarriedFrom(fs, m, 0)| + 1 && AllUnknown(fs, junk)
    ensures AllEncodable(fs, CarriedFrom(fs, m, 0))
    ensures Decode(fs, Strewn(fs, CarriedFrom(fs, m, 0), junk), dest) == Some((back, []))
    ensures SameMsg(fs, m, back)
  {
    hide DecFields, DefaultMsg, SameMsg, MsgOk, WellFormedFields, CarriedFrom, Strewn, Flat, AllSeen, RequiredCount,
         EncSlots;
    back := RoundTrip(fs, m, dest);
    MsgWireRange(fs, m);
    assert fs[0..] == fs && m.slots[0..] == m.slots;
    CarriedFlat(fs, m, 0);
    DefaultSize(fs, dest);
    StrewnSame(fs, CarriedFrom(fs, m, 0), junk, State(0, NONE_SEEN, DefaultMsg(fs, dest)));
  }

  lemma DefaultSize(fs: seq<Field>, dest: Msg)
    requires MsgOk(Shape, fs, dest)
    ensures |DefaultMsg(fs, dest).slots| == |fs|
  {
    hide SlotOk;
  }
}
