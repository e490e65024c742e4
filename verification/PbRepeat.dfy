/** What decoding makes of fields that come again, of a zero tag, and of what storage held before. */
module PbRepeat {
  import opened Common
  import opened PbWire
  import opened PbMessage
  import opened PbIterator
  import opened PbSize
  import opened PbUnknown
  import opened PbRoundTrip
  import opened PbTransparent
  import opened PbCondition

  // ---- Encoded fields, and then anything.

  /** The loop on encoded fields and what follows them. */
  lemma {:induction false} FlatThen(fs: seq<Field>, cs: seq<Carried>, s: State, tail: seq<byte>)
    requires WellFormedFields(fs) && AllEncodable(fs, cs) && Fits(fs, s)
    ensures var r := DecFields(fs, Flat(fs, cs), s);
            && (r.None? ==> DecFields(fs, Flat(fs, cs) + tail, s).None?)
            && (r.Some? ==> r.value.1 == [] && Fits(fs, r.value.0) &&
                            DecFields(fs, Flat(fs, cs) + tail, s) == DecFields(fs, tail, r.value.0))
    decreases |cs|
  {
    hide DecField, DecFields, EncTagged, EncItem, MarkSeen, RequiredCount, WellFormedFields, ItemOk;
    if cs == [] {
      assert [] + tail == tail;
      NothingLeft(fs, s);
    } else {
      var c, later := cs[0], Flat(fs, cs[1..]);
      assert Encodable(fs, c);
      var f := fs[c.entry];
      EncTaggedItem(f, c.item);
      CarriedThen(fs, c, s, later);
      CarriedThen(fs, c, s, later + tail);
      Regroup(EncTagged(f, c.item).value, later, tail);
      var r := DecField(f, c.entry, EncItem(f.ltype, c.item).value, s.msg);
      if r.Some? {
        FlatThen(fs, cs[1..], State(c.entry, MarkSeen(s.seen, f, RequiredCount(fs[..c.entry])), r.value.0), tail);
      }
    }
  }

  lemma EncTaggedItem(f: Field, item: Item)
    requires EncTagged(f, item).Some?
    ensures EncItem(f.ltype, item).Some?
  {
    hide EncItem;
  }

  /** An encoded message and then anything: the loop goes on with the message in place. */
  lemma MessageThen(fs: seq<Field>, m: Msg, dest: Msg, tail: seq<byte>) returns (t: State)
    requires WellFormedFields(fs) && MsgOk(Wire, fs, m) && MsgOk(Shape, fs, dest)
    ensures EncMsg(fs, m).Some? && Fits(fs, t) && SameMsg(fs, m, t.msg) && AllSeen(t.seen, RequiredCount(fs))
    ensures |DefaultMsg(fs, dest).slots| == |fs|
    ensures DecFields(fs, EncMsg(fs, m).value + tail, State(0, NONE_SEEN, DefaultMsg(fs, dest))) ==
            DecFields(fs, tail, t)
  {
    hide DecFields, DefaultMsg, SameMsg, MsgOk, WellFormedFields, CarriedFrom, Flat, AllSeen, RequiredCount, EncSlots;
    var back := RoundTrip(fs, m, dest);
    MsgWireRange(fs, m);
    SlotCount(fs, m);
    assert fs[0..] == fs && m.slots[0..] == m.slots;
    CarriedFlat(fs, m, 0);
    DefaultSize(fs, dest);
    var s := State(0, NONE_SEEN, DefaultMsg(fs, dest));
    FlatThen(fs, CarriedFrom(fs, m, 0), s, tail);
    t := DecFields(fs, EncMsg(fs, m).value, s).value.0;
  }

  lemma SlotCount(fs: seq<Field>, m: Msg)
    requires MsgOk(Range, fs, m)
    ensures |m.slots| == |fs|
  {
    hide SlotOk, MemberOk;
  }

  /** A zero byte ends a message early, and everything behind it is left alone. */
  lemma ZeroEnds(fs: seq<Field>, m: Msg, dest: Msg, rest: seq<byte>) returns (back: Msg)
    requires WellFormedFields(fs) && MsgOk(Wire, fs, m) && MsgOk(Shape, fs, dest)
    ensures EncMsg(fs, m).Some? && SameMsg(fs, m, back)
    ensures Decode(fs, EncMsg(fs, m).value + ([0] + rest), dest) == Some((back, rest))
  {
    hide DecFields, DefaultMsg, SameMsg, MsgOk, WellFormedFields, AllSeen, RequiredCount, EncMsg;
    var t := MessageThen(fs, m, dest, [0] + rest);
    ZeroStops(fs, t, rest);
    back := t.msg;
  }

  lemma ZeroStops(fs: seq<Field>, t: State, rest: seq<byte>)
    requires Fits(fs, t)
    ensures DecFields(fs, [0] + rest, t) == Some((t, rest))
  {
    var bytes: seq<byte> := [0] + rest;
    assert bytes[0] == 0 && bytes[1..] == rest;
  }

  /** One more entry for an array that is full is refused, whatever follows. */
  lemma ArrayFull(fs: seq<Field>, m: Msg, dest: Msg, i: nat, item: Item, rest: seq<byte>)
    requires WellFormedFields(fs) && MsgOk(Wire, fs, m) && MsgOk(Shape, fs, dest)
    requires i < |fs| == |m.slots| && fs[i].htype.Repeated? && Encodable(fs, Carried(i, item))
    requires m.slots[i].Counted? && m.slots[i].count == fs[i].htype.max
    ensures EncMsg(fs, m).Some?
    ensures Decode(fs, EncMsg(fs, m).value + (EncTagged(fs[i], item).value + rest), dest).None?
  {
    hide DecFields, DefaultMsg, MsgOk, WellFormedFields, AllSeen, RequiredCount, EncMsg, EncItem, ItemOk, SameItem,
         DecItem, MarkSeen;
    var t := MessageThen(fs, m, dest, EncTagged(fs[i], item).value + rest);
    CarriedThen(fs, Carried(i, item), t, rest);
    assert SameSlot(fs[i], m.slots[i], t.msg.slots[i]);
  }

  // ---- The same field again.

  lemma MarkTwice(seen: Bitmap, f: Field, n: nat)
    ensures MarkSeen(MarkSeen(seen, f, n), f, n) == MarkSeen(seen, f, n)
  {}

  /** The message with a number stored in this field. */
  function Stored(f: Field, i: nat, item: Item, m: Msg): (r: Msg)
    requires i < |m.slots|
    ensures |r.slots| == |m.slots|
  {
    match f.htype
    case Oneof => m.(which := f.tag, union := item)
    case Required => m.(slots := m.slots[i := Single(item)])
    case _ => m.(slots := m.slots[i := Flagged(true, item)])
  }

  lemma NumberStored(f: Field, i: nat, item: Item, m: Msg)
    requires WellFormedField(f) && i < |m.slots| && !f.htype.Repeated? && !f.ltype.StringT? && !f.ltype.MessageT?
    requires ItemOk(Wire, f.ltype, item) && SlotOk(Shape, f, m.slots[i])
    ensures EncItem(f.ltype, item).Some? && EncTagged(f, item).Some?
    ensures DecField(f, i, EncItem(f.ltype, item).value, m) == Some((Stored(f, i, item, m), []))
  {
    hide EncVarint, Dec64, DecInt, TwoTo;
    IntRoundTrip(f.ltype, item);
    Varint64RoundTrip(Unsigned64(item.n), []);
    assert EncVarint(Unsigned64(item.n)) + [] == EncVarint(Unsigned64(item.n));
  }

  /** One number on the wire, at the head of the loop. */
  lemma NumberTurn(fs: seq<Field>, i: nat, x: Item, tail: seq<byte>, s: State)
    requires WellFormedFields(fs) && i < |fs| && Fits(fs, s) && !fs[i].htype.Repeated?
    requires !fs[i].ltype.StringT? && !fs[i].ltype.MessageT?
    requires ItemOk(Wire, fs[i].ltype, x) && SlotOk(Shape, fs[i], s.msg.slots[i])
    ensures EncTagged(fs[i], x).Some?
    ensures DecFields(fs, EncTagged(fs[i], x).value + tail, s) ==
            DecFields(fs, tail, State(i, MarkSeen(s.seen, fs[i], RequiredCount(fs[..i])), Stored(fs[i], i, x, s.msg)))
  {
    hide DecFields, DecField, EncItem, MarkSeen, RequiredCount, ItemOk, SlotOk, EncTagged, WellFormedField, Stored;
    assert WellFormedField(fs[i]);
    NumberStored(fs[i], i, x, s.msg);
    NumberRange(fs[i], x);
    CarriedThen(fs, Carried(i, x), s, tail);
  }

  lemma NumberRange(f: Field, x: Item)
    requires ItemOk(Wire, f.ltype, x) && !f.ltype.StringT? && !f.ltype.MessageT?
    ensures ItemOk(Range, f.ltype, x)
  {}

  lemma StoredShape(f: Field, i: nat, x: Item, y: Item, m: Msg)
    requires i < |m.slots| && !f.htype.Repeated? && !f.ltype.StringT? && !f.ltype.MessageT?
    requires ItemOk(Wire, f.ltype, x) && SlotOk(Shape, f, m.slots[i])
    ensures SlotOk(Shape, f, Stored(f, i, x, m).slots[i])
    ensures Stored(f, i, y, Stored(f, i, x, m)) == Stored(f, i, y, m)
  {}

  /** Of a number that comes twice the second one stays. */
  lemma LastNumberWins(fs: seq<Field>, i: nat, x: Item, y: Item, tail: seq<byte>, s: State)
    requires WellFormedFields(fs) && i < |fs| && Fits(fs, s) && !fs[i].htype.Repeated?
    requires !fs[i].ltype.StringT? && !fs[i].ltype.MessageT?
    requires ItemOk(Wire, fs[i].ltype, x) && ItemOk(Wire, fs[i].ltype, y) && SlotOk(Shape, fs[i], s.msg.slots[i])
    ensures EncTagged(fs[i], x).Some? && EncTagged(fs[i], y).Some?
    ensures DecFields(fs, EncTagged(fs[i], x).value + (EncTagged(fs[i], y).value + tail), s) ==
            DecFields(fs, EncTagged(fs[i], y).value + tail, s)
  {
    hide DecFields, MarkSeen, RequiredCount, WellFormedFields, ItemOk, SlotOk, EncTagged, Stored;
    NumberTurn(fs, i, y, tail, s);
    NumberTurn(fs, i, x, EncTagged(fs[i], y).value + tail, s);
    StoredShape(fs[i], i, x, y, s.msg);
    MarkTwice(s.seen, fs[i], RequiredCount(fs[..i]));
    NumberTurn(fs, i, y, tail,
               State(i, MarkSeen(s.seen, fs[i], RequiredCount(fs[..i])), Stored(fs[i], i, x, s.msg)));
  }

  /** Reading a member of a oneof does not look at the union. */
  lemma MemberAnew(f: Field, i: nat, bytes: seq<byte>, m: Msg, which: nat, union: Item)
    requires i < |m.slots| && f.htype.Oneof?
    ensures DecField(f, i, bytes, m.(which := which, union := union)) == DecField(f, i, bytes, m)
  {
    hide DecItem;
  }

  lemma MemberTurn(fs: seq<Field>, i: nat, x: Item, tail: seq<byte>, s: State) returns (back: Item)
    requires WellFormedFields(fs) && i < |fs| && Fits(fs, s) && fs[i].htype.Oneof? && ItemOk(Wire, fs[i].ltype, x)
    ensures EncTagged(fs[i], x).Some?
    ensures DecFields(fs, EncTagged(fs[i], x).value + tail, s) ==
            DecFields(fs, tail, State(i, s.seen, s.msg.(which := fs[i].tag, union := back)))
  {
    hide DecFields, DecField, EncItem, RequiredCount, ItemOk, WellFormedField, SameItem, EncTag;
    var f := fs[i];
    assert WellFormedField(f);
    var m := UnionField(f, i, x, s.msg, tail);
    FieldTurn(fs, i, EncItem(f.ltype, x).value, tail, s, m);
    back := m.union;
  }

  /** Of two members of a oneof the second one is selected, and nothing is left of the first. */
  lemma LastMemberWins(fs: seq<Field>, i: nat, j: nat, x: Item, y: Item, tail: seq<byte>, s: State)
    requires WellFormedFields(fs) && i < |fs| && j < |fs| && Fits(fs, s)
    requires fs[i].htype.Oneof? && fs[j].htype.Oneof?
    requires ItemOk(Wire, fs[i].ltype, x) && Encodable(fs, Carried(j, y))
    ensures EncTagged(fs[i], x).Some?
    ensures DecFields(fs, EncTagged(fs[i], x).value + (EncTagged(fs[j], y).value + tail), s) ==
            DecFields(fs, EncTagged(fs[j], y).value + tail, s)
  {
    hide DecFields, WellFormedFields, ItemOk, EncTagged, EncItem, DecField, RequiredCount;
    var first := MemberTurn(fs, i, x, EncTagged(fs[j], y).value + tail, s);
    var s1 := State(i, s.seen, s.msg.(which := fs[i].tag, union := first));
    EncTaggedItem(fs[j], y);
    CarriedThen(fs, Carried(j, y), s, tail);
    CarriedThen(fs, Carried(j, y), s1, tail);
    MemberAnew(fs[j], j, EncItem(fs[j].ltype, y).value, s.msg, fs[i].tag, first);
  }

  // ---- A required field that does not come.

  lemma {:induction false} RequiredGrows(fs: seq<Field>, i: nat, j: nat)
    requires i < j <= |fs| && fs[i].htype.Required?
    ensures RequiredCount(fs[..i]) < RequiredCount(fs[..j])
    decreases j
  {
    hide RequiredCount;
    RequiredCountNext(fs, j - 1);
    if i < j - 1 { RequiredGrows(fs, i, j - 1); }
  }

  lemma OtherMark(seen: Bitmap, fs: seq<Field>, i: nat, j: nat)
    requires i < |fs| && j < |fs| && i != j && fs[i].htype.Required? && RequiredCount(fs[..i]) < 64
    requires !seen.Bit(RequiredCount(fs[..i]))
    ensures !MarkSeen(seen, fs[j], RequiredCount(fs[..j])).Bit(RequiredCount(fs[..i]))
  {
    hide RequiredCount;
    if fs[j].htype.Required? { RequiredGrows(fs, if i < j then i else j, if i < j then j else i); }
  }

  lemma {:induction false} UnseenStays(fs: seq<Field>, cs: seq<Carried>, s: State, i: nat)
    requires WellFormedFields(fs) && AllEncodable(fs, cs) && Fits(fs, s)
    requires i < |fs| && fs[i].htype.Required? && RequiredCount(fs[..i]) < 64
    requires !s.seen.Bit(RequiredCount(fs[..i])) && forall c :: c in cs ==> c.entry != i
    ensures var r := DecFields(fs, Flat(fs, cs), s);
            r.Some? ==> !r.value.0.seen.Bit(RequiredCount(fs[..i]))
    decreases |cs|
  {
    hide DecField, DecFields, EncTagged, EncItem, MarkSeen, RequiredCount, WellFormedFields, ItemOk;
    if cs == [] {
      NothingLeft(fs, s);
    } else {
      var c := cs[0];
      assert Encodable(fs, c) && c in cs;
      var f := fs[c.entry];
      EncTaggedItem(f, c.item);
      CarriedThen(fs, c, s, Flat(fs, cs[1..]));
      OtherMark(s.seen, fs, i, c.entry);
      var r := DecField(f, c.entry, EncItem(f.ltype, c.item).value, s.msg);
      if r.Some? {
        UnseenStays(fs, cs[1..], State(c.entry, MarkSeen(s.seen, f, RequiredCount(fs[..c.entry])), r.value.0), i);
      }
    }
  }

  /** Fields in any order and number decode into nothing when one of the first 64 required ones is not among them. */
  lemma RequiredNeeded(fs: seq<Field>, cs: seq<Carried>, m: Msg, i: nat)
    requires WellFormedFields(fs) && AllEncodable(fs, cs) && |m.slots| == |fs|
    requires i < |fs| && fs[i].htype.Required? && RequiredCount(fs[..i]) < 64 && forall c :: c in cs ==> c.entry != i
    ensures DecMsg(fs, Flat(fs, cs), m).None?
  {
    hide DecFields, AllSeen, RequiredCount, WellFormedFields, AllEncodable, Flat;
    var s := State(0, NONE_SEEN, m);
    UnseenStays(fs, cs, s, i);
    RequiredGrows(fs, i, |fs|);
    assert fs[..|fs|] == fs;
    var r := DecFields(fs, Flat(fs, cs), s);
    if r.Some? && AllSeen(r.value.0.seen, RequiredCount(fs)) {
      SeenEach(r.value.0.seen, RequiredCount(fs), RequiredCount(fs[..i]));
    }
  }

  // ---- Where the iterator stands, and what was seen before, does not matter to what is read.

  lemma {:induction false} FindSame(fs: seq<Field>, pos: nat, pos': nat, tag: nat)
    requires WellFormedFields(fs) && pos < |fs| && pos' < |fs|
    ensures Find(fs, pos, tag) == Find(fs, pos', tag)
  {
    hide FindWithin, WellFormedField;
    if i :| 0 <= i < |fs| && fs[i].tag == tag {
      FindWithinHits(fs, pos, |fs|, i);
      FindWithinHits(fs, pos', |fs|, i);
    } else {
      FindWithinMisses(fs, pos, |fs|, tag);
      FindWithinMisses(fs, pos', |fs|, tag);
    }
  }

  /** The message that is read, and the bytes left. */
  function Read(r: Option<(State, seq<byte>)>): Option<(Msg, seq<byte>)> {
    if r.None? then None else Some((r.value.0.msg, r.value.1))
  }

  lemma {:induction false} StartIrrelevant(fs: seq<Field>, bytes: seq<byte>, s: State, s': State)
    requires WellFormedFields(fs) && Fits(fs, s) && Fits(fs, s') && s.msg == s'.msg
    ensures Read(DecFields(fs, bytes, s)) == Read(DecFields(fs, bytes, s'))
    decreases |bytes|
  {
    hide DecTag, SkipField, DecField, Find, MarkSeen, RequiredCount, WellFormedFields;
    if bytes == [] {
    } else {
      var t := DecTag(bytes);
      if t.Tag? {
        if fs != [] { FindSame(fs, s.pos, s'.pos, t.tag); }
        var found := Find(fs, s.pos, t.tag);
        NoneInEmpty(fs, s.pos, t.tag);
        NoneInEmpty(fs, s'.pos, t.tag);
        if found.None? {
          var skipped := SkipField(t.rest, t.wire);
          if skipped.Some? { StartIrrelevant(fs, skipped.value, s, s'); }
        } else {
          var i := found.value;
          var r := DecField(fs[i], i, t.rest, s.msg);
          if r.Some? {
            StartIrrelevant(fs, r.value.1, State(i, MarkSeen(s.seen, fs[i], RequiredCount(fs[..i])), r.value.0),
                            State(i, MarkSeen(s'.seen, fs[i], RequiredCount(fs[..i])), r.value.0));
          }
        }
      }
    }
  }

  lemma NoneInEmpty(fs: seq<Field>, pos: nat, tag: nat)
    requires fs == [] || pos < |fs|
    ensures fs == [] ==> Find(fs, pos, tag) == None
  {}

  lemma NothingRequired(fs: seq<Field>, bytes: seq<byte>, m: Msg)
    requires |m.slots| == |fs| && RequiredCount(fs) == 0
    ensures DecMsg(fs, bytes, m) == Read(DecFields(fs, bytes, State(0, NONE_SEEN, m)))
  {
    hide DecFields, RequiredCount;
  }

  /** A nested message may come in two parts: where nothing is required, reading one part into what the other left is
      reading both at once. */
  lemma PartsMerge(fs: seq<Field>, cs: seq<Carried>, more: seq<byte>, m: Msg)
    requires WellFormedFields(fs) && AllEncodable(fs, cs) && |m.slots| == |fs| && RequiredCount(fs) == 0
    ensures var first := DecMsg(fs, Flat(fs, cs), m);
            DecMsg(fs, Flat(fs, cs) + more, m) == if first.None? then None else DecMsg(fs, more, first.value.0)
  {
    hide DecFields, RequiredCount, WellFormedFields, Flat, AllEncodable, AllSeen, DecMsg;
    var s := State(0, NONE_SEEN, m);
    FlatThen(fs, cs, s, more);
    NothingRequired(fs, Flat(fs, cs), m);
    NothingRequired(fs, Flat(fs, cs) + more, m);
    var r := DecFields(fs, Flat(fs, cs), s);
    if r.Some? {
      var t := r.value.0;
      NothingRequired(fs, more, t.msg);
      StartIrrelevant(fs, more, t, State(0, NONE_SEEN, t.msg));
    }
  }

  /** So it is on the wire. */
  lemma NestedMerges(fs: seq<Field>, cs: seq<Carried>, more: seq<byte>, m: Msg, tail: seq<byte>)
    requires WellFormedFields(fs) && AllEncodable(fs, cs) && |m.slots| == |fs| && RequiredCount(fs) == 0
    requires |Flat(fs, cs) + more| < TWO32
    ensures var first := DecItem(MessageT(fs), false, Delimited(Flat(fs, cs)) + tail, MsgV(m));
            DecItem(MessageT(fs), false, Delimited(Flat(fs, cs) + more) + tail, MsgV(m)) ==
            if first.None? then None else DecItem(MessageT(fs), false, Delimited(more) + tail, first.value.0)
  {
    hide DecMsg, DecDelimited, Delimited, RequiredCount, WellFormedFields, Flat, AllEncodable, DefaultMsg;
    PartsMerge(fs, cs, more, m);
    DelimitedRoundTrip(Flat(fs, cs), tail);
    DelimitedRoundTrip(more, tail);
    DelimitedRoundTrip(Flat(fs, cs) + more, tail);
  }

  /** A zero tag ends a nested message early too; what it leaves unread there is passed over with it. */
  lemma NestedZero(fs: seq<Field>, cs: seq<Carried>, unread: seq<byte>, entry: bool, m: Msg, tail: seq<byte>)
    requires WellFormedFields(fs) && AllEncodable(fs, cs) && |Flat(fs, cs) + ([0] + unread)| < TWO32
    requires |if entry then DefaultMsg(fs, m).slots else m.slots| == |fs|
    ensures DecItem(MessageT(fs), entry, Delimited(Flat(fs, cs) + ([0] + unread)) + tail, MsgV(m)) ==
            DecItem(MessageT(fs), entry, Delimited(Flat(fs, cs)) + tail, MsgV(m))
  {
    hide DecFields, DecDelimited, Delimited, RequiredCount, WellFormedFields, Flat, AllEncodable, DefaultMsg, AllSeen;
    var start := if entry then DefaultMsg(fs, m) else m;
    var s := State(0, NONE_SEEN, start);
    FlatThen(fs, cs, s, [0] + unread);
    var r := DecFields(fs, Flat(fs, cs), s);
    if r.Some? { ZeroStops(fs, r.value.0, unread); }
    DelimitedRoundTrip(Flat(fs, cs), tail);
    DelimitedRoundTrip(Flat(fs, cs) + ([0] + unread), tail);
  }

  // ---- Texts and numbers in storage.

  /** The text a string carries ends before its first zero byte, or with its storage. */
  lemma {:induction false} TextEnds(buf: seq<byte>)
    ensures CString(buf) <= buf && 0 !in CString(buf)
    ensures |CString(buf)| < |buf| ==> buf[|CString(buf)|] == 0
  {
    if buf == [] || buf[0] == 0 {
    } else {
      TextEnds(buf[1..]);
    }
  }

  /** A text is taken when it leaves room for a terminator. It overwrites the start of the storage and is terminated;
      the bytes behind that stay. */
  lemma TextStored(size: nat, entry: bool, text: seq<byte>, buf: seq<byte>, tail: seq<byte>)
    requires |text| < TWO32 && |buf| == size
    ensures var r := DecItem(StringT(size), entry, Delimited(text) + tail, StrV(buf));
            && (r.Some? <==> |text| < size)
            && (r.Some? ==>
                && r.value.1 == tail && r.value.0.StrV? && |r.value.0.buf| == size
                && forall k :: 0 <= k < size ==>
                     r.value.0.buf[k] == if k < |text| then text[k] else if k == |text| then 0 else buf[k])
  {
    hide Delimited, DecDelimited;
    DelimitedRoundTrip(text, tail);
  }

  /** Which numbers a field takes, and as what. Signed fields take the low bits of any, and so do bools, if those make a
      number of one byte. */
  lemma NumberTaken(value: nat)
    requires value < 0x1_0000_0000_0000_0000
    ensures var low := value % 0x1_0000_0000;
            var signed := if low < 0x8000_0000 then low else low - 0x1_0000_0000;
            && DecInt(UIntT(4), value) == (if value < 0x1_0000_0000 then Some(IntV(value)) else None)
            && DecInt(UIntT(8), value) == Some(IntV(value))
            && DecInt(IntT(4), value) == Some(IntV(signed))
            && DecInt(IntT(8), value) ==
               Some(IntV(if value < 0x8000_0000_0000_0000 then value else value - 0x1_0000_0000_0000_0000))
            && DecInt(BoolT, value) == (if -128 <= signed < 128 then Some(IntV(signed)) else None)
  {
    TwoToValues();
    hide TwoTo;
  }

  // ---- Nothing at all.

  /** Storage that holds nothing: numbers zero, texts blank, flags and counts cleared, no member selected. */
  ghost predicate Blank(t: LType, item: Item)
    decreases t
  {
    match t
    case StringT(_) => item.StrV? && forall k :: 0 <= k < |item.buf| ==> item.buf[k] == 0
    case MessageT(fields) => item.MsgV? && BlankMsg(fields, item.msg)
    case _ => item == IntV(0)
  }

  ghost predicate BlankSlot(f: Field, slot: Slot)
    decreases f
  {
    match f.htype
    case Required => slot.Single? && Blank(f.ltype, slot.item)
    case Optional => slot.Flagged? && !slot.has && Blank(f.ltype, slot.item)
    case Repeated(_) => slot.Counted? && slot.count == 0
    case Oneof => slot.Shared?
  }

  ghost predicate BlankSlots(fs: seq<Field>, slots: seq<Slot>)
    decreases fs, 0
  {
    |slots| == |fs| && forall i :: 0 <= i < |fs| ==> BlankSlot(fs[i], slots[i])
  }

  ghost predicate BlankMsg(fs: seq<Field>, m: Msg)
    decreases fs, 1
  {
    m.which == 0 && BlankSlots(fs, m.slots)
  }

  lemma {:induction false} DefaultBlank(t: LType, item: Item)
    requires ItemOk(Shape, t, item)
    ensures Blank(t, DefaultItem(t, item))
    decreases t, 0
  {
    if t.MessageT? { DefaultSlotsBlank(t.fields, item.msg.slots); }
  }

  lemma {:induction false} DefaultSlotsBlank(fs: seq<Field>, slots: seq<Slot>)
    requires SlotsOk(Shape, fs, slots)
    ensures BlankSlots(fs, DefaultSlots(fs, slots))
    decreases fs
  {
    hide DefaultSlot, BlankSlot, SlotOk;
    if fs == [] {
    } else {
      DefaultSlotBlank(fs[0], slots[0]);
      DefaultSlotsBlank(fs[1..], slots[1..]);
    }
  }

  lemma {:induction false} DefaultSlotBlank(f: Field, slot: Slot)
    requires SlotOk(Shape, f, slot)
    ensures BlankSlot(f, DefaultSlot(f, slot))
    decreases f, 0
  {
    if slot.Single? || slot.Flagged? { DefaultBlank(f.ltype, slot.item); }
  }

  /** Decoding no bytes at all succeeds exactly when nothing is required, and leaves nothing. */
  lemma NothingDecoded(fs: seq<Field>, dest: Msg)
    requires MsgOk(Shape, fs, dest)
    ensures var r := Decode(fs, [], dest);
            && (r.Some? <==> RequiredCount(fs) == 0)
            && (r.Some? ==> BlankMsg(fs, r.value.0) && r.value.1 == [])
  {
    hide DecFields, RequiredCount, Unknown, DefaultSlots, BlankSlots, SlotsOk, UnionOk;
    DefaultSize(fs, dest);
    DefaultSlotsBlank(fs, dest.slots);
    assert Unknown(fs, []) by { EmptyUnknown(fs); }
    RequiredMissing(fs, [], DefaultMsg(fs, dest));
    NothingLeft(fs, State(0, NONE_SEEN, DefaultMsg(fs, dest)));
  }

  lemma EmptyUnknown(fs: seq<Field>)
    ensures Unknown(fs, [])
  {}
}
