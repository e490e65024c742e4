/** Writers and readers of different versions: what either makes of fields only the other knows. */
module PbEvolution {
  import opened Common
  import opened PbWire
  import opened PbMessage
  import opened PbSize
  import opened PbUnknown
  import opened PbRoundTrip

  // ---- What the encoder writes, to a reader that does not know the field.

  /** Numbers travel as 64-bit varints, strings up to their terminator, messages as their encoding. */
  function AsAlien(f: Field, item: Item): Alien
    requires EncItem(f.ltype, item).Some?
  {
    match f.ltype
    case StringT(_) => Alien(f.tag, Text(CString(item.buf)))
    case MessageT(fields) => Alien(f.tag, Text(EncMsg(fields, item.msg).value))
    case _ => Alien(f.tag, Number(if item.n < 0 then item.n + 0x1_0000_0000_0000_0000 else item.n))
  }

  /** Every item is written as one complete field, under its number and the wire type its value needs. */
  lemma WrittenAs(f: Field, item: Item)
    requires WellFormedField(f) && ItemOk(Range, f.ltype, item) && EncItem(f.ltype, item).Some?
    ensures EncTagged(f, item) == Some(AlienBytes(AsAlien(f, item))) && Emittable(AsAlien(f, item))
  {
    hide EncVarint, EncMsg, MsgOk, MaxMsg, CString, TwoTo, WellFormedFields;
    match f.ltype {
      case StringT(_) => CStringShort(item.buf);
      case MessageT(fields) => MsgBound(STORED, fields, item.msg);
      case _ =>
    }
  }

  /** A reader that does not know the field steps over it. */
  lemma StrangerSkips(f: Field, item: Item, fs: seq<Field>, rest: seq<byte>, s: State)
    requires WellFormedField(f) && ItemOk(Range, f.ltype, item) && EncItem(f.ltype, item).Some?
    requires forall i :: 0 <= i < |fs| ==> fs[i].tag != f.tag
    requires |s.msg.slots| == |fs| && (fs == [] || s.pos < |fs|)
    ensures EncTagged(f, item).Some? && Unknown(fs, EncTagged(f, item).value)
    ensures DecFields(fs, EncTagged(f, item).value + rest, s) == DecFields(fs, rest, s)
  {
    hide EncTagged, EncItem, AlienBytes, Emittable, Unknown, DecFields, ItemOk, WellFormedField;
    WrittenAs(f, item);
    var a := AsAlien(f, item);
    assert AliensBytes([a]) == AlienBytes(a) by { OneAlien(a); }
    UnknownSkipped(fs, [a], rest, s);
  }

  lemma OneAlien(a: Alien)
    ensures AliensBytes([a]) == AlienBytes(a)
  {
    hide AlienBytes;
    assert [a][1..] == [] && AlienBytes(a) + [] == AlienBytes(a);
  }

  // ---- Any message is the run of the fields it carries, in the order of the descriptor.

  ghost function Written(f: Field, item: Item): seq<Alien> {
    if EncItem(f.ltype, item).Some? then [AsAlien(f, item)] else []
  }

  ghost function WrittenEach(f: Field, items: seq<Item>): seq<Alien> {
    if items == [] then [] else Written(f, items[0]) + WrittenEach(f, items[1..])
  }

  /** What one entry puts on the wire: a required field always, an optional one if it is there, an array each of its
      entries, a oneof the selected member. */
  ghost function Emitted(f: Field, slot: Slot, which: nat, union: Item): seq<Alien> {
    match slot
    case Single(item) => Written(f, item)
    case Flagged(has, item) => if has then Written(f, item) else []
    case Counted(count, items) => if count <= |items| then WrittenEach(f, items[..count]) else []
    case Shared => if which == f.tag then Written(f, union) else []
  }

  ghost function Outline(fs: seq<Field>, slots: seq<Slot>, which: nat, union: Item): seq<Alien> {
    if fs == [] || slots == [] then []
    else Emitted(fs[0], slots[0], which, union) + Outline(fs[1..], slots[1..], which, union)
  }

  lemma {:induction false} AliensConcat(a: seq<Alien>, b: seq<Alien>)
    ensures AliensBytes(a + b) == AliensBytes(a) + AliensBytes(b)
  {
    hide AlienBytes;
    if a == [] {
      assert a + b == b;
    } else {
      assert (a + b)[1..] == a[1..] + b;
      AliensConcat(a[1..], b);
      assert AlienBytes(a[0]) + (AliensBytes(a[1..]) + AliensBytes(b)) ==
             AlienBytes(a[0]) + AliensBytes(a[1..]) + AliensBytes(b);
    }
  }

  lemma WrittenBytes(f: Field, item: Item)
    requires WellFormedField(f) && ItemOk(Range, f.ltype, item) && EncTagged(f, item).Some?
    ensures AliensBytes(Written(f, item)) == EncTagged(f, item).value
  {
    hide EncItem, ItemOk, WellFormedField, AlienBytes, Emittable, AliensBytes, AsAlien;
    WrittenAs(f, item);
    OneAlien(AsAlien(f, item));
  }

  lemma {:induction false} EachBytes(f: Field, items: seq<Item>)
    requires WellFormedField(f) && (forall i :: 0 <= i < |items| ==> ItemOk(Range, f.ltype, items[i]))
    requires EncEach(f, items).Some?
    ensures AliensBytes(WrittenEach(f, items)) == EncEach(f, items).value
  {
    hide EncTagged, ItemOk, WellFormedField, Written, AlienBytes;
    if items == [] {
    } else {
      WrittenBytes(f, items[0]);
      EachBytes(f, items[1..]);
      AliensConcat(Written(f, items[0]), WrittenEach(f, items[1..]));
    }
  }

  lemma EmittedBytes(f: Field, slot: Slot, which: nat, union: Item)
    requires WellFormedField(f) && SlotOk(Range, f, slot) && MemberOk(Range, f, which, union)
    requires EncSlot(f, slot, which, union).Some?
    ensures AliensBytes(Emitted(f, slot, which, union)) == EncSlot(f, slot, which, union).value
  {
    hide EncTagged, EncEach, ItemOk, WellFormedField, Written;
    match f.htype {
      case Required => WrittenBytes(f, slot.item);
      case Optional => if slot.has { WrittenBytes(f, slot.item); }
      case Repeated(_) => EachBytes(f, slot.items[..slot.count]);
      case Oneof => if which == f.tag { WrittenBytes(f, union); }
    }
  }

  /** The encoding of a message is its outline, byte for byte. */
  lemma {:induction false} EncodingIs(fs: seq<Field>, slots: seq<Slot>, which: nat, union: Item)
    requires |slots| == |fs| && WellFormedFields(fs) && SlotsOk(Range, fs, slots)
    requires UnionOk(Range, fs, which, union) && EncSlots(fs, slots, which, union).Some?
    ensures AliensBytes(Outline(fs, slots, which, union)) == EncSlots(fs, slots, which, union).value
    decreases |fs|
  {
    hide EncSlot, SlotOk, MemberOk, WellFormedField, Emitted;
    if fs == [] {
    } else {
      FirstOfSlots(fs, slots, which, union);
      EmittedBytes(fs[0], slots[0], which, union);
      EncodingIs(fs[1..], slots[1..], which, union);
      AliensConcat(Emitted(fs[0], slots[0], which, union), Outline(fs[1..], slots[1..], which, union));
    }
  }

  // ---- A version of a descriptor: some of its entries.

  /** The elements marked for keeping. */
  function Select<T>(xs: seq<T>, keep: seq<bool>): seq<T>
    requires |keep| == |xs|
  {
    if xs == [] then [] else (if keep[0] then [xs[0]] else []) + Select(xs[1..], keep[1..])
  }

  function Reduced(m: Msg, keep: seq<bool>): Msg
    requires |keep| == |m.slots|
  {
    Msg(Select(m.slots, keep), m.which, m.union)
  }

  lemma SelectNext<T>(xs: seq<T>, keep: seq<bool>)
    requires |keep| == |xs| && xs != []
    ensures Select(xs, keep) == if keep[0] then [xs[0]] + Select(xs[1..], keep[1..]) else Select(xs[1..], keep[1..])
  {}

  lemma {:induction false} SelectedFrom<T>(xs: seq<T>, keep: seq<bool>, j: nat) returns (k: nat)
    requires |keep| == |xs| && j < |Select(xs, keep)|
    ensures k < |xs| && keep[k] && Select(xs, keep)[j] == xs[k]
    decreases |xs|
  {
    SelectNext(xs, keep);
    if keep[0] && j == 0 {
      k := 0;
    } else {
      k := SelectedFrom(xs[1..], keep[1..], if keep[0] then j - 1 else j);
      assert xs[1..][k] == xs[k + 1] && keep[1..][k] == keep[k + 1];
      k := k + 1;
    }
  }

  lemma {:induction false} SelectWellFormed(fs: seq<Field>, keep: seq<bool>)
    requires |keep| == |fs| && WellFormedFields(fs)
    ensures WellFormedFields(Select(fs, keep))
  {
    hide WellFormedField;
    if fs == [] {
    } else {
      SelectWellFormed(fs[1..], keep[1..]);
      SelectNext(fs, keep);
      var later := Select(fs[1..], keep[1..]);
      forall i | 0 <= i < |later| ensures later[i].tag != fs[0].tag {
        var k := SelectedFrom(fs[1..], keep[1..], i);
        assert fs[k + 1].tag != fs[0].tag;
      }
    }
  }

  lemma {:induction false} SelectOk(g: Grade, fs: seq<Field>, slots: seq<Slot>, keep: seq<bool>)
    requires |keep| == |fs| && SlotsOk(g, fs, slots)
    ensures SlotsOk(g, Select(fs, keep), Select(slots, keep))
  {
    hide SlotOk;
    if fs == [] {
    } else {
      SelectOk(g, fs[1..], slots[1..], keep[1..]);
      SelectNext(fs, keep);
      SelectNext(slots, keep);
    }
  }

  /** The kept part of a message conforms to the kept entries. */
  lemma ReducedOk(fs: seq<Field>, m: Msg, keep: seq<bool>)
    requires |keep| == |fs| == |m.slots| && MsgOk(Wire, fs, m)
    ensures MsgOk(Wire, Select(fs, keep), Reduced(m, keep))
  {
    hide SlotOk, MemberOk;
    SelectOk(Wire, fs, m.slots, keep);
    var known := Select(fs, keep);
    forall i | 0 <= i < |known| ensures MemberOk(Wire, known[i], m.which, m.union) {
      var k := SelectedFrom(fs, keep, i);
      assert MemberOk(Wire, fs[k], m.which, m.union);
    }
  }

  /** None of these has a tag of an entry that is left out. */
  ghost predicate Apart(fs: seq<Field>, keep: seq<bool>, known: seq<Field>)
    requires |keep| == |fs|
  {
    forall i, j :: 0 <= i < |fs| && 0 <= j < |known| && !keep[i] ==> known[j].tag != fs[i].tag
  }

  lemma {:induction false} SelectApart(fs: seq<Field>, keep: seq<bool>)
    requires |keep| == |fs| && WellFormedFields(fs)
    ensures Apart(fs, keep, Select(fs, keep))
  {
    hide WellFormedField;
    forall i, j | 0 <= i < |fs| && 0 <= j < |Select(fs, keep)| && !keep[i]
      ensures Select(fs, keep)[j].tag != fs[i].tag
    {
      var k := SelectedFrom(fs, keep, j);
    }
  }

  // ---- Runs of unknown fields join.

  lemma {:induction false} JoinedConcat(a: seq<Piece>, b: seq<Piece>)
    ensures Joined(a + b) == Joined(a) + Joined(b)
  {
    if a == [] {
      assert a + b == b;
    } else {
      assert (a + b)[1..] == a[1..] + b;
      JoinedConcat(a[1..], b);
    }
  }

  lemma UnknownConcat(fs: seq<Field>, a: seq<byte>, b: seq<byte>)
    requires Unknown(fs, a) && Unknown(fs, b)
    ensures Unknown(fs, a + b)
  {
    hide Unknown, Stray, Joined;
    var p := UnknownPieces(fs, a);
    var q := UnknownPieces(fs, b);
    JoinedConcat(p, q);
    PiecesUnknown(fs, p + q);
  }

  lemma NothingUnknown(fs: seq<Field>)
    ensures Unknown(fs, [])
  {}

  lemma {:induction false} EachUnknown(f: Field, items: seq<Item>, fs: seq<Field>)
    requires WellFormedField(f) && (forall i :: 0 <= i < |items| ==> ItemOk(Range, f.ltype, items[i]))
    requires EncEach(f, items).Some? && forall i :: 0 <= i < |fs| ==> fs[i].tag != f.tag
    ensures Unknown(fs, EncEach(f, items).value)
  {
    hide EncItem, ItemOk, WellFormedField, Unknown, AlienBytes, Emittable;
    NothingUnknown(fs);
    if items == [] {
    } else {
      EachUnknown(f, items[1..], fs);
      WrittenAs(f, items[0]);
      var a := AsAlien(f, items[0]);
      AlienUnknown(fs, a);
      UnknownConcat(fs, AlienBytes(a), EncEach(f, items[1..]).value);
    }
  }

  lemma AlienUnknown(fs: seq<Field>, a: Alien)
    requires Foreign(fs, a)
    ensures Unknown(fs, AlienBytes(a))
  {
    hide Unknown, Joined, Stray, AlienBytes;
    OneAlien(a);
    var pieces := AliensUnknown(fs, [a]);
    PiecesUnknown(fs, pieces);
  }

  /** All that an entry writes is unknown to a reader without its tag. */
  lemma SlotUnknown(f: Field, slot: Slot, which: nat, union: Item, fs: seq<Field>)
    requires WellFormedField(f) && SlotOk(Range, f, slot) && MemberOk(Range, f, which, union)
    requires EncSlot(f, slot, which, union).Some? && forall i :: 0 <= i < |fs| ==> fs[i].tag != f.tag
    ensures Unknown(fs, EncSlot(f, slot, which, union).value)
  {
    hide EncItem, EncEach, ItemOk, WellFormedField, Unknown, AlienBytes, Emittable;
    NothingUnknown(fs);
    match f.htype {
      case Required => ItemUnknown(f, slot.item, fs);
      case Optional => if slot.has { ItemUnknown(f, slot.item, fs); }
      case Repeated(_) => EachUnknown(f, slot.items[..slot.count], fs);
      case Oneof => if which == f.tag { ItemUnknown(f, union, fs); }
    }
  }

  lemma ItemUnknown(f: Field, item: Item, fs: seq<Field>)
    requires WellFormedField(f) && ItemOk(Range, f.ltype, item) && EncTagged(f, item).Some?
    requires forall i :: 0 <= i < |fs| ==> fs[i].tag != f.tag
    ensures Unknown(fs, EncTagged(f, item).value)
  {
    hide EncItem, ItemOk, WellFormedField, Unknown, AlienBytes, Emittable;
    WrittenAs(f, item);
    AlienUnknown(fs, AsAlien(f, item));
  }

  // ---- An encoding, to a reader that knows only some of its entries.

  lemma AmidMore(fs: seq<Field>, slots: seq<Slot>, which: nat, union: Item, more: seq<byte>, junk: seq<seq<byte>>)
    requires |junk| == |fs| + 1 && Amid(fs, slots, which, union, junk).Some?
    ensures Amid(fs, slots, which, union, [more + junk[0]] + junk[1..]) ==
            Some(more + Amid(fs, slots, which, union, junk).value)
  {
    hide EncSlot;
    if fs != [] {
      assert ([more + junk[0]] + junk[1..])[1..] == junk[1..];
      var first := EncSlot(fs[0], slots[0], which, union);
      var rest := Amid(fs[1..], slots[1..], which, union, junk[1..]);
      assert more + junk[0] + (first.value + rest.value) == more + (junk[0] + (first.value + rest.value));
    }
  }

  lemma KeptFirst(f: Field, fs: seq<Field>, slot: Slot, slots: seq<Slot>, which: nat, union: Item,
                  junk: seq<seq<byte>>)
    requires |junk| == |fs| + 1 && EncSlot(f, slot, which, union).Some? && Amid(fs, slots, which, union, junk).Some?
    ensures Amid([f] + fs, [slot] + slots, which, union, [[]] + junk) ==
            Some(EncSlot(f, slot, which, union).value + Amid(fs, slots, which, union, junk).value)
  {
    hide EncSlot;
    assert ([f] + fs)[1..] == fs && ([slot] + slots)[1..] == slots && ([[]] + junk)[1..] == junk;
    var bytes := EncSlot(f, slot, which, union).value + Amid(fs, slots, which, union, junk).value;
    assert [] + bytes == bytes;
  }

  lemma LeftOutFirst(f: Field, fs: seq<Field>, slot: Slot, slots: seq<Slot>, which: nat, union: Item,
                     known: seq<Field>, junk: seq<seq<byte>>)
    requires WellFormedField(f) && SlotOk(Range, f, slot) && MemberOk(Range, f, which, union)
    requires EncSlot(f, slot, which, union).Some? && forall i :: 0 <= i < |known| ==> known[i].tag != f.tag
    requires |junk| == |fs| + 1 && AllUnknown(known, junk) && Amid(fs, slots, which, union, junk).Some?
    ensures var first := EncSlot(f, slot, which, union).value;
            && AllUnknown(known, [first + junk[0]] + junk[1..])
            && Amid(fs, slots, which, union, [first + junk[0]] + junk[1..]) ==
               Some(first + Amid(fs, slots, which, union, junk).value)
  {
    hide EncSlot, SlotOk, MemberOk, WellFormedField, Unknown, Amid;
    SlotUnknown(f, slot, which, union, known);
    UnknownConcat(known, EncSlot(f, slot, which, union).value, junk[0]);
    AmidMore(fs, slots, which, union, EncSlot(f, slot, which, union).value, junk);
  }

  lemma FirstOfSlots(fs: seq<Field>, slots: seq<Slot>, which: nat, union: Item)
    requires fs != [] && |slots| == |fs| && WellFormedFields(fs) && SlotsOk(Range, fs, slots)
    requires UnionOk(Range, fs, which, union) && EncSlots(fs, slots, which, union).Some?
    ensures WellFormedField(fs[0]) && SlotOk(Range, fs[0], slots[0]) && MemberOk(Range, fs[0], which, union)
    ensures WellFormedFields(fs[1..]) && SlotsOk(Range, fs[1..], slots[1..]) && UnionOk(Range, fs[1..], which, union)
    ensures EncSlot(fs[0], slots[0], which, union).Some? && EncSlots(fs[1..], slots[1..], which, union).Some?
    ensures EncSlots(fs, slots, which, union) ==
            Some(EncSlot(fs[0], slots[0], which, union).value + EncSlots(fs[1..], slots[1..], which, union).value)
  {
    hide EncSlot, SlotOk, MemberOk, WellFormedField;
  }

  /** What is left out is junk amid what is kept. */
  lemma {:induction false} Sieve(fs: seq<Field>, slots: seq<Slot>, which: nat, union: Item, keep: seq<bool>,
                                 known: seq<Field>)
    returns (junk: seq<seq<byte>>)
    requires |keep| == |fs| == |slots| && WellFormedFields(fs) && Apart(fs, keep, known)
    requires SlotsOk(Range, fs, slots) && UnionOk(Range, fs, which, union) && EncSlots(fs, slots, which, union).Some?
    ensures |junk| == |Select(fs, keep)| + 1 && AllUnknown(known, junk)
    ensures Amid(Select(fs, keep), Select(slots, keep), which, union, junk) == EncSlots(fs, slots, which, union)
    decreases |fs|
  {
    hide EncSlot, SlotOk, MemberOk, WellFormedField, Unknown;
    NothingUnknown(known);
    if fs == [] {
      junk := [[]];
    } else {
      hide WellFormedFields, SlotsOk, UnionOk, Amid, EncSlots;
      FirstOfSlots(fs, slots, which, union);
      var later := Sieve(fs[1..], slots[1..], which, union, keep[1..], known);
      SelectNext(fs, keep);
      SelectNext(slots, keep);
      var fs', slots' := Select(fs[1..], keep[1..]), Select(slots[1..], keep[1..]);
      if keep[0] {
        junk := [[]] + later;
        KeptFirst(fs[0], fs', slots[0], slots', which, union, later);
      } else {
        junk := [EncSlot(fs[0], slots[0], which, union).value + later[0]] + later[1..];
        LeftOutFirst(fs[0], fs', slots[0], slots', which, union, known, later);
      }
    }
  }

  /** A message of a newer version, read by an older one: all that the older version knows of it arrives, and what it
      does not know is passed over. A member of a oneof that it does not know leaves none selected. */
  lemma NewerWriter(fs: seq<Field>, keep: seq<bool>, m: Msg, dest: Msg) returns (back: Msg)
    requires |keep| == |fs| && WellFormedFields(fs) && MsgOk(Wire, fs, m) && MsgOk(Shape, Select(fs, keep), dest)
    ensures |m.slots| == |fs| && EncMsg(fs, m).Some?
    ensures Decode(Select(fs, keep), EncMsg(fs, m).value, dest) == Some((back, []))
    ensures SameMsg(Select(fs, keep), Reduced(m, keep), back)
  {
    hide SlotOk, MemberOk, WellFormedField, EncSlots, DecMsg, SameMsg, Unknown;
    EncodableSlots(fs, m.slots, m.which, m.union);
    MsgWireRange(fs, m);
    SelectApart(fs, keep);
    SelectWellFormed(fs, keep);
    ReducedOk(fs, m, keep);
    var junk := Sieve(fs, m.slots, m.which, m.union, keep, Select(fs, keep));
    back := RoundTripAmidUnknown(Select(fs, keep), Reduced(m, keep), dest, junk);
  }

  // ---- The other way round.

  /** An entry that puts nothing on the wire. */
  predicate Absent(f: Field, slot: Slot, which: nat) {
    match f.htype
    case Required => false
    case Optional => slot.Flagged? && !slot.has
    case Repeated(_) => slot.Counted? && slot.count == 0
    case Oneof => which != f.tag
  }

  lemma AbsentSlot(f: Field, slot: Slot, which: nat, union: Item)
    requires Absent(f, slot, which)
    ensures EncSlot(f, slot, which, union) == Some([])
  {
    hide EncTagged;
    if f.htype.Repeated? { assert slot.items[..0] == []; }
  }

  lemma SlotsFirst(f: Field, fs: seq<Field>, slot: Slot, slots: seq<Slot>, which: nat, union: Item)
    ensures var first, rest := EncSlot(f, slot, which, union), EncSlots(fs, slots, which, union);
            && (EncSlots([f] + fs, [slot] + slots, which, union) ==
                if first.None? || rest.None? then None else Some(first.value + rest.value))
            && (first == Some([]) ==> EncSlots([f] + fs, [slot] + slots, which, union) == rest)
  {
    hide EncSlot;
    assert ([f] + fs)[1..] == fs && ([slot] + slots)[1..] == slots;
    var rest := EncSlots(fs, slots, which, union);
    if rest.Some? { assert [] + rest.value == rest.value; }
  }

  lemma {:induction false} AbsentSilent(fs: seq<Field>, slots: seq<Slot>, which: nat, union: Item, keep: seq<bool>)
    requires |keep| == |fs| == |slots|
    requires forall i :: 0 <= i < |fs| && !keep[i] ==> Absent(fs[i], slots[i], which)
    ensures EncSlots(Select(fs, keep), Select(slots, keep), which, union) == EncSlots(fs, slots, which, union)
    decreases |fs|
  {
    hide EncSlot, EncSlots, Absent;
    if fs == [] {
      assert slots == [];
    } else {
      AbsentSilent(fs[1..], slots[1..], which, union, keep[1..]);
      SelectNext(fs, keep);
      SelectNext(slots, keep);
      assert fs == [fs[0]] + fs[1..] && slots == [slots[0]] + slots[1..];
      SlotsFirst(fs[0], fs[1..], slots[0], slots[1..], which, union);
      if keep[0] {
        SlotsFirst(fs[0], Select(fs[1..], keep[1..]), slots[0], Select(slots[1..], keep[1..]), which, union);
      } else {
        AbsentSlot(fs[0], slots[0], which, union);
      }
    }
  }

  /** A message of an older version, read by a newer one that adds nothing required: it arrives, and what was added is
      absent. */
  lemma OlderWriter(fs: seq<Field>, keep: seq<bool>, m: Msg, dest: Msg) returns (back: Msg)
    requires |keep| == |fs| == |m.slots| && WellFormedFields(fs) && MsgOk(Wire, fs, m) && MsgOk(Shape, fs, dest)
    requires forall i :: 0 <= i < |fs| && !keep[i] ==> Absent(fs[i], m.slots[i], m.which)
    ensures EncMsg(Select(fs, keep), Reduced(m, keep)).Some?
    ensures Decode(fs, EncMsg(Select(fs, keep), Reduced(m, keep)).value, dest) == Some((back, []))
    ensures SameMsg(fs, m, back)
  {
    hide Absent, EncSlots, DecMsg, SameMsg, MsgOk, WellFormedFields;
    AbsentSilent(fs, m.slots, m.which, m.union, keep);
    back := RoundTrip(fs, m, dest);
  }
}
