/** How large an encoding can get, from the descriptor alone. */
module PbSize {
  import opened PbWire
  import opened PbMessage

  lemma {:induction false} VarintLonger(a: nat, b: nat)
    requires a <= b
    ensures |EncVarint(a)| <= |EncVarint(b)|
  {
    if a < 128 {
    } else {
      VarintLonger(a / 128, b / 128);
    }
  }

  lemma {:induction false} TwoToSevenths(k: nat)
    ensures TwoTo(7 * k) == Pow128(k)
  {
    if k == 0 {
    } else {
      TwoToSevenths(k - 1);
      var j := 7 * (k - 1);
      assert TwoTo(j + 7) == 2 * TwoTo(j + 6) == 4 * TwoTo(j + 5) == 8 * TwoTo(j + 4);
      assert TwoTo(j + 4) == 2 * TwoTo(j + 3) == 4 * TwoTo(j + 2) == 8 * TwoTo(j + 1);
    }
  }

  lemma {:induction false} TwoToGrows(a: nat, b: nat)
    requires a <= b
    ensures TwoTo(a) <= TwoTo(b)
  {
    if a == b {
    } else {
      TwoToGrows(a, b - 1);
    }
  }

  // ---- Bools, as far as the size is concerned.

  ghost predicate ItemBools(t: LType, item: Item)
    decreases t
  {
    match t
    case BoolT => item.IntV? && item.n >= 0
    case MessageT(fields) => item.MsgV? && MsgBools(fields, item.msg)
    case _ => true
  }

  ghost predicate SlotBools(f: Field, slot: Slot)
    decreases f
  {
    match slot
    case Single(item) => ItemBools(f.ltype, item)
    case Flagged(has, item) => has ==> ItemBools(f.ltype, item)
    case Counted(count, items) => forall i :: 0 <= i < count && i < |items| ==> ItemBools(f.ltype, items[i])
    case Shared => true
  }

  ghost predicate MemberBools(f: Field, which: nat, union: Item)
    decreases f
  {
    f.htype.Oneof? && f.tag == which ==> ItemBools(f.ltype, union)
  }

  /** No bool the message carries is negative. */
  ghost predicate MsgBools(fs: seq<Field>, m: Msg)
    decreases fs
  {
    && |m.slots| == |fs|
    && (forall i :: 0 <= i < |fs| ==> SlotBools(fs[i], m.slots[i]))
    && (forall i :: 0 <= i < |fs| ==> MemberBools(fs[i], m.which, m.union))
  }

  /** The grade the limits speak of, and whether they count on bools that are not negative. */
  function GradeOf(l: Limits): Grade { if l.terminated then Wire else Range }

  predicate Positive(l: Limits) { l.boolBytes < 10 }

  lemma IntBound(l: Limits, t: LType, item: Item)
    requires WellFormedType(t) && ItemOk(GradeOf(l), t, item) && !t.StringT? && !t.MessageT? && l.boolBytes >= 1
    requires Positive(l) ==> ItemBools(t, item)
    requires EncItem(t, item).Some?
    ensures |EncItem(t, item).value| <= MaxItem(l, t)
  {
    hide TwoTo, Pow128, EncVarint;
    TwoToSevenths(5);
    TwoToSevenths(10);
    TwoToGrows(32, 35);
    TwoToGrows(64, 70);
    TwoToGrows(32, 64);
    TwoToValues();
    match t {
      case BoolT => if item.n >= 0 { SmallVarint(item.n); } else { VarintSize(Unsigned64(item.n), 10); }
      case IntT(width) => VarintSize(Unsigned64(item.n), 10);
      case UIntT(width) => VarintSize(item.n, if width == 4 then 5 else 10);
    }
  }

  lemma StringBound(l: Limits, size: nat, item: Item)
    requires WellFormedType(StringT(size)) && ItemOk(GradeOf(l), StringT(size), item)
    ensures |EncItem(StringT(size), item).value| <= MaxItem(l, StringT(size))
  {
    CStringShort(item.buf);
    VarintLonger(|CString(item.buf)|, if l.terminated then size - 1 else size);
  }

  lemma {:induction false} ItemBound(l: Limits, t: LType, item: Item)
    requires WellFormedType(t) && ItemOk(GradeOf(l), t, item) && EncItem(t, item).Some? && l.boolBytes >= 1
    requires Positive(l) ==> ItemBools(t, item)
    ensures |EncItem(t, item).value| <= MaxItem(l, t)
    decreases t
  {
    match t {
      case StringT(size) => StringBound(l, size, item);
      case MessageT(fields) =>
        MsgBound(l, fields, item.msg);
        VarintLonger(|EncMsg(fields, item.msg).value|, MaxMsg(l, fields));
      case _ => IntBound(l, t, item);
    }
  }

  lemma {:induction false} TaggedBound(l: Limits, f: Field, item: Item)
    requires WellFormedField(f) && ItemOk(GradeOf(l), f.ltype, item) && EncTagged(f, item).Some? && l.boolBytes >= 1
    requires Positive(l) ==> ItemBools(f.ltype, item)
    ensures |EncTagged(f, item).value| <= MaxTagged(l, f)
    decreases f, 0
  {
    ItemBound(l, f.ltype, item);
  }

  lemma {:induction false} EachBound(l: Limits, f: Field, items: seq<Item>)
    requires WellFormedField(f) && EncEach(f, items).Some? && l.boolBytes >= 1
    requires forall i :: 0 <= i < |items| ==> ItemOk(GradeOf(l), f.ltype, items[i])
    requires Positive(l) ==> forall i :: 0 <= i < |items| ==> ItemBools(f.ltype, items[i])
    ensures |EncEach(f, items).value| <= |items| * MaxTagged(l, f)
    decreases f, 1, |items|
  {
    hide MaxTagged, WellFormedField, ItemOk, ItemBools, EncTagged;
    if items == [] {
    } else {
      TaggedBound(l, f, items[0]);
      EachBound(l, f, items[1..]);
      assert |items| * MaxTagged(l, f) == MaxTagged(l, f) + |items[1..]| * MaxTagged(l, f);
    }
  }

  lemma {:induction false} SlotBound(l: Limits, f: Field, slot: Slot, which: nat, union: Item)
    requires WellFormedField(f) && SlotOk(GradeOf(l), f, slot) && MemberOk(GradeOf(l), f, which, union)
    requires Positive(l) ==> SlotBools(f, slot) && MemberBools(f, which, union)
    requires EncSlot(f, slot, which, union).Some? && l.boolBytes >= 1
    ensures var n := |EncSlot(f, slot, which, union).value|;
            if f.htype.Oneof? && f.tag == which then n <= MaxTagged(l, f) else n <= MaxSlot(l, f)
    decreases f, 2
  {
    hide WellFormedField, ItemOk, ItemBools, EncTagged, EncEach, MaxTagged, GradeOf;
    match f.htype {
      case Required => TaggedBound(l, f, slot.item);
      case Optional => if slot.has { TaggedBound(l, f, slot.item); }
      case Repeated(max) =>
        EachBound(l, f, slot.items[..slot.count]);
        MulMonotone(slot.count, max, MaxTagged(l, f));
      case Oneof => if f.tag == which { TaggedBound(l, f, union); }
    }
  }

  lemma MulMonotone(a: nat, b: nat, c: nat)
    requires a <= b
    ensures a * c <= b * c
  {}

  ghost predicate SlotsBools(fs: seq<Field>, slots: seq<Slot>, which: nat, union: Item) {
    |slots| == |fs| && forall i :: 0 <= i < |fs| ==> SlotBools(fs[i], slots[i]) && MemberBools(fs[i], which, union)
  }

  /** With distinct tags at most one member of the oneof is encoded. */
  lemma {:induction false} SlotsBound(l: Limits, fs: seq<Field>, slots: seq<Slot>, which: nat, union: Item)
    requires WellFormedFields(fs) && SlotsOk(GradeOf(l), fs, slots) && UnionOk(GradeOf(l), fs, which, union)
    requires Positive(l) ==> SlotsBools(fs, slots, which, union)
    requires EncSlots(fs, slots, which, union).Some? && l.boolBytes >= 1
    ensures |EncSlots(fs, slots, which, union).value| <= MaxPlain(l, fs) + MaxUnion(l, fs)
    ensures (forall i :: 0 <= i < |fs| ==> !(fs[i].htype.Oneof? && fs[i].tag == which)) ==>
            |EncSlots(fs, slots, which, union).value| <= MaxPlain(l, fs)
    decreases fs, 0
  {
    hide SlotOk, MemberOk, SlotBools, MemberBools, WellFormedField, EncSlot, MaxTagged, GradeOf;
    if fs == [] {
    } else {
      SlotBound(l, fs[0], slots[0], which, union);
      SlotsBound(l, fs[1..], slots[1..], which, union);
      if fs[0].htype.Oneof? && fs[0].tag == which {
        assert forall i :: 0 <= i < |fs[1..]| ==> fs[1..][i].tag != which;
      }
    }
  }

  /** Every message that encodes at all stays within the size computed from its descriptor: without conditions when ten
      bytes are counted for a bool; with one byte, as the generated header counts, when no bool is negative. */
  lemma {:induction false} MsgBound(l: Limits, fs: seq<Field>, m: Msg)
    requires WellFormedFields(fs) && MsgOk(GradeOf(l), fs, m) && EncMsg(fs, m).Some? && l.boolBytes >= 1
    requires Positive(l) ==> MsgBools(fs, m)
    ensures |EncMsg(fs, m).value| <= MaxMsg(l, fs)
    decreases fs, 1
  {
    hide SlotOk, MemberOk, SlotBools, MemberBools, WellFormedFields, EncSlots, MaxPlain, MaxUnion;
    SlotsBound(l, fs, m.slots, m.which, m.union);
  }

  // ---- What can travel is also in range.

  lemma {:induction false} ItemWireRange(t: LType, item: Item)
    requires ItemOk(Wire, t, item)
    ensures ItemOk(Range, t, item)
    decreases t
  {
    if t.MessageT? { MsgWireRange(t.fields, item.msg); }
  }

  lemma {:induction false} SlotWireRange(f: Field, slot: Slot)
    requires SlotOk(Wire, f, slot)
    ensures SlotOk(Range, f, slot)
    decreases f
  {
    hide ItemOk;
    match f.htype {
      case Required => ItemWireRange(f.ltype, slot.item);
      case Optional => if slot.has { ItemWireRange(f.ltype, slot.item); }
      case Repeated(max) =>
        forall i | 0 <= i < slot.count ensures ItemOk(Range, f.ltype, slot.items[i]) {
          ItemWireRange(f.ltype, slot.items[i]);
        }
      case Oneof =>
    }
  }

  lemma {:induction false} MsgWireRange(fs: seq<Field>, m: Msg)
    requires MsgOk(Wire, fs, m)
    ensures MsgOk(Range, fs, m)
    decreases fs
  {
    hide ItemOk, SlotOk;
    forall i | 0 <= i < |fs| ensures SlotOk(Range, fs[i], m.slots[i]) && MemberOk(Range, fs[i], m.which, m.union) {
      SlotWireRange(fs[i], m.slots[i]);
      assert MemberOk(Wire, fs[i], m.which, m.union);
      if fs[i].htype.Oneof? && fs[i].tag == m.which { ItemWireRange(fs[i].ltype, m.union); }
    }
  }
}
