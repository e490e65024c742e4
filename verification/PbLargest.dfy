/** The size computed from a descriptor is attained: some message of every descriptor is exactly that long. */
module PbLargest {
  import opened Common
  import opened PbWire
  import opened PbMessage
  import opened PbSize
  import opened PbRoundTrip

  function Ones(n: nat): (r: seq<byte>)
    ensures |r| == n
  {
    seq(n, _ => 1)
  }

  predicate Known(l: Limits) { l.boolBytes == 1 || l.boolBytes == 10 }

  function LargestItem(l: Limits, t: LType): Item
    decreases t
  {
    match t
    case BoolT => IntV(if l.boolBytes == 10 then -1 else 1)
    case IntT(_) => IntV(-1)
    case UIntT(width) => IntV(TwoTo(8 * width) - 1)
    case StringT(size) => StrV(if l.terminated && size > 0 then Ones(size - 1) + [0] else Ones(size))
    case MessageT(fields) => MsgV(LargestMsg(l, fields))
  }

  function LargestField(l: Limits, f: Field): Item
    decreases f, 0
  {
    LargestItem(l, f.ltype)
  }

  function LargestSlot(l: Limits, f: Field): Slot
    decreases f, 1
  {
    match f.htype
    case Required => Single(LargestField(l, f))
    case Optional => Flagged(true, LargestField(l, f))
    case Repeated(max) => Counted(max, seq(max, _ => LargestField(l, f)))
    case Oneof => Shared
  }

  function LargestSlots(l: Limits, fs: seq<Field>): (r: seq<Slot>)
    ensures |r| == |fs|
    decreases fs, 0
  {
    if fs == [] then [] else [LargestSlot(l, fs[0])] + LargestSlots(l, fs[1..])
  }

  /** The tag of the oneof's largest member and its value; tag 0 without a oneof. */
  function LargestMember(l: Limits, fs: seq<Field>): (nat, Item)
    decreases fs, 0
  {
    if fs == [] then (0, IntV(0))
    else if fs[0].htype.Oneof? && MaxTagged(l, fs[0]) > MaxUnion(l, fs[1..]) then
      (fs[0].tag, LargestField(l, fs[0]))
    else LargestMember(l, fs[1..])
  }

  function LargestMsg(l: Limits, fs: seq<Field>): Msg
    decreases fs, 1
  {
    Msg(LargestSlots(l, fs), LargestMember(l, fs).0, LargestMember(l, fs).1)
  }

  // ---- Items.

  lemma {:induction false} OnesText(n: nat)
    ensures CString(Ones(n)) == Ones(n) && CString(Ones(n) + [0]) == Ones(n)
  {
    if n == 0 {
    } else {
      OnesText(n - 1);
      assert Ones(n)[1..] == Ones(n - 1) && (Ones(n) + [0])[1..] == Ones(n - 1) + [0];
      assert [1] + Ones(n - 1) == Ones(n);
    }
  }

  lemma {:induction false} VarintAtLeast(n: nat, k: nat)
    requires n >= Pow128(k)
    ensures |EncVarint(n)| > k
  {
    if k == 0 {
    } else {
      VarintAtLeast(n / 128, k - 1);
    }
  }

  lemma FullWords()
    ensures |EncVarint(TWO32 - 1)| == 5 && |EncVarint(TWO64 - 1)| == 10
  {
    hide Pow128, EncVarint;
    PowerValues();
    VarintAtLeast(TWO32 - 1, 4);
    VarintAtLeast(TWO64 - 1, 9);
    Powers10();
    VarintSize(TWO32 - 1, 5);
    VarintSize(TWO64 - 1, 10);
  }

  lemma Powers10()
    ensures Pow128(5) >= TWO32 && Pow128(10) >= TWO64
  {
    PowerValues();
    PowStep(9);
  }

  /** This item is in grade, and encodes to exactly its maximum. */
  ghost predicate Exact(l: Limits, t: LType, item: Item) {
    && ItemOk(GradeOf(l), t, item) && (Positive(l) ==> ItemBools(t, item))
    && EncItem(t, item).Some? && |EncItem(t, item).value| == MaxItem(l, t)
  }

  lemma NumberExact(l: Limits, t: LType)
    requires Known(l) && WellFormedType(t) && !t.StringT? && !t.MessageT?
    ensures Exact(l, t, LargestItem(l, t))
  {
    hide EncVarint, TwoTo;
    FullWords();
    TwoToValues();
    SmallVarint(1);
  }

  lemma StringExact(l: Limits, size: nat)
    requires WellFormedType(StringT(size))
    ensures Exact(l, StringT(size), LargestItem(l, StringT(size)))
  {
    hide EncVarint, CString;
    OnesText(size);
    OnesText(size - 1);
    assert (Ones(size - 1) + [0])[size - 1] == 0;
  }

  lemma {:induction false} ItemExact(l: Limits, t: LType)
    requires Known(l) && WellFormedType(t)
    ensures Exact(l, t, LargestItem(l, t))
    decreases t, 0
  {
    match t {
      case StringT(size) => StringExact(l, size);
      case MessageT(fields) => MsgExact(l, fields);
      case _ => NumberExact(l, t);
    }
  }

  // ---- Entries.

  ghost predicate SlotExact(l: Limits, f: Field, slot: Slot, which: nat, union: Item) {
    && SlotOk(GradeOf(l), f, slot) && (Positive(l) ==> SlotBools(f, slot))
    && EncSlot(f, slot, which, union).Some?
    && |EncSlot(f, slot, which, union).value| ==
       if f.htype.Oneof? && f.tag == which then MaxTagged(l, f) else MaxSlot(l, f)
  }

  lemma {:induction false} EachExact(l: Limits, f: Field, n: nat, item: Item)
    requires Exact(l, f.ltype, item)
    ensures var each := EncEach(f, seq(n, _ => item)); each.Some? && |each.value| == n * MaxTagged(l, f)
  {
    hide ItemOk, ItemBools;
    if n == 0 {
    } else {
      EachExact(l, f, n - 1, item);
      assert seq(n, _ => item)[1..] == seq(n - 1, _ => item);
      assert n * MaxTagged(l, f) == MaxTagged(l, f) + (n - 1) * MaxTagged(l, f);
    }
  }

  lemma {:induction false} FieldExact(l: Limits, f: Field)
    requires Known(l) && WellFormedField(f)
    ensures Exact(l, f.ltype, LargestField(l, f))
    decreases f, 0
  {
    ItemExact(l, f.ltype);
  }

  lemma {:induction false} EntryExact(l: Limits, f: Field, which: nat, union: Item)
    requires Known(l) && WellFormedField(f)
    requires f.htype.Oneof? && f.tag == which ==> union == LargestField(l, f)
    ensures SlotExact(l, f, LargestSlot(l, f), which, union)
    decreases f, 1
  {
    hide ItemOk, ItemBools, EncItem, MaxItem, WellFormedType, LargestField, GradeOf;
    FieldExact(l, f);
    ShapeToo(l, f.ltype, LargestField(l, f));
    match f.htype {
      case Repeated(max) =>
        var items := seq(max, _ => LargestField(l, f));
        EachExact(l, f, max, LargestField(l, f));
        assert items[..max] == items;
      case Required => assert |EncTagged(f, LargestField(l, f)).value| == MaxTagged(l, f);
      case Optional => assert |EncTagged(f, LargestField(l, f)).value| == MaxTagged(l, f);
      case Oneof =>
        if f.tag == which { assert |EncTagged(f, union).value| == MaxTagged(l, f); }
    }
  }

  lemma ShapeToo(l: Limits, t: LType, item: Item)
    requires ItemOk(GradeOf(l), t, item)
    ensures GradeOf(l) != Shape
  {}

  lemma {:induction false} EntriesExact(l: Limits, fs: seq<Field>, which: nat, union: Item)
    requires Known(l) && WellFormedFields(fs)
    requires forall i :: 0 <= i < |fs| && fs[i].htype.Oneof? && fs[i].tag == which ==>
               union == LargestField(l, fs[i])
    ensures SlotsOk(GradeOf(l), fs, LargestSlots(l, fs)) && EncSlots(fs, LargestSlots(l, fs), which, union).Some?
    ensures Positive(l) ==> forall i :: 0 <= i < |fs| ==> SlotBools(fs[i], LargestSlots(l, fs)[i])
    ensures forall i :: 0 <= i < |fs| && fs[i].htype.Oneof? && fs[i].tag == which ==>
              |EncSlots(fs, LargestSlots(l, fs), which, union).value| == MaxPlain(l, fs) + MaxTagged(l, fs[i])
    ensures (forall i :: 0 <= i < |fs| ==> !(fs[i].htype.Oneof? && fs[i].tag == which)) ==>
            |EncSlots(fs, LargestSlots(l, fs), which, union).value| == MaxPlain(l, fs)
    decreases fs, 0
  {
    hide SlotOk, SlotBools, LargestSlot, LargestField, MaxTagged, EncSlot, WellFormedField, GradeOf;
    if fs == [] {
    } else {
      EntryExact(l, fs[0], which, union);
      EntriesExact(l, fs[1..], which, union);
      if fs[0].tag == which { OneSelected(fs, which); }
    }
  }

  lemma OneSelected(fs: seq<Field>, which: nat)
    requires fs != [] && WellFormedFields(fs) && fs[0].tag == which
    ensures forall i :: 0 <= i < |fs[1..]| ==> fs[1..][i].tag != which
  {}

  /** The member chosen is the largest there is. */
  lemma {:induction false} MemberExact(l: Limits, fs: seq<Field>) returns (i: nat)
    requires WellFormedFields(fs)
    ensures var (tag, item) := LargestMember(l, fs);
            if i < |fs| then
              && fs[i].htype.Oneof? && fs[i].tag == tag && item == LargestField(l, fs[i])
              && MaxTagged(l, fs[i]) == MaxUnion(l, fs)
            else tag == 0 && MaxUnion(l, fs) == 0
    decreases fs
  {
    hide MaxTagged, LargestField;
    if fs == [] {
      i := 0;
    } else if fs[0].htype.Oneof? && MaxTagged(l, fs[0]) > MaxUnion(l, fs[1..]) {
      i := 0;
    } else {
      var later := MemberExact(l, fs[1..]);
      i := later + 1;
    }
  }

  /** The largest message: in grade, and exactly as long as the descriptor says. */
  lemma {:induction false} MsgExact(l: Limits, fs: seq<Field>)
    requires Known(l) && WellFormedFields(fs)
    ensures var m := LargestMsg(l, fs);
            && MsgOk(GradeOf(l), fs, m) && (Positive(l) ==> MsgBools(fs, m))
            && EncMsg(fs, m).Some? && |EncMsg(fs, m).value| == MaxMsg(l, fs)
    decreases fs, 1
  {
    hide SlotOk, SlotBools, ItemOk, ItemBools, EncItem, MaxTagged, MaxPlain, MaxUnion, LargestSlots, LargestField,
         LargestMember, EncSlots, WellFormedType, GradeOf;
    var (tag, union) := LargestMember(l, fs);
    var i := MemberExact(l, fs);
    forall j | 0 <= j < |fs| && fs[j].htype.Oneof? && fs[j].tag == tag ensures j == i {
      assert WellFormedField(fs[j]);
    }
    forall j | 0 <= j < |fs|
      ensures MemberOk(GradeOf(l), fs[j], tag, union) && (Positive(l) ==> MemberBools(fs[j], tag, union))
    {
      assert WellFormedField(fs[j]);
      FieldExact(l, fs[j]);
    }
    EntriesExact(l, fs, tag, union);
  }

  // ---- When the generated header's size is right.

  /** The header's size holds for every message whose numbers fit their types if and only if counting ten bytes for a
      bool does not make a difference. */
  lemma HeaderSizeHolds(fs: seq<Field>)
    requires WellFormedFields(fs)
    ensures (forall m :: MsgOk(Range, fs, m) && EncMsg(fs, m).Some? ==> |EncMsg(fs, m).value| <= MaxMsg(HEADER, fs))
            <==> MaxMsg(STORED, fs) == MaxMsg(HEADER, fs)
  {
    hide MsgOk, MsgBools, EncMsg, MaxMsg, WellFormedFields, LargestMsg;
    MsgExact(HEADER, fs);
    MsgExact(STORED, fs);
    MsgBound(STORED, fs, LargestMsg(HEADER, fs));
    if MaxMsg(STORED, fs) == MaxMsg(HEADER, fs) {
      forall m | MsgOk(Range, fs, m) && EncMsg(fs, m).Some? ensures |EncMsg(fs, m).value| <= MaxMsg(HEADER, fs) {
        MsgBound(STORED, fs, m);
      }
    }
  }

  /** And for every message that can travel, so for every decoded one, if and only if the terminators make up for it. */
  lemma HeaderSizeTravels(fs: seq<Field>)
    requires WellFormedFields(fs)
    ensures (forall m :: MsgOk(Wire, fs, m) && EncMsg(fs, m).Some? ==> |EncMsg(fs, m).value| <= MaxMsg(HEADER, fs))
            <==> MaxMsg(TRAVELS, fs) <= MaxMsg(HEADER, fs)
  {
    hide MsgOk, MsgBools, EncMsg, MaxMsg, WellFormedFields, LargestMsg;
    MsgExact(TRAVELS, fs);
    if MaxMsg(TRAVELS, fs) <= MaxMsg(HEADER, fs) {
      forall m | MsgOk(Wire, fs, m) && EncMsg(fs, m).Some? ensures |EncMsg(fs, m).value| <= MaxMsg(HEADER, fs) {
        MsgBound(TRAVELS, fs, m);
      }
    }
  }
}
