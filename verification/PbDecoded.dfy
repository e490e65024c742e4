/** What every decoded message satisfies, whatever the input was. */
module PbDecoded {
  import opened Common
  import opened PbWire
  import opened PbMessage
  import opened PbDefaults
  import opened PbRoundTrip

  // ---- Strings terminated, counts within their arrays, numbers within their storage.

  ghost predicate ItemSound(t: LType, item: Item)
    decreases t
  {
    match t
    case BoolT => item.IntV? && -128 <= item.n < 128
    case IntT(width) => item.IntV? && -(TwoTo(8 * width) as int) <= 2 * item.n < TwoTo(8 * width)
    case UIntT(width) => item.IntV? && 0 <= item.n < TwoTo(8 * width)
    case StringT(size) => item.StrV? && |item.buf| == size && 0 in item.buf
    case MessageT(fields) => item.MsgV? && MsgSound(fields, item.msg)
  }

  ghost predicate SlotSound(f: Field, slot: Slot)
    decreases f
  {
    match f.htype
    case Required => slot.Single? && ItemSound(f.ltype, slot.item)
    case Optional => slot.Flagged? && ItemSound(f.ltype, slot.item)
    case Repeated(max) =>
      && slot.Counted? && slot.count <= max == |slot.items|
      && (forall i :: 0 <= i < max ==> ItemOk(Shape, f.ltype, slot.items[i]))
      && (forall i :: 0 <= i < slot.count ==> ItemSound(f.ltype, slot.items[i]))
    case Oneof => slot.Shared?
  }

  ghost predicate MemberSound(f: Field, which: nat, union: Item)
    decreases f
  {
    f.htype.Oneof? && f.tag == which ==> ItemSound(f.ltype, union)
  }

  ghost predicate MsgSound(fs: seq<Field>, m: Msg)
    decreases fs
  {
    && |m.slots| == |fs|
    && (forall i :: 0 <= i < |fs| ==> SlotSound(fs[i], m.slots[i]))
    && (forall i :: 0 <= i < |fs| ==> MemberSound(fs[i], m.which, m.union))
  }

  lemma {:induction false} SoundShape(t: LType, item: Item)
    requires ItemSound(t, item)
    ensures ItemOk(Shape, t, item)
    decreases t, 0
  {
    if t.MessageT? {
      forall i | 0 <= i < |t.fields| ensures SlotOk(Shape, t.fields[i], item.msg.slots[i]) {
        SlotSoundShape(t.fields[i], item.msg.slots[i]);
      }
    }
  }

  lemma {:induction false} SlotSoundShape(f: Field, slot: Slot)
    requires SlotSound(f, slot)
    ensures SlotOk(Shape, f, slot)
    decreases f, 0
  {
    if f.htype.Required? || f.htype.Optional? { SoundShape(f.ltype, slot.item); }
  }

  // ---- Initialised storage is sound.

  lemma {:induction false} FreshSound(t: LType, item: Item)
    requires WellFormedType(t) && ItemOk(Shape, t, item)
    ensures ItemSound(t, DefaultItem(t, item))
    decreases t, 0
  {
    match t {
      case BoolT =>
      case IntT(width) =>
      case UIntT(width) =>
      case StringT(size) => assert Zeros(size)[0] == 0;
      case MessageT(fields) => DefaultMsgSound(fields, item.msg);
    }
  }

  lemma {:induction false} DefaultMsgSound(fs: seq<Field>, m: Msg)
    requires WellFormedFields(fs) && MsgOk(Shape, fs, m)
    ensures MsgSound(fs, DefaultMsg(fs, m))
    decreases fs
  {
    forall i | 0 <= i < |fs| ensures SlotSound(fs[i], DefaultSlots(fs, m.slots)[i]) {
      assert WellFormedField(fs[i]) && SlotOk(Shape, fs[i], m.slots[i]);
      DefaultAt(fs, m.slots, i);
      DefaultSlotSound(fs[i], m.slots[i]);
    }
    forall i | 0 <= i < |fs| ensures MemberSound(fs[i], 0, m.union) { assert WellFormedField(fs[i]); }
  }

  lemma {:induction false} DefaultSlotSound(f: Field, slot: Slot)
    requires WellFormedField(f) && SlotOk(Shape, f, slot)
    ensures SlotSound(f, DefaultSlot(f, slot))
    decreases f, 0
  {
    if f.htype.Required? || f.htype.Optional? { FreshSound(f.ltype, slot.item); }
  }

  lemma {:induction false} ZeroSound(t: LType)
    requires WellFormedType(t)
    ensures ItemSound(t, ZeroItem(t))
    decreases t, 1
  {
    ZeroShape(t);
    FreshSound(t, ZeroItem(t));
    DefaultOfZero(t);
  }

  // ---- Decoding keeps storage sound.

  lemma FilledTerminated(buf: seq<byte>, text: seq<byte>)
    requires |text| < |buf|
    ensures 0 in FillString(buf, text)
  {
    assert FillString(buf, text)[|text|] == 0;
  }

  lemma {:induction false} DecItemSound(t: LType, entry: bool, bytes: seq<byte>, item: Item)
    requires WellFormedType(t) && DecItem(t, entry, bytes, item).Some?
    requires if entry then ItemOk(Shape, t, item) else ItemSound(t, item)
    ensures ItemSound(t, DecItem(t, entry, bytes, item).value.0)
    decreases t, 1
  {
    match t {
      case StringT(size) => FilledTerminated(item.buf, DecDelimited(bytes).value.0);
      case MessageT(fields) => DecSubmessageSound(fields, entry, bytes, item);
      case BoolT => DecIntSound(t, Dec64(bytes).value.0);
      case IntT(width) => DecIntSound(t, Dec64(bytes).value.0);
      case UIntT(width) => DecIntSound(t, Dec64(bytes).value.0);
    }
  }

  lemma DecIntSound(t: LType, value: nat)
    requires (t.BoolT? || t.IntT? || t.UIntT?) && DecInt(t, value).Some?
    ensures ItemSound(t, DecInt(t, value).value)
  {
    hide Signed, TwoTo;
    if t.IntT? { SignedWithin(value, 8 * t.width); }
  }

  lemma {:induction false} DecSubmessageSound(fields: seq<Field>, entry: bool, bytes: seq<byte>, item: Item)
    requires WellFormedFields(fields) && item.MsgV? && DecItem(MessageT(fields), entry, bytes, item).Some?
    requires if entry then MsgOk(Shape, fields, item.msg) else MsgSound(fields, item.msg)
    ensures ItemSound(MessageT(fields), DecItem(MessageT(fields), entry, bytes, item).value.0)
    decreases fields, 4
  {
    hide DecDelimited, DecMsg, MsgSound, MsgOk, WellFormedFields, DefaultMsg;
    if entry { DefaultMsgSound(fields, item.msg); }
    DecMsgSound(fields, DecDelimited(bytes).value.0, if entry then DefaultMsg(fields, item.msg) else item.msg);
  }

  lemma {:induction false} DecMsgSound(fs: seq<Field>, bytes: seq<byte>, m: Msg)
    requires WellFormedFields(fs) && MsgSound(fs, m) && DecMsg(fs, bytes, m).Some?
    ensures MsgSound(fs, DecMsg(fs, bytes, m).value.0)
    decreases fs, 3
  {
    hide DecFields, AllSeen, SlotSound, MemberSound, WellFormedField;
    DecFieldsSound(fs, bytes, State(0, NONE_SEEN, m));
  }

  lemma {:induction false} DecFieldsSound(fs: seq<Field>, bytes: seq<byte>, s: State)
    requires WellFormedFields(fs) && MsgSound(fs, s.msg) && |s.msg.slots| == |fs| && (fs == [] || s.pos < |fs|)
    requires DecFields(fs, bytes, s).Some?
    ensures MsgSound(fs, DecFields(fs, bytes, s).value.0.msg)
    decreases fs, 2, |bytes|
  {
    hide DecTag, SkipField, DecField, Find, MarkSeen, RequiredCount, MsgSound, WellFormedFields;
    if bytes != [] && DecTag(bytes).Tag? {
      var t := DecTag(bytes);
      var found := Find(fs, s.pos, t.tag);
      if found.None? {
        DecFieldsSound(fs, SkipField(t.rest, t.wire).value, s);
      } else {
        var i := found.value;
        var r := DecField(fs[i], i, t.rest, s.msg).value;
        DecEntrySound(fs, i, t.rest, s.msg);
        DecFieldsSound(fs, r.1, State(i, MarkSeen(s.seen, fs[i], RequiredCount(fs[..i])), r.0));
      }
    }
  }

  lemma {:induction false} DecEntrySound(fs: seq<Field>, i: nat, bytes: seq<byte>, m: Msg)
    requires WellFormedFields(fs) && MsgSound(fs, m) && i < |fs| == |m.slots| && DecField(fs[i], i, bytes, m).Some?
    ensures MsgSound(fs, DecField(fs[i], i, bytes, m).value.0)
    decreases fs, 1
  {
    hide DecField, SlotSound, MemberSound, WellFormedField;
    var r := DecField(fs[i], i, bytes, m).value.0;
    assert WellFormedField(fs[i]) && SlotSound(fs[i], m.slots[i]);
    DecFieldSound(fs[i], i, bytes, m);
    DecFieldElsewhere(fs[i], i, bytes, m);
    forall j | 0 <= j < |fs| ensures SlotSound(fs[j], r.slots[j]) && MemberSound(fs[j], r.which, r.union) {
      if j != i {
        assert SlotSound(fs[j], m.slots[j]) && MemberSound(fs[j], m.which, m.union);
        OtherMember(fs[j], fs[i], m, r);
      }
    }
  }

  lemma OtherMember(g: Field, f: Field, m: Msg, r: Msg)
    requires g.tag != f.tag && MemberSound(g, m.which, m.union)
    requires (r.which == m.which && r.union == m.union) || r.which == f.tag
    ensures MemberSound(g, r.which, r.union)
  {}

  lemma DecFieldElsewhere(f: Field, i: nat, bytes: seq<byte>, m: Msg)
    requires i < |m.slots| && DecField(f, i, bytes, m).Some?
    ensures var r := DecField(f, i, bytes, m).value.0;
            && |r.slots| == |m.slots|
            && (forall j :: 0 <= j < |m.slots| && j != i ==> r.slots[j] == m.slots[j])
            && ((r.which == m.which && r.union == m.union && !f.htype.Oneof?) || (r.which == f.tag && f.htype.Oneof?))
  {
    hide DecItem, ZeroItem;
  }

  lemma {:induction false} DecFieldSound(f: Field, i: nat, bytes: seq<byte>, m: Msg)
    requires WellFormedField(f) && i < |m.slots| && SlotSound(f, m.slots[i]) && MemberSound(f, m.which, m.union)
    requires DecField(f, i, bytes, m).Some?
    ensures var r := DecField(f, i, bytes, m).value.0;
            i < |r.slots| && SlotSound(f, r.slots[i]) && MemberSound(f, r.which, r.union)
    decreases f
  {
    hide DecItem, ItemSound, ItemOk, WellFormedType, ZeroItem;
    match f.htype {
      case Required => DecItemSound(f.ltype, false, bytes, m.slots[i].item);
      case Optional => DecItemSound(f.ltype, false, bytes, m.slots[i].item);
      case Repeated(max) =>
        var slot := m.slots[i];
        DecItemSound(f.ltype, true, bytes, slot.items[slot.count]);
        SoundShape(f.ltype, DecItem(f.ltype, true, bytes, slot.items[slot.count]).value.0);
      case Oneof =>
        ZeroSound(f.ltype);
        DecItemSound(f.ltype, false, bytes, ZeroItem(f.ltype));
    }
  }

  // ---- What is sound can travel.

  lemma {:induction false} SoundTravels(t: LType, item: Item)
    requires ItemSound(t, item)
    ensures ItemOk(Wire, t, item)
    decreases t, 0
  {
    if t.MessageT? { MsgTravels(t.fields, item.msg); }
  }

  lemma {:induction false} SlotTravels(f: Field, slot: Slot)
    requires SlotSound(f, slot)
    ensures SlotOk(Wire, f, slot)
    decreases f, 0
  {
    hide ItemOk, ItemSound;
    match f.htype {
      case Required => SoundTravels(f.ltype, slot.item);
      case Optional =>
        SoundTravels(f.ltype, slot.item);
        SoundShape(f.ltype, slot.item);
      case Repeated(max) =>
        forall i | 0 <= i < slot.count ensures ItemOk(Wire, f.ltype, slot.items[i]) {
          SoundTravels(f.ltype, slot.items[i]);
        }
      case Oneof =>
    }
  }

  lemma {:induction false} MsgTravels(fs: seq<Field>, m: Msg)
    requires MsgSound(fs, m)
    ensures MsgOk(Wire, fs, m)
    decreases fs
  {
    hide SlotOk, SlotSound, ItemOk, ItemSound;
    forall i | 0 <= i < |fs| ensures SlotOk(Wire, fs[i], m.slots[i]) && MemberOk(Wire, fs[i], m.which, m.union) {
      SlotTravels(fs[i], m.slots[i]);
      assert MemberSound(fs[i], m.which, m.union);
      if fs[i].htype.Oneof? && fs[i].tag == m.which { SoundTravels(fs[i].ltype, m.union); }
    }
  }

  /** Whatever decodes, from whatever input, has every string terminated, every count within its array and every number
      within its storage; so it encodes again, and decodes to itself. */
  lemma DecodedSound(fs: seq<Field>, bytes: seq<byte>, dest: Msg, dest': Msg) returns (back: Msg)
    requires WellFormedFields(fs) && MsgOk(Shape, fs, dest) && Decode(fs, bytes, dest).Some?
    requires MsgOk(Shape, fs, dest')
    ensures var m := Decode(fs, bytes, dest).value.0;
            && MsgSound(fs, m) && EncMsg(fs, m).Some?
            && Decode(fs, EncMsg(fs, m).value, dest') == Some((back, [])) && SameMsg(fs, m, back)
  {
    hide DecMsg, EncMsg, MsgSound, MsgOk, WellFormedFields, DefaultMsg, SameMsg;
    DefaultMsgSound(fs, dest);
    DecMsgSound(fs, bytes, DefaultMsg(fs, dest));
    var m := Decode(fs, bytes, dest).value.0;
    MsgTravels(fs, m);
    back := RoundTrip(fs, m, dest');
  }

  /** A bool is any one-byte number: each is encoded, and decoded to itself. */
  lemma BoolSurvives(n: int, entry: bool, dest: Item, tail: seq<byte>)
    requires -128 <= n < 128
    ensures EncItem(BoolT, IntV(n)).Some?
    ensures DecItem(BoolT, entry, EncItem(BoolT, IntV(n)).value + tail, dest) == Some((IntV(n), tail))
  {
    hide EncVarint, Dec64;
    IntRoundTrip(BoolT, IntV(n));
    Varint64RoundTrip(Unsigned64(n), tail);
  }
}
