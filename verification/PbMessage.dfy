/** Field descriptors, message values, and what encoding and decoding mean. */
module PbMessage {
  import opened Common
  import opened PbWire

  // ---- Descriptors.

  datatype LType =
    | BoolT
    | IntT(width: nat)           // int32, int64: width in bytes
    | UIntT(width: nat)          // uint32, uint64
    | StringT(size: nat)         // char[size]
    | MessageT(fields: seq<Field>)

  datatype HType = Required | Optional | Repeated(max: nat) | Oneof

  datatype Field = Field(tag: nat, htype: HType, ltype: LType)

  function WireTypeFor(t: LType): WireType {
    if t.StringT? || t.MessageT? then WtString else WtVarint
  }

  predicate WellFormedType(t: LType) {
    match t
    case BoolT => true
    case IntT(width) => width == 4 || width == 8
    case UIntT(width) => width == 4 || width == 8
    case StringT(size) => 1 <= size < TWO32
    case MessageT(fields) => WellFormedFields(fields) && MaxMsg(STORED, fields) < TWO32
  }

  predicate WellFormedField(f: Field) {
    && 0 < f.tag && 8 * f.tag + 7 < TWO32
    && (f.htype.Repeated? ==> f.ltype.StringT? || f.ltype.MessageT?)
    && WellFormedType(f.ltype)
  }

  predicate WellFormedFields(fs: seq<Field>) {
    && (forall i :: 0 <= i < |fs| ==> WellFormedField(fs[i]))
    && (forall i, j :: 0 <= i < j < |fs| ==> fs[i].tag != fs[j].tag)
  }

  // ---- The largest encoding a descriptor allows.

  /** What is known of the values: the most bytes a bool takes, and whether strings are terminated. */
  datatype Limits = Limits(boolBytes: nat, terminated: bool)

  /** The generated header counts one byte for a bool, but a bool is stored in a byte and encoded like a signed number:
      a negative one takes ten. What can travel also has its strings terminated. */
  const HEADER := Limits(1, false)
  const STORED := Limits(10, false)
  const TRAVELS := Limits(10, true)

  function MaxItem(l: Limits, t: LType): nat
    decreases t
  {
    match t
    case BoolT => l.boolBytes
    case IntT(_) => 10
    case UIntT(width) => if width == 4 then 5 else 10
    case StringT(size) =>
      var text := if l.terminated && size > 0 then size - 1 else size;
      |EncVarint(text)| + text
    case MessageT(fields) => |EncVarint(MaxMsg(l, fields))| + MaxMsg(l, fields)
  }

  function MaxTagged(l: Limits, f: Field): nat
    decreases f, 0
  {
    |EncTag(f.tag, WireTypeFor(f.ltype))| + MaxItem(l, f.ltype)
  }

  /** What a slot outside the oneof can take. */
  function MaxSlot(l: Limits, f: Field): nat
    decreases f, 1
  {
    match f.htype
    case Repeated(max) => max * MaxTagged(l, f)
    case Oneof => 0
    case _ => MaxTagged(l, f)
  }

  /** Entries outside the oneof add up. */
  function MaxPlain(l: Limits, fs: seq<Field>): nat
    decreases fs, 0
  {
    if fs == [] then 0
    else MaxSlot(l, fs[0]) + MaxPlain(l, fs[1..])
  }

  /** Of the oneof, one member at most. */
  function MaxUnion(l: Limits, fs: seq<Field>): nat
    decreases fs, 0
  {
    if fs == [] then 0
    else
      var rest := MaxUnion(l, fs[1..]);
      if fs[0].htype.Oneof? && MaxTagged(l, fs[0]) > rest then MaxTagged(l, fs[0]) else rest
  }

  function MaxMsg(l: Limits, fs: seq<Field>): nat
    decreases fs, 1
  {
    MaxPlain(l, fs) + MaxUnion(l, fs)
  }

  // ---- Values: the fields of the generated structs.

  datatype Item = IntV(n: int) | StrV(buf: seq<byte>) | MsgV(msg: Msg)

  /** One descriptor entry's storage. The members of the message's oneof share its which and union. */
  datatype Slot = Single(item: Item) | Flagged(has: bool, item: Item) | Counted(count: nat, items: seq<Item>) | Shared

  datatype Msg = Msg(slots: seq<Slot>, which: nat, union: Item)

  /** Three grades of conformity: the storage has the right shape; the numbers also fit their C types, a bool being one
      byte; the value can also travel (strings terminated, counts within their arrays). */
  datatype Grade = Shape | Range | Wire

  function TwoTo(bits: nat): (r: nat)
    ensures r >= 1
  { if bits == 0 then 1 else 2 * TwoTo(bits - 1) }

  lemma {:induction false} TwoToAdd(a: nat, b: nat)
    ensures TwoTo(a + b) == TwoTo(a) * TwoTo(b)
  {
    if a == 0 {
    } else {
      TwoToAdd(a - 1, b);
    }
  }

  lemma TwoTo8()
    ensures TwoTo(8) == 256
  {
    assert TwoTo(4) == 2 * TwoTo(3) == 4 * TwoTo(2);
    assert TwoTo(8) == 2 * TwoTo(7) == 4 * TwoTo(6) == 8 * TwoTo(5);
  }

  lemma TwoToValues()
    ensures TwoTo(32) == TWO32 && TwoTo(64) == TWO64
  {
    TwoTo8();
    hide TwoTo;
    TwoToAdd(8, 8);
    TwoToAdd(16, 16);
    TwoToAdd(32, 32);
  }

  predicate ItemOk(g: Grade, t: LType, item: Item)
    decreases t
  {
    match t
    case BoolT => item.IntV? && (g == Shape || -128 <= item.n < 128)
    case IntT(width) => item.IntV? && (g == Shape || -(TwoTo(8 * width) as int) <= 2 * item.n < TwoTo(8 * width))
    case UIntT(width) => item.IntV? && (g == Shape || 0 <= item.n < TwoTo(8 * width))
    case StringT(size) => item.StrV? && |item.buf| == size && (g == Wire ==> 0 in item.buf)
    case MessageT(fields) => item.MsgV? && MsgOk(g, fields, item.msg)
  }

  predicate SlotOk(g: Grade, f: Field, slot: Slot)
    decreases f
  {
    match f.htype
    case Required => slot.Single? && ItemOk(g, f.ltype, slot.item)
    case Optional => slot.Flagged? && ItemOk(if slot.has then g else Shape, f.ltype, slot.item)
    case Repeated(max) =>
      && slot.Counted? && |slot.items| == max
      && (g == Wire ==> slot.count <= max)
      && (forall i :: 0 <= i < max ==> ItemOk(if i < slot.count then g else Shape, f.ltype, slot.items[i]))
    case Oneof => slot.Shared?
  }

  predicate SlotsOk(g: Grade, fs: seq<Field>, slots: seq<Slot>)
    decreases fs, 0
  {
    |slots| == |fs| && forall i :: 0 <= i < |fs| ==> SlotOk(g, fs[i], slots[i])
  }

  /** The union conforms to the member it is tagged with; other tags leave it unread. */
  predicate UnionOk(g: Grade, fs: seq<Field>, which: nat, union: Item)
    decreases fs, 0
  {
    forall i :: 0 <= i < |fs| ==> MemberOk(g, fs[i], which, union)
  }

  predicate MemberOk(g: Grade, f: Field, which: nat, union: Item)
    decreases f
  {
    f.htype.Oneof? && f.tag == which ==> ItemOk(g, f.ltype, union)
  }

  predicate MsgOk(g: Grade, fs: seq<Field>, m: Msg)
    decreases fs, 1
  {
    SlotsOk(g, fs, m.slots) && (g == Shape || UnionOk(g, fs, m.which, m.union))
  }

  // ---- Encoding.

  /** The characters before the first NUL, or all of them. */
  function CString(buf: seq<byte>): seq<byte> {
    if buf == [] || buf[0] == 0 then [] else [buf[0]] + CString(buf[1..])
  }

  lemma {:induction false} CStringShort(buf: seq<byte>)
    ensures |CString(buf)| <= |buf|
    ensures 0 in buf ==> |CString(buf)| < |buf|
  {
    if buf == [] || buf[0] == 0 {
    } else {
      CStringShort(buf[1..]);
    }
  }

  function Unsigned64(n: int): nat
    requires -TWO64 <= n
  {
    if n < 0 then n + TWO64 else n
  }

  function Delimited(bytes: seq<byte>): seq<byte> { EncVarint(|bytes|) + bytes }

  function EncItem(t: LType, item: Item): Option<seq<byte>>
    decreases t, 0
  {
    match t
    case StringT(size) => if item.StrV? then Some(Delimited(CString(item.buf))) else None
    case MessageT(fields) =>
      if item.MsgV? then
        var body := EncMsg(fields, item.msg);
        if body.None? then None else Some(Delimited(body.value))
      else None
    case _ => if item.IntV? && -TWO64 <= item.n then Some(EncVarint(Unsigned64(item.n))) else None
  }

  function EncTagged(f: Field, item: Item): Option<seq<byte>>
    decreases f, 0
  {
    var body := EncItem(f.ltype, item);
    if body.None? then None else Some(EncTag(f.tag, WireTypeFor(f.ltype)) + body.value)
  }

  function EncEach(f: Field, items: seq<Item>): Option<seq<byte>>
    decreases f, 1, |items|
  {
    if items == [] then Some([])
    else
      var first, rest := EncTagged(f, items[0]), EncEach(f, items[1..]);
      if first.None? || rest.None? then None else Some(first.value + rest.value)
  }

  function EncSlot(f: Field, slot: Slot, which: nat, union: Item): Option<seq<byte>>
    decreases f, 2
  {
    match f.htype
    case Required => if slot.Single? then EncTagged(f, slot.item) else None
    case Optional => if !slot.Flagged? then None else if slot.has then EncTagged(f, slot.item) else Some([])
    case Repeated(max) =>
      if slot.Counted? && slot.count <= max && slot.count <= |slot.items| then EncEach(f, slot.items[..slot.count])
      else None
    case Oneof => if which == f.tag then EncTagged(f, union) else Some([])
  }

  function EncSlots(fs: seq<Field>, slots: seq<Slot>, which: nat, union: Item): Option<seq<byte>>
    decreases fs, 0
  {
    if fs == [] then Some([])
    else if slots == [] then None
    else
      var first := EncSlot(fs[0], slots[0], which, union);
      var rest := EncSlots(fs[1..], slots[1..], which, union);
      if first.None? || rest.None? then None else Some(first.value + rest.value)
  }

  function EncMsg(fs: seq<Field>, m: Msg): Option<seq<byte>>
    decreases fs, 1
  {
    EncSlots(fs, m.slots, m.which, m.union)
  }

  // ---- Default values.

  function Zeros(n: nat): (r: seq<byte>)
    ensures |r| == n
  {
    seq(n, _ => 0)
  }

  /** Zeroed storage for one item. */
  function ZeroItem(t: LType): Item
    decreases t
  {
    match t
    case StringT(size) => StrV(Zeros(size))
    case MessageT(fields) => MsgV(Msg(ZeroSlots(fields), 0, IntV(0)))
    case _ => IntV(0)
  }

  function ZeroSlot(f: Field): Slot
    decreases f
  {
    match f.htype
    case Required => Single(ZeroItem(f.ltype))
    case Optional => Flagged(false, ZeroItem(f.ltype))
    case Repeated(max) => Counted(0, seq(max, _ => ZeroItem(f.ltype)))
    case Oneof => Shared
  }

  function ZeroSlots(fs: seq<Field>): seq<Slot>
    decreases fs
  {
    if fs == [] then [] else [ZeroSlot(fs[0])] + ZeroSlots(fs[1..])
  }

  /** What initialisation leaves in existing storage: values zeroed, flags and counts cleared; array contents and the
      union stay as they were. */
  function DefaultItem(t: LType, item: Item): Item
    decreases t
  {
    match t
    case StringT(size) => StrV(Zeros(size))
    case MessageT(fields) => if item.MsgV? then MsgV(DefaultMsg(fields, item.msg)) else item
    case _ => IntV(0)
  }

  function DefaultSlot(f: Field, slot: Slot): Slot
    decreases f
  {
    match slot
    case Single(item) => Single(DefaultItem(f.ltype, item))
    case Flagged(_, item) => Flagged(false, DefaultItem(f.ltype, item))
    case Counted(_, items) => Counted(0, items)
    case Shared => Shared
  }

  function DefaultSlots(fs: seq<Field>, slots: seq<Slot>): (r: seq<Slot>)
    ensures |r| == if |fs| < |slots| then |fs| else |slots|
    decreases fs, 0
  {
    if fs == [] || slots == [] then [] else [DefaultSlot(fs[0], slots[0])] + DefaultSlots(fs[1..], slots[1..])
  }

  function DefaultMsg(fs: seq<Field>, m: Msg): Msg
    decreases fs, 1
  {
    Msg(DefaultSlots(fs, m.slots), 0, m.union)
  }

  // ---- The field iterator.

  function RequiredCount(fs: seq<Field>): nat {
    if fs == [] then 0 else (if fs[0].htype.Required? then 1 else 0) + RequiredCount(fs[1..])
  }

  function NextPos(fs: seq<Field>, pos: nat): (r: nat)
    requires pos < |fs|
    ensures r < |fs|
  {
    if pos + 1 < |fs| then pos + 1 else 0
  }

  /** Looks at n entries from pos on, wrapping around. */
  function FindWithin(fs: seq<Field>, pos: nat, n: nat, tag: nat): (r: Option<nat>)
    requires pos < |fs|
    ensures r.Some? ==> r.value < |fs| && fs[r.value].tag == tag
    decreases n
  {
    if n == 0 then None else if fs[pos].tag == tag then Some(pos) else FindWithin(fs, NextPos(fs, pos), n - 1, tag)
  }

  function Find(fs: seq<Field>, pos: nat, tag: nat): (r: Option<nat>)
    requires fs == [] || pos < |fs|
    ensures r.Some? ==> r.value < |fs| && fs[r.value].tag == tag
  {
    if fs == [] then None else FindWithin(fs, pos, |fs|, tag)
  }

  // ---- The required-field bitmap: two words of 32 bits.

  const MAX_REQUIRED := 64

  /** A 32-bit word, bit 0 first. */
  type Word32 = w: seq<bool> | |w| == 32 witness seq(32, _ => false)

  /** The word whose low n bits are ones. */
  function LowOnes(n: nat): Word32 { seq(32, k => k < n) }

  datatype Bitmap = Bitmap(word0: Word32, word1: Word32) {
    function Word(i: nat): Word32 { if i == 0 then word0 else word1 }

    function Bit(k: nat): bool
      requires k < MAX_REQUIRED
    {
      if k < 32 then word0[k] else word1[k - 32]
    }

    function Set(k: nat): Bitmap
      requires k < MAX_REQUIRED
    {
      if k < 32 then this.(word0 := word0[k := true]) else this.(word1 := word1[k - 32 := true])
    }
  }

  const NONE_SEEN := Bitmap(LowOnes(0), LowOnes(0))

  function MarkSeen(seen: Bitmap, f: Field, index: nat): Bitmap {
    if f.htype.Required? && index < MAX_REQUIRED then seen.Set(index) else seen
  }

  /** The final check: whole words all ones, then the remaining word exactly its low ones. */
  predicate AllSeen(seen: Bitmap, required: nat) {
    var count := if required > MAX_REQUIRED then MAX_REQUIRED else required;
    && (count >= 32 ==> seen.Word(0) == LowOnes(32))
    && (count >= 64 ==> seen.Word(1) == LowOnes(32))
    && (count % 32 != 0 ==> seen.Word(count / 32) == LowOnes(count % 32))
  }

  // ---- Decoding.

  function Signed(value: nat, bits: nat): int {
    var low := value % TwoTo(bits);
    if 2 * low >= TwoTo(bits) then low - TwoTo(bits) else low
  }

  lemma SignedWithin(value: nat, bits: nat)
    ensures -(TwoTo(bits) as int) <= 2 * Signed(value, bits) < TwoTo(bits)
  {
    hide TwoTo;
  }

  function DecInt(t: LType, value: nat): Option<Item>
    requires t.BoolT? || t.IntT? || t.UIntT?
  {
    match t
    case BoolT =>
      var wide := Signed(value, 32);
      if -128 <= wide < 128 then Some(IntV(wide)) else None
    case IntT(width) => Some(IntV(Signed(value, 8 * width)))
    case UIntT(width) => if value < TwoTo(8 * width) then Some(IntV(value)) else None
  }

  /** Overwrites the start of a string buffer and terminates it. */
  function FillString(buf: seq<byte>, text: seq<byte>): (r: seq<byte>)
    requires |text| < |buf|
    ensures |r| == |buf|
  {
    text + [0] + buf[|text| + 1..]
  }

  /** Splits a length-delimited value off the stream. */
  function DecDelimited(bytes: seq<byte>): (r: Option<(seq<byte>, seq<byte>)>)
    ensures r.Some? ==> |r.value.1| < |bytes|
  {
    var len := Dec32(bytes);
    if len.None? || |len.value.1| < len.value.0 then None
    else Some((len.value.1[..len.value.0], len.value.1[len.value.0..]))
  }

  datatype State = State(pos: nat, seen: Bitmap, msg: Msg)

  /** Reads one item into existing storage. An entry of an array is initialised first when it is a message. */
  function DecItem(t: LType, entry: bool, bytes: seq<byte>, item: Item): (r: Option<(Item, seq<byte>)>)
    ensures r.Some? ==> |r.value.1| < |bytes|
    decreases t, 0
  {
    match t
    case StringT(size) =>
      var text := DecDelimited(bytes);
      if text.None? || !item.StrV? || |text.value.0| >= size || |item.buf| != size then None
      else Some((StrV(FillString(item.buf, text.value.0)), text.value.1))
    case MessageT(fields) =>
      var body := DecDelimited(bytes);
      if body.None? || !item.MsgV? then None
      else
        var m := DecMsg(fields, body.value.0, if entry then DefaultMsg(fields, item.msg) else item.msg);
        if m.None? then None else Some((MsgV(m.value.0), body.value.1))
    case _ =>
      var value := Dec64(bytes);
      if value.None? then None
      else
        var n := DecInt(t, value.value.0);
        if n.None? then None else Some((n.value, value.value.1))
  }

  /** Reads the field at descriptor entry i into the message. */
  function DecField(f: Field, i: nat, bytes: seq<byte>, m: Msg): (r: Option<(Msg, seq<byte>)>)
    requires i < |m.slots|
    ensures r.Some? ==> |r.value.1| < |bytes| && |r.value.0.slots| == |m.slots|
    decreases f
  {
    match f.htype
    case Required =>
      if !m.slots[i].Single? then None
      else
        var r := DecItem(f.ltype, false, bytes, m.slots[i].item);
        if r.None? then None else Some((m.(slots := m.slots[i := Single(r.value.0)]), r.value.1))
    case Optional =>
      if !m.slots[i].Flagged? then None
      else
        var r := DecItem(f.ltype, false, bytes, m.slots[i].item);
        if r.None? then None else Some((m.(slots := m.slots[i := Flagged(true, r.value.0)]), r.value.1))
    case Repeated(max) =>
      var slot := m.slots[i];
      if !slot.Counted? || slot.count >= max || slot.count >= |slot.items| then None
      else
        var r := DecItem(f.ltype, true, bytes, slot.items[slot.count]);
        if r.None? then None
        else
          var slot' := Counted(slot.count + 1, slot.items[slot.count := r.value.0]);
          Some((m.(slots := m.slots[i := slot']), r.value.1))
    case Oneof =>
      var r := DecItem(f.ltype, false, bytes, ZeroItem(f.ltype));
      if r.None? then None else Some((m.(which := f.tag, union := r.value.0), r.value.1))
  }

  /** The field loop: stops at the end of the stream or at a zero tag, and skips fields it does not know. */
  function DecFields(fs: seq<Field>, bytes: seq<byte>, s: State): (r: Option<(State, seq<byte>)>)
    requires |s.msg.slots| == |fs| && (fs == [] || s.pos < |fs|)
    ensures r.Some? ==> |r.value.0.msg.slots| == |fs|
    decreases fs, 0, |bytes|
  {
    if bytes == [] then Some((s, []))
    else
      match DecTag(bytes)
      case TagEnd(rest) => Some((s, rest))
      case TagError => None
      case Tag(tag, wire, rest) =>
        var found := Find(fs, s.pos, tag);
        if found.None? then
          // the terminator of an empty descriptor matches tag 0 and then fails on its size
          if fs == [] && tag == 0 then None
          else
            var skipped := SkipField(rest, wire);
            if skipped.None? then None else DecFields(fs, skipped.value, s)
        else
          var i := found.value;
          var r := DecField(fs[i], i, rest, s.msg);
          if r.None? then None
          else DecFields(fs, r.value.1, State(i, MarkSeen(s.seen, fs[i], RequiredCount(fs[..i])), r.value.0))
  }

  /** Decoding into storage that is already initialised. */
  function DecMsg(fs: seq<Field>, bytes: seq<byte>, m: Msg): (r: Option<(Msg, seq<byte>)>)
    decreases fs, 1
  {
    if |m.slots| != |fs| then None
    else
      var r := DecFields(fs, bytes, State(0, NONE_SEEN, m));
      if r.None? || !AllSeen(r.value.0.seen, RequiredCount(fs)) then None else Some((r.value.0.msg, r.value.1))
  }

  function Decode(fs: seq<Field>, bytes: seq<byte>, dest: Msg): Option<(Msg, seq<byte>)> {
    DecMsg(fs, bytes, DefaultMsg(fs, dest))
  }
}
