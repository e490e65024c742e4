/** The decoder as the program runs it: input streams over a buffer, substreams for nested messages, the field loop. */
module PbDecoder {
  import opened Common
  import opened PbWire
  import opened PbMessage
  import opened PbDefaults
  import opened PbIterator

  /** A reader and its specification agree: same success, and then the same value and the same bytes left. */
  ghost predicate Agrees<T>(ok: bool, value: T, rest: seq<byte>, spec: Option<(T, seq<byte>)>) {
    ok == spec.Some? && (ok ==> spec.value == (value, rest))
  }

  /** An input stream over part of a buffer. */
  class IStream {
    const buf: array<byte>
    var state: nat              // where the next byte comes from
    var bytesLeft: nat

    /** Where the stream ends. */
    ghost function End(): nat
      reads this
    {
      state + bytesLeft
    }

    ghost predicate Valid()
      reads this
    {
      End() <= buf.Length
    }

    ghost function Remaining(): seq<byte>
      reads this, buf
      requires Valid()
    {
      buf[state..state + bytesLeft]
    }

    /** Readers consume from the front; where the stream ends stays put. */
    twostate predicate Kept()
      reads this
    {
      Valid() && End() == old(End())
    }

    constructor (buf: array<byte>, start: nat, size: nat)
      requires start + size <= buf.Length
      ensures Valid() && this.buf == buf && state == start && bytesLeft == size
    {
      this.buf, state, bytesLeft := buf, start, size;
    }

    method ReadByte() returns (ok: bool, b: byte)
      requires Valid()
      modifies this
      ensures Kept() && ok == (old(Remaining()) != [])
      ensures ok ==> old(Remaining()) == [b] + Remaining()
      ensures !ok ==> Remaining() == []
    {
      if bytesLeft == 0 { return false, 0; }
      b := buf[state];
      state := state + 1;
      bytesLeft := bytesLeft - 1;
      ok := true;
    }

    method Read(count: nat) returns (ok: bool, data: seq<byte>)
      requires Valid()
      modifies this
      ensures Kept() && ok == (count <= |old(Remaining())|)
      ensures ok ==> data == old(Remaining())[..count] && Remaining() == old(Remaining())[count..]
    {
      if bytesLeft < count { return false, []; }
      ghost var before := Remaining();
      data := buf[state..state + count];
      assert data == before[..count];
      state := state + count;
      bytesLeft := bytesLeft - count;
      assert Remaining() == before[count..];
      ok := true;
    }

    /** The 32-bit varint. k counts the bytes taken, so the next one goes to bit 7 * k. */
    method DecodeVarint32Eof() returns (ok: bool, value: nat, eof: bool)
      requires Valid()
      modifies this
      ensures Kept() && Agrees(ok, value, Remaining(), Dec32(old(Remaining())))
      ensures eof == (old(Remaining()) == []) && (eof ==> Remaining() == [])
    {
      hide Pow128, Dec32, Dec32From;
      ghost var whole := Remaining();
      Dec32Start(whole);
      var b: byte;
      value, eof := 0, false;
      ok, b := ReadByte();
      if !ok {
        eof := true;
        return;
      }
      if b < 128 { return true, b, false; }
      var k: nat := 1;
      value := b % 128;
      var more := true;
      assert whole[1..] == Remaining();
      while more
        invariant Kept() && k >= 1 && whole == old(Remaining())
        invariant more ==> Dec32(whole) == Dec32From(Remaining(), k, value)
        invariant !more ==> Dec32(whole) == if k == 5 && b / 16 % 8 != 0 then None else Some((value, Remaining()))
        decreases bytesLeft, more
      {
        ghost var before := Remaining();
        Dec32Next(before, k, value);
        ok, b := ReadByte();
        if !ok { return; }
        assert before[0] == b && before[1..] == Remaining();
        if k >= 5 {
          var signExtension := if k < 9 then 0xFF else 0x01;
          if b % 128 != 0 && (value < 0x8000_0000 || b != signExtension) { return false, 0, false; }
        } else {
          value := value + b % 128 * Pow128(k) % TWO32;
        }
        k := k + 1;
        more := b >= 128;
      }
      if k == 5 && b / 16 % 8 != 0 { return false, 0, false; }
      ok := true;
    }

    method DecodeVarint() returns (ok: bool, value: nat)
      requires Valid()
      modifies this
      ensures Kept() && Agrees(ok, value, Remaining(), Dec64(old(Remaining())))
    {
      hide Pow128;
      ghost var whole := Remaining();
      var b: byte, k: nat := 0, 0;
      value := 0;
      var more := true;
      while more
        invariant Kept() && whole == old(Remaining())
        invariant Dec64(whole) == if more then Dec64From(Remaining(), k, value) else Some((value, Remaining()))
        decreases bytesLeft, more
      {
        if k >= 10 { return false, 0; }
        ghost var before := Remaining();
        ok, b := ReadByte();
        if !ok { return; }
        assert before[0] == b && before[1..] == Remaining();
        value := value + b % 128 * Pow128(k) % TWO64;
        k := k + 1;
        more := b >= 128;
      }
      ok := true;
    }

    method Skip(count: nat) returns (ok: bool)
      requires Valid()
      modifies this
      ensures Kept() && ok == SkipBytes(old(Remaining()), count).Some?
      ensures ok ==> SkipBytes(old(Remaining()), count) == Some(Remaining())
    {
      var ignored;
      ok, ignored := Read(count);
    }

    method SkipVarintField() returns (ok: bool)
      requires Valid()
      modifies this
      ensures Kept() && ok == SkipVarint(old(Remaining())).Some?
      ensures ok ==> SkipVarint(old(Remaining())) == Some(Remaining())
    {
      ghost var whole := Remaining();
      var more, data := true, [];
      while more
        invariant Kept() && whole == old(Remaining())
        invariant SkipVarint(whole) == if more then SkipVarint(Remaining()) else Some(Remaining())
        decreases bytesLeft, more
      {
        ok, data := Read(1);
        if !ok { return; }
        more := data[0] >= 128;
      }
      ok := true;
    }

    method SkipString() returns (ok: bool)
      requires Valid()
      modifies this
      ensures Kept() && ok == SkipField(old(Remaining()), WtString).Some?
      ensures ok ==> SkipField(old(Remaining()), WtString) == Some(Remaining())
    {
      hide Dec32;
      var length, eof;
      ok, length, eof := DecodeVarint32Eof();
      if ok { ok := Skip(length); }
    }

    method SkipAny(w: WireType) returns (ok: bool)
      requires Valid()
      modifies this
      ensures Kept() && ok == SkipField(old(Remaining()), w).Some?
      ensures ok ==> SkipField(old(Remaining()), w) == Some(Remaining())
    {
      match w
      case WtVarint => ok := SkipVarintField();
      case Wt64Bit => ok := Skip(8);
      case WtString => ok := SkipString();
      case Wt32Bit => ok := Skip(4);
      case WtInvalid => ok := false;
    }

    method DecodeTag() returns (ok: bool, wire: WireType, tag: nat, eof: bool)
      requires Valid()
      modifies this
      ensures Kept() && DecTag(old(Remaining())).Tag? == ok
      ensures !ok ==> eof == DecTag(old(Remaining())).TagEnd?
      ensures !ok && eof ==> DecTag(old(Remaining())).rest == Remaining()
      ensures ok ==> DecTag(old(Remaining())) == Tag(tag, wire, Remaining())
    {
      hide Dec32;
      wire, tag, eof := WtVarint, 0, false;
      var temp;
      ok, temp, eof := DecodeVarint32Eof();
      if !ok { return; }
      if temp == 0 { return false, wire, tag, true; }
      tag, wire := temp / 8, WireOf(temp % 8);
    }

    /** Opens the next length-delimited value as a stream of its own. Until that is closed this stream only knows how
        much it will have left. */
    method MakeSubstream() returns (ok: bool, sub: IStream?)
      requires Valid()
      modifies this
      ensures ok == DecDelimited(old(Remaining())).Some?
      ensures !ok ==> Kept()
      ensures ok ==>
              var (body, rest) := DecDelimited(old(Remaining())).value;
              && sub != null && fresh(sub) && sub.Valid() && sub.buf == buf && sub.Remaining() == body
              && Behind(sub.End()) == rest && sub.End() + bytesLeft == old(End())
    {
      hide Dec32;
      sub := null;
      var size, eof;
      ok, size, eof := DecodeVarint32Eof();
      if !ok { return; }
      if bytesLeft < size { return false, null; }
      sub := new IStream(buf, state, size);
      bytesLeft := bytesLeft - size;
    }

    /** What this stream has left behind a substream that ends here. */
    ghost function Behind(end: nat): seq<byte>
      reads this, buf
    {
      if end + bytesLeft <= buf.Length then buf[end..end + bytesLeft] else []
    }

    method CloseSubstream(sub: IStream)
      requires sub != this && sub.Valid() && sub.buf == buf && sub.End() + bytesLeft <= buf.Length
      modifies this, sub
      ensures Valid() && End() == old(sub.End() + bytesLeft) && Remaining() == old(Behind(sub.End()))
    {
      ghost var behind := Behind(sub.End());
      if sub.bytesLeft > 0 {
        var ok := sub.Skip(sub.bytesLeft);
        assert ok;
        assert |sub.Remaining()| == 0;
      }
      assert sub.bytesLeft == 0;
      state := sub.state;
      assert Remaining() == behind;
    }
  }

  lemma Dec32Start(bytes: seq<byte>)
    ensures bytes == [] ==> Dec32(bytes) == None
    ensures bytes != [] ==>
            Dec32(bytes) ==
            if bytes[0] < 128 then Some((bytes[0], bytes[1..])) else Dec32From(bytes[1..], 1, bytes[0] % 128)
  {
    hide Dec32From;
  }

  /** One byte of the 32-bit reader. */
  lemma Dec32Next(bytes: seq<byte>, k: nat, result: nat)
    requires k >= 1
    ensures bytes == [] ==> Dec32From(bytes, k, result) == None
    ensures bytes != [] ==>
            var b := bytes[0];
            var next := if k >= 5 then result else result + b % 128 * Pow128(k) % TWO32;
            Dec32From(bytes, k, result) ==
            if k >= 5 && b % 128 != 0 && (result < 0x8000_0000 || b != if k < 9 then 0xFF else 0x01) then None
            else if b >= 128 then Dec32From(bytes[1..], k + 1, next)
            else if k == 4 && b / 16 % 8 != 0 then None
            else Some((next, bytes[1..]))
  {
    hide Pow128;
  }

  // ---- Default values.

  method SetToDefaults(fields: seq<Field>, m: Msg) returns (r: Msg)
    requires MsgOk(Shape, fields, m)
    ensures r == DefaultMsg(fields, m)
    decreases fields, 1
  {
    hide DefaultSlot, SlotOk, RequiredCount, DefaultSlots;
    r := m.(which := 0);
    var iter := new FieldIter(fields);
    if fields == [] {
      assert DefaultSlots(fields, m.slots) == [];
      return;
    }
    var more := true;
    ghost var n: nat := 0;
    while more
      modifies iter
      invariant iter.Valid()
      invariant n <= |fields| == |r.slots| && more == (n < |fields|) && (more ==> iter.pos == n)
      invariant r.which == 0 && r.union == m.union
      invariant forall i :: 0 <= i < n ==> r.slots[i] == DefaultSlot(fields[i], m.slots[i])
      invariant forall i :: n <= i < |fields| ==> r.slots[i] == m.slots[i]
      decreases |fields| - n
    {
      var slot := SetFieldToDefault(fields[iter.pos], r.slots[iter.pos]);
      r := r.(slots := r.slots[iter.pos := slot]);
      more := iter.Next();
      n := n + 1;
    }
    forall i | 0 <= i < |fields| ensures r.slots[i] == DefaultSlots(fields, m.slots)[i] {
      DefaultAt(fields, m.slots, i);
    }
    assert r.slots == DefaultSlots(fields, m.slots);
  }

  method SetFieldToDefault(f: Field, slot: Slot) returns (r: Slot)
    requires SlotOk(Shape, f, slot)
    ensures r == DefaultSlot(f, slot)
    decreases f
  {
    r := slot;
    match f.htype
    case Required =>
      var item := SetItemToDefault(f.ltype, slot.item);
      r := Single(item);
    case Optional =>
      var item := SetItemToDefault(f.ltype, slot.item);
      r := Flagged(false, item);
    case Repeated(_) => r := slot.(count := 0);
    case Oneof =>
  }

  method SetItemToDefault(t: LType, item: Item) returns (r: Item)
    requires ItemOk(Shape, t, item)
    ensures r == DefaultItem(t, item)
    decreases t
  {
    if t.MessageT? {
      var m := SetToDefaults(t.fields, item.msg);
      r := MsgV(m);
    } else {
      r := ZeroItem(t);
    }
  }

  // ---- Decoding a message.

  // The library's integer casts: store into the field, then check that nothing was lost.

  lemma ModNear(n: int, p: int)
    requires -p <= n < p
    ensures n % p == if n < 0 then n + p else n
  {}

  lemma CastExact(n: int, bits: nat)
    ensures (Signed(n % TwoTo(bits), bits) == n) == (-(TwoTo(bits) as int) <= 2 * n < TwoTo(bits))
  {
    SignedWithin(n % TwoTo(bits), bits);
    hide TwoTo;
    var p := TwoTo(bits);
    if -p <= 2 * n < p {
      ModNear(n, p);
      ModNear(n % p, p);
    }
  }

  /** Stores a decoded number into its field, refusing one that does not survive the cast. */
  method StoreNumber(t: LType, value: nat) returns (ok: bool, r: Item)
    requires WellFormedType(t) && !t.StringT? && !t.MessageT?
    ensures ok == DecInt(t, value).Some?
    ensures ok ==> DecInt(t, value) == Some(r)
  {
    hide TwoTo, Signed;
    if t.UIntT? {
      var clamped := value % TwoTo(8 * t.width);
      ok, r := clamped == value, IntV(clamped);
      ModExact(value, TwoTo(8 * t.width));
    } else {
      var size := if t.IntT? then t.width else 1;
      var svalue := Signed(value, if size == 8 then 64 else 32);
      var clamped := Signed(svalue % TwoTo(8 * size), 8 * size);
      ok, r := clamped == svalue, IntV(clamped);
      TwoTo8();
      CastExact(svalue, 8 * size);
      SignedWithin(value, if size == 8 then 64 else 32);
    }
  }

  lemma ModExact(n: nat, p: nat)
    requires p > 0
    ensures (n % p == n) == (n < p)
  {}

  method DecodeNumber(input: IStream, t: LType) returns (ok: bool, r: Item)
    requires input.Valid() && WellFormedType(t) && !t.StringT? && !t.MessageT?
    modifies input
    ensures input.Kept() && Agrees(ok, r, input.Remaining(), DecItem(t, false, old(input.Remaining()), IntV(0)))
    ensures ok ==> r.IntV?
  {
    hide Dec64;
    r := IntV(0);
    var value;
    ok, value := input.DecodeVarint();
    if ok { ok, r := StoreNumber(t, value); }
  }

  method DecodeString(input: IStream, size: nat, item: Item) returns (ok: bool, r: Item)
    requires input.Valid() && item.StrV? && |item.buf| == size && size >= 1
    modifies input
    ensures input.Kept()
    ensures Agrees(ok, r, input.Remaining(), DecItem(StringT(size), false, old(input.Remaining()), item))
    ensures ok ==> r.StrV? && |r.buf| == size
  {
    hide Dec32;
    r := item;
    var length, eof, text;
    ok, length, eof := input.DecodeVarint32Eof();
    if !ok { return; }
    if length + 1 > size { return false, r; }
    ok, text := input.Read(length);
    if ok { r := StrV(FillString(item.buf, text)); }
  }

  /** A nested message is what its substream decodes to. */
  lemma SubmessageReads(fields: seq<Field>, entry: bool, bytes: seq<byte>, item: Item)
    requires item.MsgV?
    ensures DecItem(MessageT(fields), entry, bytes, item) ==
            var text := DecDelimited(bytes);
            if text.None? then None
            else
              var body := text.value.0;
              var m := if entry then PbMessage.Decode(fields, body, item.msg) else DecMsg(fields, body, item.msg);
              if m.None? then None else Some((MsgV(m.value.0), text.value.1))
  {
    hide DecDelimited, DecMsg, DefaultMsg;
  }

  method DecodeSubmessage(input: IStream, fields: seq<Field>, entry: bool, item: Item) returns (ok: bool, r: Item)
    requires input.Valid() && WellFormedFields(fields) && item.MsgV? && MsgOk(Shape, fields, item.msg)
    modifies input
    ensures input.Kept()
    ensures Agrees(ok, r, input.Remaining(), DecItem(MessageT(fields), entry, old(input.Remaining()), item))
    ensures ok ==> r.MsgV? && MsgOk(Shape, fields, r.msg)
    decreases fields, 3
  {
    hide DecDelimited, DecMsg, MsgOk, WellFormedFields, PbMessage.Decode, DecItem;
    SubmessageReads(fields, entry, input.Remaining(), item);
    r := item;
    var sub, m;
    ok, sub := input.MakeSubstream();
    if !ok { return; }
    if entry {
      ok, m := Decode(sub, fields, item.msg);
    } else {
      ok, m := DecodeNoInit(sub, fields, item.msg);
    }
    input.CloseSubstream(sub);
    r := MsgV(m);
  }

  method DecodeItem(input: IStream, t: LType, entry: bool, item: Item) returns (ok: bool, r: Item)
    requires input.Valid() && WellFormedType(t) && ItemOk(Shape, t, item)
    modifies input
    ensures input.Kept() && Agrees(ok, r, input.Remaining(), DecItem(t, entry, old(input.Remaining()), item))
    ensures ok ==> ItemOk(Shape, t, r)
    decreases t, 0
  {
    hide DecMsg, MsgOk, WellFormedFields, DecDelimited, FillString;
    match t
    case StringT(size) => ok, r := DecodeString(input, size, item);
    case MessageT(fields) => ok, r := DecodeSubmessage(input, fields, entry, item);
    case _ => ok, r := DecodeNumber(input, t);
  }

  method Decode(input: IStream, fields: seq<Field>, dest: Msg) returns (ok: bool, m: Msg)
    requires input.Valid() && WellFormedFields(fields) && MsgOk(Shape, fields, dest)
    modifies input
    ensures input.Kept()
    ensures Agrees(ok, m, input.Remaining(), PbMessage.Decode(fields, old(input.Remaining()), dest))
    ensures ok ==> MsgOk(Shape, fields, m)
    decreases fields, 2
  {
    hide DecMsg, WellFormedFields;
    m := SetToDefaults(fields, dest);
    MsgDefaultShape(fields, dest);
    ok, m := DecodeNoInit(input, fields, m);
  }

  /** Reads one field into the entry the iterator found. */
  method DecodeField(input: IStream, f: Field, i: nat, m: Msg) returns (ok: bool, r: Msg)
    requires input.Valid() && WellFormedField(f) && i < |m.slots| && SlotOk(Shape, f, m.slots[i])
    modifies input
    ensures input.Kept() && Agrees(ok, r, input.Remaining(), DecField(f, i, old(input.Remaining()), m))
    ensures ok ==> |r.slots| == |m.slots| && SlotOk(Shape, f, r.slots[i])
    ensures ok ==> forall j :: 0 <= j < |m.slots| && j != i ==> r.slots[j] == m.slots[j]
    decreases f
  {
    hide DecItem, ItemOk, WellFormedType;
    r := m;
    var item;
    match f.htype
    case Required =>
      ok, item := DecodeItem(input, f.ltype, false, m.slots[i].item);
      if ok { r := m.(slots := m.slots[i := Single(item)]); }
    case Optional =>
      ok, item := DecodeItem(input, f.ltype, false, m.slots[i].item);
      if ok { r := m.(slots := m.slots[i := Flagged(true, item)]); }
    case Repeated(max) =>
      var slot := m.slots[i];
      if slot.count >= max { return false, r; }
      ok, item := DecodeItem(input, f.ltype, true, slot.items[slot.count]);
      if ok { r := m.(slots := m.slots[i := Counted(slot.count + 1, slot.items[slot.count := item])]); }
    case Oneof =>
      var zero := FreshUnion(f.ltype);
      ok, item := DecodeItem(input, f.ltype, false, zero);
      if ok { r := m.(which := f.tag, union := item); }
  }

  /** The storage of a oneof member that is about to be read: zeroed, and defaults set if it is a message. */
  method FreshUnion(t: LType) returns (item: Item)
    ensures item == ZeroItem(t) && ItemOk(Shape, t, item)
  {
    item := ZeroItem(t);
    ZeroShape(t);
    if t.MessageT? {
      var m := SetToDefaults(t.fields, item.msg);
      DefaultOfZero(t);
      item := MsgV(m);
    }
  }

  /** The field loop and the required-field check. */
  method DecodeNoInit(input: IStream, fields: seq<Field>, m: Msg) returns (ok: bool, r: Msg)
    requires input.Valid() && WellFormedFields(fields) && MsgOk(Shape, fields, m)
    modifies input
    ensures input.Kept() && Agrees(ok, r, input.Remaining(), DecMsg(fields, old(input.Remaining()), m))
    ensures ok ==> MsgOk(Shape, fields, r)
    decreases fields, 1
  {
    hide DecTag, SkipField, DecField, AllSeen, RequiredCount, SlotOk, WellFormedField, Find, MarkSeen;
    var seen := NONE_SEEN;
    var iter := new FieldIter(fields);
    r := m;
    var more := true;
    while more && input.bytesLeft > 0
      modifies iter, input
      invariant iter.Valid() && input.Kept() && |r.slots| == |fields| && MsgOk(Shape, fields, r)
      invariant DecFields(fields, old(input.Remaining()), State(0, NONE_SEEN, m)) ==
                if more then DecFields(fields, input.Remaining(), State(iter.pos, seen, r))
                else Some((State(iter.pos, seen, r), input.Remaining()))
      decreases more, |input.Remaining()|
    {
      var wire, tag, eof;
      ok, wire, tag, eof := input.DecodeTag();
      if !ok {
        if !eof { return; }
        more := false;
      } else {
        var found := iter.Seek(tag);
        if !found {
          ok := input.SkipAny(wire);
          if !ok { return; }
        } else if fields == [] {
          // the terminator itself, which no decoder accepts
          return false, r;
        } else {
          seen := MarkSeen(seen, fields[iter.pos], iter.requiredIndex);
          ok, r := DecodeField(input, fields[iter.pos], iter.pos, r);
          if !ok { return; }
        }
      }
    }
    var count := CountRequired(iter);
    ok := CheckRequired(seen, count);
  }

  /** Steps to the end of the descriptor and counts what is required there. */
  method CountRequired(iter: FieldIter) returns (count: nat)
    requires iter.Valid()
    modifies iter
    ensures count == RequiredCount(iter.fields)
  {
    count := 0;
    var last, more := Optional, true;
    while more
      invariant iter.Valid()
      invariant !more && iter.fields != [] ==>
                last == iter.fields[|iter.fields| - 1].htype && count == RequiredCount(iter.fields[..|iter.fields| - 1])
      invariant !more && iter.fields == [] ==> count == 0
      decreases if more then |iter.fields| - iter.pos else 0, more
    {
      count := iter.requiredIndex;
      if iter.fields != [] { last := iter.fields[iter.pos].htype; }
      more := iter.Next();
    }
    if iter.fields != [] {
      RequiredCountNext(iter.fields, |iter.fields| - 1);
      assert iter.fields[..|iter.fields|] == iter.fields;
      if last.Required? { count := count + 1; }
    }
  }

  method CheckRequired(seen: Bitmap, required: nat) returns (ok: bool)
    ensures ok == AllSeen(seen, required)
  {
    var count := if required > MAX_REQUIRED then MAX_REQUIRED else required;
    if count > 0 {
      for i := 0 to count / 32
        invariant forall j :: 0 <= j < i ==> seen.Word(j) == LowOnes(32)
      {
        if seen.Word(i) != LowOnes(32) { return false; }
      }
      if count % 32 != 0 {
        if seen.Word(count / 32) != LowOnes(count % 32) { return false; }
      }
    }
    ok := true;
  }
}
