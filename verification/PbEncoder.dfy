/** The encoder as the program runs it: streams, the field iterator, and a sizing pass before each submessage. */
module PbEncoder {
  import opened Common
  import opened PbWire
  import opened PbMessage
  import opened PbIterator
  import opened PbSize

  /** An output stream over a window of a buffer, or one that only counts. */
  class OStream {
    const sizing: bool
    const buf: array<byte>
    const start: nat
    const maxSize: nat
    var state: nat              // where the next byte goes
    var bytesWritten: nat
    /** Everything this stream was given. */
    ghost var content: seq<byte>

    ghost predicate Valid()
      reads this, buf
    {
      && bytesWritten == |content|
      && (!sizing ==> state == start + |content| && |content| <= maxSize && start + maxSize <= buf.Length &&
                      buf[start..state] == content)
    }

    constructor Sizing()
      ensures Valid() && content == [] && sizing && fresh(buf)
    {
      sizing, buf, start, maxSize := true, new byte[0], 0, 0;
      state, bytesWritten, content := 0, 0, [];
    }

    constructor Writing(buf: array<byte>, start: nat, maxSize: nat)
      requires start + maxSize <= buf.Length
      ensures Valid() && content == [] && !sizing
      ensures this.buf == buf && this.start == start && this.maxSize == maxSize
    {
      this.sizing, this.buf, this.start, this.maxSize := false, buf, start, maxSize;
      state, bytesWritten, content := start, 0, [];
    }

    /** Would these bytes still fit? */
    ghost predicate Room(bytes: seq<byte>)
      reads this
    {
      sizing || |content| + |bytes| <= maxSize
    }

    /** Outside the window the buffer is as it was. */
    twostate predicate Framed()
      reads buf
    {
      forall k :: 0 <= k < buf.Length && !(start <= k < start + maxSize) ==> buf[k] == old(buf[k])
    }

    /** The stream took exactly what a successful encoding produces, or there was none or no room for it. */
    twostate predicate Took(ok: bool, new bytes: Option<seq<byte>>)
      reads this, buf
    {
      && Valid() && Framed()
      && ok == (bytes.Some? && old(Room(bytes.value)))
      && (ok ==> content == old(content) + bytes.value)
    }

    method Write(bytes: seq<byte>) returns (ok: bool)
      requires Valid()
      modifies this, buf
      ensures Took(ok, Some(bytes))
    {
      if !sizing {
        if bytesWritten + |bytes| > maxSize { return false; }
        var dest := state;
        state := dest + |bytes|;
        for i := 0 to |bytes|
          modifies buf
          invariant buf[start..dest] == content
          invariant forall k :: 0 <= k < i ==> buf[dest + k] == bytes[k]
          invariant forall k :: 0 <= k < buf.Length && !(dest <= k < dest + |bytes|) ==> buf[k] == old(buf[k])
        {
          buf[dest + i] := bytes[i];
        }
        assert buf[start..state] == buf[start..dest] + buf[dest..state];
        assert buf[dest..state] == bytes;
      }
      bytesWritten := bytesWritten + |bytes|;
      content := content + bytes;
      return true;
    }

    /** A sizing stream only counts. */
    method Count(size: nat, ghost bytes: seq<byte>)
      requires Valid() && sizing && size == |bytes|
      modifies this
      ensures Valid() && content == old(content) + bytes
    {
      bytesWritten := bytesWritten + size;
      content := content + bytes;
    }

    /** Counts what a substream over the next bytes of the window has written. */
    method Adopt(sub: OStream)
      requires Valid() && sub.Valid() && !sizing && !sub.sizing && sub != this
      requires sub.buf == buf && sub.start == state && |content| + |sub.content| <= maxSize
      modifies this
      ensures Valid() && content == old(content) + sub.content
    {
      bytesWritten := bytesWritten + sub.bytesWritten;
      state := sub.state;
      content := content + sub.content;
      assert buf[start..state] == buf[start..old(state)] + buf[old(state)..state];
    }

    method EncodeVarint(value: nat) returns (ok: bool)
      requires Valid() && value < TWO64
      modifies this, buf
      ensures Took(ok, Some(EncVarint(value)))
    {
      if value <= 0x7F {
        ok := Write([value]);
        return;
      }
      var digits := VarintDigits(value);
      ok := Write(digits);
    }

    method EncodeTag(tag: nat, w: WireType) returns (ok: bool)
      requires Valid() && 8 * tag + 7 < TWO32
      modifies this, buf
      ensures Took(ok, Some(EncTag(tag, w)))
    {
      ok := EncodeVarint(8 * tag + WireCode(w));
    }

    method EncodeString(bytes: seq<byte>) returns (ok: bool)
      requires Valid() && |bytes| < TWO64
      modifies this, buf
      ensures Took(ok, Some(Delimited(bytes)))
    {
      ok := EncodeVarint(|bytes|);
      if ok { ok := Write(bytes); }
      assert old(content) + EncVarint(|bytes|) + bytes == old(content) + Delimited(bytes);
    }
  }

  lemma DigitLeft(rest: nat, k: nat)
    requires 0 < rest < Pow128(k)
    ensures k > 0 && rest / 128 < Pow128(k - 1)
  {}

  lemma DigitStep(prefix: seq<byte>, rest: nat, whole: seq<byte>)
    requires rest > 0 && whole == prefix + EncVarint(rest)
    ensures rest >= 128 ==> whole == prefix + [rest % 128 + 128] + EncVarint(rest / 128)
    ensures rest < 128 ==> whole == prefix + [rest % 128]
  {}

  /** Fills a ten-byte buffer with the digits of a multi-byte varint, low ones first. */
  method VarintDigits(value: nat) returns (digits: seq<byte>)
    requires 0x7F < value < TWO64
    ensures digits == EncVarint(value)
  {
    hide EncVarint, Pow128;
    var buffer := new byte[10](_ => 0);
    var i: nat, rest: nat := 0, value;
    PowerValues();
    PowStep(9);
    assert EncVarint(value) == buffer[..0] + EncVarint(value);
    while rest != 0
      invariant 0 <= i <= 10 && rest < Pow128(10 - i)
      invariant rest > 0 ==> EncVarint(value) == buffer[..i] + EncVarint(rest)
      invariant rest == 0 ==> i > 0 && buffer[i - 1] >= 128
      invariant rest == 0 ==> EncVarint(value) == buffer[..i - 1] + [buffer[i - 1] - 128]
      decreases rest
    {
      ghost var before := buffer[..i];
      DigitLeft(rest, 10 - i);
      DigitStep(before, rest, EncVarint(value));
      buffer[i] := rest % 128 + 128;
      assert buffer[..i] == before && buffer[..i + 1] == before + [rest % 128 + 128];
      rest := rest / 128;
      i := i + 1;
    }
    assert buffer[..i - 1] + [buffer[i - 1] - 128] == EncVarint(value);
    buffer[i - 1] := buffer[i - 1] - 128;
    assert buffer[..i] == buffer[..i - 1] + [buffer[i - 1]];
    digits := buffer[..i];
  }

  // ---- Encoding a message.

  /** The string encoder measures the text itself, stopping at the end of the storage. */
  method TextLength(buf: seq<byte>) returns (size: nat)
    ensures size <= |buf| && buf[..size] == CString(buf)
  {
    size := 0;
    while size < |buf| && buf[size] != 0
      invariant 0 <= size <= |buf|
      invariant CString(buf) == buf[..size] + CString(buf[size..])
    {
      assert buf[..size + 1] == buf[..size] + [buf[size]];
      assert buf[size..][1..] == buf[size + 1..];
      size := size + 1;
    }
    assert CString(buf[size..]) == [];
  }

  /** Every number in range is a 64-bit word. */
  lemma IntFits(t: LType, item: Item)
    requires WellFormedType(t) && ItemOk(Range, t, item) && !t.StringT? && !t.MessageT?
    ensures item.IntV? && -TWO64 <= item.n && Unsigned64(item.n) < TWO64
  {
    hide TwoTo;
    TwoToValues();
    TwoToGrows(32, 64);
  }

  method EncodeItem(out: OStream, t: LType, item: Item) returns (ok: bool)
    requires out.Valid() && WellFormedType(t) && ItemOk(Range, t, item)
    modifies out, out.buf
    ensures out.Took(ok, EncItem(t, item))
    decreases t, 0
  {
    match t
    case StringT(_) =>
      var size := TextLength(item.buf);
      ok := out.EncodeString(item.buf[..size]);
    case MessageT(fields) =>
      ok := EncodeSubmessage(out, fields, item.msg);
    case _ =>
      IntFits(t, item);
      ok := out.EncodeVarint(Unsigned64(item.n));
  }

  method EncodeTagged(out: OStream, f: Field, item: Item) returns (ok: bool)
    requires out.Valid() && WellFormedField(f) && ItemOk(Range, f.ltype, item)
    modifies out, out.buf
    ensures out.Took(ok, EncTagged(f, item))
    decreases f, 0
  {
    hide EncVarint, EncItem, ItemOk, WellFormedType;
    ok := out.EncodeTag(f.tag, WireTypeFor(f.ltype));
    if ok {
      ok := EncodeItem(out, f.ltype, item);
    }
  }

  /** What is encoded in all, when this much is done and the rest is still to come. */
  function After(done: seq<byte>, rest: Option<seq<byte>>): Option<seq<byte>> {
    if rest.None? then None else Some(done + rest.value)
  }

  lemma AfterNothing(rest: Option<seq<byte>>)
    ensures After([], rest) == rest
  {
    if rest.Some? { assert [] + rest.value == rest.value; }
  }

  method EncodeArray(out: OStream, f: Field, count: nat, items: seq<Item>) returns (ok: bool)
    requires out.Valid() && WellFormedField(f) && f.htype.Repeated? && |items| == f.htype.max
    requires forall i :: 0 <= i < count && i < |items| ==> ItemOk(Range, f.ltype, items[i])
    modifies out, out.buf
    ensures out.Took(ok, if count <= |items| then EncEach(f, items[..count]) else None)
    decreases f, 1
  {
    hide EncTagged, ItemOk, WellFormedType;
    if count == 0 { return true; }
    if count > f.htype.max { return false; }
    ghost var done: seq<byte> := [];
    AfterNothing(EncEach(f, items[..count]));
    assert items[0..count] == items[..count];
    for i := 0 to count
      modifies out, out.buf
      invariant out.Valid() && out.Framed() && out.content == old(out.content) + done && old(out.Room(done))
      invariant EncEach(f, items[..count]) == After(done, EncEach(f, items[i..count]))
    {
      EachNext(f, items, count, i, done);
      ok := EncodeTagged(out, f, items[i]);
      if !ok { return false; }
      done := done + EncTagged(f, items[i]).value;
    }
    assert items[count..count] == [];
    ok := true;
  }

  lemma EachNext(f: Field, items: seq<Item>, count: nat, i: nat, done: seq<byte>)
    requires i < count <= |items|
    ensures var first := EncTagged(f, items[i]);
            After(done, EncEach(f, items[i..count])) ==
            if first.None? then None else After(done + first.value, EncEach(f, items[i + 1..count]))
  {
    hide EncTagged;
    assert items[i..count][1..] == items[i + 1..count];
    var first, rest := EncTagged(f, items[i]), EncEach(f, items[i + 1..count]);
    if first.Some? && rest.Some? { assert done + (first.value + rest.value) == done + first.value + rest.value; }
  }

  method EncodeField(out: OStream, f: Field, slot: Slot, which: nat, union: Item) returns (ok: bool)
    requires out.Valid() && WellFormedField(f) && SlotOk(Range, f, slot) && MemberOk(Range, f, which, union)
    modifies out, out.buf
    ensures out.Took(ok, EncSlot(f, slot, which, union))
    decreases f, 2
  {
    hide EncTagged, EncEach, ItemOk, WellFormedField;
    ok := true;
    match f.htype
    case Required => ok := EncodeTagged(out, f, slot.item);
    case Optional => if slot.has { ok := EncodeTagged(out, f, slot.item); }
    case Repeated(_) => ok := EncodeArray(out, f, slot.count, slot.items);
    case Oneof => if which == f.tag { ok := EncodeTagged(out, f, union); }
  }

  lemma SlotsNext(fs: seq<Field>, m: Msg, n: nat, done: seq<byte>)
    requires n < |fs| == |m.slots|
    ensures var first := EncSlot(fs[n], m.slots[n], m.which, m.union);
            After(done, EncSlots(fs[n..], m.slots[n..], m.which, m.union)) ==
            if first.None? then None
            else After(done + first.value, EncSlots(fs[n + 1..], m.slots[n + 1..], m.which, m.union))
  {
    hide EncSlot;
    assert fs[n..][1..] == fs[n + 1..] && m.slots[n..][1..] == m.slots[n + 1..];
    var first := EncSlot(fs[n], m.slots[n], m.which, m.union);
    var rest := EncSlots(fs[n + 1..], m.slots[n + 1..], m.which, m.union);
    if first.Some? && rest.Some? { assert done + (first.value + rest.value) == done + first.value + rest.value; }
  }

  lemma EncodeStart(fs: seq<Field>, m: Msg)
    ensures EncMsg(fs, m) == After([], EncSlots(fs[0..], m.slots[0..], m.which, m.union))
  {
    hide EncSlots;
    AfterNothing(EncMsg(fs, m));
    assert fs[0..] == fs && m.slots[0..] == m.slots;
  }

  lemma EncodeEnd(fs: seq<Field>, m: Msg, done: seq<byte>)
    requires MsgOk(Range, fs, m)
    ensures |m.slots| == |fs| && After(done, EncSlots(fs[|fs|..], m.slots[|fs|..], m.which, m.union)) == Some(done)
  {
    hide SlotOk;
    assert fs[|fs|..] == [] && done + [] == done;
  }

  lemma EntryConforms(fs: seq<Field>, m: Msg, n: nat)
    requires n < |fs| && WellFormedFields(fs) && MsgOk(Range, fs, m)
    ensures |m.slots| == |fs| && WellFormedField(fs[n])
    ensures SlotOk(Range, fs[n], m.slots[n]) && MemberOk(Range, fs[n], m.which, m.union)
  {
    hide SlotOk, MemberOk, WellFormedField;
  }

  /** On any stream the encoder takes exactly the bytes of the message, or refuses. */
  method PbEncode(out: OStream, fields: seq<Field>, m: Msg) returns (ok: bool)
    requires out.Valid() && WellFormedFields(fields) && MsgOk(Range, fields, m)
    modifies out, out.buf
    ensures out.Took(ok, EncMsg(fields, m))
    decreases fields, 1
  {
    hide EncSlot, EncSlots, EncMsg, SlotOk, MemberOk, MsgOk, WellFormedField, WellFormedFields, RequiredCount;
    var iter := new FieldIter(fields);
    EncodeStart(fields, m);
    EncodeEnd(fields, m, []);
    if fields == [] { return true; }
    var more := true;
    ghost var n, done: seq<byte> := 0, [];
    while more
      modifies iter, out, out.buf
      invariant iter.Valid() && out.Valid() && out.Framed()
      invariant n <= |fields| == |m.slots| && more == (n < |fields|) && (more ==> iter.pos == n)
      invariant out.content == old(out.content) + done && old(out.Room(done))
      invariant EncMsg(fields, m) == After(done, EncSlots(fields[n..], m.slots[n..], m.which, m.union))
      decreases |fields| - n
    {
      EntryConforms(fields, m, n);
      SlotsNext(fields, m, n, done);
      ok := EncodeField(out, fields[iter.pos], m.slots[iter.pos], m.which, m.union);
      if !ok { return false; }
      done := done + EncSlot(fields[n], m.slots[n], m.which, m.union).value;
      more := iter.Next();
      n := n + 1;
    }
    EncodeEnd(fields, m, done);
    ok := true;
  }

  /** A submessage is sized first, then written into a window of exactly that size. */
  method EncodeSubmessage(out: OStream, fields: seq<Field>, m: Msg) returns (ok: bool)
    requires out.Valid() && WellFormedFields(fields) && MaxMsg(STORED, fields) < TWO32 && MsgOk(Range, fields, m)
    modifies out, out.buf
    ensures out.Took(ok, if EncMsg(fields, m).None? then None else Some(Delimited(EncMsg(fields, m).value)))
    decreases fields, 3
  {
    hide EncMsg, EncVarint, MsgOk, WellFormedFields;
    var sizer := new OStream.Sizing();
    ok := PbEncode(sizer, fields, m);
    if !ok { return false; }
    ghost var body := EncMsg(fields, m).value;
    var size := sizer.bytesWritten;
    MsgBound(STORED, fields, m);
    ok := out.EncodeVarint(size);
    if !ok { return false; }
    if out.sizing {
      out.Count(size, body);
      return true;
    }
    ok := EncodeBody(out, fields, m, size);
  }

  /** The nested message itself, into the next size bytes of the window. */
  method EncodeBody(out: OStream, fields: seq<Field>, m: Msg, size: nat) returns (ok: bool)
    requires out.Valid() && !out.sizing && WellFormedFields(fields) && MsgOk(Range, fields, m)
    requires EncMsg(fields, m).Some? && size == |EncMsg(fields, m).value|
    modifies out, out.buf
    ensures out.Took(ok, EncMsg(fields, m))
    decreases fields, 2
  {
    hide EncMsg, MsgOk, WellFormedFields;
    if out.bytesWritten + size > out.maxSize { return false; }
    var sub := new OStream.Writing(out.buf, out.state, size);
    ok := PbEncode(sub, fields, m);
    out.Adopt(sub);
    // "submsg size changed" does not happen
    if sub.bytesWritten != size { assert false; }
  }

  /** The size alone, by encoding to a stream that only counts. */
  method GetEncodedSize(fields: seq<Field>, m: Msg) returns (ok: bool, size: nat)
    requires WellFormedFields(fields) && MsgOk(Range, fields, m)
    ensures ok == EncMsg(fields, m).Some?
    ensures ok ==> size == |EncMsg(fields, m).value|
  {
    var stream := new OStream.Sizing();
    ok := PbEncode(stream, fields, m);
    size := stream.bytesWritten;
  }
}
