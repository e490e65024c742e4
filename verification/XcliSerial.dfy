/** Named fields on the wire: the serializer, the deserializer, and the typed accessors. */
module XcliSerial {
  import opened Common

  const MAX_FIELD_NAME := 16
  const MAX_FIELD_DATA := 64

  // ---- Fields.

  datatype Field = Field(name: seq<byte>, kind: byte, data: seq<byte>)

  /** A name has one length byte, the data two. */
  type WireField = f: Field | |f.name| < 256 && |f.data| < 65536 witness Field([], 0, [])

  function Word(n: nat): (r: seq<byte>)
    requires n < 65536
    ensures |r| == 2
  {
    [n % 256, n / 256]
  }

  function Wire(f: WireField): (r: seq<byte>)
    ensures |r| == 4 + |f.name| + |f.data|
  {
    [|f.name|] + f.name + [f.kind] + Word(|f.data|) + f.data
  }

  /** Byte by byte: the length of the name, the name, the type code, the length of the data, low byte first, the data.
      */
  lemma WireLayout(f: WireField)
    ensures var w, n := Wire(f), |f.name|;
            var low: nat, high: nat := w[2 + n], w[3 + n];
            && w[0] == n && w[1..1 + n] == f.name && w[1 + n] == f.kind
            && low + 256 * high == |f.data| && w[4 + n..] == f.data
  {}

  function WireAll(fs: seq<WireField>): seq<byte> {
    if fs == [] then [] else Wire(fs[0]) + WireAll(fs[1..])
  }

  lemma {:induction false} WireConcat(a: seq<WireField>, b: seq<WireField>)
    ensures WireAll(a + b) == WireAll(a) + WireAll(b)
  {
    hide Wire;
    if a == [] {
      assert a + b == b;
    } else {
      assert (a + b)[1..] == a[1..] + b;
      WireConcat(a[1..], b);
      assert Wire(a[0]) + (WireAll(a[1..]) + WireAll(b)) == Wire(a[0]) + WireAll(a[1..]) + WireAll(b);
    }
  }

  lemma WireOne(f: WireField)
    ensures WireAll([f]) == Wire(f)
  {
    hide Wire;
    assert [f][1..] == [] && Wire(f) + [] == Wire(f);
  }

  // ---- What a reader sees of a field: its name and data cut to the reader's storage, the data padded with zeros.

  datatype View = View(name: seq<byte>, kind: byte, data: seq<byte>, dataLen: nat)

  function Prefix(s: seq<byte>, n: nat): (r: seq<byte>)
    ensures r <= s && |r| == if |s| < n then |s| else n
  {
    if |s| <= n then s else s[..n]
  }

  function Zeros(n: nat): (r: seq<byte>)
    ensures |r| == n
  {
    seq(n, _ => 0)
  }

  function Padded(s: seq<byte>, n: nat): (r: seq<byte>)
    ensures |r| == n
    ensures forall i :: 0 <= i < n ==> r[i] == if i < |s| then s[i] else 0
  {
    if |s| >= n then s[..n] else s + Zeros(n - |s|)
  }

  function Seen(f: Field): View {
    View(Prefix(f.name, MAX_FIELD_NAME), f.kind, Padded(f.data, MAX_FIELD_DATA), |f.data|)
  }

  /** At most 16 characters of the name and 64 bytes of the data, zeros behind them, and the length as it was sent. */
  lemma SeenOf(f: Field)
    ensures var v := Seen(f);
            && v.name == (if |f.name| < 16 then f.name else f.name[..16]) && v.kind == f.kind
            && |v.data| == 64 && v.dataLen == |f.data|
            && forall i :: 0 <= i < 64 ==> v.data[i] == if i < |f.data| then f.data[i] else 0
  {}

  datatype Next = End | Malformed | Got(view: View, rest: seq<byte>)

  /** The field at the front of the buffer. */
  function FirstField(bytes: seq<byte>): (r: Next)
    ensures r.Got? ==> |r.rest| < |bytes|
  {
    if bytes == [] then End
    else
      var nameLen: nat := bytes[0];
      if |bytes| < 1 + nameLen + 3 then Malformed
      else FirstData(bytes[1..1 + nameLen], bytes[1 + nameLen], bytes[2 + nameLen..])
  }

  /** The rest of it, from the data length on. */
  function FirstData(name: seq<byte>, kind: byte, bytes: seq<byte>): (r: Next)
    requires |bytes| >= 2
    ensures r.Got? ==> |r.rest| < |bytes|
  {
    var low: nat, high: nat := bytes[0], bytes[1];
    var length := low + 256 * high;
    if |bytes[2..]| < length then Malformed
    else Got(Seen(Field(name, kind, bytes[2..][..length])), bytes[2..][length..])
  }

  /** All fields up to the end of the buffer, and whether it ended cleanly. */
  function AllFields(bytes: seq<byte>): (seq<View>, bool)
    decreases |bytes|
  {
    match FirstField(bytes)
    case End => ([], true)
    case Malformed => ([], false)
    case Got(view, rest) => var (views, ok) := AllFields(rest); ([view] + views, ok)
  }

  function SeenAll(fs: seq<WireField>): (r: seq<View>)
    ensures |r| == |fs|
  {
    if fs == [] then [] else [Seen(fs[0])] + SeenAll(fs[1..])
  }

  lemma FirstOfWire(f: WireField, rest: seq<byte>)
    ensures FirstField(Wire(f) + rest) == Got(Seen(f), rest)
  {
    hide Seen;
    var bytes, n := Wire(f) + rest, |f.name|;
    var body := f.data + rest;
    assert bytes == [n] + f.name + [f.kind] + Word(|f.data|) + body;
    WireParts(n, f.name, f.kind, Word(|f.data|), body);
    assert body[..|f.data|] == f.data && body[|f.data|..] == rest;
    assert bytes[2 + n..][2..] == body;
    assert Field(f.name, f.kind, f.data) == f;
  }

  lemma WireParts(n: byte, name: seq<byte>, kind: byte, word: seq<byte>, body: seq<byte>)
    requires |name| == n && |word| == 2
    ensures var bytes := [n] + name + [kind] + word + body;
            && bytes[0] == n && bytes[1..1 + n] == name && bytes[1 + n] == kind
            && bytes[2 + n] == word[0] && bytes[3 + n] == word[1] && bytes[4 + n..] == body
  {}

  /** The reader gets a field exactly when the buffer begins with a complete one, and then that one. */
  lemma FirstComplete(bytes: seq<byte>) returns (f: WireField)
    ensures FirstField(bytes).Got? ==>
            bytes == Wire(f) + FirstField(bytes).rest && FirstField(bytes).view == Seen(f)
    ensures FirstField(bytes).End? <==> bytes == []
    ensures forall g: WireField, rest: seq<byte> :: bytes == Wire(g) + rest ==> FirstField(bytes) == Got(Seen(g), rest)
  {
    hide Seen;
    f := Field([], 0, []);
    if FirstField(bytes).Got? {
      var n: nat := bytes[0];
      var low: nat, high: nat := bytes[2 + n], bytes[3 + n];
      f := Field(bytes[1..1 + n], bytes[1 + n], bytes[4 + n..4 + n + low + 256 * high]);
      TakenApart(bytes, n, low + 256 * high);
    }
    forall g: WireField, rest: seq<byte> | bytes == Wire(g) + rest ensures FirstField(bytes) == Got(Seen(g), rest) {
      FirstOfWire(g, rest);
    }
  }

  lemma TakenApart(bytes: seq<byte>, n: nat, m: nat)
    requires 4 + n + m <= |bytes| && bytes[0] == n && m < 65536
    requires bytes[2 + n] == m % 256 && bytes[3 + n] == m / 256
    ensures n < 256
    ensures var f: WireField := Field(bytes[1..1 + n], bytes[1 + n], bytes[4 + n..4 + n + m]);
            bytes == Wire(f) + bytes[4 + n + m..]
    ensures bytes[2 + n..][2..][..m] == bytes[4 + n..4 + n + m] && bytes[2 + n..][2..][m..] == bytes[4 + n + m..]
  {
    assert bytes == [bytes[0]] + bytes[1..1 + n] + [bytes[1 + n]] + [bytes[2 + n], bytes[3 + n]] +
                    bytes[4 + n..4 + n + m] + bytes[4 + n + m..];
  }

  /** Reading back a buffer of fields yields them all, in order, cut to the reader's storage. */
  lemma {:induction false} FieldsRoundTrip(fs: seq<WireField>)
    ensures AllFields(WireAll(fs)) == (SeenAll(fs), true)
  {
    hide Wire, FirstField, Seen;
    if fs == [] {
      assert FirstField([]) == End by { NothingLeft(); }
    } else {
      FirstOfWire(fs[0], WireAll(fs[1..]));
      FieldsRoundTrip(fs[1..]);
    }
  }

  lemma NothingLeft()
    ensures FirstField([]) == End
  {}

  // ---- Typed values.

  /** A float is its bit pattern. */
  datatype Value =
    | U8(n: nat) | U16(n: nat) | U32(n: nat)
    | I8(i: int) | I16(i: int) | I32(i: int) | F32(bits: nat)
    | Flag(b: bool) | Str(chars: seq<byte>) | Raw(bytes: seq<byte>)

  predicate InRange(v: Value) {
    match v
    case U8(n) => n < 0x100
    case U16(n) => n < 0x1_0000
    case U32(n) => n < 0x1_0000_0000
    case I8(i) => -0x80 <= i < 0x80
    case I16(i) => -0x8000 <= i < 0x8000
    case I32(i) => -0x8000_0000 <= i < 0x8000_0000
    case F32(bits) => bits < 0x1_0000_0000
    case Flag(_) => true
    case Str(chars) => |chars| < 65536 && 0 !in chars
    case Raw(bytes) => |bytes| < 65536
  }

  function Kind(v: Value): byte {
    match v
    case U8(_) => 1 case U16(_) => 2 case U32(_) => 3 case I8(_) => 4 case I16(_) => 5 case I32(_) => 6
    case F32(_) => 7 case Flag(_) => 8 case Str(_) => 9 case Raw(_) => 10
  }

  /** A number in this many bytes, low byte first. */
  function Little(n: nat, width: nat): (r: seq<byte>)
    ensures |r| == width
  {
    if width == 0 then [] else [n % 256] + Little(n / 256, width - 1)
  }

  function FromLittle(b: seq<byte>): nat {
    if b == [] then 0 else var low: nat := b[0]; low + 256 * FromLittle(b[1..])
  }

  function Pow256(k: nat): nat { if k == 0 then 1 else 256 * Pow256(k - 1) }

  lemma {:induction false} LittleRoundTrip(n: nat, width: nat)
    requires n < Pow256(width)
    ensures FromLittle(Little(n, width)) == n
  {
    if width == 0 {
    } else {
      LittleRoundTrip(n / 256, width - 1);
    }
  }

  /** Byte by byte. */
  lemma LittleBytes(n: nat)
    ensures Little(n, 1) == [n % 0x100] && Little(n, 2) == [n % 0x100, n / 0x100 % 0x100]
    ensures Little(n, 4) == [n % 0x100, n / 0x100 % 0x100, n / 0x1_0000 % 0x100, n / 0x100_0000 % 0x100]
  {
    assert Little(n / 0x100 / 0x100, 2) == [n / 0x100 / 0x100 % 0x100] + Little(n / 0x100 / 0x100 / 0x100, 1);
    assert n / 0x100 / 0x100 == n / 0x1_0000 && n / 0x1_0000 / 0x100 == n / 0x100_0000;
  }

  function Data(v: Value): seq<byte>
    requires InRange(v)
  {
    match v
    case U8(n) => Little(n, 1)
    case U16(n) => Little(n, 2)
    case U32(n) => Little(n, 4)
    case I8(i) => Little(i % 0x100, 1)
    case I16(i) => Little(i % 0x1_0000, 2)
    case I32(i) => Little(i % 0x1_0000_0000, 4)
    case F32(bits) => Little(bits, 4)
    case Flag(b) => [if b then 1 else 0]
    case Str(chars) => chars
    case Raw(bytes) => bytes
  }

  /** The unsigned accessors: zero when the field is too short. */
  function FieldUnsigned(view: View, width: nat): nat
    requires |view.data| >= width
  {
    if view.dataLen < width then 0 else FromLittle(view.data[..width])
  }

  /** The signed ones reinterpret the same bits. */
  function FieldSigned(view: View, width: nat): int
    requires |view.data| >= width
  {
    var n := FieldUnsigned(view, width);
    if 2 * n < Pow256(width) then n else n - Pow256(width)
  }

  function FieldBool(view: View): bool
    requires |view.data| >= 1
  {
    view.dataLen >= 1 && view.data[0] != 0
  }

  lemma PaddedKeeps(s: seq<byte>, n: nat)
    requires |s| <= n
    ensures Padded(s, n)[..|s|] == s
  {}

  lemma Pow256Values()
    ensures Pow256(1) == 0x100 && Pow256(2) == 0x1_0000 && Pow256(4) == 0x1_0000_0000
  {
    assert Pow256(4) == 256 * Pow256(3) == 65536 * Pow256(2);
  }

  lemma UnsignedBack(name: seq<byte>, kind: byte, n: nat, width: nat)
    requires width <= MAX_FIELD_DATA && n < Pow256(width)
    ensures FieldUnsigned(Seen(Field(name, kind, Little(n, width))), width) == n
  {
    hide Pow256, Little, FromLittle, Padded;
    LittleRoundTrip(n, width);
    PaddedKeeps(Little(n, width), MAX_FIELD_DATA);
  }

  lemma SignedBack(name: seq<byte>, kind: byte, i: int, width: nat)
    requires width <= MAX_FIELD_DATA && -(Pow256(width) as int) <= 2 * i < Pow256(width) && Pow256(width) > 0
    ensures FieldSigned(Seen(Field(name, kind, Little(i % Pow256(width), width))), width) == i
  {
    hide Pow256, Little, Seen, FieldUnsigned;
    var p := Pow256(width);
    if i < 0 { ModBelow(i, p); } else { ModBelow(i - p, p); ModShift(i, p); }
    UnsignedBack(name, kind, i % p, width);
  }

  lemma ModBelow(i: int, p: int)
    requires 0 < p && -p <= i < 0
    ensures i % p == i + p
  {}

  lemma ModShift(i: int, p: int)
    requires 0 <= i < p
    ensures i % p == i
  {}

  /** Every value put is read back by the accessor of its type, under the type's code. */
  lemma NumberRoundTrip(name: seq<byte>, v: Value)
    requires InRange(v)
    ensures var view := Seen(Field(name, Kind(v), Data(v)));
            match v
            case U8(n) => view.kind == 1 && FieldUnsigned(view, 1) == n
            case U16(n) => view.kind == 2 && FieldUnsigned(view, 2) == n
            case U32(n) => view.kind == 3 && FieldUnsigned(view, 4) == n
            case I8(i) => view.kind == 4 && FieldSigned(view, 1) == i
            case I16(i) => view.kind == 5 && FieldSigned(view, 2) == i
            case I32(i) => view.kind == 6 && FieldSigned(view, 4) == i
            case F32(bits) => view.kind == 7 && FieldUnsigned(view, 4) == bits
            case Flag(b) => view.kind == 8 && FieldBool(view) == b && view.data[0] == if b then 1 else 0
            case Str(chars) => view.kind == 9 && view.dataLen == |chars| && view.data == Padded(chars, 64)
            case Raw(bytes) => view.kind == 10 && view.dataLen == |bytes| && view.data == Padded(bytes, 64)
  {
    hide Little, Pow256, FieldUnsigned, FieldSigned;
    Pow256Values();
    match v {
      case U8(n) => UnsignedBack(name, Kind(v), n, 1);
      case U16(n) => UnsignedBack(name, Kind(v), n, 2);
      case U32(n) => UnsignedBack(name, Kind(v), n, 4);
      case I8(i) => SignedBack(name, Kind(v), i, 1);
      case I16(i) => SignedBack(name, Kind(v), i, 2);
      case I32(i) => SignedBack(name, Kind(v), i, 4);
      case F32(bits) => UnsignedBack(name, Kind(v), bits, 4);
      case _ =>
    }
  }

  lemma WireShape(f: WireField)
    ensures Wire(f) == [|f.name|] + f.name + [f.kind] + [|f.data| % 256] + [|f.data| / 256] + f.data
  {}

  lemma Regroup<T>(z: seq<T>, a: seq<T>, b: seq<T>, c: seq<T>, d: seq<T>, e: seq<T>, f: seq<T>)
    ensures z + a + b + c + d + e + f == z + (a + b + c + d + e + f)
    ensures f == [] ==> z + a + b + c + d + e == z + (a + b + c + d + e + f)
  {}

  // ---- The serializer.

  class Serializer {
    const buf: array<byte>
    const cap: nat
    var pos: nat
    var error: bool
    /** The fields written so far. */
    ghost var fields: seq<WireField>

    ghost predicate Valid()
      reads this, buf
    {
      cap <= buf.Length && pos <= cap < 65536 && buf[..pos] == WireAll(fields)
    }

    constructor (buf: array<byte>, cap: nat)
      requires cap <= buf.Length && cap < 65536
      ensures Valid() && fields == [] && !error && this.buf == buf && this.cap == cap
    {
      this.buf, this.cap, pos, error, fields := buf, cap, 0, false, [];
    }

    /** Copies into the buffer at the current position. */
    method Copy(bytes: seq<byte>)
      requires pos + |bytes| <= cap <= buf.Length
      modifies this`pos, buf
      ensures pos == old(pos) + |bytes| && buf[..pos] == old(buf[..pos]) + bytes
      ensures buf[cap..] == old(buf[cap..])
    {
      ghost var before := buf[..pos];
      for i := 0 to |bytes|
        modifies buf
        invariant buf[..pos] == before && buf[pos..pos + i] == bytes[..i]
        invariant forall k :: pos + |bytes| <= k < buf.Length ==> buf[k] == old(buf[k])
      {
        buf[pos + i] := bytes[i];
      }
      assert buf[..pos + |bytes|] == buf[..pos] + buf[pos..pos + |bytes|];
      pos := pos + |bytes|;
    }

    /** The space check sees the low 16 bits of a field's size: a caller must not offer a field of 65536 bytes or more
        whose low bits would pass it. */
    ghost predicate Checkable(size: nat)
      reads this
    {
      error || size < 65536 || cap - pos < size % 65536
    }

    /** Writes a whole field or none: one that does not fit sets the error flag, and then nothing more is written. */
    method PutField(name: seq<byte>, kind: byte, data: seq<byte>)
      requires Valid() && 0 !in name && |data| < 65536 && Checkable(|Prefix(name, 255)| + |data| + 4)
      modifies this, buf
      ensures Valid()
      ensures var f: WireField := Field(Prefix(name, 255), kind, data);
              var fits := !old(error) && old(pos) + |Wire(f)| <= cap;
              && error == !fits
              && fields == (if fits then old(fields) + [f] else old(fields))
      ensures buf[cap..] == old(buf[cap..])
    {
      hide WireAll;
      if error { return; }
      var nameLen: nat := 0;
      while nameLen < |name| && nameLen < 255
        invariant nameLen <= |name| && nameLen <= 255
      {
        nameLen := nameLen + 1;
      }
      var cut := name[..nameLen];
      assert cut == Prefix(name, 255);
      var needed := (1 + nameLen + 1 + 2 + |data|) % 65536;
      if cap - pos < needed {
        error := true;
        return;
      }
      CopyField(Field(cut, kind, data));
    }

    /** The copying part of a write that is known to fit. */
    method CopyField(f: WireField)
      requires Valid() && pos + |Wire(f)| <= cap
      modifies this`pos, this`fields, buf
      ensures Valid() && fields == old(fields) + [f] && buf[cap..] == old(buf[cap..])
    {
      hide Wire, WireAll;
      WireShape(f);
      ghost var before := buf[..pos];
      Copy([|f.name|]);
      Copy(f.name);
      Copy([f.kind]);
      Copy([|f.data| % 256]);
      Copy([|f.data| / 256]);
      if |f.data| > 0 { Copy(f.data); }
      Regroup(before, [|f.name|], f.name, [f.kind], [|f.data| % 256], [|f.data| / 256], f.data);
      WireConcat(fields, [f]);
      WireOne(f);
      fields := fields + [f];
    }

    method Put(name: seq<byte>, v: Value)
      requires Valid() && 0 !in name && InRange(v) && Checkable(|Prefix(name, 255)| + |Data(v)| + 4)
      modifies this, buf
      ensures Valid()
      ensures var f: WireField := Field(Prefix(name, 255), Kind(v), Data(v));
              var fits := !old(error) && old(pos) + |Wire(f)| <= cap;
              && error == !fits
              && fields == (if fits then old(fields) + [f] else old(fields))
    {
      PutField(name, Kind(v), Data(v));
    }

    /** The number of bytes written, or 0 once anything was lost. */
    method Finish() returns (size: nat)
      requires Valid()
      ensures size == if error then 0 else |WireAll(fields)|
      ensures !error ==> buf[..size] == WireAll(fields)
    {
      if error { return 0; }
      size := pos;
    }
  }

  // ---- The deserializer.

  class Deserializer {
    const buf: array<byte>
    const len: nat
    var pos: nat
    var error: bool

    ghost predicate Valid()
      reads this
    {
      pos <= len <= buf.Length
    }

    ghost function Remaining(): seq<byte>
      reads this, buf
      requires Valid()
    {
      buf[pos..len]
    }

    constructor (buf: array<byte>, len: nat)
      requires len <= buf.Length
      ensures Valid() && !error && this.buf == buf && this.len == len && pos == 0
    {
      this.buf, this.len, pos, error := buf, len, 0, false;
    }

    /** Takes the next n bytes; too few of them set the error flag. */
    method Take(n: nat) returns (ok: bool, piece: seq<byte>)
      requires Valid()
      modifies this
      ensures Valid() && ok == (n <= |old(Remaining())|)
      ensures ok ==> piece == old(Remaining())[..n] && Remaining() == old(Remaining())[n..] && error == old(error)
      ensures !ok ==> error
    {
      if len - pos < n {
        error := true;
        return false, [];
      }
      ghost var before := Remaining();
      piece := buf[pos..pos + n];
      assert piece == before[..n];
      pos := pos + n;
      assert Remaining() == before[n..];
      ok := true;
    }

    method DecodeNext() returns (ok: bool, field: View)
      requires Valid()
      modifies this
      ensures Valid()
      ensures old(error) ==> !ok && error
      ensures !old(error) ==>
              match FirstField(old(Remaining()))
              case End => !ok && !error
              case Malformed => !ok && error
              case Got(view, rest) => ok && !error && field == view && Remaining() == rest
    {
      hide FirstField, FirstData;
      field := View([], 0, Padded([], MAX_FIELD_DATA), 0);
      if error { return false, field; }
      ghost var bytes := Remaining();
      FieldParts(bytes);
      if pos >= len { return false, field; }
      var nameLen, name, kind;
      ok, nameLen := Take(1);
      if !ok { return; }
      ok, name := Take(nameLen[0]);
      if !ok { return; }
      ok, kind := Take(1);
      if !ok { return; }
      if len - pos < 2 {
        error := true;
        return false, field;
      }
      ok, field := DecodeData(name, kind[0]);
    }

    method DecodeData(name: seq<byte>, kind: byte) returns (ok: bool, field: View)
      requires Valid() && |Remaining()| >= 2 && !error
      modifies this
      ensures Valid() && FirstData(name, kind, old(Remaining())) ==
                         if ok then Got(field, Remaining()) else Malformed
      ensures error == !ok
    {
      hide Seen;
      field := View([], 0, Padded([], MAX_FIELD_DATA), 0);
      var word, data;
      ok, word := Take(2);
      var low: nat, high: nat := word[0], word[1];
      ok, data := Take(low + 256 * high);
      if ok { field := Stored(name, kind, data); }
    }
  }

  lemma FieldParts(bytes: seq<byte>)
    ensures bytes == [] ==> FirstField(bytes) == End
    ensures bytes != [] ==>
            var n: nat := bytes[0];
            if |bytes| < 4 + n then FirstField(bytes) == Malformed
            else var rest := bytes[1..][n..]; FirstField(bytes) == FirstData(bytes[1..][..n], rest[0], rest[1..])
  {
    hide FirstData;
    if bytes != [] {
      var n: nat := bytes[0];
      if |bytes| >= 4 + n {
        assert bytes[1..][..n] == bytes[1..1 + n] && bytes[1..][n..] == bytes[1 + n..];
        assert bytes[1 + n..][1..] == bytes[2 + n..];
      }
    }
  }

  /** A field as the reader's struct holds it. */
  method Stored(name: seq<byte>, kind: byte, data: seq<byte>) returns (view: View)
    ensures view == Seen(Field(name, kind, data))
  {
    var copyLen := if |name| <= MAX_FIELD_NAME then |name| else MAX_FIELD_NAME;
    var cut := name[..copyLen];
    copyLen := if |data| <= MAX_FIELD_DATA then |data| else MAX_FIELD_DATA;
    var padded := data[..copyLen];
    if copyLen < MAX_FIELD_DATA { padded := padded + Zeros(MAX_FIELD_DATA - copyLen); }
    assert padded == Padded(data, MAX_FIELD_DATA);
    assert cut == Prefix(name, MAX_FIELD_NAME);
    view := View(cut, kind, padded, |data|);
  }
}
