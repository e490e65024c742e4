/** Unknown fields: what they look like on the wire, and that the decoder steps over them. */
module PbUnknown {
  import opened Common
  import opened PbWire
  import opened PbVarint
  import opened PbMessage

  // ---- What skipping takes, by the low three bits of the tag.

  /** The first k bytes announce the length of the others. */
  predicate Announces(bytes: seq<byte>, k: nat) {
    k <= |bytes| && Whole(bytes[..k]) && Accepted(bytes[..k]) && |bytes| - k == Spelled(bytes[..k]) % 0x1_0000_0000
  }

  /** One value: a varint, eight bytes, a length and as many bytes, or four bytes. No other code has any. */
  ghost predicate Body(code: nat, bytes: seq<byte>) {
    if code == 0 then Whole(bytes)
    else if code == 1 then |bytes| == 8
    else if code == 2 then exists k :: Announces(bytes, k)
    else code == 5 && |bytes| == 4
  }

  lemma {:induction false} SkipVarintTakes(v: seq<byte>, rest: seq<byte>)
    requires Whole(v)
    ensures SkipVarint(v + rest) == Some(rest)
    decreases |v|
  {
    var bytes := v + rest;
    assert bytes[0] == v[0] && bytes[1..] == v[1..] + rest;
    if |v| == 1 {
      assert v[1..] + rest == rest;
    } else {
      SkipVarintTakes(v[1..], rest);
    }
  }

  lemma SkipBytesTakes(bytes: seq<byte>, rest: seq<byte>)
    ensures SkipBytes(bytes + rest, |bytes|) == Some(rest)
  {
    assert (bytes + rest)[|bytes|..] == rest;
  }

  lemma SkipStringTakes(bytes: seq<byte>, k: nat, rest: seq<byte>)
    requires Announces(bytes, k)
    ensures SkipField(bytes + rest, WtString) == Some(rest)
  {
    hide Dec32, Whole, Accepted, Spelled;
    var v, text := bytes[..k], bytes[k..];
    assert bytes + rest == v + (text + rest);
    Dec32Rule(v, text + rest);
    SkipBytesTakes(text, rest);
  }

  /** A complete value is skipped, whatever follows it. */
  lemma SkipTakes(code: nat, bytes: seq<byte>, rest: seq<byte>)
    requires Body(code, bytes)
    ensures SkipField(bytes + rest, WireOf(code)) == Some(rest)
  {
    hide Whole, Announces, SkipVarint, SkipBytes, Dec32;
    if code == 0 {
      SkipVarintTakes(bytes, rest);
    } else if code == 2 {
      var k :| Announces(bytes, k);
      SkipStringTakes(bytes, k, rest);
    } else {
      SkipBytesTakes(bytes, rest);
    }
  }

  /** The varint at the front, if there is one. */
  lemma {:induction false} FirstVarint(bytes: seq<byte>) returns (k: nat)
    ensures k <= |bytes| && (k > 0 ==> Whole(bytes[..k]))
    ensures k == 0 ==> forall i :: 0 <= i < |bytes| ==> bytes[i] >= 128
    decreases |bytes|
  {
    if bytes == [] {
      k := 0;
    } else if bytes[0] < 128 {
      k := 1;
    } else {
      var m := FirstVarint(bytes[1..]);
      k := if m == 0 then 0 else m + 1;
      if m > 0 {
        assert bytes[..k] == [bytes[0]] + bytes[1..][..m];
        WholeNext(bytes[0], bytes[1..][..m]);
      } else {
        forall i | 0 <= i < |bytes| ensures bytes[i] >= 128 {
          if i > 0 { assert bytes[i] == bytes[1..][i - 1]; }
        }
      }
    }
  }

  lemma {:induction false} SkipUnfinished(bytes: seq<byte>)
    requires forall i :: 0 <= i < |bytes| ==> bytes[i] >= 128
    ensures SkipVarint(bytes) == None
    decreases |bytes|
  {
    if bytes == [] {
    } else {
      SkipUnfinished(bytes[1..]);
    }
  }

  lemma SkipStringGives(bytes: seq<byte>) returns (k: nat, n: nat)
    requires SkipField(bytes, WtString).Some?
    ensures k <= n <= |bytes| && Announces(bytes[..n], k) && bytes == bytes[..n] + SkipField(bytes, WtString).value
  {
    hide Dec32, Whole, Accepted, Spelled;
    k := FirstVarint(bytes);
    if k == 0 { Dec32Unfinished(bytes); }
    assert bytes == bytes[..k] + bytes[k..];
    Dec32Rule(bytes[..k], bytes[k..]);
    n := k + Dec32(bytes).value.0;
    assert bytes[..n][..k] == bytes[..k] && bytes[k..][n - k..] == bytes[n..];
  }

  /** And what was skipped is a complete value. */
  lemma SkipGives(code: nat, bytes: seq<byte>) returns (body: seq<byte>)
    requires SkipField(bytes, WireOf(code)).Some?
    ensures Body(code, body) && bytes == body + SkipField(bytes, WireOf(code)).value
  {
    hide Dec32, Whole, Announces, SkipVarint;
    var rest := SkipField(bytes, WireOf(code)).value;
    if code == 0 {
      var k := FirstVarint(bytes);
      if k == 0 { SkipUnfinished(bytes); }
      body := bytes[..k];
      assert bytes == body + bytes[k..];
      SkipVarintTakes(body, bytes[k..]);
    } else if code == 2 {
      var k, n := SkipStringGives(bytes);
      body := bytes[..n];
      assert Announces(body, k);
    } else {
      body := bytes[..if code == 1 then 8 else 4];
    }
  }

  // ---- Reading a tag.

  /** A tag is a varint: its low three bits are the code, the others the field number. Zero ends the message. */
  lemma TagRule(v: seq<byte>, rest: seq<byte>)
    requires Whole(v)
    ensures var n := Spelled(v) % 0x1_0000_0000;
            DecTag(v + rest) ==
            if !Accepted(v) then TagError else if n == 0 then TagEnd(rest) else Tag(n / 8, WireOf(n % 8), rest)
  {
    hide Dec32, Accepted, Spelled;
    Dec32Rule(v, rest);
    assert v + rest != [];
  }

  lemma TagUnfinished(bytes: seq<byte>)
    requires bytes != [] && forall i :: 0 <= i < |bytes| ==> bytes[i] >= 128
    ensures DecTag(bytes) == TagError
  {
    hide Dec32;
    Dec32Unfinished(bytes);
  }

  // ---- Runs of unknown fields, as the decoder sees them.

  lemma {:induction false} FindWithinMisses(fs: seq<Field>, pos: nat, n: nat, tag: nat)
    requires pos < |fs| && forall i :: 0 <= i < |fs| ==> fs[i].tag != tag
    ensures FindWithin(fs, pos, n, tag) == None
    decreases n
  {
    if n == 0 {
    } else {
      FindWithinMisses(fs, NextPos(fs, pos), n - 1, tag);
    }
  }

  /** Zero or more complete fields with tags the descriptor does not have. Tag 0 is no valid tag; it too is skipped,
      except under an empty descriptor, where it matches the terminator and fails. */
  predicate Unknown(fs: seq<Field>, bytes: seq<byte>)
    decreases |bytes|
  {
    if bytes == [] then true
    else
      var t := DecTag(bytes);
      && t.Tag? && (fs == [] ==> t.tag != 0) && (forall i :: 0 <= i < |fs| ==> fs[i].tag != t.tag)
      && var rest := SkipField(t.rest, t.wire);
         rest.Some? && Unknown(fs, rest.value)
  }

  /** At the head of the loop, in whatever state, unknown fields change nothing: neither the message, nor the fields
      seen, nor the iterator. */
  lemma {:induction false} JunkSkipped(fs: seq<Field>, junk: seq<byte>, rest: seq<byte>, s: State)
    requires Unknown(fs, junk) && |s.msg.slots| == |fs| && (fs == [] || s.pos < |fs|)
    ensures DecFields(fs, junk + rest, s) == DecFields(fs, rest, s)
    decreases |junk|
  {
    hide DecField, DecTag, SkipField;
    if junk == [] {
      assert junk + rest == rest;
    } else {
      var t := DecTag(junk);
      DecTagStable(junk, rest);
      SkipFieldStable(t.rest, t.wire, rest);
      if fs != [] { FindWithinMisses(fs, s.pos, |fs|, t.tag); }
      JunkSkipped(fs, SkipField(t.rest, t.wire).value, rest, s);
    }
  }

  lemma ZeroTurn(fs: seq<Field>, bytes: seq<byte>, s: State)
    requires |s.msg.slots| == |fs| && (fs == [] || s.pos < |fs|) && forall i :: 0 <= i < |fs| ==> fs[i].tag != 0
    requires DecTag(bytes).Tag? && DecTag(bytes).tag == 0 && bytes != []
    requires SkipField(DecTag(bytes).rest, DecTag(bytes).wire).Some?
    ensures DecFields(fs, bytes, s) ==
            if fs == [] then None else DecFields(fs, SkipField(DecTag(bytes).rest, DecTag(bytes).wire).value, s)
  {
    hide DecTag, SkipField, FindWithin, DecField;
    if fs != [] { FindWithinMisses(fs, s.pos, |fs|, 0); }
  }

  /** Field number 0, which no writer uses: an empty descriptor, whose terminator has it, refuses it; any other skips
      it. */
  lemma NumberZero(fs: seq<Field>, v: seq<byte>, body: seq<byte>, rest: seq<byte>, s: State)
    requires Whole(v) && Accepted(v) && 0 < Spelled(v) % 0x1_0000_0000 < 8 && Body(Spelled(v) % 0x1_0000_0000, body)
    requires |s.msg.slots| == |fs| && (fs == [] || s.pos < |fs|) && forall i :: 0 <= i < |fs| ==> fs[i].tag != 0
    ensures DecFields(fs, v + (body + rest), s) == if fs == [] then None else DecFields(fs, rest, s)
  {
    hide DecTag, SkipField, Whole, Accepted, Spelled, Body, WireOf, DecFields;
    NotEmpty(v);
    TagRule(v, body + rest);
    SkipTakes(Spelled(v) % 0x1_0000_0000, body, rest);
    ZeroTurn(fs, v + (body + rest), s);
  }

  // ---- What such a run is, said without the decoder.

  datatype Piece = Piece(tag: seq<byte>, body: seq<byte>)

  /** A complete field under a tag the descriptor does not have. Tag and length may be padded like any varint. */
  ghost predicate Stray(fs: seq<Field>, p: Piece) {
    && Whole(p.tag) && Accepted(p.tag)
    && var n := Spelled(p.tag) % 0x1_0000_0000;
       && n != 0 && (fs == [] ==> n / 8 != 0) && (forall i :: 0 <= i < |fs| ==> fs[i].tag != n / 8)
       && Body(n % 8, p.body)
  }

  ghost predicate AllStray(fs: seq<Field>, pieces: seq<Piece>) {
    forall i :: 0 <= i < |pieces| ==> Stray(fs, pieces[i])
  }

  function Joined(pieces: seq<Piece>): seq<byte> {
    if pieces == [] then [] else pieces[0].tag + pieces[0].body + Joined(pieces[1..])
  }

  lemma {:induction false} PiecesUnknown(fs: seq<Field>, pieces: seq<Piece>)
    requires AllStray(fs, pieces)
    ensures Unknown(fs, Joined(pieces))
    decreases |pieces|
  {
    hide DecTag, SkipField, Whole, Accepted, Spelled, Body, WireOf;
    if pieces == [] {
    } else {
      var p, later := pieces[0], Joined(pieces[1..]);
      assert Stray(fs, p);
      PiecesUnknown(fs, pieces[1..]);
      NotEmpty(p.tag);
      assert Joined(pieces) == p.tag + (p.body + later);
      TagRule(p.tag, p.body + later);
      SkipTakes(Spelled(p.tag) % 0x1_0000_0000 % 8, p.body, later);
    }
  }

  /** The first field of such a run. */
  lemma FirstPiece(fs: seq<Field>, bytes: seq<byte>) returns (p: Piece)
    requires bytes != [] && Unknown(fs, bytes)
    ensures var t := DecTag(bytes);
            Stray(fs, p) && bytes == p.tag + p.body + SkipField(t.rest, t.wire).value
  {
    hide DecTag, SkipField, Whole, Accepted, Spelled, Body, WireOf;
    var k := FirstVarint(bytes);
    if k == 0 { TagUnfinished(bytes); }
    var v := bytes[..k];
    assert bytes == v + bytes[k..];
    TagRule(v, bytes[k..]);
    var body := SkipGives(Spelled(v) % 0x1_0000_0000 % 8, bytes[k..]);
    p := Piece(v, body);
  }

  lemma {:induction false} UnknownPieces(fs: seq<Field>, bytes: seq<byte>) returns (pieces: seq<Piece>)
    requires Unknown(fs, bytes)
    ensures AllStray(fs, pieces) && Joined(pieces) == bytes
    decreases |bytes|
  {
    hide DecTag, SkipField, Stray;
    if bytes == [] {
      pieces := [];
    } else {
      var t := DecTag(bytes);
      var p := FirstPiece(fs, bytes);
      var later := UnknownPieces(fs, SkipField(t.rest, t.wire).value);
      pieces := [p] + later;
      assert pieces[1..] == later;
    }
  }

  /** Unknown fields are exactly the runs of complete fields under other tags. */
  lemma UnknownExactly(fs: seq<Field>, bytes: seq<byte>)
    ensures Unknown(fs, bytes) <==> exists pieces :: AllStray(fs, pieces) && Joined(pieces) == bytes
  {
    hide Unknown, Joined, AllStray;
    if Unknown(fs, bytes) { var pieces := UnknownPieces(fs, bytes); }
    forall pieces | AllStray(fs, pieces) && Joined(pieces) == bytes ensures Unknown(fs, bytes) {
      PiecesUnknown(fs, pieces);
    }
  }

  // ---- The ones writers emit.

  datatype Payload = Number(n: nat) | Eight(bytes: seq<byte>) | Text(bytes: seq<byte>) | Four(bytes: seq<byte>)

  datatype Alien = Alien(tag: nat, payload: Payload)

  /** A field with a value of any wire type, under its number. */
  predicate Emittable(a: Alien) {
    && 0 < a.tag && 8 * a.tag + 7 < 0x1_0000_0000
    && match a.payload
       case Number(_) => true
       case Eight(bytes) => |bytes| == 8
       case Text(bytes) => |bytes| < 0x1_0000_0000
       case Four(bytes) => |bytes| == 4
  }

  predicate Foreign(fs: seq<Field>, a: Alien) {
    Emittable(a) && forall i :: 0 <= i < |fs| ==> fs[i].tag != a.tag
  }

  ghost predicate AllForeign(fs: seq<Field>, aliens: seq<Alien>) {
    forall i :: 0 <= i < |aliens| ==> Foreign(fs, aliens[i])
  }

  function AlienBytes(a: Alien): seq<byte> {
    match a.payload
    case Number(n) => EncVarint(8 * a.tag) + EncVarint(n)
    case Eight(bytes) => EncVarint(8 * a.tag + 1) + bytes
    case Text(bytes) => EncVarint(8 * a.tag + 2) + (EncVarint(|bytes|) + bytes)
    case Four(bytes) => EncVarint(8 * a.tag + 5) + bytes
  }

  function AliensBytes(aliens: seq<Alien>): seq<byte> {
    if aliens == [] then [] else AlienBytes(aliens[0]) + AliensBytes(aliens[1..])
  }

  /** The writer's varint of a 32-bit number is taken for that number. */
  lemma WriterAccepted(n: nat)
    requires n < TWO32
    ensures Whole(EncVarint(n)) && Accepted(EncVarint(n)) && Spelled(EncVarint(n)) == n
  {
    hide Dec32, Whole, Accepted, Spelled, EncVarint;
    WriterSpells(n);
    Varint32RoundTrip(n, []);
    Dec32Rule(EncVarint(n), []);
  }

  lemma AnnouncesText(v: seq<byte>, bytes: seq<byte>)
    requires Whole(v) && Accepted(v) && Spelled(v) == |bytes| < TWO32
    ensures Announces(v + bytes, |v|)
  {
    hide Whole, Accepted, Spelled;
    assert (v + bytes)[..|v|] == v;
    SmallWord(|bytes|);
  }

  lemma TextBody(bytes: seq<byte>)
    requires |bytes| < TWO32
    ensures Body(2, EncVarint(|bytes|) + bytes)
  {
    hide Whole, Accepted, Spelled, EncVarint, Announces;
    WriterAccepted(|bytes|);
    AnnouncesText(EncVarint(|bytes|), bytes);
  }

  lemma TagParts(tag: nat, code: nat)
    requires code < 8 && 8 * tag + 7 < TWO32
    ensures (8 * tag + code) % TWO32 / 8 == tag && (8 * tag + code) % TWO32 % 8 == code
  {
    SmallWord(8 * tag + code);
  }

  lemma ForeignStray(fs: seq<Field>, tag: nat, code: nat, body: seq<byte>)
    requires 0 < tag && 8 * tag + 7 < TWO32 && code < 8 && Body(code, body)
    requires forall i :: 0 <= i < |fs| ==> fs[i].tag != tag
    ensures Stray(fs, Piece(EncVarint(8 * tag + code), body))
  {
    hide Whole, Accepted, Spelled, EncVarint, Body;
    WriterAccepted(8 * tag + code);
    TagParts(tag, code);
  }

  /** A foreign field is an unknown one. */
  lemma AlienStray(fs: seq<Field>, a: Alien) returns (p: Piece)
    requires Foreign(fs, a)
    ensures Stray(fs, p) && p.tag + p.body == AlienBytes(a)
  {
    hide Whole, EncVarint, Announces, Stray;
    match a.payload {
      case Number(n) =>
        WriterSpells(n);
        ForeignStray(fs, a.tag, 0, EncVarint(n));
        p := Piece(EncVarint(8 * a.tag), EncVarint(n));
      case Eight(bytes) =>
        ForeignStray(fs, a.tag, 1, bytes);
        p := Piece(EncVarint(8 * a.tag + 1), bytes);
      case Text(bytes) =>
        TextBody(bytes);
        ForeignStray(fs, a.tag, 2, EncVarint(|bytes|) + bytes);
        p := Piece(EncVarint(8 * a.tag + 2), EncVarint(|bytes|) + bytes);
      case Four(bytes) =>
        ForeignStray(fs, a.tag, 5, bytes);
        p := Piece(EncVarint(8 * a.tag + 5), bytes);
    }
  }

  lemma {:induction false} AliensUnknown(fs: seq<Field>, aliens: seq<Alien>) returns (pieces: seq<Piece>)
    requires AllForeign(fs, aliens)
    ensures AllStray(fs, pieces) && Joined(pieces) == AliensBytes(aliens)
    decreases |aliens|
  {
    hide Stray, Foreign, AlienBytes;
    if aliens == [] {
      pieces := [];
    } else {
      var p := AlienStray(fs, aliens[0]);
      var later := AliensUnknown(fs, aliens[1..]);
      pieces := [p] + later;
      assert pieces[1..] == later;
    }
  }

  /** Whatever fields a newer writer puts there, of any wire type and with any contents, reading goes on behind them as
      if they were not there: neither the message, nor the fields seen, nor the iterator changes. */
  lemma UnknownSkipped(fs: seq<Field>, aliens: seq<Alien>, rest: seq<byte>, s: State)
    requires AllForeign(fs, aliens) && |s.msg.slots| == |fs| && (fs == [] || s.pos < |fs|)
    ensures Unknown(fs, AliensBytes(aliens))
    ensures DecFields(fs, AliensBytes(aliens) + rest, s) == DecFields(fs, rest, s)
  {
    hide Unknown, DecFields, Joined, AllStray, AliensBytes;
    var pieces := AliensUnknown(fs, aliens);
    PiecesUnknown(fs, pieces);
    JunkSkipped(fs, AliensBytes(aliens), rest, s);
  }
}
