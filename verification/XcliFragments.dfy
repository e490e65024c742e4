/** Splitting a response into fragments at field boundaries, as full as they get. */
module XcliFragments {
  import opened Common
  import opened XcliSerial

  const HEADER_SIZE := 6
  const FRAME_MAX := 255
  const PAYLOAD_MAX := 249

  type Part = seq<WireField>

  function Used(part: Part): nat { |WireAll(part)| }

  /** A frame of 255 bytes has six for its header. */
  predicate AllFit(fs: seq<WireField>) {
    forall i :: 0 <= i < |fs| ==> |Wire(fs[i])| <= 249
  }

  /** What the sender makes of the fields still to come when these are in the open fragment. */
  function Greedy(fs: seq<WireField>, open: Part): seq<Part>
    decreases |fs|, |open|
  {
    if fs == [] then (if open == [] then [] else [open])
    else if open != [] && Used(open) + |Wire(fs[0])| > PAYLOAD_MAX then [open] + Greedy(fs, [])
    else
      var more := open + [fs[0]];
      if Used(more) >= PAYLOAD_MAX then [more] + Greedy(fs[1..], []) else Greedy(fs[1..], more)
  }

  /** Without fields there still is one fragment, an empty one. */
  function Parts(fs: seq<WireField>): seq<Part> {
    if fs == [] then [[]] else Greedy(fs, [])
  }

  function Flatten(parts: seq<Part>): seq<WireField> {
    if parts == [] then [] else parts[0] + Flatten(parts[1..])
  }

  predicate PartsFit(parts: seq<Part>) {
    forall i :: 0 <= i < |parts| ==> Used(parts[i]) <= 249
  }

  lemma UsedConcat(a: Part, b: Part)
    ensures Used(a + b) == Used(a) + Used(b)
  {
    WireConcat(a, b);
  }

  lemma UsedOne(f: WireField)
    ensures Used([f]) == |Wire(f)| >= 4
  {
    WireOne(f);
  }

  lemma UsedEmpty(part: Part)
    ensures Used(part) == 0 <==> part == []
  {
    if part != [] { assert |Wire(part[0])| >= 4; }
  }

  // ---- The first fragment is the longest prefix that fits.

  lemma {:induction false} FirstFragment(fs: seq<WireField>, open: Part) returns (g: nat)
    requires Used(open) < PAYLOAD_MAX && (fs != [] || open != [])
    ensures g <= |fs| && (open == [] ==> g > 0)
    ensures Greedy(fs, open) == [open + fs[..g]] + Greedy(fs[g..], [])
    ensures Used(open + fs[..g]) <= PAYLOAD_MAX || (open == [] && g == 1)
    ensures g < |fs| ==> Used(open + fs[..g]) + |Wire(fs[g])| > PAYLOAD_MAX
    decreases |fs|
  {
    hide Wire, WireAll, Used;
    assert fs[0..] == fs && open + fs[..0] == open;
    if fs == [] {
      g := 0;
    } else {
      var more := open + [fs[0]];
      UsedConcat(open, [fs[0]]);
      UsedOne(fs[0]);
      UsedEmpty(open);
      if open != [] && Used(open) + |Wire(fs[0])| > PAYLOAD_MAX {
        g := 0;
      } else if Used(more) >= PAYLOAD_MAX {
        g := 1;
        assert open + fs[..1] == more;
        if |fs| > 1 { UsedOne(fs[1]); }
      } else {
        var k := FirstFragment(fs[1..], more);
        g := k + 1;
        assert open + fs[..g] == more + fs[1..][..k] && fs[1..][k..] == fs[g..];
      }
    }
  }

  lemma FirstFits(fs: seq<WireField>, g: nat)
    requires 0 < g <= |fs| && AllFit(fs) && (Used(fs[..g]) <= PAYLOAD_MAX || g == 1)
    ensures Used(fs[..g]) <= PAYLOAD_MAX
  {
    if g == 1 {
      assert fs[..1] == [fs[0]];
      UsedOne(fs[0]);
    }
  }

  lemma SuffixFits(fs: seq<WireField>, k: nat)
    requires k <= |fs| && AllFit(fs)
    ensures AllFit(fs[k..])
  {}

  lemma FlattenCons(part: Part, parts: seq<Part>)
    ensures Flatten([part] + parts) == part + Flatten(parts)
    ensures PartsFit(parts) && Used(part) <= PAYLOAD_MAX ==> PartsFit([part] + parts)
  {
    hide Used;
    assert ([part] + parts)[1..] == parts;
  }

  /** A nonempty fragment that fits its frame, or a single field that is too large for any. */
  predicate FitsOrAlone(part: Part) {
    part != [] && (Used(part) <= PAYLOAD_MAX || |part| == 1)
  }

  /** Nothing is lost, and fields only exceed a frame when one of them does so alone. */
  lemma {:induction false} GreedyLossless(fs: seq<WireField>)
    ensures Flatten(Greedy(fs, [])) == fs
    ensures forall i :: 0 <= i < |Greedy(fs, [])| ==> FitsOrAlone(Greedy(fs, [])[i])
    ensures AllFit(fs) ==> PartsFit(Greedy(fs, []))
    decreases |fs|
  {
    hide Greedy, Wire, Used, AllFit, Flatten, PartsFit;
    NoFields();
    if fs == [] {
    } else {
      NoneUsed();
      var g := FirstFragment(fs, []);
      assert [] + fs[..g] == fs[..g];
      GreedyLossless(fs[g..]);
      FlattenCons(fs[..g], Greedy(fs[g..], []));
      if AllFit(fs) {
        SuffixFits(fs, g);
        FirstFits(fs, g);
      }
    }
  }

  lemma NoFields()
    ensures Greedy([], []) == [] && Flatten([]) == [] && PartsFit([])
  {}

  lemma NoneUsed()
    ensures Used([]) == 0
  {}

  lemma EmptyPart()
    ensures Flatten([[]]) == []
  {
    var none: seq<Part> := [[]];
    assert none[1..] == [];
  }

  lemma PartsLossless(fs: seq<WireField>)
    requires AllFit(fs)
    ensures Flatten(Parts(fs)) == fs && PartsFit(Parts(fs))
  {
    hide Greedy, Used;
    NoneUsed();
    EmptyPart();
    if fs != [] { GreedyLossless(fs); }
  }

  // ---- No split at field boundaries needs fewer fragments.

  /** Even a suffix of what the other split covers takes no more fragments. */
  lemma {:induction false} GreedyMinimalSuffix(before: seq<WireField>, fs: seq<WireField>, parts: seq<Part>)
    requires AllFit(fs) && PartsFit(parts) && Flatten(parts) == before + fs
    ensures |Greedy(fs, [])| <= |parts|
    decreases |parts|
  {
    hide Greedy, Wire, Used;
    if fs == [] {
      NoFields();
    } else {
      assert parts != [];
      var a, rest := |parts[0]|, Flatten(parts[1..]);
      CutPoints(parts[0], rest, before, fs);
      if a <= |before| {
        GreedyMinimalSuffix(before[a..], fs, parts[1..]);
      } else {
        var b := a - |before|;
        UsedConcat(before, fs[..b]);
        NoneUsed();
        var g := FirstFragment(fs, []);
        LongestFirst(fs, g, b);
        assert fs[b..] == fs[b..g] + fs[g..];
        GreedyMinimalSuffix(fs[b..g], fs[g..], parts[1..]);
      }
    }
  }

  lemma CutPoints<T>(a: seq<T>, rest: seq<T>, before: seq<T>, fs: seq<T>)
    requires a + rest == before + fs
    ensures |a| <= |before| ==> rest == before[|a|..] + fs
    ensures |a| > |before| ==> var b := |a| - |before|; a == before + fs[..b] && rest == fs[b..]
  {
    var whole := a + rest;
    assert rest == whole[|a|..] && a == whole[..|a|];
    if |a| <= |before| {
      assert (before + fs)[|a|..] == before[|a|..] + fs;
    } else {
      assert (before + fs)[|a|..] == fs[|a| - |before|..] && (before + fs)[..|a|] == before + fs[..|a| - |before|];
    }
  }

  lemma LongestFirst(fs: seq<WireField>, g: nat, b: nat)
    requires g <= |fs| && b <= |fs| && Used(fs[..b]) <= PAYLOAD_MAX
    requires g < |fs| ==> Used([] + fs[..g]) + |Wire(fs[g])| > PAYLOAD_MAX
    ensures b <= g
  {
    hide Wire, Used;
    if g < b {
      assert [] + fs[..g] == fs[..g] && fs[..b] == fs[..g] + ([fs[g]] + fs[g + 1..b]);
      UsedConcat(fs[..g], [fs[g]] + fs[g + 1..b]);
      UsedConcat([fs[g]], fs[g + 1..b]);
      UsedOne(fs[g]);
    }
  }

  /** The greedy split is minimal. */
  lemma GreedyMinimal(fs: seq<WireField>, parts: seq<Part>)
    requires AllFit(fs) && PartsFit(parts) && Flatten(parts) == fs
    ensures |Greedy(fs, [])| <= |parts|
  {
    assert [] + fs == fs;
    GreedyMinimalSuffix([], fs, parts);
  }

  // ---- A full response buffer takes few fragments.

  /** Two neighbouring fragments together exceed one payload. */
  lemma {:induction false} FewFragments(fs: seq<WireField>)
    ensures 125 * |Greedy(fs, [])| <= Used(fs) + 125
    decreases |fs|
  {
    hide Greedy, Wire, Used, Flatten;
    NoFields();
    NoneUsed();
    if fs == [] {
    } else {
      var g := FirstFragment(fs, []);
      assert [] + fs[..g] == fs[..g];
      UsedSplit(fs, g);
      if g < |fs| {
        var rest := fs[g..];
        var h := FirstFragment(rest, []);
        assert [] + rest[..h] == rest[..h];
        UsedSplit(rest, h);
        UsedAtLeastFirst(rest, h);
        FewFragments(rest[h..]);
      } else {
        assert fs[g..] == [];
      }
    }
  }

  lemma UsedSplit(fs: seq<WireField>, k: nat)
    requires k <= |fs|
    ensures Used(fs) == Used(fs[..k]) + Used(fs[k..])
  {
    assert fs == fs[..k] + fs[k..];
    UsedConcat(fs[..k], fs[k..]);
  }

  lemma UsedAtLeastFirst(fs: seq<WireField>, k: nat)
    requires 0 < k <= |fs|
    ensures Used(fs[..k]) >= |Wire(fs[0])|
  {
    hide Wire;
    assert fs[..k] == [fs[0]] + fs[1..k];
    UsedConcat([fs[0]], fs[1..k]);
    UsedOne(fs[0]);
  }

  // ---- Frames.

  function Header(cmd: byte, number: byte, status: byte, total: byte, index: byte): (r: seq<byte>)
    ensures |r| == HEADER_SIZE
  {
    [1, cmd, number, status, total, index]
  }

  function Frames(cmd: byte, number: byte, status: byte, parts: seq<Part>): (r: seq<seq<byte>>)
    requires |parts| < 256
    ensures |r| == |parts|
  {
    seq(|parts|, i requires 0 <= i < |parts| => Header(cmd, number, status, |parts|, i) + WireAll(parts[i]))
  }

  /** What the host puts together: the payloads without their headers. */
  function Payloads(frames: seq<seq<byte>>): seq<byte> {
    if frames == [] then []
    else (if |frames[0]| < HEADER_SIZE then [] else frames[0][HEADER_SIZE..]) + Payloads(frames[1..])
  }

  /** What the host reads when it takes the fields out of each fragment by itself. */
  function ReadEach(frames: seq<seq<byte>>): (seq<View>, bool) {
    if frames == [] then ([], true)
    else if |frames[0]| < HEADER_SIZE then ([], false)
    else
      var (views, ok) := AllFields(frames[0][HEADER_SIZE..]);
      var (more, ok') := ReadEach(frames[1..]);
      (views + more, ok && ok')
  }

  /** Frames with any headers of the right size. */
  predicate Carry(frames: seq<seq<byte>>, parts: seq<Part>) {
    |frames| == |parts| &&
    forall i :: 0 <= i < |frames| ==> |frames[i]| >= HEADER_SIZE && frames[i][HEADER_SIZE..] == WireAll(parts[i])
  }

  lemma {:induction false} SeenConcat(a: seq<WireField>, b: seq<WireField>)
    ensures SeenAll(a + b) == SeenAll(a) + SeenAll(b)
  {
    hide Seen;
    if a == [] {
      assert a + b == b;
    } else {
      assert (a + b)[1..] == a[1..] + b;
      SeenConcat(a[1..], b);
    }
  }

  lemma {:induction false} CarryReassembles(frames: seq<seq<byte>>, parts: seq<Part>)
    requires Carry(frames, parts)
    ensures Payloads(frames) == WireAll(Flatten(parts))
    ensures ReadEach(frames) == (SeenAll(Flatten(parts)), true)
  {
    hide AllFields, SeenAll, WireAll;
    if frames == [] {
      NothingSeen();
    } else {
      FieldsRoundTrip(parts[0]);
      CarryReassembles(frames[1..], parts[1..]);
      WireConcat(parts[0], Flatten(parts[1..]));
      SeenConcat(parts[0], Flatten(parts[1..]));
    }
  }

  lemma NothingSeen()
    ensures SeenAll([]) == [] && WireAll([]) == []
  {}

  // ---- The host puts the frames in order by their headers.

  /** The first frame received that says it is number i: its last header byte. */
  function Numbered(received: seq<seq<byte>>, i: nat): Option<seq<byte>> {
    if received == [] then None
    else if |received[0]| >= 6 && received[0][5] == i then Some(received[0])
    else Numbered(received[1..], i)
  }

  /** The frames from number i on, or None while one is missing. */
  function InOrder(received: seq<seq<byte>>, i: nat, total: nat): Option<seq<seq<byte>>>
    decreases total - i
  {
    if i >= total then Some([])
    else
      var frame, later := Numbered(received, i), InOrder(received, i + 1, total);
      if frame.None? || later.None? then None else Some([frame.value] + later.value)
  }

  /** Any frame tells how many there are: the header byte before. */
  function Reassembled(received: seq<seq<byte>>): Option<seq<seq<byte>>> {
    if received == [] || |received[0]| < 6 then None else InOrder(received, 0, received[0][4])
  }

  /** Every header: direction, command, number, status, how many frames, and which of them. */
  lemma HeaderAt(cmd: byte, number: byte, status: byte, parts: seq<Part>, i: nat)
    requires i < |parts| < 256
    ensures var frame := Frames(cmd, number, status, parts)[i];
            && |frame| >= 6
            && frame[0] == 1 && frame[1] == cmd && frame[2] == number && frame[3] == status
            && frame[4] == |parts| && frame[5] == i
            && frame[6..] == WireAll(parts[i])
  {
    hide WireAll;
  }

  /** Only frame i says that it is number i. */
  lemma {:induction false} NumberedFinds(cmd: byte, number: byte, status: byte, parts: seq<Part>,
                                         received: seq<seq<byte>>, i: nat)
    requires i < |parts| < 256
    requires forall f :: f in received ==> f in Frames(cmd, number, status, parts)
    ensures var frame := Frames(cmd, number, status, parts)[i];
            Numbered(received, i) == if frame in received then Some(frame) else None
    decreases |received|
  {
    hide Frames;
    if received == [] {
    } else {
      var frames := Frames(cmd, number, status, parts);
      assert received[0] in frames;
      var k :| 0 <= k < |frames| && frames[k] == received[0];
      HeaderAt(cmd, number, status, parts, k);
      HeaderAt(cmd, number, status, parts, i);
      NumberedFinds(cmd, number, status, parts, received[1..], i);
    }
  }

  lemma {:induction false} InOrderFrom(cmd: byte, number: byte, status: byte, parts: seq<Part>,
                                       received: seq<seq<byte>>, i: nat)
    requires i <= |parts| < 256
    requires forall f :: f in received ==> f in Frames(cmd, number, status, parts)
    ensures var frames := Frames(cmd, number, status, parts);
            InOrder(received, i, |parts|) ==
            if forall k :: i <= k < |parts| ==> frames[k] in received then Some(frames[i..]) else None
    decreases |parts| - i
  {
    hide Frames, Numbered;
    if i == |parts| {
    } else {
      NumberedFinds(cmd, number, status, parts, received, i);
      InOrderFrom(cmd, number, status, parts, received, i + 1);
      var frames := Frames(cmd, number, status, parts);
      assert frames[i..] == [frames[i]] + frames[i + 1..];
      assert (forall k :: i <= k < |parts| ==> frames[k] in received) <==>
             frames[i] in received && forall k :: i + 1 <= k < |parts| ==> frames[k] in received;
    }
  }

  /** From whatever frames of a response have come, in whatever order and however often, the host puts together all
      frames in order as soon as none is missing, and nothing before. */
  lemma AnyOrder(cmd: byte, number: byte, status: byte, parts: seq<Part>, received: seq<seq<byte>>)
    requires 1 <= |parts| < 256
    requires received != [] && forall f :: f in received ==> f in Frames(cmd, number, status, parts)
    ensures var frames := Frames(cmd, number, status, parts);
            Reassembled(received) ==
            if forall k :: 0 <= k < |frames| ==> frames[k] in received then Some(frames) else None
  {
    hide Frames, InOrder;
    var frames := Frames(cmd, number, status, parts);
    assert received[0] in frames;
    var k :| 0 <= k < |frames| && frames[k] == received[0];
    HeaderAt(cmd, number, status, parts, k);
    InOrderFrom(cmd, number, status, parts, received, 0);
    assert frames[0..] == frames;
  }

  /** The whole way: whatever fields the command put, the frames carry them all in order, each frame of at most 255
      bytes under its header, and no split at field boundaries into frames of that size takes fewer. */
  lemma ResponseArrives(cmd: byte, number: byte, status: byte, fs: seq<WireField>)
    requires AllFit(fs) && |Parts(fs)| < 256
    ensures var frames := Frames(cmd, number, status, Parts(fs));
            && |frames| >= 1
            && Payloads(frames) == WireAll(fs) && ReadEach(frames) == (SeenAll(fs), true)
            && (forall i :: 0 <= i < |frames| ==>
                6 <= |frames[i]| <= 255 && frames[i][..6] == [1, cmd, number, status, |frames|, i])
            && forall parts | PartsFit(parts) && Flatten(parts) == fs && parts != [] :: |frames| <= |parts|
  {
    hide Greedy, WireAll, Used;
    var parts := Parts(fs);
    PartsLossless(fs);
    NothingGreedy(fs);
    var frames := Frames(cmd, number, status, parts);
    forall i | 0 <= i < |frames|
      ensures |frames[i]| == 6 + Used(parts[i]) && frames[i][6..] == WireAll(parts[i])
      ensures frames[i][..6] == [1, cmd, number, status, |frames|, i]
    {
      UsedLength(parts[i]);
    }
    CarryReassembles(frames, parts);
    forall other: seq<Part> | PartsFit(other) && Flatten(other) == fs && other != [] ensures |frames| <= |other| {
      GreedyMinimal(fs, other);
    }
  }

  lemma SameFrames<T>(received: seq<T>, frames: seq<T>)
    requires multiset(received) == multiset(frames)
    ensures forall f :: f in received <==> f in frames
    ensures |received| == |frames|
  {
    forall f ensures f in received <==> f in frames {
      assert f in received <==> f in multiset(received);
      assert f in frames <==> f in multiset(frames);
    }
    assert |received| == |multiset(received)| == |multiset(frames)|;
  }

  /** Its frames may come in any order: put in order by their headers they read as the fields. */
  lemma ReorderedArrives(cmd: byte, number: byte, status: byte, fs: seq<WireField>, received: seq<seq<byte>>)
    requires AllFit(fs) && |Parts(fs)| < 256
    requires multiset(received) == multiset(Frames(cmd, number, status, Parts(fs)))
    ensures Reassembled(received).Some?
    ensures ReadEach(Reassembled(received).value) == (SeenAll(fs), true)
    ensures Payloads(Reassembled(received).value) == WireAll(fs)
  {
    hide Greedy, Frames, Reassembled, ReadEach, Payloads, WireAll, SeenAll, AllFit;
    var frames := Frames(cmd, number, status, Parts(fs));
    NothingGreedy(fs);
    SameFrames(received, frames);
    AnyOrder(cmd, number, status, Parts(fs), received);
    ResponseArrives(cmd, number, status, fs);
  }

  lemma UsedLength(part: Part)
    ensures Used(part) == |WireAll(part)|
  {}

  // ---- The sender.

  const RESPONSE_MAX := 2048

  /** What may stand behind the complete fields: nothing, or a field cut off within its header. */
  ghost predicate Truncated(tail: seq<byte>) {
    tail == [] || (var nameLen: nat := tail[0]; |tail| < 4 + nameLen)
  }

  /** The buffer holds these fields, and no other complete header. */
  ghost predicate Walkable(bytes: seq<byte>, fs: seq<WireField>) {
    WireAll(fs) <= bytes && Truncated(bytes[|WireAll(fs)|..])
  }

  /** Finds the split points by walking the field headers in the buffer, then sends the fragments. */
  method SendResponse(cmd: byte, number: byte, status: byte, fields: array<byte>, fieldsLen: nat,
                      ghost fs: seq<WireField>)
    returns (sent: seq<seq<byte>>)
    requires fieldsLen <= fields.Length && fieldsLen <= RESPONSE_MAX && Walkable(fields[..fieldsLen], fs) && AllFit(fs)
    ensures |Parts(fs)| < 256 && sent == Frames(cmd, number, status, Parts(fs))
  {
    hide Greedy, Wire, WireAll, Used, Frames, Truncated;
    var sizes := new nat[255];
    var count: nat;
    EnoughRoom(fs);
    PartsLossless(fs);
    if fieldsLen == 0 {
      NoneUsed();
      UsedLength(fs);
      UsedEmpty(fs);
      sizes[0], count := 0, 1;
      OneEmpty(sizes[..]);
    } else {
      count := Split(fields, fieldsLen, sizes, fs);
    }
    sent := SendParts(cmd, number, status, fields, fieldsLen, sizes, count, fs, Parts(fs));
  }

  lemma EnoughRoom(fs: seq<WireField>)
    requires |WireAll(fs)| <= RESPONSE_MAX
    ensures |Greedy(fs, [])| < 20 && |Parts(fs)| < 20
  {
    hide Greedy, WireAll;
    FewFragments(fs);
  }

  /** The sizes of the fragments. */
  ghost predicate Sized(sizes: seq<nat>, parts: seq<Part>) {
    |parts| <= |sizes| && forall i :: 0 <= i < |parts| ==> sizes[i] == Used(parts[i])
  }

  lemma FieldAt(bytes: seq<byte>, fs: seq<WireField>, n: nat)
    requires n < |fs| && WireAll(fs) <= bytes
    ensures var pos, f := Used(fs[..n]), fs[n];
            && Used(fs[..n + 1]) == pos + |Wire(f)| <= |bytes|
            && bytes[pos] == |f.name|
            && bytes[pos + 1 + |f.name| + 1] == |f.data| % 256 && bytes[pos + 1 + |f.name| + 2] == |f.data| / 256
  {
    hide WireAll;
    var f := fs[n];
    assert fs == fs[..n] + ([f] + fs[n + 1..]) && fs[..n + 1] == fs[..n] + [f];
    WireConcat(fs[..n], [f] + fs[n + 1..]);
    WireConcat([f], fs[n + 1..]);
    WireConcat(fs[..n], [f]);
    WireOne(f);
    WireShape(f);
    var pos := Used(fs[..n]);
    assert bytes[pos..][..|Wire(f)|] == Wire(f);
    assert forall k :: 0 <= k < |Wire(f)| ==> bytes[pos + k] == bytes[pos..][..|Wire(f)|][k];
  }

  /** The three things the sender does with the next field. */
  lemma GreedyStep(fs: seq<WireField>, n: nat, open: Part)
    requires n < |fs|
    ensures var f, more := fs[n], open + [fs[n]];
            && Used(more) == Used(open) + |Wire(f)|
            && (if open != [] && Used(more) > PAYLOAD_MAX then Greedy(fs[n..], open) == [open] + Greedy(fs[n..], [])
                else if Used(more) >= PAYLOAD_MAX then Greedy(fs[n..], open) == [more] + Greedy(fs[n + 1..], [])
                else Greedy(fs[n..], open) == Greedy(fs[n + 1..], more))
  {
    hide Wire, Used;
    assert fs[n..][1..] == fs[n + 1..];
    UsedConcat(open, [fs[n]]);
    UsedOne(fs[n]);
  }

  lemma GreedyEnd(open: Part)
    ensures Greedy([], open) == if open == [] then [] else [open]
  {}

  lemma SizedNext(sizes: seq<nat>, sizes': seq<nat>, parts: seq<Part>, part: Part)
    requires Sized(sizes, parts) && |parts| < |sizes| && sizes' == sizes[|parts| := Used(part)]
    ensures Sized(sizes', parts + [part])
  {
    hide Used;
  }

  /** Notes the size of the open fragment. */
  method Close(sizes: array<nat>, count: nat, size: nat, ghost closed: seq<Part>, ghost open: Part)
    returns (count': nat)
    requires sizes.Length == 255 && Sized(sizes[..], closed) && count == |closed| < 255 && size == Used(open)
    modifies sizes
    ensures Sized(sizes[..], closed + [open]) && count' == |closed + [open]|
  {
    hide Used, Sized;
    ghost var before := sizes[..];
    sizes[count] := size;
    SizedNext(before, sizes[..], closed, open);
    count' := count + 1;
  }

  /** The next header is complete exactly when a field is left. */
  lemma HeaderThere(bytes: seq<byte>, fs: seq<WireField>, n: nat)
    requires Walkable(bytes, fs) && n <= |fs| && Used(fs[..n]) < |bytes|
    ensures n < |fs| <==> Used(fs[..n]) + 4 + bytes[Used(fs[..n])] <= |bytes|
  {
    hide WireAll, Wire;
    if n < |fs| {
      FieldAt(bytes, fs, n);
      WireShape(fs[n]);
    } else {
      assert fs[..n] == fs;
      UsedLength(fs);
    }
  }

  /** The wire size of the next field, if its header is complete. */
  method Peek(fields: array<byte>, fieldsLen: nat, pos: nat, ghost fs: seq<WireField>, ghost n: nat)
    returns (whole: bool, wire: nat)
    requires fieldsLen <= fields.Length && Walkable(fields[..fieldsLen], fs)
    requires n <= |fs| && pos == Used(fs[..n]) < fieldsLen
    ensures whole == (n < |fs|)
    ensures whole ==> wire == |Wire(fs[n])| >= 4 && Used(fs[..n + 1]) == pos + wire
  {
    hide Wire, WireAll, Used;
    HeaderThere(fields[..fieldsLen], fs, n);
    var nameLen: nat := fields[pos];
    if pos + 1 + nameLen + 3 > fieldsLen { return false, 0; }
    FieldAt(fields[..fieldsLen], fs, n);
    UsedOne(fs[n]);
    var low: nat, high: nat := fields[pos + 1 + nameLen + 1], fields[pos + 1 + nameLen + 2];
    WireShape(fs[n]);
    return true, 1 + nameLen + 1 + 2 + (low + 256 * high);
  }

  /** These fragments are closed, the next one holds these fields, and the rest will be split as the greedy split
      does. */
  ghost predicate Along(fs: seq<WireField>, closed: seq<Part>, n: nat, open: Part) {
    n <= |fs| && Greedy(fs, []) == closed + Greedy(fs[n..], open)
  }

  lemma AlongStart(fs: seq<WireField>)
    ensures Along(fs, [], 0, [])
  {
    hide Greedy;
    assert fs[0..] == fs && [] + Greedy(fs, []) == Greedy(fs, []);
  }

  /** The three things the sender does with the next field: close before it, take it, close behind it. */
  lemma AlongNext(fs: seq<WireField>, closed: seq<Part>, n: nat, open: Part)
    requires n < |fs| && Along(fs, closed, n, open)
    ensures var f, more := fs[n], open + [fs[n]];
            && Used(more) == Used(open) + |Wire(f)|
            && (if open != [] && Used(more) > PAYLOAD_MAX then Along(fs, closed + [open], n, [])
                else if Used(more) >= PAYLOAD_MAX then Along(fs, closed + [more], n + 1, [])
                else Along(fs, closed, n + 1, more))
  {
    hide Greedy, Wire, Used;
    GreedyStep(fs, n, open);
    Moved(closed, [open], Greedy(fs[n..], []));
    Moved(closed, [open + [fs[n]]], Greedy(fs[n + 1..], []));
  }

  lemma AlongEnd(fs: seq<WireField>, closed: seq<Part>, open: Part)
    requires Along(fs, closed, |fs|, open)
    ensures Greedy(fs, []) == if open == [] then closed else closed + [open]
  {
    hide Greedy;
    assert fs[|fs|..] == [];
    GreedyEnd(open);
    assert closed + [] == closed;
  }

  lemma AlongParts(fs: seq<WireField>, parts: seq<Part>)
    requires Greedy(fs, []) == parts
    ensures Parts(fs) == if parts == [] then [[]] else parts
  {
    hide Greedy;
    NothingGreedy(fs);
  }

  /** Room for one more fragment. */
  lemma StillRoom(fs: seq<WireField>, closed: seq<Part>, n: nat, open: Part)
    requires |WireAll(fs)| <= RESPONSE_MAX && Along(fs, closed, n, open)
    ensures |closed| < 20
  {
    hide Greedy, WireAll;
    EnoughRoom(fs);
  }

  method Split(fields: array<byte>, fieldsLen: nat, sizes: array<nat>, ghost fs: seq<WireField>) returns (count: nat)
    requires fieldsLen <= fields.Length && fieldsLen <= RESPONSE_MAX && Walkable(fields[..fieldsLen], fs)
    requires sizes.Length == 255
    modifies sizes
    ensures count == |Parts(fs)| && Sized(sizes[..], Parts(fs))
  {
    hide Greedy, Wire, WireAll, Used, Sized, Along, Parts;
    var pos: nat, start: nat, used: nat := 0, 0, 0;
    count := 0;
    ghost var n: nat, open: Part, closed: seq<Part> := 0, [], [];
    NoneUsed();
    NoneSized(sizes[..]);
    AlongStart(fs);
    assert fs[..0] == [];
    while pos < fieldsLen
      invariant n <= |fs| && pos == Used(fs[..n]) && start + used == pos && used == Used(open) < PAYLOAD_MAX
      invariant Along(fs, closed, n, open)
      invariant count == |closed| && Sized(sizes[..], closed)
      decreases |fs| - n
    {
      UsedEmpty(open);
      var whole, wire := Peek(fields, fieldsLen, pos, fs, n);
      if !whole { break; }
      StillRoom(fs, closed, n, open);
      AlongNext(fs, closed, n, open);
      if used > 0 && used + wire > PAYLOAD_MAX {
        if count < 255 { count := Close(sizes, count, pos - start, closed, open); }
        closed := closed + [open];
        start, used, open := pos, 0, [];
        StillRoom(fs, closed, n, open);
        AlongNext(fs, closed, n, open);
      }
      used, pos := used + wire, pos + wire;
      open := open + [fs[n]];
      n := n + 1;
      if used >= PAYLOAD_MAX && count < 255 {
        count := Close(sizes, count, pos - start, closed, open);
        closed := closed + [open];
        start, used, open := pos, 0, [];
      }
    }
    Finished(fields[..fieldsLen], fs, n);
    StillRoom(fs, closed, n, open);
    UsedEmpty(open);
    AlongEnd(fs, closed, open);
    if used > 0 && count < 255 {
      count := Close(sizes, count, pos - start, closed, open);
      closed := closed + [open];
    }
    AlongParts(fs, closed);
    if count == 0 {
      sizes[0], count := 0, 1;
      OneEmpty(sizes[..]);
    }
  }

  /** The walk ends only when every field is taken. */
  lemma Finished(bytes: seq<byte>, fs: seq<WireField>, n: nat)
    requires Walkable(bytes, fs) && n <= |fs| && (Used(fs[..n]) >= |bytes| || n == |fs|)
    ensures n == |fs|
  {
    hide Used, WireAll;
    UsedLength(fs);
    if n < |fs| { AllTaken(fs, n); }
  }

  lemma AllTaken(fs: seq<WireField>, n: nat)
    requires n <= |fs| && Used(fs[..n]) >= Used(fs)
    ensures n == |fs|
  {
    UsedSplit(fs, n);
    UsedEmpty(fs[n..]);
  }

  lemma OneEmpty(sizes: seq<nat>)
    requires sizes != [] && sizes[0] == 0
    ensures Sized(sizes, [[]])
  {}

  lemma NoneSized(sizes: seq<nat>)
    ensures Sized(sizes, [])
  {}

  lemma Moved<T>(a: seq<T>, b: seq<T>, c: seq<T>)
    ensures a + (b + c) == a + b + c
  {}

  lemma NothingGreedy(fs: seq<WireField>)
    ensures Greedy(fs, []) == [] <==> fs == []
  {
    hide Greedy, Wire, Used;
    NoFields();
    NoneUsed();
    if fs != [] { var g := FirstFragment(fs, []); }
  }

  // ---- Sending the fragments.

  lemma FlattenFrom(parts: seq<Part>, i: nat)
    requires i < |parts|
    ensures WireAll(Flatten(parts[i..])) == WireAll(parts[i]) + WireAll(Flatten(parts[i + 1..]))
  {
    hide WireAll;
    assert parts[i..][1..] == parts[i + 1..];
    WireConcat(parts[i], Flatten(parts[i + 1..]));
  }

  lemma TakeFront(bytes: seq<byte>, a: seq<byte>, b: seq<byte>)
    requires bytes == a + b
    ensures |a| <= |bytes| && bytes[..|a|] == a && bytes[|a|..] == b
  {}

  lemma Slices<T>(s: seq<T>, a: nat, b: nat, n: nat)
    requires a + n <= b <= |s|
    ensures s[a..b][..n] == s[a..a + n] && s[a..b][n..] == s[a + n..b]
  {}

  /** Fills the frame buffer; the old frame underneath does not show. */
  method Fill(frame: array<byte>, cmd: byte, number: byte, status: byte, total: byte, index: byte,
              fields: array<byte>, src: nat, chunk: nat)
    returns (length: nat)
    requires frame != fields && frame.Length == FRAME_MAX && chunk <= PAYLOAD_MAX && src + chunk <= fields.Length
    modifies frame
    ensures length <= FRAME_MAX
    ensures frame[..length] == Header(cmd, number, status, total, index) + fields[src..src + chunk]
  {
    frame[0], frame[1], frame[2], frame[3], frame[4], frame[5] := 1, cmd, number, status, total, index;
    length := HEADER_SIZE;
    if chunk > 0 {
      forall k | 0 <= k < chunk { frame[HEADER_SIZE + k] := fields[src + k]; }
      length := length + chunk;
    }
    assert frame[..HEADER_SIZE] == Header(cmd, number, status, total, index);
    assert frame[..length] == frame[..HEADER_SIZE] + frame[HEADER_SIZE..length];
    assert frame[HEADER_SIZE..length] == fields[src..src + chunk];
  }

  method SendParts(cmd: byte, number: byte, status: byte, fields: array<byte>, fieldsLen: nat, sizes: array<nat>,
                   count: nat, ghost fs: seq<WireField>, ghost parts: seq<Part>)
    returns (sent: seq<seq<byte>>)
    requires fieldsLen <= fields.Length && WireAll(fs) <= fields[..fieldsLen]
    requires count == |parts| < 256 && Sized(sizes[..], parts) && PartsFit(parts) && Flatten(parts) == fs
    ensures sent == Frames(cmd, number, status, parts)
  {
    hide WireAll, Used, Header, Flatten;
    var frame := new byte[FRAME_MAX](_ => 0);
    sent := [];
    var src: nat := 0;
    assert parts[0..] == parts;
    ghost var end := |WireAll(fs)|;
    assert fields[..end] == WireAll(fs);
    for i := 0 to count
      invariant src <= end && fields[src..end] == WireAll(Flatten(parts[i..]))
      invariant |sent| == i && forall k :: 0 <= k < i ==> sent[k] == Frames(cmd, number, status, parts)[k]
    {
      var chunk := sizes[i];
      assert chunk == sizes[..][i] == Used(parts[i]);
      FlattenFrom(parts, i);
      UsedLength(parts[i]);
      TakeFront(fields[src..end], WireAll(parts[i]), WireAll(Flatten(parts[i + 1..])));
      Slices(fields[..], src, end, chunk);
      var length := Fill(frame, cmd, number, status, count, i, fields, src, chunk);
      src := src + chunk;
      sent := sent + [frame[..length]];
    }
  }
}
