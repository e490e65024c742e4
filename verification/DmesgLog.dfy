/** The message log as a sequence of records: what a write keeps, and what a run of writes keeps. */
module DmesgLog {
  import opened Common

  const RING := 256
  const CAPACITY := 255
  const TEXT_MAX := 128
  const HEADER_SIZE := 5
  const TICKS := 0x1_0000_0000

  datatype Record = Record(timestamp: nat, text: seq<byte>)

  type Entry = r: Record | r.timestamp < TICKS && 1 <= |r.text| <= TEXT_MAX witness Record(0, [0])

  /** A 32-bit number, low byte first. */
  function Word(n: nat): (r: seq<byte>)
    requires n < TICKS
    ensures |r| == 4
  {
    [n % 256, n / 256 % 256, n / 65536 % 256, n / 16777216]
  }

  function FromWord(b: seq<byte>): nat
    requires |b| == 4
  {
    var b0: nat, b1: nat, b2: nat, b3: nat := b[0], b[1], b[2], b[3];
    b0 + 256 * b1 + 65536 * b2 + 16777216 * b3
  }

  lemma WordRoundTrip(n: nat)
    requires n < TICKS
    ensures FromWord(Word(n)) == n
  {
    var a, b, c := n / 256, n / 65536, n / 16777216;
    assert b == a / 256 && c == b / 256;
    assert n == n % 256 + 256 * a && a == a % 256 + 256 * b && b == b % 256 + 256 * c;
  }

  function Header(r: Entry): (h: seq<byte>)
    ensures |h| == HEADER_SIZE
  {
    Word(r.timestamp) + [|r.text|]
  }

  function EntryBytes(r: Entry): (b: seq<byte>)
    ensures |b| == HEADER_SIZE + |r.text|
  {
    Header(r) + r.text
  }

  function Bytes(log: seq<Entry>): seq<byte> {
    if log == [] then [] else EntryBytes(log[0]) + Bytes(log[1..])
  }

  function Size(log: seq<Entry>): nat { |Bytes(log)| }

  /** Byte by byte: a time stamp, low byte first, the length of the text, the text. */
  lemma EntryLayout(r: Entry)
    ensures var b := EntryBytes(r);
            var b0: nat, b1: nat, b2: nat, b3: nat := b[0], b[1], b[2], b[3];
            && b0 + 0x100 * b1 + 0x1_0000 * b2 + 0x100_0000 * b3 == r.timestamp
            && b[4] == |r.text| && b[5..] == r.text
  {
    hide Word;
    WordRoundTrip(r.timestamp);
    var b := EntryBytes(r);
    assert b[..4] == Word(r.timestamp);
  }

  // ---- The bytes determine the records.

  /** Reads records until the bytes run out. */
  function Parse(bytes: seq<byte>): Option<seq<Entry>>
    decreases |bytes|
  {
    if bytes == [] then Some([])
    else if |bytes| < HEADER_SIZE then None
    else
      var n := bytes[4];
      if n == 0 || n > TEXT_MAX || |bytes| < HEADER_SIZE + n || FromWord(bytes[..4]) >= TICKS then None
      else
        var rest := Parse(bytes[HEADER_SIZE + n..]);
        if rest.None? then None
        else Some([Record(FromWord(bytes[..4]), bytes[HEADER_SIZE..HEADER_SIZE + n])] + rest.value)
  }

  lemma FirstParsed(r: Entry, rest: seq<byte>)
    ensures var bytes := EntryBytes(r) + rest;
            && bytes[..4] == Word(r.timestamp) && bytes[4] == |r.text|
            && bytes[HEADER_SIZE..HEADER_SIZE + |r.text|] == r.text && bytes[HEADER_SIZE + |r.text|..] == rest
  {
    hide Word;
  }

  /** The occupied bytes hold these records and no others. */
  lemma {:induction false} ParseBytes(log: seq<Entry>)
    ensures Parse(Bytes(log)) == Some(log)
  {
    hide EntryBytes, Word, FromWord;
    if log == [] {
    } else {
      FirstParsed(log[0], Bytes(log[1..]));
      WordRoundTrip(log[0].timestamp);
      ParseBytes(log[1..]);
      assert Record(log[0].timestamp, log[0].text) == log[0] && [log[0]] + log[1..] == log;
    }
  }

  // ---- One write.

  /** How many of the oldest records must go before this many bytes fit. */
  function Evictions(log: seq<Entry>, need: nat): (k: nat)
    ensures k <= |log|
  {
    if log == [] || Size(log) + need <= CAPACITY then 0 else 1 + Evictions(log[1..], need)
  }

  /** Dropping that many is enough, and nothing less is. */
  lemma {:induction false} FewestEvictions(log: seq<Entry>, need: nat)
    requires need <= CAPACITY
    ensures Size(log[Evictions(log, need)..]) + need <= CAPACITY
    ensures forall k :: 0 <= k < Evictions(log, need) ==> Size(log[k..]) + need > CAPACITY
  {
    assert log[0..] == log;
    if Evictions(log, need) == 0 {
    } else {
      FewestEvictions(log[1..], need);
      var k1 := Evictions(log[1..], need);
      assert log[1..][k1..] == log[k1 + 1..];
      forall k | 0 <= k < k1 + 1 ensures Size(log[k..]) + need > CAPACITY {
        if k > 0 { assert log[k..] == log[1..][k - 1..]; }
      }
    }
  }

  /** The guard against endless eviction: it fires once the evictions outnumber the remaining records by more than
      ten, which a healthy log can do. */
  predicate GuardFires(log: seq<Entry>, r: Entry) {
    2 * Evictions(log, HEADER_SIZE + |r.text|) > |log| + 10
  }

  function Appended(log: seq<Entry>, r: Entry): seq<Entry> {
    if GuardFires(log, r) then [] else log[Evictions(log, HEADER_SIZE + |r.text|)..] + [r]
  }

  /** One write, by the number k of records that must go before the new one fits into 255 bytes: it empties the log
      exactly when 2k exceeds the number of records by more than ten, and otherwise leaves the others and the new one.
      */
  lemma AppendedRule(log: seq<Entry>, r: Entry, k: nat)
    requires k <= |log| && Size(log[k..]) + 5 + |r.text| <= 255
    requires k > 0 ==> Size(log[k - 1..]) + 5 + |r.text| > 255
    ensures Appended(log, r) == if 2 * k > |log| + 10 then [] else log[k..] + [r]
  {
    hide Evictions, Size;
    EvictionsUnique(log, HEADER_SIZE + |r.text|, k);
  }

  // ---- Whole runs.

  /** The log after these writes. */
  function After(writes: seq<Entry>): seq<Entry> {
    if writes == [] then []
    else Appended(After(writes[..|writes| - 1]), writes[|writes| - 1])
  }

  /** The messages written since the guard last fired. */
  function SinceReset(writes: seq<Entry>): seq<Entry> {
    if writes == [] then []
    else
      var earlier, last := writes[..|writes| - 1], writes[|writes| - 1];
      if GuardFires(After(earlier), last) then [] else SinceReset(earlier) + [last]
  }

  lemma {:induction false} BytesConcat(a: seq<Entry>, b: seq<Entry>)
    ensures Bytes(a + b) == Bytes(a) + Bytes(b)
  {
    hide EntryBytes;
    if a == [] {
      assert a + b == b;
    } else {
      assert (a + b)[1..] == a[1..] + b;
      BytesConcat(a[1..], b);
      assert EntryBytes(a[0]) + (Bytes(a[1..]) + Bytes(b)) == EntryBytes(a[0]) + Bytes(a[1..]) + Bytes(b);
    }
  }

  lemma SizeConcat(a: seq<Entry>, b: seq<Entry>)
    ensures Size(a + b) == Size(a) + Size(b)
  {
    BytesConcat(a, b);
  }

  lemma NoSize()
    ensures Size([]) == 0
  {}

  lemma SizeOne(r: Entry)
    ensures Size([r]) == HEADER_SIZE + |r.text|
  {
    assert [r][1..] == [] && Bytes([]) == [];
    assert EntryBytes(r) + [] == EntryBytes(r);
  }

  lemma SizeSuffix(log: seq<Entry>, i: nat, j: nat)
    requires i <= j <= |log|
    ensures Size(log[i..]) == Size(log[i..j]) + Size(log[j..]) >= Size(log[j..])
  {
    assert log[i..] == log[i..j] + log[j..];
    SizeConcat(log[i..j], log[j..]);
  }

  /** Evictions is pinned down by its two properties. */
  lemma EvictionsUnique(log: seq<Entry>, need: nat, k: nat)
    requires need <= CAPACITY && k <= |log|
    requires Size(log[k..]) + need <= CAPACITY
    requires k > 0 ==> Size(log[k - 1..]) + need > CAPACITY
    ensures Evictions(log, need) == k
  {
    hide Evictions, Size;
    FewestEvictions(log, need);
    var e := Evictions(log, need);
    if e < k { SizeSuffix(log, e, k - 1); }
  }

  /** Between resets the log is exactly the longest run of latest messages that fits in the ring. */
  lemma {:induction false} LongestSuffix(writes: seq<Entry>)
    ensures var since := SinceReset(writes); After(writes) == since[Evictions(since, 0)..]
  {
    hide Evictions, GuardFires, Appended;
    NoEvictions();
    if writes == [] {
    } else {
      var earlier, last := writes[..|writes| - 1], writes[|writes| - 1];
      LongestSuffix(earlier);
      LongestSuffixNext(SinceReset(earlier), After(earlier), last);
    }
  }

  lemma LongestSuffixNext(since: seq<Entry>, log: seq<Entry>, r: Entry)
    requires log == since[Evictions(since, 0)..]
    ensures var since' := if GuardFires(log, r) then [] else since + [r];
            Appended(log, r) == since'[Evictions(since', 0)..]
  {
    hide Evictions, GuardFires;
    NoEvictions();
    SuffixGrows(since, r);
  }

  lemma NoEvictions()
    ensures Evictions([], 0) == 0
  {}

  lemma SuffixGrows(h: seq<Entry>, r: Entry)
    ensures var kept := h[Evictions(h, 0)..]; var k := Evictions(kept, HEADER_SIZE + |r.text|);
            kept[k..] + [r] == (h + [r])[Evictions(h + [r], 0)..]
  {
    hide Evictions, Size;
    var need := HEADER_SIZE + |r.text|;
    FewestEvictions(h, 0);
    var e := Evictions(h, 0);
    var kept := h[e..];
    FewestEvictions(kept, need);
    var k := Evictions(kept, need);
    assert kept[k..] == h[e + k..];
    SizeOne(r);
    SizeConcat(h[e + k..], [r]);
    assert (h + [r])[e + k..] == h[e + k..] + [r];
    if e + k > 0 {
      assert (h + [r])[e + k - 1..] == h[e + k - 1..] + [r];
      SizeConcat(h[e + k - 1..], [r]);
      if k > 0 { assert kept[k - 1..] == h[e + k - 1..]; }
    }
    EvictionsUnique(h + [r], 0, e + k);
  }

  // ---- The guard on a healthy log.

  function Copies(n: nat, r: Entry): (log: seq<Entry>)
    ensures |log| == n
  {
    seq(n, _ => r)
  }

  lemma {:induction false} CopiesSize(n: nat, r: Entry)
    ensures Size(Copies(n, r)) == n * (HEADER_SIZE + |r.text|)
  {
    if n == 0 {
    } else {
      assert Copies(n, r)[0] == r && Copies(n, r)[1..] == Copies(n - 1, r);
      CopiesSize(n - 1, r);
    }
  }

  /** Twenty messages of one character and one of 128 fit together; a second one of 128 empties the log. */
  lemma GuardFiresOnHealthyLog(short: Entry, long: Entry)
    requires |short.text| == 1 && |long.text| == 128
    ensures var log := Copies(20, short);
            && Appended(log, long) == log + [long]
            && Size(log + [long]) <= CAPACITY
            && Appended(log + [long], long) == []
  {
    hide Size, Copies;
    var log := Copies(20, short);
    CopiesSize(20, short);
    SizeOne(long);
    SizeConcat(log, [long]);
    assert log[0..] == log;
    EvictionsUnique(log, 133, 0);
    var full := log + [long];
    assert full[21..] == [] && full[20..] == [long];
    NoSize();
    EvictionsUnique(full, 133, 21);
  }
}
