/** The log buffer: a 256-byte ring updated in place, proved to hold the log as a sequence. */
module Dmesg {
  import opened Common
  import opened DmesgLog

  datatype Error = DmesgOk | NullPointer | BufferFull | InvalidLength | CorruptedEntry | NotInitialized

  const MAGIC := 0xDEADBEEF
  /** Sizes have 32 bits. */
  const SIZES := 0x1_0000_0000

  /** The position k places on from here, around the end if need be. */
  function At(from: nat, k: nat): (r: nat)
    ensures r < RING
  {
    (from + k) % RING
  }

  /** From this position on the ring holds these bytes. */
  ghost predicate Holds(ring: seq<byte>, from: nat, bytes: seq<byte>)
    requires |ring| == RING
  {
    |bytes| <= RING && forall k :: 0 <= k < |bytes| ==> ring[At(from, k)] == bytes[k]
  }

  lemma AtIs(from: nat, k: nat)
    ensures At(from, k) == (from + k) % 256
  {}

  /** The 32-bit number at a position. */
  function NumberAt(ring: seq<byte>, i: nat): nat
    requires |ring| == 256
  {
    var b0: nat, b1: nat, b2: nat, b3: nat :=
      ring[i % 256], ring[(i + 1) % 256], ring[(i + 2) % 256], ring[(i + 3) % 256];
    b0 + 0x100 * b1 + 0x1_0000 * b2 + 0x100_0000 * b3
  }

  /** From this position on, around the end if need be, the ring reads as this text. */
  ghost predicate TextAt(ring: seq<byte>, i: nat, text: seq<byte>)
    requires |ring| == 256
  {
    forall k :: 0 <= k < |text| ==> ring[(i + k) % 256] == text[k]
  }

  lemma HeldText(ring: seq<byte>, from: nat, text: seq<byte>)
    requires |ring| == RING && Holds(ring, from, text)
    ensures TextAt(ring, from, text)
  {
    hide At;
    forall k | 0 <= k < |text| ensures ring[(from + k) % 256] == text[k] { AtIs(from, k); }
  }

  lemma HeldNumber(ring: seq<byte>, from: nat, bytes: seq<byte>)
    requires |ring| == RING && |bytes| >= 4 && Holds(ring, from, bytes)
    ensures NumberAt(ring, from) == FromWord(bytes[..4])
  {
    hide Holds;
    HeldText(ring, from, bytes);
    assert ring[(from + 0) % 256] == bytes[0];
  }

  lemma TextShift(ring: seq<byte>, from: nat, n: nat, text: seq<byte>)
    requires |ring| == 256 && TextAt(ring, At(from, n), text)
    ensures TextAt(ring, from + n, text)
  {
    forall k | 0 <= k < |text| ensures ring[(from + n + k) % 256] == text[k] {
      assert ring[(At(from, n) + k) % 256] == text[k];
    }
  }

  lemma AtSelf(i: nat)
    requires i < RING
    ensures At(i, 0) == i
  {}

  lemma AtAdd(from: nat, i: nat, j: nat)
    ensures At(At(from, i), j) == At(from, i + j)
  {}

  lemma AtDistinct(from: nat, i: nat, j: nat)
    requires i < j < RING
    ensures At(from, i) != At(from, j)
  {}

  lemma HoldsConcat(ring: seq<byte>, from: nat, a: seq<byte>, b: seq<byte>)
    requires |ring| == RING && |a + b| <= RING
    ensures Holds(ring, from, a + b) <==> Holds(ring, from, a) && Holds(ring, At(from, |a|), b)
  {
    hide At;
    if Holds(ring, from, a + b) {
      forall k | 0 <= k < |a| ensures ring[At(from, k)] == a[k] { assert (a + b)[k] == a[k]; }
      forall k | 0 <= k < |b| ensures ring[At(At(from, |a|), k)] == b[k] {
        AtAdd(from, |a|, k);
        assert (a + b)[|a| + k] == b[k];
      }
    }
    if Holds(ring, from, a) && Holds(ring, At(from, |a|), b) {
      forall k | 0 <= k < |a + b| ensures ring[At(from, k)] == (a + b)[k] {
        if k >= |a| {
          AtAdd(from, |a|, k - |a|);
          assert b[k - |a|] == (a + b)[k];
        } else {
          assert a[k] == (a + b)[k];
        }
      }
    }
  }

  lemma AtAround(from: nat, n: nat, k: nat)
    requires n <= RING && k < n
    ensures At(At(from, n), RING - n + k) == At(from, k)
  {
    AtAdd(from, n, RING - n + k);
  }

  /** Writing behind the occupied bytes leaves them alone as long as it fits. */
  lemma HoldsKept(ring: seq<byte>, ring': seq<byte>, from: nat, bytes: seq<byte>, n: nat)
    requires |ring| == |ring'| == RING && Holds(ring, from, bytes) && |bytes| + n <= RING
    requires forall j :: n <= j < RING ==> ring'[At(At(from, |bytes|), j)] == ring[At(At(from, |bytes|), j)]
    ensures Holds(ring', from, bytes)
  {
    hide At;
    forall k | 0 <= k < |bytes| ensures ring'[At(from, k)] == bytes[k] {
      AtAround(from, |bytes|, k);
      var j := RING - |bytes| + k;
      assert ring'[At(At(from, |bytes|), j)] == ring[At(At(from, |bytes|), j)];
    }
  }

  class Log {
    const buffer: array<byte>
    var writeOffset: nat
    var readOffset: nat
    var logCount: nat
    var initialized: bool
    var totalWrites: nat
    var droppedMessages: nat
    var maxEntriesReached: nat
    var magic: nat
    /** The records, oldest first. */
    ghost var log: seq<Entry>

    ghost predicate Valid()
      reads this, buffer
    {
      && buffer.Length == RING && magic == MAGIC
      && readOffset < RING && Size(log) <= CAPACITY
      && writeOffset == At(readOffset, Size(log))
      && logCount == |log|
      && Holds(buffer[..], readOffset, Bytes(log))
    }

    constructor ()
      ensures Valid() && !initialized && log == [] && fresh(buffer) && buffer.Length == 256
    {
      buffer := new byte[RING](_ => 0);
      writeOffset, readOffset, logCount, initialized := 0, 0, 0, false;
      totalWrites, droppedMessages, maxEntriesReached, magic := 0, 0, 0, MAGIC;
      log := [];
    }

    method GetAvailableSpace() returns (space: nat)
      requires Valid()
      ensures space == 255 - Size(log)
    {
      if readOffset <= writeOffset {
        space := RING - (writeOffset - readOffset) - 1;
      } else {
        space := readOffset - writeOffset - 1;
      }
    }

    /** Reads bytes from a position on, wrapping around. */
    method GetBytes(from: nat, n: nat) returns (bytes: seq<byte>, next: nat)
      requires buffer.Length == RING && from < RING && n <= RING
      ensures |bytes| == n && Holds(buffer[..], from, bytes) && next == At(from, n)
    {
      hide At;
      bytes, next := [], from;
      AtSelf(from);
      for i := 0 to n
        invariant |bytes| == i && Holds(buffer[..], from, bytes) && next == At(from, i)
      {
        bytes := bytes + [buffer[next]];
        AtAdd(from, i, 1);
        next := At(next, 1);
      }
    }

    /** Writes bytes from a position on, wrapping around; all other positions keep theirs. */
    method PutBytes(from: nat, bytes: seq<byte>) returns (next: nat)
      requires buffer.Length == RING && from < RING && |bytes| < RING
      modifies buffer
      ensures Holds(buffer[..], from, bytes) && next == At(from, |bytes|)
      ensures forall j :: |bytes| <= j < RING ==> buffer[At(from, j)] == old(buffer[At(from, j)])
    {
      hide At;
      next := from;
      AtSelf(from);
      for i := 0 to |bytes|
        invariant forall k :: 0 <= k < i ==> buffer[At(from, k)] == bytes[k]
        invariant forall j :: i <= j < RING ==> buffer[At(from, j)] == old(buffer[At(from, j)])
        invariant next == At(from, i)
      {
        forall k | 0 <= k < RING && k != i ensures At(from, k) != next {
          AtDistinct(from, if k < i then k else i, if k < i then i else k);
        }
        buffer[next] := bytes[i];
        AtAdd(from, i, 1);
        next := At(next, 1);
      }
    }

    method EvictOldest()
      requires Valid()
      modifies this`readOffset, this`logCount, this`log
      ensures Valid() && log == if old(log) == [] then [] else old(log)[1..]
    {
      hide At, Word, FromWord, EntryBytes;
      if logCount == 0 { return; }
      FirstHeld(this);
      ghost var rest := Bytes(log[1..]);
      var header, at := GetBytes(readOffset, HEADER_SIZE);
      SameBytes(buffer[..], readOffset, header, log[0]);
      // the length is never out of range, so the log is never reset here
      if header[4] == 0 || header[4] > TEXT_MAX { assert false; }
      AtAdd(readOffset, HEADER_SIZE, header[4]);
      AtAdd(readOffset, HEADER_SIZE + header[4], |rest|);
      readOffset := At(at, header[4]);
      logCount := logCount - 1;
      log := log[1..];
    }

    /** The last part of a write: the record goes behind the others, and is only then counted. */
    method Append(r: Entry)
      requires Valid() && Size(log) + HEADER_SIZE + |r.text| <= CAPACITY
      modifies buffer, this`writeOffset, this`logCount, this`log
      ensures Valid() && log == old(log) + [r]
    {
      hide At, Bytes, Header;
      ghost var ring, bytes := buffer[..], Bytes(log);
      var off := PutBytes(writeOffset, Header(r));
      ghost var ring1 := buffer[..];
      off := PutBytes(off, r.text);
      Appending(ring, ring1, buffer[..], readOffset, bytes, Header(r), r.text);
      BytesConcat(log, [r]);
      BytesOne(r);
      writeOffset := off;
      logCount := logCount + 1;
      log := log + [r];
    }

    /** What a write does to the statistics: every record written is in the log or counted as dropped, but a reset
        counts as one dropped message however many it drops. */
    ghost predicate Counted(err: Error, before: seq<Entry>, stats: (nat, nat, nat))
      reads this
    {
      match err
      case DmesgOk =>
        && totalWrites == stats.0 + 1
        && droppedMessages + |log| == stats.1 + |before| + 1
        && maxEntriesReached == if logCount > stats.2 then logCount else stats.2
      case BufferFull =>
        totalWrites == stats.0 && droppedMessages == stats.1 + 1 && maxEntriesReached == stats.2
      case _ =>
        totalWrites == stats.0 && droppedMessages == stats.1 && maxEntriesReached == stats.2
    }

    /** Evicts until this much fits, or until the guard fires and the whole log goes. */
    method MakeRoom(required: nat) returns (ok: bool, evictionCount: nat)
      requires Valid() && required <= CAPACITY
      modifies this`readOffset, this`writeOffset, this`logCount, this`droppedMessages, this`log
      ensures Valid() && ok == (2 * Evictions(old(log), required) <= |old(log)| + 10)
      ensures ok ==> evictionCount == Evictions(old(log), required) && log == old(log)[evictionCount..]
      ensures ok ==> Size(log) + required <= CAPACITY && droppedMessages == old(droppedMessages)
      ensures !ok ==> log == [] && droppedMessages == old(droppedMessages) + 1
    {
      hide At, Bytes, Size, Holds;
      evictionCount := 0;
      assert log[0..] == log;
      var space := GetAvailableSpace();
      while space < required && logCount > 0
        invariant Valid() && evictionCount <= |old(log)| && log == old(log)[evictionCount..]
        invariant space == CAPACITY - Size(log) && droppedMessages == old(droppedMessages)
        invariant Evictions(old(log), required) == evictionCount + Evictions(log, required)
        invariant 2 * evictionCount <= |old(log)| + 10
        decreases logCount
      {
        EvictOldest();
        evictionCount := evictionCount + 1;
        if evictionCount > logCount + 10 {
          writeOffset, readOffset, logCount := 0, 0, 0;
          droppedMessages := droppedMessages + 1;
          log := [];
          EmptyLog(buffer[..]);
          return false, evictionCount;
        }
        space := GetAvailableSpace();
      }
      FewestEvictions(log, required);
      assert log[0..] == log;
      ok := true;
    }

    /** Appends a record after making room, unless the guard against endless eviction stops it. The corruption check
        and the final space check never stop it. */
    method WriteEntry(msg: seq<byte>, timestamp: nat) returns (err: Error)
      requires Valid() && timestamp < TICKS
      modifies this, buffer
      ensures Valid() && initialized == old(initialized)
      ensures !(1 <= |msg| <= 128) ==> err == InvalidLength && log == old(log)
      ensures 1 <= |msg| <= 128 ==>
              var r := Record(timestamp, msg);
              && log == Appended(old(log), r)
              && err == (if GuardFires(old(log), r) then BufferFull else DmesgOk)
      ensures Counted(err, old(log), old((totalWrites, droppedMessages, maxEntriesReached)))
    {
      hide At, Bytes, Size, Evictions, Holds;
      if |msg| == 0 || |msg| > TEXT_MAX { return InvalidLength; }
      if magic != MAGIC { assert false; }
      var required := HEADER_SIZE + |msg|;
      var ok, evictionCount := MakeRoom(required);
      if !ok { return BufferFull; }
      if evictionCount > 0 { droppedMessages := droppedMessages + evictionCount; }
      var space := GetAvailableSpace();
      if space < required { assert false; }
      Append(Record(timestamp, msg));
      totalWrites := totalWrites + 1;
      if logCount > maxEntriesReached { maxEntriesReached := logCount; }
      err := DmesgOk;
    }

    /** Reads an entry at any offset, cutting its text to the caller's buffer. An offset outside the ring or a length no
        record has is reported, and the offset stays; anything else the ring holds there is taken for a record. A buffer
        size of 0 wraps around and cuts nothing. */
    method ReadEntryAt(offset: nat, bufferSize: nat) returns (err: Error, timestamp: nat, text: seq<byte>, next: nat)
      requires buffer.Length == RING && bufferSize < SIZES
      ensures err == if offset < 256 && 1 <= buffer[(offset + 4) % 256] <= 128 then DmesgOk else CorruptedEntry
      ensures err != DmesgOk ==> next == offset
      ensures err == DmesgOk ==>
              var length: nat := buffer[(offset + 4) % 256];
              && |text| == (if bufferSize == 0 || length < bufferSize then length else bufferSize - 1)
              && timestamp == NumberAt(buffer[..], offset) && TextAt(buffer[..], offset + 5, text)
              && next == (offset + 5 + length) % 256
    {
      hide At, FromWord, Holds, TextAt, NumberAt;
      timestamp, text, next := 0, [], offset;
      if offset >= RING { return CorruptedEntry, timestamp, text, next; }
      var header, off := GetBytes(offset, HEADER_SIZE);
      HeldText(buffer[..], offset, header);
      HeldNumber(buffer[..], offset, header);
      TextByte(buffer[..], offset, header, 4);
      if header[4] == 0 || header[4] > TEXT_MAX { return CorruptedEntry, timestamp, text, next; }
      var length: nat := header[4];
      timestamp := FromWord(header[..4]);
      var room := (bufferSize + SIZES - 1) % SIZES;
      var copyLength := if length < room then length else room;
      text, off := GetBytes(off, copyLength);
      HeldText(buffer[..], At(offset, HEADER_SIZE), text);
      TextShift(buffer[..], offset, HEADER_SIZE, text);
      AtAdd(offset, HEADER_SIZE, copyLength);
      for j := copyLength to length
        invariant off == At(offset, HEADER_SIZE + j)
      {
        AtAdd(offset, HEADER_SIZE + j, 1);
        off := At(off, 1);
      }
      AtIs(offset, HEADER_SIZE + length);
      next := off;
      err := DmesgOk;
    }

    /** The latest records, oldest first. */
    method GetLatestN(count: nat) returns (out: seq<Entry>)
      requires Valid()
      ensures !initialized ==> out == []
      ensures initialized ==> out == log[if count > |log| then 0 else |log| - count..]
    {
      hide At, Bytes, Size, Word, FromWord, Header;
      out := [];
      if !initialized || count == 0 { return; }
      var available, n := logCount, count;
      if n > available { n := available; }
      if n == 0 { return; }
      var skip := available - n;
      var offset := readOffset;
      StartsAtRead(this);
      for i := 0 to skip
        invariant offset == At(readOffset, Size(log[..i]))
      {
        EntryHeld(this, i);
        if offset >= RING { assert false; }
        var header, at := GetBytes(offset, HEADER_SIZE);
        SameBytes(buffer[..], offset, header, log[i]);
        if header[4] == 0 || header[4] > TEXT_MAX { assert false; }
        AtAdd(offset, HEADER_SIZE, header[4]);
        AtAdd(readOffset, Size(log[..i]), HEADER_SIZE + header[4]);
        offset := At(at, header[4]);
      }
      out := ReadEntries(offset, n, skip);
    }

    method GetLogs() returns (out: seq<Entry>)
      requires Valid()
      ensures out == if initialized then log else []
    {
      hide At, Bytes, Size;
      if !initialized || logCount == 0 { return []; }
      StartsAtRead(this);
      out := ReadEntries(readOffset, logCount, 0);
    }

    /** Reads n records on from the one at this offset. */
    method ReadEntries(offset: nat, n: nat, ghost first: nat) returns (out: seq<Entry>)
      requires Valid() && first + n == |log| && offset == At(readOffset, Size(log[..first]))
      ensures out == log[first..]
    {
      hide At, Bytes, Size, Holds, TextAt, NumberAt;
      out := [];
      var at := offset;
      for i := 0 to n
        invariant out == log[first..first + i] && at == At(readOffset, Size(log[..first + i]))
      {
        var err, timestamp, text, next := ReadEntryAt(at, TEXT_MAX + 1);
        RecordStands(this, first + i);
        AtIs(readOffset, Size(log[..first + i]));
        AtIs(readOffset, Size(log[..first + i + 1]));
        if err != DmesgOk { assert false; }
        SameText(buffer[..], at + 5, text, log[first + i].text);
        assert Record(timestamp, text) == log[first + i];
        out := out + [Record(timestamp, text)];
        at := next;
      }
    }

    method Init() returns (err: Error)
      requires Valid()
      modifies this, buffer
      ensures Valid() && initialized && err == DmesgOk
      ensures log == if old(initialized) then old(log) else []
      ensures !old(initialized) ==> totalWrites == droppedMessages == maxEntriesReached == 0
    {
      err := DmesgOk;
      if initialized { return; }
      writeOffset, readOffset, logCount := 0, 0, 0;
      totalWrites, droppedMessages, maxEntriesReached, magic := 0, 0, 0, MAGIC;
      forall k | 0 <= k < buffer.Length { buffer[k] := 0; }
      log := [];
      initialized := true;
    }

    method Clear() returns (err: Error)
      requires Valid()
      modifies this
      ensures Valid() && initialized == old(initialized)
      ensures err == (if initialized then DmesgOk else NotInitialized)
      ensures log == if initialized then [] else old(log)
    {
      if !initialized { return NotInitialized; }
      writeOffset, readOffset, logCount := 0, 0, 0;
      log := [];
      err := DmesgOk;
    }

    /** Logs a C string, given as the characters before its terminator; only the first 128 are kept. */
    method Write(msg: seq<byte>, tick: nat) returns (err: Error)
      requires Valid() && tick < TICKS
      modifies this, buffer
      ensures Valid() && initialized == old(initialized)
      ensures !initialized ==> err == NotInitialized && log == old(log)
      ensures initialized && msg == [] ==> err == InvalidLength && log == old(log)
      ensures initialized && msg != [] ==>
              var r := Record(tick, msg[..if |msg| < 128 then |msg| else 128]);
              log == Appended(old(log), r) && err == (if GuardFires(old(log), r) then BufferFull else DmesgOk)
    {
      hide At, Bytes, Size, Evictions, Holds;
      if !initialized { return NotInitialized; }
      var length: nat := 0;
      while length < |msg| && length < TEXT_MAX
        invariant length <= |msg| && length <= TEXT_MAX
      {
        length := length + 1;
      }
      if length == 0 { return InvalidLength; }
      err := WriteEntry(msg[..length], tick);
    }

    /** Share of the ring in use, in percent; never 100, as one byte always stays free. */
    method Utilization() returns (percent: nat)
      requires Valid()
      ensures percent == (if initialized then Size(log) * 100 / RING else 0) && percent < 100
    {
      hide At, Bytes, Size, Holds;
      if !initialized { return 0; }
      var available := GetAvailableSpace();
      var used := RING - available - 1;
      percent := used * 100 / RING;
    }
  }

  lemma EmptyLog(ring: seq<byte>)
    requires |ring| == RING
    ensures Size([]) == 0 && At(0, 0) == 0 && Holds(ring, 0, Bytes([]))
  {}

  lemma BytesOne(r: Entry)
    ensures Bytes([r]) == EntryBytes(r) == Header(r) + r.text
  {
    hide Header;
    assert [r][1..] == [] && EntryBytes(r) + [] == EntryBytes(r);
  }

  /** Header and text written one after the other behind the occupied bytes. */
  lemma Appending(ring: seq<byte>, ring1: seq<byte>, ring2: seq<byte>, from: nat, bytes: seq<byte>, header: seq<byte>,
                  text: seq<byte>)
    requires |ring| == |ring1| == |ring2| == RING && Holds(ring, from, bytes) && |bytes| + |header| + |text| <= RING
    requires var w := At(from, |bytes|);
             && Holds(ring1, w, header)
             && (forall j :: |header| <= j < RING ==> ring1[At(w, j)] == ring[At(w, j)])
    requires var w := At(At(from, |bytes|), |header|);
             && Holds(ring2, w, text)
             && (forall j :: |text| <= j < RING ==> ring2[At(w, j)] == ring1[At(w, j)])
    ensures Holds(ring2, from, bytes + (header + text))
    ensures At(At(At(from, |bytes|), |header|), |text|) == At(from, |bytes| + |header| + |text|)
  {
    hide At;
    var w := At(from, |bytes|);
    HoldsKept(ring, ring1, from, bytes, |header|);
    HoldsConcat(ring1, from, bytes, header);
    AtAdd(from, |bytes|, |header|);
    HoldsKept(ring1, ring2, from, bytes + header, |text|);
    HoldsConcat(ring2, from, bytes + header, text);
    AtAdd(from, |bytes| + |header|, |text|);
    assert bytes + header + text == bytes + (header + text);
  }

  /** The oldest record, then the rest. */
  lemma FirstHeld(d: Log)
    requires d.Valid() && d.log != []
    ensures Bytes(d.log) == EntryBytes(d.log[0]) + Bytes(d.log[1..])
    ensures Holds(d.buffer[..], d.readOffset, EntryBytes(d.log[0]))
    ensures Holds(d.buffer[..], At(d.readOffset, |EntryBytes(d.log[0])|), Bytes(d.log[1..]))
  {
    hide EntryBytes, At;
    HoldsConcat(d.buffer[..], d.readOffset, EntryBytes(d.log[0]), Bytes(d.log[1..]));
  }

  /** Every record sits behind those before it. */
  lemma EntryHeld(d: Log, i: nat)
    requires d.Valid() && i < |d.log|
    ensures Holds(d.buffer[..], At(d.readOffset, Size(d.log[..i])), EntryBytes(d.log[i]))
    ensures Size(d.log[..i + 1]) == Size(d.log[..i]) + HEADER_SIZE + |d.log[i].text|
  {
    hide At, Bytes, EntryBytes;
    var r := d.log[i];
    assert d.log == d.log[..i] + ([r] + d.log[i + 1..]) && d.log[..i + 1] == d.log[..i] + [r];
    BytesConcat(d.log[..i], [r] + d.log[i + 1..]);
    BytesConcat([r], d.log[i + 1..]);
    BytesConcat(d.log[..i], [r]);
    BytesOne(r);
    HoldsConcat(d.buffer[..], d.readOffset, Bytes(d.log[..i]), EntryBytes(r) + Bytes(d.log[i + 1..]));
    HoldsConcat(d.buffer[..], At(d.readOffset, Size(d.log[..i])), EntryBytes(r), Bytes(d.log[i + 1..]));
  }

  lemma StartsAtRead(d: Log)
    requires d.Valid()
    ensures d.readOffset == At(d.readOffset, Size(d.log[..0]))
  {
    NoSize();
  }

  lemma TextByte(ring: seq<byte>, i: nat, text: seq<byte>, k: nat)
    requires |ring| == 256 && TextAt(ring, i, text) && k < |text|
    ensures ring[(i + k) % 256] == text[k]
  {}

  lemma SameText(ring: seq<byte>, i: nat, a: seq<byte>, b: seq<byte>)
    requires |ring| == 256 && TextAt(ring, i, a) && TextAt(ring, i, b) && |a| == |b|
    ensures a == b
  {
    forall k | 0 <= k < |a| ensures a[k] == b[k] { TextByte(ring, i, a, k); }
  }

  /** Every record stands in the ring behind those before it: time stamp, length and text, and then the next one. */
  lemma RecordStands(d: Log, i: nat)
    requires d.Valid() && i < |d.log|
    ensures var ring, at, r := d.buffer[..], (d.readOffset + Size(d.log[..i])) % 256, d.log[i];
            && |ring| == 256
            && NumberAt(ring, at) == r.timestamp && ring[(at + 4) % 256] == |r.text| && TextAt(ring, at + 5, r.text)
            && (at + 5 + |r.text|) % 256 == (d.readOffset + Size(d.log[..i + 1])) % 256
  {
    hide At, Bytes, Word, FromWord, Size, TextAt, NumberAt;
    var at, r := At(d.readOffset, Size(d.log[..i])), d.log[i];
    EntryHeld(d, i);
    EntryReads(d.buffer[..], at, r);
    AtAdd(d.readOffset, Size(d.log[..i]), HEADER_SIZE + |r.text|);
    AtIs(d.readOffset, Size(d.log[..i]));
    AtIs(d.readOffset, Size(d.log[..i + 1]));
    AtIs(at, HEADER_SIZE + |r.text|);
  }

  lemma EntryReads(ring: seq<byte>, at: nat, r: Entry)
    requires |ring| == RING && at < RING && Holds(ring, at, EntryBytes(r))
    ensures NumberAt(ring, at) == r.timestamp && ring[(at + 4) % 256] == |r.text| && TextAt(ring, at + 5, r.text)
  {
    hide At, Word, FromWord, NumberAt, TextAt;
    WordRoundTrip(r.timestamp);
    HoldsConcat(ring, at, Header(r), r.text);
    HeldText(ring, at, Header(r));
    HeldNumber(ring, at, Header(r));
    assert Header(r)[..4] == Word(r.timestamp);
    TextByte(ring, at, Header(r), 4);
    HeldText(ring, At(at, HEADER_SIZE), r.text);
    TextShift(ring, at, HEADER_SIZE, r.text);
  }

  /** Five bytes read where a record starts are its header. */
  lemma SameBytes(ring: seq<byte>, from: nat, header: seq<byte>, r: Entry)
    requires |ring| == RING && Holds(ring, from, header) && |header| == HEADER_SIZE
    requires Holds(ring, from, EntryBytes(r))
    ensures header == Header(r) && header[4] == |r.text|
  {
    hide At, Word;
    forall k | 0 <= k < HEADER_SIZE ensures header[k] == Header(r)[k] {
      assert EntryBytes(r)[k] == Header(r)[k];
    }
  }
}
