/** The remote shell's messages: their descriptors, their real sizes, and the serializer around the codec. */
module Gosh {
  import opened Common
  import opened PbWire
  import opened PbMessage
  import opened PbSize
  import opened PbLargest
  import opened PbRoundTrip
  import opened PbEncoder
  import opened PbDecoder

  // ---- Descriptors.

  const TIME_STAMP := [Field(1, Required, IntT(8)), Field(2, Required, IntT(4))]

  const RUN_COMMAND := [Field(1, Required, StringT(128)), Field(2, Optional, MessageT(TIME_STAMP))]

  const RUN_SCRIPT_COMMAND := [
    Field(1, Optional, StringT(128)), Field(2, Optional, UIntT(4)), Field(3, Optional, UIntT(4)),
    Field(4, Optional, MessageT(TIME_STAMP))]

  const LIST_JOBS_COMMAND: seq<Field> := []

  const STOP_COMMAND := [Field(1, Optional, MessageT(TIME_STAMP))]

  const SHELL_COMMAND := [Field(1, Optional, UIntT(4)), Field(2, Optional, UIntT(4))]

  const KEEP_ALIVE := [Field(1, Optional, MessageT(TIME_STAMP))]

  const RESULT_TUPLE := [
    Field(1, Optional, StringT(32)), Field(2, Required, StringT(32)), Field(3, Required, StringT(128))]

  const COMMAND_RESPONSE := [
    Field(1, Repeated(4), MessageT(RESULT_TUPLE)), Field(2, Required, IntT(4)), Field(3, Required, BoolT),
    Field(10, Optional, StringT(256))]

  const GOSH_REQUEST := [
    Field(1, Required, UIntT(4)), Field(10, Oneof, MessageT(RUN_COMMAND)),
    Field(11, Oneof, MessageT(RUN_SCRIPT_COMMAND)), Field(12, Oneof, MessageT(LIST_JOBS_COMMAND)),
    Field(13, Oneof, MessageT(STOP_COMMAND)), Field(14, Oneof, MessageT(SHELL_COMMAND)),
    Field(15, Oneof, MessageT(KEEP_ALIVE))]

  const GOSH_RESPONSE := [
    Field(1, Required, UIntT(4)), Field(10, Oneof, MessageT(COMMAND_RESPONSE)), Field(20, Oneof, MessageT(KEEP_ALIVE))]

  // ---- Sizes. The generated header states them as constants; here they follow from the descriptors, under each of the
  // limits.

  lemma VarintLength(n: nat)
    ensures n < 128 ==> |EncVarint(n)| == 1
    ensures 128 <= n < 16384 ==> |EncVarint(n)| == 2
  {}

  lemma TaggedSize(l: Limits, tag: nat, h: HType, t: LType)
    ensures MaxTagged(l, Field(tag, h, t)) ==
            MaxItem(l, t) + |EncVarint(8 * tag + if t.StringT? || t.MessageT? then 2 else 0)|
  {
    hide MaxItem, EncVarint;
  }

  lemma NestedSize(l: Limits, tag: nat, h: HType, fields: seq<Field>, size: nat)
    requires MaxMsg(l, fields) == size < 16384 && 0 < tag < 128
    ensures MaxTagged(l, Field(tag, h, MessageT(fields))) ==
            size + (if size < 128 then 1 else 2) + (if tag < 16 then 1 else 2)
  {
    hide MaxMsg, EncVarint;
    VarintLength(size);
    VarintLength(8 * tag + 2);
    TaggedSize(l, tag, h, MessageT(fields));
  }

  lemma StringSize(l: Limits, tag: nat, h: HType, size: nat)
    requires 0 < size < 16384 && 0 < tag < 16
    ensures var text := if l.terminated then size - 1 else size;
            MaxTagged(l, Field(tag, h, StringT(size))) == text + (if text < 128 then 1 else 2) + 1
  {
    hide EncVarint;
    VarintLength(if l.terminated then size - 1 else size);
    VarintLength(8 * tag + 2);
    TaggedSize(l, tag, h, StringT(size));
  }

  lemma NumberSize(l: Limits, tag: nat, h: HType, t: LType)
    requires 0 < tag < 16 && !t.StringT? && !t.MessageT?
    ensures MaxTagged(l, Field(tag, h, t)) == MaxItem(l, t) + 1
  {
    hide EncVarint, MaxItem;
    VarintLength(8 * tag);
    TaggedSize(l, tag, h, t);
  }

  lemma SizeNext(l: Limits, f: Field, rest: seq<Field>)
    ensures MaxPlain(l, [f] + rest) == MaxSlot(l, f) + MaxPlain(l, rest)
    ensures MaxUnion(l, [f] + rest) ==
            if f.htype.Oneof? && MaxTagged(l, f) > MaxUnion(l, rest) then MaxTagged(l, f) else MaxUnion(l, rest)
  {
    hide MaxSlot, MaxTagged;
    assert ([f] + rest)[1..] == rest;
  }

  lemma OneEntry(l: Limits, a: Field)
    ensures MaxPlain(l, [a]) == MaxSlot(l, a) && MaxUnion(l, [a]) == (if a.htype.Oneof? then MaxTagged(l, a) else 0)
  {
    hide MaxSlot, MaxTagged;
    SizeNext(l, a, []);
    assert [a] + [] == [a];
  }

  lemma TimeStampSize(l: Limits)
    ensures WellFormedFields(TIME_STAMP) && MaxMsg(l, TIME_STAMP) == 22
  {
    var fs := TIME_STAMP;
    NumberSize(l, 1, Required, IntT(8));
    NumberSize(l, 2, Required, IntT(4));
    OneEntry(l, fs[1]);
    SizeNext(l, fs[0], [fs[1]]);
    assert fs == [fs[0]] + [fs[1]];
  }

  /** Two messages consist of an optional time stamp alone. */
  lemma StampOnlySize(l: Limits)
    ensures WellFormedFields(STOP_COMMAND) && MaxMsg(l, STOP_COMMAND) == 24
    ensures KEEP_ALIVE == STOP_COMMAND
  {
    hide MaxMsg, MaxTagged;
    TimeStampSize(l);
    TimeStampSize(STORED);
    NestedSize(l, 1, Optional, TIME_STAMP, 22);
    OneEntry(l, STOP_COMMAND[0]);
    SumOf(l, STOP_COMMAND);
  }

  lemma SumOf(l: Limits, fs: seq<Field>)
    ensures MaxMsg(l, fs) == MaxPlain(l, fs) + MaxUnion(l, fs)
  {}

  lemma RunSize(l: Limits)
    ensures WellFormedFields(RUN_COMMAND) && MaxMsg(l, RUN_COMMAND) == if l.terminated then 153 else 155
  {
    hide MaxMsg, MaxTagged;
    var fs := RUN_COMMAND;
    TimeStampSize(l);
    TimeStampSize(STORED);
    StringSize(l, 1, Required, 128);
    NestedSize(l, 2, Optional, TIME_STAMP, 22);
    OneEntry(l, fs[1]);
    SizeNext(l, fs[0], [fs[1]]);
    assert fs == [fs[0]] + [fs[1]];
    SumOf(l, fs);
  }

  lemma RunScriptSize(l: Limits)
    ensures WellFormedFields(RUN_SCRIPT_COMMAND) && MaxMsg(l, RUN_SCRIPT_COMMAND) == if l.terminated then 165 else 167
  {
    hide MaxMsg, MaxTagged;
    var fs := RUN_SCRIPT_COMMAND;
    TimeStampSize(l);
    TimeStampSize(STORED);
    StringSize(l, 1, Optional, 128);
    NumberSize(l, 2, Optional, UIntT(4));
    NumberSize(l, 3, Optional, UIntT(4));
    NestedSize(l, 4, Optional, TIME_STAMP, 22);
    OneEntry(l, fs[3]);
    SizeNext(l, fs[2], fs[3..]);
    SizeNext(l, fs[1], fs[2..]);
    SizeNext(l, fs[0], fs[1..]);
    assert fs[3..] == [fs[3]] && fs[2..] == [fs[2]] + fs[3..];
    assert fs[1..] == [fs[1]] + fs[2..] && fs == [fs[0]] + fs[1..];
    SumOf(l, fs);
  }

  lemma ShellSize(l: Limits)
    ensures WellFormedFields(SHELL_COMMAND) && MaxMsg(l, SHELL_COMMAND) == 12
  {
    var fs := SHELL_COMMAND;
    NumberSize(l, 1, Optional, UIntT(4));
    NumberSize(l, 2, Optional, UIntT(4));
    OneEntry(l, fs[1]);
    SizeNext(l, fs[0], [fs[1]]);
    assert fs == [fs[0]] + [fs[1]];
  }

  lemma ResultTupleSize(l: Limits)
    ensures WellFormedFields(RESULT_TUPLE) && MaxMsg(l, RESULT_TUPLE) == if l.terminated then 195 else 199
  {
    hide MaxTagged;
    var fs := RESULT_TUPLE;
    StringSize(l, 1, Optional, 32);
    StringSize(l, 2, Required, 32);
    StringSize(l, 3, Required, 128);
    OneEntry(l, fs[2]);
    SizeNext(l, fs[1], fs[2..]);
    SizeNext(l, fs[0], fs[1..]);
    assert fs[2..] == [fs[2]] && fs[1..] == [fs[1]] + fs[2..] && fs == [fs[0]] + fs[1..];
  }

  lemma CommandResponseSize(l: Limits)
    requires l.boolBytes <= 10
    ensures WellFormedFields(COMMAND_RESPONSE)
    ensures MaxMsg(l, COMMAND_RESPONSE) == l.boolBytes + if l.terminated then 1062 else 1079
  {
    hide MaxMsg, MaxTagged;
    var fs := COMMAND_RESPONSE;
    ResultTupleSize(l);
    ResultTupleSize(STORED);
    NestedSize(l, 1, Repeated(4), RESULT_TUPLE, if l.terminated then 195 else 199);
    NumberSize(l, 2, Required, IntT(4));
    NumberSize(l, 3, Required, BoolT);
    StringSize(l, 10, Optional, 256);
    OneEntry(l, fs[3]);
    SizeNext(l, fs[2], fs[3..]);
    SizeNext(l, fs[1], fs[2..]);
    SizeNext(l, fs[0], fs[1..]);
    assert fs[3..] == [fs[3]] && fs[2..] == [fs[2]] + fs[3..];
    assert fs[1..] == [fs[1]] + fs[2..] && fs == [fs[0]] + fs[1..];
    SumOf(l, fs);
  }

  lemma ListJobsSize(l: Limits)
    ensures WellFormedFields(LIST_JOBS_COMMAND) && MaxMsg(l, LIST_JOBS_COMMAND) == 0
  {}

  /** Every request fits the size the generated header gives. */
  lemma GoshRequestSize(l: Limits)
    ensures WellFormedFields(GOSH_REQUEST) && MaxMsg(l, GOSH_REQUEST) == if l.terminated then 174 else 176
  {
    hide MaxMsg, MaxTagged, WellFormedFields;
    var fs := GOSH_REQUEST;
    RequestMembers(l);
    OneEntry(l, fs[6]);
    SizeNext(l, fs[5], fs[6..]);
    SizeNext(l, fs[4], fs[5..]);
    SizeNext(l, fs[3], fs[4..]);
    SizeNext(l, fs[2], fs[3..]);
    SizeNext(l, fs[1], fs[2..]);
    SizeNext(l, fs[0], fs[1..]);
    assert fs[6..] == [fs[6]] && fs[5..] == [fs[5]] + fs[6..] && fs[4..] == [fs[4]] + fs[5..];
    assert fs[3..] == [fs[3]] + fs[4..] && fs[2..] == [fs[2]] + fs[3..];
    assert fs[1..] == [fs[1]] + fs[2..] && fs == [fs[0]] + fs[1..];
    SumOf(l, fs);
    RequestWellFormed();
  }

  lemma RequestMembers(l: Limits)
    ensures MaxTagged(l, GOSH_REQUEST[0]) == 6
    ensures MaxTagged(l, GOSH_REQUEST[1]) == if l.terminated then 156 else 158
    ensures MaxTagged(l, GOSH_REQUEST[2]) == if l.terminated then 168 else 170
    ensures MaxTagged(l, GOSH_REQUEST[3]) == 2
    ensures MaxTagged(l, GOSH_REQUEST[4]) == 26
    ensures MaxTagged(l, GOSH_REQUEST[5]) == 14
    ensures MaxTagged(l, GOSH_REQUEST[6]) == 26
  {
    hide MaxMsg, MaxTagged, WellFormedFields;
    NumberSize(l, 1, Required, UIntT(4));
    RunSize(l);
    NestedSize(l, 10, Oneof, RUN_COMMAND, if l.terminated then 153 else 155);
    RunScriptSize(l);
    NestedSize(l, 11, Oneof, RUN_SCRIPT_COMMAND, if l.terminated then 165 else 167);
    ListJobsSize(l);
    NestedSize(l, 12, Oneof, LIST_JOBS_COMMAND, 0);
    StampOnlySize(l);
    NestedSize(l, 13, Oneof, STOP_COMMAND, 24);
    ShellSize(l);
    NestedSize(l, 14, Oneof, SHELL_COMMAND, 12);
    NestedSize(l, 15, Oneof, KEEP_ALIVE, 24);
  }

  lemma RequestWellFormed()
    ensures WellFormedFields(GOSH_REQUEST)
  {
    hide MaxMsg;
    RunSize(STORED);
    RunScriptSize(STORED);
    ListJobsSize(STORED);
    StampOnlySize(STORED);
    ShellSize(STORED);
    var fs := GOSH_REQUEST;
    forall i | 0 <= i < |fs| ensures WellFormedField(fs[i]) {
      assert fs[i].ltype.UIntT? || fs[i].ltype.fields == RUN_COMMAND || fs[i].ltype.fields == RUN_SCRIPT_COMMAND ||
             fs[i].ltype.fields == LIST_JOBS_COMMAND || fs[i].ltype.fields == STOP_COMMAND ||
             fs[i].ltype.fields == SHELL_COMMAND;
    }
  }

  /** And every response. */
  lemma GoshResponseSize(l: Limits)
    requires l.boolBytes <= 10
    ensures WellFormedFields(GOSH_RESPONSE)
    ensures MaxMsg(l, GOSH_RESPONSE) == l.boolBytes + if l.terminated then 1071 else 1088
  {
    hide MaxMsg, MaxTagged, WellFormedFields;
    var fs := GOSH_RESPONSE;
    NumberSize(l, 1, Required, UIntT(4));
    CommandResponseSize(l);
    NestedSize(l, 10, Oneof, COMMAND_RESPONSE, l.boolBytes + if l.terminated then 1062 else 1079);
    StampOnlySize(l);
    NestedSize(l, 20, Oneof, KEEP_ALIVE, 24);
    OneEntry(l, fs[2]);
    SizeNext(l, fs[1], fs[2..]);
    SizeNext(l, fs[0], fs[1..]);
    assert fs[2..] == [fs[2]] && fs[1..] == [fs[1]] + fs[2..] && fs == [fs[0]] + fs[1..];
    SumOf(l, fs);
    ResponseWellFormed();
  }

  lemma ResponseWellFormed()
    ensures WellFormedFields(GOSH_RESPONSE)
  {
    hide MaxMsg;
    CommandResponseSize(STORED);
    StampOnlySize(STORED);
    var fs := GOSH_RESPONSE;
    forall i | 0 <= i < |fs| ensures WellFormedField(fs[i]) {
      assert fs[i].ltype.UIntT? || fs[i].ltype.fields == COMMAND_RESPONSE || fs[i].ltype.fields == STOP_COMMAND;
    }
  }

  /** The header's constant for responses holds for whatever can travel, but not for every response in storage: a
      negative completion flag takes ten bytes, and only the room the terminators give up makes up for that. */
  lemma ResponseSizes()
    ensures MaxMsg(HEADER, GOSH_RESPONSE) == 1089
    ensures MaxMsg(STORED, GOSH_RESPONSE) == 1098
    ensures MaxMsg(TRAVELS, GOSH_RESPONSE) == 1081
    ensures WellFormedFields(GOSH_RESPONSE)
  {
    hide MaxMsg, WellFormedFields;
    GoshResponseSize(HEADER);
    GoshResponseSize(STORED);
    GoshResponseSize(TRAVELS);
  }

  /** A response nine bytes longer than its buffer is meant to be. */
  lemma LongResponse() returns (m: Msg)
    ensures MsgOk(Range, GOSH_RESPONSE, m) && EncMsg(GOSH_RESPONSE, m).Some?
    ensures |EncMsg(GOSH_RESPONSE, m).value| == 1098
  {
    hide MsgOk, EncMsg, MaxMsg, WellFormedFields, LargestMsg;
    ResponseSizes();
    m := LargestMsg(STORED, GOSH_RESPONSE);
    MsgExact(STORED, GOSH_RESPONSE);
  }

  // ---- Round trips.

  /** Every request with terminated strings survives encoding and decoding, in at most 176 bytes. */
  lemma RequestRoundTrip(m: Msg, dest: Msg) returns (back: Msg)
    requires MsgOk(Wire, GOSH_REQUEST, m) && MsgOk(Shape, GOSH_REQUEST, dest)
    ensures var bytes := EncMsg(GOSH_REQUEST, m);
            && bytes.Some? && |bytes.value| <= 176
            && PbMessage.Decode(GOSH_REQUEST, bytes.value, dest) == Some((back, []))
            && SameMsg(GOSH_REQUEST, m, back)
  {
    hide MsgOk, EncMsg, DecMsg, SameMsg, MaxMsg, WellFormedFields;
    GoshRequestSize(TRAVELS);
    back := RoundTrip(GOSH_REQUEST, m, dest);
    MsgBound(TRAVELS, GOSH_REQUEST, m);
  }

  /** Every response with terminated strings and at most four results does, in at most 1089, whatever its flag. */
  lemma ResponseRoundTrip(m: Msg, dest: Msg) returns (back: Msg)
    requires MsgOk(Wire, GOSH_RESPONSE, m) && MsgOk(Shape, GOSH_RESPONSE, dest)
    ensures var bytes := EncMsg(GOSH_RESPONSE, m);
            && bytes.Some? && |bytes.value| <= 1089
            && PbMessage.Decode(GOSH_RESPONSE, bytes.value, dest) == Some((back, []))
            && SameMsg(GOSH_RESPONSE, m, back)
  {
    hide MsgOk, EncMsg, DecMsg, SameMsg, MaxMsg, WellFormedFields;
    ResponseSizes();
    back := RoundTrip(GOSH_RESPONSE, m, dest);
    MsgBound(TRAVELS, GOSH_RESPONSE, m);
  }

  // ---- The serializer.

  datatype Xerr = XerrOk | XerrInval | XerrOverflow

  /** What serializing into a buffer should report and write. bufSize is None when the buffer or its size is missing. */
  ghost predicate Serialized(fields: seq<Field>, m: Msg, bufSize: Option<nat>, err: Xerr, size: nat, out: seq<byte>) {
    var bytes := EncMsg(fields, m);
    && (err == XerrInval <==> bufSize.None? || bytes.None?)
    && (err == XerrOverflow <==> bufSize.Some? && bytes.Some? && |bytes.value| > bufSize.value)
    && (err == XerrOk ==> size == |bytes.value| && out == bytes.value)
  }

  /** The message keeps to these limits. */
  ghost predicate Within(l: Limits, fields: seq<Field>, m: Msg) {
    MsgOk(GradeOf(l), fields, m) && (Positive(l) ==> MsgBools(fields, m))
  }

  /** A sizing pass, then an encoding into exactly that much room, which therefore cannot run out. */
  method Serialize(fields: seq<Field>, m: Msg, buf: array<byte>, bufSize: Option<nat>) returns (err: Xerr, size: nat)
    requires WellFormedFields(fields) && MsgOk(Range, fields, m) && (bufSize.Some? ==> bufSize.value <= buf.Length)
    modifies buf
    ensures err == XerrOk ==> size <= buf.Length
    ensures Serialized(fields, m, bufSize, err, size, if err == XerrOk then buf[..size] else [])
    ensures forall l: Limits :: l.boolBytes >= 1 && Within(l, fields, m) ==>
              (bufSize.Some? && bufSize.value >= MaxMsg(l, fields) ==> err != XerrOverflow)
    ensures buf[if err == XerrOk then size else 0..] == old(buf[if err == XerrOk then size else 0..])
  {
    hide EncMsg, WellFormedFields, MsgOk, MaxMsg;
    size := 0;
    if bufSize.None? { return XerrInval, 0; }
    var ok, encoded := GetEncodedSize(fields, m);
    if !ok { return XerrInval, 0; }
    forall l: Limits | l.boolBytes >= 1 && Within(l, fields, m) ensures encoded <= MaxMsg(l, fields) {
      MsgBound(l, fields, m);
    }
    if encoded > bufSize.value { return XerrOverflow, 0; }
    var out := new OStream.Writing(buf, 0, encoded);
    ok := PbEncode(out, fields, m);
    if !ok { assert false; }
    size := encoded;
    err := XerrOk;
  }

  lemma WithinCases(fields: seq<Field>, m: Msg)
    requires MsgOk(Range, fields, m)
    ensures Within(STORED, fields, m)
    ensures MsgOk(Wire, fields, m) ==> Within(TRAVELS, fields, m)
    ensures MsgBools(fields, m) ==> Within(HEADER, fields, m)
  {
    hide MsgOk, MsgBools;
  }

  method SerializeRequest(req: Msg, buf: array<byte>, bufSize: Option<nat>) returns (err: Xerr, size: nat)
    requires MsgOk(Range, GOSH_REQUEST, req) && (bufSize.Some? ==> bufSize.value <= buf.Length)
    modifies buf
    ensures err == XerrOk ==> size <= buf.Length
    ensures Serialized(GOSH_REQUEST, req, bufSize, err, size, if err == XerrOk then buf[..size] else [])
    ensures bufSize.Some? && bufSize.value >= 176 ==> err != XerrOverflow
    ensures buf[if err == XerrOk then size else 0..] == old(buf[if err == XerrOk then size else 0..])
  {
    hide MsgOk, MsgBools, MaxMsg, Serialized, WellFormedFields;
    GoshRequestSize(STORED);
    WithinCases(GOSH_REQUEST, req);
    err, size := Serialize(GOSH_REQUEST, req, buf, bufSize);
  }

  method SerializeResponse(resp: Msg, buf: array<byte>, bufSize: Option<nat>) returns (err: Xerr, size: nat)
    requires MsgOk(Range, GOSH_RESPONSE, resp) && (bufSize.Some? ==> bufSize.value <= buf.Length)
    modifies buf
    ensures err == XerrOk ==> size <= buf.Length
    ensures Serialized(GOSH_RESPONSE, resp, bufSize, err, size, if err == XerrOk then buf[..size] else [])
    ensures bufSize.Some? && bufSize.value >= 1098 ==> err != XerrOverflow
    ensures bufSize.Some? && bufSize.value >= 1089 ==>
              (MsgOk(Wire, GOSH_RESPONSE, resp) || MsgBools(GOSH_RESPONSE, resp) ==> err != XerrOverflow)
    ensures buf[if err == XerrOk then size else 0..] == old(buf[if err == XerrOk then size else 0..])
  {
    hide MsgOk, MsgBools, MaxMsg, Serialized, WellFormedFields;
    ResponseSizes();
    WithinCases(GOSH_RESPONSE, resp);
    err, size := Serialize(GOSH_RESPONSE, resp, buf, bufSize);
  }

  method Deserialize(fields: seq<Field>, buf: array<byte>, size: nat, dest: Msg) returns (err: Xerr, m: Msg)
    requires WellFormedFields(fields) && MsgOk(Shape, fields, dest) && size <= buf.Length
    ensures var r := PbMessage.Decode(fields, buf[..size], dest);
            if r.None? then err == XerrInval else err == XerrOk && m == r.value.0
  {
    hide WellFormedFields, MsgOk;
    var input := new IStream(buf, 0, size);
    var ok;
    ok, m := PbDecoder.Decode(input, fields, dest);
    err := if ok then XerrOk else XerrInval;
  }
}
