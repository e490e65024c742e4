/** The remote shell's messages on the wire, field by field as the schema numbers them. */
module GoshWire {
  import opened Common
  import opened PbWire
  import opened PbMessage
  import opened PbSize
  import opened PbUnknown
  import opened PbRoundTrip
  import opened PbEvolution
  import opened Gosh

  // ---- Fields by number, as any writer of the schema emits them.

  function NumberField(tag: nat, item: Item): seq<Alien> {
    if item.IntV? && -TWO64 <= item.n then
      [Alien(tag, Number(if item.n < 0 then item.n + 0x1_0000_0000_0000_0000 else item.n))]
    else []
  }

  function TextField(tag: nat, item: Item): seq<Alien> {
    if item.StrV? then [Alien(tag, Text(CString(item.buf)))] else []
  }

  /** An optional field is there when its flag says so. */
  function IfPresent(slot: Slot, fields: seq<Alien>): seq<Alien> {
    if slot.Flagged? && slot.has then fields else []
  }

  // ---- An entry of each kind, in a message that can travel.

  lemma NumberWritten(tag: nat, h: HType, t: LType, item: Item)
    requires WellFormedType(t) && !t.StringT? && !t.MessageT? && ItemOk(Wire, t, item)
    ensures Written(Field(tag, h, t), item) == NumberField(tag, item)
  {
    hide EncVarint, TwoTo;
    IntRoundTrip(t, item);
  }

  lemma TextWritten(tag: nat, h: HType, size: nat, item: Item)
    requires item.StrV?
    ensures Written(Field(tag, h, StringT(size)), item) == TextField(tag, item)
  {
    hide EncVarint, CString;
  }

  ghost function OutlineOf(fs: seq<Field>, item: Item): seq<Alien> {
    if item.MsgV? then Outline(fs, item.msg.slots, item.msg.which, item.msg.union) else []
  }

  /** A nested message is a text: the bytes of its own outline. */
  lemma MessageWritten(tag: nat, h: HType, fs: seq<Field>, item: Item)
    requires WellFormedFields(fs) && ItemOk(Wire, MessageT(fs), item)
    ensures Written(Field(tag, h, MessageT(fs)), item) == [Alien(tag, Text(AliensBytes(OutlineOf(fs, item))))]
  {
    hide EncVarint, EncSlots, SlotOk, MemberOk, WellFormedField, Outline;
    MsgWireRange(fs, item.msg);
    EncodableSlots(fs, item.msg.slots, item.msg.which, item.msg.union);
    EncodingIs(fs, item.msg.slots, item.msg.which, item.msg.union);
    assert EncItem(MessageT(fs), item).Some?;
    assert AliensBytes(OutlineOf(fs, item)) == EncMsg(fs, item.msg).value;
  }

  lemma OutlineNext(f: Field, rest: seq<Field>, slots: seq<Slot>, which: nat, union: Item)
    requires slots != []
    ensures Outline([f] + rest, slots, which, union) ==
            Emitted(f, slots[0], which, union) + Outline(rest, slots[1..], which, union)
  {
    hide Emitted;
    assert ([f] + rest)[1..] == rest;
  }

  lemma OutlineEnd(slots: seq<Slot>, which: nat, union: Item)
    ensures Outline([], slots, which, union) == []
  {}

  // ---- Message by message.

  /** A nested message with this outline. */
  function Nested(tag: nat, outline: seq<Alien>): seq<Alien> { [Alien(tag, Text(AliensBytes(outline)))] }

  /** Seconds are field 1, nanoseconds field 2. */
  lemma StampIs(m: Msg)
    requires MsgOk(Wire, TIME_STAMP, m)
    ensures |m.slots| == 2 && m.slots[0].Single? && m.slots[1].Single?
    ensures Outline(TIME_STAMP, m.slots, m.which, m.union) ==
            NumberField(1, m.slots[0].item) + NumberField(2, m.slots[1].item)
  {
    hide ItemOk, Written, NumberField;
    var fs := TIME_STAMP;
    assert SlotOk(Wire, fs[0], m.slots[0]) && SlotOk(Wire, fs[1], m.slots[1]);
    NumberWritten(1, Required, IntT(8), m.slots[0].item);
    NumberWritten(2, Required, IntT(4), m.slots[1].item);
    OutlineNext(fs[0], [fs[1]], m.slots, m.which, m.union);
    OutlineNext(fs[1], [], m.slots[1..], m.which, m.union);
    OutlineEnd(m.slots[1..][1..], m.which, m.union);
    assert fs == [fs[0]] + [fs[1]] && [fs[1]] + [] == [fs[1]];
  }

  // What single entries contribute, whatever message they belong to.

  lemma RequiredNumber(tag: nat, t: LType, slot: Slot, which: nat, union: Item)
    requires WellFormedType(t) && !t.StringT? && !t.MessageT? && SlotOk(Wire, Field(tag, Required, t), slot)
    ensures slot.Single? && Emitted(Field(tag, Required, t), slot, which, union) == NumberField(tag, slot.item)
  {
    hide Written, NumberField, WellFormedType;
    NumberWritten(tag, Required, t, slot.item);
  }

  lemma OptionalNumber(tag: nat, t: LType, slot: Slot, which: nat, union: Item)
    requires WellFormedType(t) && !t.StringT? && !t.MessageT? && SlotOk(Wire, Field(tag, Optional, t), slot)
    ensures slot.Flagged?
    ensures Emitted(Field(tag, Optional, t), slot, which, union) == IfPresent(slot, NumberField(tag, slot.item))
  {
    hide Written, NumberField, WellFormedType;
    if slot.has { NumberWritten(tag, Optional, t, slot.item); }
  }

  lemma RequiredText(tag: nat, size: nat, slot: Slot, which: nat, union: Item)
    requires SlotOk(Wire, Field(tag, Required, StringT(size)), slot)
    ensures slot.Single?
    ensures Emitted(Field(tag, Required, StringT(size)), slot, which, union) == TextField(tag, slot.item)
  {
    hide Written;
    TextWritten(tag, Required, size, slot.item);
  }

  lemma OptionalText(tag: nat, size: nat, slot: Slot, which: nat, union: Item)
    requires SlotOk(Wire, Field(tag, Optional, StringT(size)), slot)
    ensures slot.Flagged?
    ensures Emitted(Field(tag, Optional, StringT(size)), slot, which, union) ==
            IfPresent(slot, TextField(tag, slot.item))
  {
    hide Written;
    TextWritten(tag, Optional, size, slot.item);
  }

  lemma OptionalMessage(tag: nat, fs: seq<Field>, slot: Slot, which: nat, union: Item)
    requires WellFormedFields(fs) && SlotOk(Wire, Field(tag, Optional, MessageT(fs)), slot)
    ensures slot.Flagged?
    ensures Emitted(Field(tag, Optional, MessageT(fs)), slot, which, union) ==
            IfPresent(slot, Nested(tag, OutlineOf(fs, slot.item)))
  {
    hide Written, OutlineOf, WellFormedFields;
    if slot.has { MessageWritten(tag, Optional, fs, slot.item); }
  }

  lemma Member(tag: nat, fs: seq<Field>, slot: Slot, which: nat, union: Item)
    requires WellFormedFields(fs) && slot.Shared? && MemberOk(Wire, Field(tag, Oneof, MessageT(fs)), which, union)
    ensures Emitted(Field(tag, Oneof, MessageT(fs)), slot, which, union) ==
            if which == tag then Nested(tag, OutlineOf(fs, union)) else []
  {
    hide Written, OutlineOf, WellFormedFields;
    if which == tag { MessageWritten(tag, Oneof, fs, union); }
  }

  lemma {:induction false} MessagesWritten(tag: nat, max: nat, fs: seq<Field>, items: seq<Item>)
    requires WellFormedFields(fs) && forall i :: 0 <= i < |items| ==> ItemOk(Wire, MessageT(fs), items[i])
    ensures WrittenEach(Field(tag, Repeated(max), MessageT(fs)), items) == NestedEach(tag, fs, items)
    decreases |items|
  {
    hide ItemOk, Written, OutlineOf, WellFormedFields;
    if items == [] {
    } else {
      MessageWritten(tag, Repeated(max), fs, items[0]);
      MessagesWritten(tag, max, fs, items[1..]);
    }
  }

  /** One nested message after the other, all under the same number. */
  ghost function NestedEach(tag: nat, fs: seq<Field>, items: seq<Item>): seq<Alien> {
    if items == [] then [] else Nested(tag, OutlineOf(fs, items[0])) + NestedEach(tag, fs, items[1..])
  }

  /** The entries of a descriptor one by one. */
  lemma Outline2(a: Field, b: Field, slots: seq<Slot>, which: nat, union: Item)
    requires |slots| == 2
    ensures Outline([a, b], slots, which, union) ==
            Emitted(a, slots[0], which, union) + Emitted(b, slots[1], which, union)
  {
    hide Emitted;
    OutlineNext(a, [b], slots, which, union);
    OutlineNext(b, [], slots[1..], which, union);
    OutlineEnd(slots[1..][1..], which, union);
    assert [a] + [b] == [a, b] && [b] + [] == [b];
  }

  lemma Outline1(a: Field, slots: seq<Slot>, which: nat, union: Item)
    requires |slots| == 1
    ensures Outline([a], slots, which, union) == Emitted(a, slots[0], which, union)
  {
    hide Emitted;
    OutlineNext(a, [], slots, which, union);
    OutlineEnd(slots[1..], which, union);
    assert [a] + [] == [a];
  }

  lemma Outline3(a: Field, b: Field, c: Field, slots: seq<Slot>, which: nat, union: Item)
    requires |slots| == 3
    ensures Outline([a, b, c], slots, which, union) ==
            Emitted(a, slots[0], which, union) + Emitted(b, slots[1], which, union) + Emitted(c, slots[2], which, union)
  {
    hide Emitted;
    OutlineNext(a, [b, c], slots, which, union);
    Outline2(b, c, slots[1..], which, union);
    assert [a] + [b, c] == [a, b, c];
  }

  lemma Outline4(a: Field, b: Field, c: Field, d: Field, slots: seq<Slot>, which: nat, union: Item)
    requires |slots| == 4
    ensures Outline([a, b, c, d], slots, which, union) ==
            Emitted(a, slots[0], which, union) + Emitted(b, slots[1], which, union) +
            Emitted(c, slots[2], which, union) + Emitted(d, slots[3], which, union)
  {
    hide Emitted;
    OutlineNext(a, [b, c, d], slots, which, union);
    Outline3(b, c, d, slots[1..], which, union);
    assert [a] + [b, c, d] == [a, b, c, d];
  }

  lemma EntryOk(fs: seq<Field>, m: Msg, i: nat)
    requires MsgOk(Wire, fs, m) && i < |fs|
    ensures |m.slots| == |fs| && SlotOk(Wire, fs[i], m.slots[i]) && MemberOk(Wire, fs[i], m.which, m.union)
  {
    hide SlotOk, MemberOk;
  }

  /** The stop and keep-alive messages: a time stamp, if any, is field 1. */
  lemma StampOnlyIs(m: Msg)
    requires MsgOk(Wire, STOP_COMMAND, m)
    ensures |m.slots| == 1 && m.slots[0].Flagged?
    ensures Outline(STOP_COMMAND, m.slots, m.which, m.union) ==
            IfPresent(m.slots[0], Nested(1, OutlineOf(TIME_STAMP, m.slots[0].item)))
  {
    hide SlotOk, Emitted, Outline, OutlineOf;
    TimeStampSize(STORED);
    EntryOk(STOP_COMMAND, m, 0);
    OptionalMessage(1, TIME_STAMP, m.slots[0], m.which, m.union);
    Outline1(STOP_COMMAND[0], m.slots, m.which, m.union);
  }

  /** The command line is field 1, the time stamp field 2. */
  lemma RunIs(m: Msg)
    requires MsgOk(Wire, RUN_COMMAND, m)
    ensures |m.slots| == 2 && m.slots[0].Single? && m.slots[1].Flagged?
    ensures Outline(RUN_COMMAND, m.slots, m.which, m.union) ==
            TextField(1, m.slots[0].item) +
            IfPresent(m.slots[1], Nested(2, OutlineOf(TIME_STAMP, m.slots[1].item)))
  {
    hide SlotOk, Emitted, Outline, OutlineOf;
    TimeStampSize(STORED);
    EntryOk(RUN_COMMAND, m, 0);
    EntryOk(RUN_COMMAND, m, 1);
    RequiredText(1, 128, m.slots[0], m.which, m.union);
    OptionalMessage(2, TIME_STAMP, m.slots[1], m.which, m.union);
    Outline2(RUN_COMMAND[0], RUN_COMMAND[1], m.slots, m.which, m.union);
  }

  /** Script, stack size, priority and time stamp are fields 1 to 4. */
  lemma RunScriptIs(m: Msg)
    requires MsgOk(Wire, RUN_SCRIPT_COMMAND, m)
    ensures |m.slots| == 4 && forall i :: 0 <= i < 4 ==> m.slots[i].Flagged?
    ensures Outline(RUN_SCRIPT_COMMAND, m.slots, m.which, m.union) ==
            IfPresent(m.slots[0], TextField(1, m.slots[0].item)) +
            IfPresent(m.slots[1], NumberField(2, m.slots[1].item)) +
            IfPresent(m.slots[2], NumberField(3, m.slots[2].item)) +
            IfPresent(m.slots[3], Nested(4, OutlineOf(TIME_STAMP, m.slots[3].item)))
  {
    hide SlotOk, Emitted, Outline, OutlineOf;
    var fs := RUN_SCRIPT_COMMAND;
    TimeStampSize(STORED);
    EntryOk(fs, m, 0);
    EntryOk(fs, m, 1);
    EntryOk(fs, m, 2);
    EntryOk(fs, m, 3);
    OptionalText(1, 128, m.slots[0], m.which, m.union);
    OptionalNumber(2, UIntT(4), m.slots[1], m.which, m.union);
    OptionalNumber(3, UIntT(4), m.slots[2], m.which, m.union);
    OptionalMessage(4, TIME_STAMP, m.slots[3], m.which, m.union);
    Outline4(fs[0], fs[1], fs[2], fs[3], m.slots, m.which, m.union);
  }

  /** Stack size and priority are fields 1 and 2. */
  lemma ShellIs(m: Msg)
    requires MsgOk(Wire, SHELL_COMMAND, m)
    ensures |m.slots| == 2 && m.slots[0].Flagged? && m.slots[1].Flagged?
    ensures Outline(SHELL_COMMAND, m.slots, m.which, m.union) ==
            IfPresent(m.slots[0], NumberField(1, m.slots[0].item)) +
            IfPresent(m.slots[1], NumberField(2, m.slots[1].item))
  {
    hide SlotOk, Emitted, Outline;
    EntryOk(SHELL_COMMAND, m, 0);
    EntryOk(SHELL_COMMAND, m, 1);
    OptionalNumber(1, UIntT(4), m.slots[0], m.which, m.union);
    OptionalNumber(2, UIntT(4), m.slots[1], m.which, m.union);
    Outline2(SHELL_COMMAND[0], SHELL_COMMAND[1], m.slots, m.which, m.union);
  }

  /** Group, key and value are fields 1 to 3. */
  lemma ResultTupleIs(m: Msg)
    requires MsgOk(Wire, RESULT_TUPLE, m)
    ensures |m.slots| == 3 && m.slots[0].Flagged? && m.slots[1].Single? && m.slots[2].Single?
    ensures Outline(RESULT_TUPLE, m.slots, m.which, m.union) ==
            IfPresent(m.slots[0], TextField(1, m.slots[0].item)) + TextField(2, m.slots[1].item) +
            TextField(3, m.slots[2].item)
  {
    hide SlotOk, Emitted, Outline;
    var fs := RESULT_TUPLE;
    EntryOk(fs, m, 0);
    EntryOk(fs, m, 1);
    EntryOk(fs, m, 2);
    OptionalText(1, 32, m.slots[0], m.which, m.union);
    RequiredText(2, 32, m.slots[1], m.which, m.union);
    RequiredText(3, 128, m.slots[2], m.which, m.union);
    Outline3(fs[0], fs[1], fs[2], m.slots, m.which, m.union);
  }

  /** Each result is a field 1, return code and completion flag are fields 2 and 3, the output field 10. */
  lemma CommandResponseIs(m: Msg)
    requires MsgOk(Wire, COMMAND_RESPONSE, m)
    ensures |m.slots| == 4 && m.slots[0].Counted? && m.slots[0].count <= |m.slots[0].items|
    ensures m.slots[1].Single? && m.slots[2].Single? && m.slots[3].Flagged?
    ensures Outline(COMMAND_RESPONSE, m.slots, m.which, m.union) ==
            NestedEach(1, RESULT_TUPLE, m.slots[0].items[..m.slots[0].count]) +
            NumberField(2, m.slots[1].item) + NumberField(3, m.slots[2].item) +
            IfPresent(m.slots[3], TextField(10, m.slots[3].item))
  {
    hide SlotOk, Emitted, Outline, OutlineOf;
    var fs := COMMAND_RESPONSE;
    EntryOk(fs, m, 0);
    EntryOk(fs, m, 1);
    EntryOk(fs, m, 2);
    EntryOk(fs, m, 3);
    ResultsEmitted(m.slots[0], m.which, m.union);
    RequiredNumber(2, IntT(4), m.slots[1], m.which, m.union);
    RequiredNumber(3, BoolT, m.slots[2], m.which, m.union);
    OptionalText(10, 256, m.slots[3], m.which, m.union);
    Outline4(fs[0], fs[1], fs[2], fs[3], m.slots, m.which, m.union);
  }

  lemma ResultsEmitted(slot: Slot, which: nat, union: Item)
    requires SlotOk(Wire, Field(1, Repeated(4), MessageT(RESULT_TUPLE)), slot)
    ensures slot.Counted? && slot.count <= |slot.items|
    ensures Emitted(Field(1, Repeated(4), MessageT(RESULT_TUPLE)), slot, which, union) ==
            NestedEach(1, RESULT_TUPLE, slot.items[..slot.count])
  {
    hide ItemOk, WrittenEach, OutlineOf, MaxMsg;
    ResultTupleSize(STORED);
    MessagesWritten(1, 4, RESULT_TUPLE, slot.items[..slot.count]);
  }

  // ---- Requests and responses.

  /** The member of the request's oneof: 10 runs a command line, 11 a script, 12 lists the jobs, 13 stops, 14 sets up
      the shell, 15 keeps the connection alive. Any other number selects none. */
  ghost function RequestMember(which: nat, union: Item): seq<Alien> {
    if which == 10 then Nested(10, OutlineOf(RUN_COMMAND, union))
    else if which == 11 then Nested(11, OutlineOf(RUN_SCRIPT_COMMAND, union))
    else if which == 12 then Nested(12, [])
    else if which == 13 then Nested(13, OutlineOf(STOP_COMMAND, union))
    else if which == 14 then Nested(14, OutlineOf(SHELL_COMMAND, union))
    else if which == 15 then Nested(15, OutlineOf(KEEP_ALIVE, union))
    else []
  }

  /** Whichever of three members is selected. */
  ghost function OneOf3(which: nat, a: nat, x: seq<Alien>, b: nat, y: seq<Alien>, c: nat, z: seq<Alien>): seq<Alien> {
    (if which == a then x else []) + (if which == b then y else []) + (if which == c then z else [])
  }

  lemma FirstMembers(slots: seq<Slot>, which: nat, union: Item)
    requires |slots| == 3
    requires forall i :: 0 <= i < 3 ==> slots[i].Shared? && MemberOk(Wire, GOSH_REQUEST[1 + i], which, union)
    ensures Outline(GOSH_REQUEST[1..4], slots, which, union) ==
            OneOf3(which, 10, Nested(10, OutlineOf(RUN_COMMAND, union)),
                   11, Nested(11, OutlineOf(RUN_SCRIPT_COMMAND, union)),
                   12, Nested(12, OutlineOf(LIST_JOBS_COMMAND, union)))
  {
    hide MemberOk, Emitted, Outline, OutlineOf, MaxMsg;
    RunSize(STORED);
    RunScriptSize(STORED);
    ListJobsSize(STORED);
    var fs := GOSH_REQUEST[1..4];
    assert fs == [GOSH_REQUEST[1], GOSH_REQUEST[2], GOSH_REQUEST[3]];
    assert slots[0].Shared? && slots[1].Shared? && slots[2].Shared?;
    Member(10, RUN_COMMAND, slots[0], which, union);
    Member(11, RUN_SCRIPT_COMMAND, slots[1], which, union);
    Member(12, LIST_JOBS_COMMAND, slots[2], which, union);
    Outline3(fs[0], fs[1], fs[2], slots, which, union);
  }

  lemma LastMembers(slots: seq<Slot>, which: nat, union: Item)
    requires |slots| == 3
    requires forall i :: 0 <= i < 3 ==> slots[i].Shared? && MemberOk(Wire, GOSH_REQUEST[4 + i], which, union)
    ensures Outline(GOSH_REQUEST[4..7], slots, which, union) ==
            OneOf3(which, 13, Nested(13, OutlineOf(STOP_COMMAND, union)),
                   14, Nested(14, OutlineOf(SHELL_COMMAND, union)),
                   15, Nested(15, OutlineOf(KEEP_ALIVE, union)))
  {
    hide MemberOk, Emitted, Outline, OutlineOf, MaxMsg;
    StampOnlySize(STORED);
    ShellSize(STORED);
    var fs := GOSH_REQUEST[4..7];
    assert fs == [GOSH_REQUEST[4], GOSH_REQUEST[5], GOSH_REQUEST[6]];
    assert slots[0].Shared? && slots[1].Shared? && slots[2].Shared?;
    Member(13, STOP_COMMAND, slots[0], which, union);
    Member(14, SHELL_COMMAND, slots[1], which, union);
    Member(15, KEEP_ALIVE, slots[2], which, union);
    Outline3(fs[0], fs[1], fs[2], slots, which, union);
  }

  lemma {:induction false} OutlineConcat(fs: seq<Field>, gs: seq<Field>, slots: seq<Slot>, which: nat, union: Item)
    requires |slots| == |fs| + |gs|
    ensures Outline(fs + gs, slots, which, union) ==
            Outline(fs, slots[..|fs|], which, union) + Outline(gs, slots[|fs|..], which, union)
    decreases |fs|
  {
    hide Emitted;
    if fs == [] {
      assert fs + gs == gs && slots[0..] == slots;
    } else {
      assert (fs + gs)[1..] == fs[1..] + gs && slots[..|fs|][1..] == slots[1..][..|fs| - 1];
      assert slots[1..][|fs| - 1..] == slots[|fs|..];
      OutlineConcat(fs[1..], gs, slots[1..], which, union);
    }
  }

  lemma MembersOutline(m: Msg)
    requires MsgOk(Wire, GOSH_REQUEST, m)
    ensures |m.slots| == 7 && m.slots[0].Single? && ItemOk(Wire, UIntT(4), m.slots[0].item)
    ensures forall i :: 1 <= i < 7 ==> m.slots[i].Shared? && MemberOk(Wire, GOSH_REQUEST[i], m.which, m.union)
  {
    hide ItemOk, MemberOk;
    forall i | 1 <= i < 7 ensures m.slots[i].Shared? && MemberOk(Wire, GOSH_REQUEST[i], m.which, m.union) {
      EntryOk(GOSH_REQUEST, m, i);
    }
    EntryOk(GOSH_REQUEST, m, 0);
  }

  /** The outline of every request: its id is field 1, its command a member. */
  lemma RequestIs(m: Msg)
    requires MsgOk(Wire, GOSH_REQUEST, m)
    ensures |m.slots| == 7 && m.slots[0].Single?
    ensures Outline(GOSH_REQUEST, m.slots, m.which, m.union) ==
            NumberField(1, m.slots[0].item) + RequestMember(m.which, m.union)
  {
    hide ItemOk, SlotOk, MemberOk, Emitted, Outline, OutlineOf, NumberField;
    var fs, slots := GOSH_REQUEST, m.slots;
    MembersOutline(m);
    EntryOk(fs, m, 0);
    RequiredNumber(1, UIntT(4), slots[0], m.which, m.union);
    FirstMembers(slots[1..4], m.which, m.union);
    LastMembers(slots[4..7], m.which, m.union);
    assert fs == [fs[0]] + fs[1..] && fs[1..] == fs[1..4] + fs[4..7];
    OutlineNext(fs[0], fs[1..], slots, m.which, m.union);
    OutlineConcat(fs[1..4], fs[4..7], slots[1..], m.which, m.union);
    assert slots[1..][..3] == slots[1..4] && slots[1..][3..] == slots[4..7];
    NothingListed(m.union);
  }

  lemma NothingListed(union: Item)
    ensures OutlineOf(LIST_JOBS_COMMAND, union) == []
  {}

  /** The outline of every response: its id is field 1, the answer to a command field 10, a keep-alive field 20. */
  lemma ResponseIs(m: Msg)
    requires MsgOk(Wire, GOSH_RESPONSE, m)
    ensures |m.slots| == 3 && m.slots[0].Single?
    ensures Outline(GOSH_RESPONSE, m.slots, m.which, m.union) ==
            NumberField(1, m.slots[0].item) +
            if m.which == 10 then Nested(10, OutlineOf(COMMAND_RESPONSE, m.union))
            else if m.which == 20 then Nested(20, OutlineOf(KEEP_ALIVE, m.union)) else []
  {
    hide ItemOk, MemberOk, Emitted, Outline, OutlineOf, NumberField, MaxMsg;
    var fs := GOSH_RESPONSE;
    EntryOk(fs, m, 0);
    EntryOk(fs, m, 1);
    EntryOk(fs, m, 2);
    CommandResponseSize(STORED);
    StampOnlySize(STORED);
    RequiredNumber(1, UIntT(4), m.slots[0], m.which, m.union);
    Member(10, COMMAND_RESPONSE, m.slots[1], m.which, m.union);
    Member(20, KEEP_ALIVE, m.slots[2], m.which, m.union);
    Outline3(fs[0], fs[1], fs[2], m.slots, m.which, m.union);
  }

  // ---- And the bytes.

  /** The bytes of a message that can travel are those of its outline. */
  lemma EncodedOutline(fs: seq<Field>, m: Msg)
    requires WellFormedFields(fs) && MsgOk(Wire, fs, m)
    ensures EncMsg(fs, m) == Some(AliensBytes(Outline(fs, m.slots, m.which, m.union)))
  {
    hide EncSlots, SlotOk, MemberOk, WellFormedField, Outline;
    MsgWireRange(fs, m);
    EncodableSlots(fs, m.slots, m.which, m.union);
    EncodingIs(fs, m.slots, m.which, m.union);
  }

  /** A request to list the jobs, with any id below 128, is four bytes. */
  lemma ListJobsBytes(m: Msg, id: nat)
    requires MsgOk(Wire, GOSH_REQUEST, m) && m.which == 12 && id < 128
    requires |m.slots| > 0 && m.slots[0] == Single(IntV(id))
    ensures EncMsg(GOSH_REQUEST, m) == Some([0x08, id, 0x62, 0x00])
  {
    hide ItemOk, SlotOk, MemberOk, MsgOk, Outline, OutlineOf, MaxMsg, EncMsg, WellFormedFields;
    GoshRequestSize(STORED);
    EncodedOutline(GOSH_REQUEST, m);
    RequestIs(m);
    ListJobsAliens(id);
  }

  lemma ListJobsAliens(id: nat)
    requires id < 128
    ensures AliensBytes([Alien(1, Number(id))] + Nested(12, [])) == [0x08, id, 0x62, 0x00]
  {
    var a, b := Alien(1, Number(id)), Alien(12, Text([]));
    assert AliensBytes([]) == [];
    assert [a] + Nested(12, []) == [a] + [b] && ([a] + [b])[1..] == [b] && [b][1..] == [];
    assert AlienBytes(a) == [0x08] + [id] && AlienBytes(b) == [0x62] + ([0x00] + []);
  }
}
