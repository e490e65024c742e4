/** Decoding gives back what was encoded, and is blind to unknown fields. */
module PbRoundTrip {
  import opened Common
  import opened PbWire
  import opened PbMessage
  import opened PbIterator
  import opened PbSize
  import opened PbUnknown

  // ---- Equality up to what a message carries.

  ghost predicate SameItem(t: LType, a: Item, b: Item)
    decreases t
  {
    match t
    case StringT(_) => a.StrV? && b.StrV? && CString(a.buf) == CString(b.buf)
    case MessageT(fields) => a.MsgV? && b.MsgV? && SameMsg(fields, a.msg, b.msg)
    case _ => a == b
  }

  ghost predicate SameSlot(f: Field, a: Slot, b: Slot)
    decreases f
  {
    match f.htype
    case Required => a.Single? && b.Single? && SameItem(f.ltype, a.item, b.item)
    case Optional => a.Flagged? && b.Flagged? && a.has == b.has && (a.has ==> SameItem(f.ltype, a.item, b.item))
    case Repeated(_) =>
      && a.Counted? && b.Counted? && a.count == b.count && a.count <= |a.items| && b.count <= |b.items|
      && forall i :: 0 <= i < a.count ==> SameItem(f.ltype, a.items[i], b.items[i])
    case Oneof => true
  }

  /** The member selected by a is selected by b, with the same content. */
  ghost predicate SameMember(f: Field, a: Msg, b: Msg)
    decreases f
  {
    Selected(f, a.which) ==> b.which == a.which && SameItem(f.ltype, a.union, b.union)
  }

  predicate Selected(f: Field, which: nat) { f.htype.Oneof? && f.tag == which }

  /** Agreement on the first n entries; no selected member there means no member chosen. */
  ghost predicate SamePrefix(fs: seq<Field>, n: nat, a: Msg, b: Msg)
    requires n <= |fs|
    decreases fs, 0
  {
    && |a.slots| == |fs| && |b.slots| == |fs|
    && (forall i :: 0 <= i < n ==> SameSlot(fs[i], a.slots[i], b.slots[i]))
    && (forall i :: 0 <= i < n ==> SameMember(fs[i], a, b))
    && ((forall i :: 0 <= i < n ==> !Selected(fs[i], a.which)) ==> b.which == 0)
  }

  ghost predicate SameMsg(fs: seq<Field>, a: Msg, b: Msg)
    decreases fs, 1
  {
    SamePrefix(fs, |fs|, a, b)
  }

  // ---- Initialised storage.

  ghost predicate FreshItem(t: LType, item: Item)
    decreases t
  {
    ItemOk(Shape, t, item) && (t.MessageT? ==> item.MsgV? && FreshMsg(t.fields, item.msg))
  }

  ghost predicate FreshSlot(f: Field, slot: Slot)
    decreases f
  {
    match f.htype
    case Required => slot.Single? && FreshItem(f.ltype, slot.item)
    case Optional => slot.Flagged? && !slot.has && FreshItem(f.ltype, slot.item)
    case Repeated(max) =>
      slot.Counted? && slot.count == 0 && |slot.items| == max &&
      forall i :: 0 <= i < max ==> ItemOk(Shape, f.ltype, slot.items[i])
    case Oneof => slot.Shared?
  }

  ghost predicate FreshMsg(fs: seq<Field>, m: Msg)
    decreases fs, 1
  {
    m.which == 0 && FreshSlots(fs, m.slots)
  }

  ghost predicate FreshSlots(fs: seq<Field>, slots: seq<Slot>)
    decreases fs, 0
  {
    |slots| == |fs| && forall i :: 0 <= i < |fs| ==> FreshSlot(fs[i], slots[i])
  }

  lemma {:induction false} DefaultItemFresh(t: LType, item: Item)
    requires ItemOk(Shape, t, item)
    ensures FreshItem(t, DefaultItem(t, item))
    decreases t
  {
    if t.MessageT? {
      DefaultSlotsFresh(t.fields, item.msg.slots);
      FreshShape(t.fields, DefaultMsg(t.fields, item.msg));
    }
  }

  lemma {:induction false} DefaultSlotFresh(f: Field, slot: Slot)
    requires SlotOk(Shape, f, slot)
    ensures FreshSlot(f, DefaultSlot(f, slot))
    decreases f
  {
    if slot.Single? || slot.Flagged? { DefaultItemFresh(f.ltype, slot.item); }
  }

  lemma {:induction false} DefaultSlotsFresh(fs: seq<Field>, slots: seq<Slot>)
    requires SlotsOk(Shape, fs, slots)
    ensures FreshSlots(fs, DefaultSlots(fs, slots))
    decreases fs
  {
    hide SlotOk, FreshSlot;
    if fs == [] {
    } else {
      DefaultSlotFresh(fs[0], slots[0]);
      assert SlotsOk(Shape, fs[1..], slots[1..]);
      DefaultSlotsFresh(fs[1..], slots[1..]);
    }
  }

  lemma FreshSlotShape(f: Field, slot: Slot)
    requires FreshSlot(f, slot)
    ensures SlotOk(Shape, f, slot)
  {}

  lemma FreshShape(fs: seq<Field>, m: Msg)
    requires FreshSlots(fs, m.slots)
    ensures MsgOk(Shape, fs, m)
  {
    hide FreshSlot, SlotOk;
    forall i | 0 <= i < |fs| ensures SlotOk(Shape, fs[i], m.slots[i]) { FreshSlotShape(fs[i], m.slots[i]); }
  }

  lemma {:induction false} ZeroItemFresh(t: LType)
    ensures FreshItem(t, ZeroItem(t))
    decreases t
  {
    if t.MessageT? {
      ZeroSlotsFresh(t.fields);
      FreshShape(t.fields, ZeroItem(t).msg);
    }
  }

  lemma {:induction false} ZeroSlotFresh(f: Field)
    ensures FreshSlot(f, ZeroSlot(f))
    decreases f
  {
    ZeroItemFresh(f.ltype);
  }

  lemma {:induction false} ZeroSlotsFresh(fs: seq<Field>)
    ensures FreshSlots(fs, ZeroSlots(fs))
    decreases fs
  {
    hide FreshSlot, ZeroSlot;
    if fs == [] {
    } else {
      ZeroSlotFresh(fs[0]);
      ZeroSlotsFresh(fs[1..]);
    }
  }

  // ---- Numbers and strings.

  lemma SignedBack(n: int, bits: nat)
    requires bits == 32 || bits == 64
    requires -(TwoTo(bits) as int) <= 2 * n < TwoTo(bits)
    ensures -TWO64 <= n && Unsigned64(n) < TWO64 && Signed(Unsigned64(n), bits) == n
  {
    TwoToValues();
    hide TwoTo;
    var p := TwoTo(bits);
    if n >= 0 {
      assert n % p == n;
    } else if bits == 32 {
      assert n + TWO64 == (n + TWO32) + TWO32 * (TWO32 - 1);
      assert (n + TWO64) % TWO32 == n + TWO32;
    } else {
      assert (n + TWO64) % TWO64 == n + TWO64;
    }
  }

  /** Every number in range of its field survives, negative ones included. */
  lemma IntRoundTrip(t: LType, item: Item)
    requires WellFormedType(t) && ItemOk(Wire, t, item) && !t.StringT? && !t.MessageT?
    ensures -TWO64 <= item.n && Unsigned64(item.n) < TWO64
    ensures DecInt(t, Unsigned64(item.n)) == Some(item)
  {
    TwoToValues();
    hide TwoTo, Signed;
    match t {
      case BoolT => SignedBack(item.n, 32);
      case IntT(width) => SignedBack(item.n, 8 * width);
      case UIntT(width) =>
    }
  }

  lemma {:induction false} CStringFilled(buf: seq<byte>, rest: seq<byte>)
    ensures CString(CString(buf) + [0] + rest) == CString(buf)
  {
    if buf == [] || buf[0] == 0 {
      assert CString(buf) + [0] + rest == [0] + rest;
    } else {
      CStringFilled(buf[1..], rest);
      assert (CString(buf) + [0] + rest)[1..] == CString(buf[1..]) + [0] + rest;
    }
  }

  lemma DelimitedRoundTrip(body: seq<byte>, tail: seq<byte>)
    requires |body| < TWO32
    ensures DecDelimited(Delimited(body) + tail) == Some((body, tail))
  {
    hide Dec32, EncVarint;
    Varint32RoundTrip(|body|, body + tail);
    assert Delimited(body) + tail == EncVarint(|body|) + (body + tail);
    assert (body + tail)[..|body|] == body && (body + tail)[|body|..] == tail;
  }

  // ---- Finding a field.

  lemma {:induction false} FindWithinHits(fs: seq<Field>, pos: nat, n: nat, i: nat)
    requires WellFormedFields(fs) && pos < |fs| && i < |fs| && n <= |fs|
    requires if pos <= i then i - pos < n else i + |fs| - pos < n
    ensures FindWithin(fs, pos, n, fs[i].tag) == Some(i)
    decreases n
  {
    if pos == i {
    } else {
      assert fs[pos].tag != fs[i].tag;
      FindWithinHits(fs, NextPos(fs, pos), n - 1, i);
    }
  }

  /** A complete field of entry i is one turn of the loop. */
  lemma FieldTurn(fs: seq<Field>, i: nat, body: seq<byte>, tail: seq<byte>, s: State, m: Msg)
    requires WellFormedFields(fs) && i < |fs| && |s.msg.slots| == |fs| && s.pos < |fs|
    requires DecField(fs[i], i, body + tail, s.msg) == Some((m, tail))
    ensures DecFields(fs, EncTag(fs[i].tag, WireTypeFor(fs[i].ltype)) + body + tail, s) ==
            DecFields(fs, tail, State(i, MarkSeen(s.seen, fs[i], RequiredCount(fs[..i])), m))
  {
    hide DecField, EncTag, DecTag, MarkSeen, RequiredCount, SkipField, FindWithin, WellFormedType;
    var f, w := fs[i], WireTypeFor(fs[i].ltype);
    assert WellFormedField(f);
    TagRoundTrip(f.tag, w, body + tail);
    var bytes := EncTag(f.tag, w) + body + tail;
    assert bytes == EncTag(f.tag, w) + (body + tail);
    FindWithinHits(fs, s.pos, |fs|, i);
    TagNonEmpty(f.tag, w);
  }

  lemma TagNonEmpty(tag: nat, w: WireType)
    ensures |EncTag(tag, w)| >= 1
  {}

  // ---- The bitmap.

  ghost predicate SeenExactly(seen: Bitmap, n: nat) {
    forall k :: 0 <= k < MAX_REQUIRED ==> seen.Bit(k) == (k < n)
  }

  lemma SeenNext(seen: Bitmap, f: Field, n: nat)
    requires SeenExactly(seen, n)
    ensures SeenExactly(MarkSeen(seen, f, n), n + if f.htype.Required? then 1 else 0)
  {
    forall k | 0 <= k < MAX_REQUIRED
      ensures MarkSeen(seen, f, n).Bit(k) == (k < n + if f.htype.Required? then 1 else 0)
    {
      assert seen.Bit(k) == (k < n);
    }
  }

  lemma SeenAll(seen: Bitmap, n: nat)
    requires SeenExactly(seen, n)
    ensures AllSeen(seen, n)
  {
    var low, high := if n < 32 then n else 32, if n < 32 then 0 else if n < 64 then n - 32 else 32;
    forall k | 0 <= k < 32 ensures seen.word0[k] == (k < low) && seen.word1[k] == (k < high) {
      assert seen.Bit(k) == (k < n) && seen.Bit(32 + k) == (32 + k < n);
    }
    assert seen.word0 == LowOnes(low);
    assert seen.word1 == LowOnes(high);
  }

  /** The word-wise test looks at every required field up to the sixty-fourth, provided no bit beyond them is set. */
  lemma RequiredCheck(seen: Bitmap, n: nat)
    requires forall k :: n <= k < 64 ==> !seen.Bit(k)
    ensures AllSeen(seen, n) <==> forall k :: 0 <= k < n && k < 64 ==> seen.Bit(k)
  {
    if forall k :: 0 <= k < n && k < MAX_REQUIRED ==> seen.Bit(k) { SeenAll(seen, n); }
    if AllSeen(seen, n) {
      forall k | 0 <= k < n && k < MAX_REQUIRED ensures seen.Bit(k) { SeenEach(seen, n, k); }
    }
  }

  lemma SeenEach(seen: Bitmap, n: nat, k: nat)
    requires AllSeen(seen, n) && k < n && k < MAX_REQUIRED
    ensures seen.Bit(k)
  {
    var count := if n > MAX_REQUIRED then MAX_REQUIRED else n;
    if k < 32 {
      assert seen.word0 == LowOnes(if count >= 32 then 32 else count);
    } else {
      assert seen.word1 == LowOnes(if count >= 64 then 32 else count - 32);
    }
  }

  // ---- Unknown fields.

  /** Input without any known field decodes only into a message that requires none. */
  lemma RequiredMissing(fs: seq<Field>, junk: seq<byte>, m: Msg)
    requires Unknown(fs, junk) && |m.slots| == |fs|
    ensures DecMsg(fs, junk, m).Some? <==> RequiredCount(fs) == 0
  {
    hide Unknown, DecFields, RequiredCount, AllSeen;
    JunkSkipped(fs, junk, [], State(0, NONE_SEEN, m));
    assert junk + [] == junk;
    NothingLeft(fs, State(0, NONE_SEEN, m));
    forall k | 0 <= k < MAX_REQUIRED ensures !NONE_SEEN.Bit(k) {}
    RequiredCheck(NONE_SEEN, RequiredCount(fs));
    assert !NONE_SEEN.Bit(0);
  }

  lemma NothingLeft(fs: seq<Field>, s: State)
    requires |s.msg.slots| == |fs| && (fs == [] || s.pos < |fs|)
    ensures DecFields(fs, [], s) == Some((s, []))
  {}

  ghost predicate AllUnknown(fs: seq<Field>, junk: seq<seq<byte>>) {
    forall i :: 0 <= i < |junk| ==> Unknown(fs, junk[i])
  }

  /** An encoded message with unknown fields before each entry and at the end. */
  function Amid(fs: seq<Field>, slots: seq<Slot>, which: nat, union: Item, junk: seq<seq<byte>>): Option<seq<byte>>
    requires |junk| == |fs| + 1
  {
    if fs == [] then Some(junk[0])
    else if slots == [] then None
    else
      var first := EncSlot(fs[0], slots[0], which, union);
      var rest := Amid(fs[1..], slots[1..], which, union, junk[1..]);
      if first.None? || rest.None? then None else Some(junk[0] + (first.value + rest.value))
  }

  function Nothing(n: nat): (r: seq<seq<byte>>)
    ensures |r| == n
  {
    seq(n, _ => [])
  }

  lemma {:induction false} AmidSome(fs: seq<Field>, slots: seq<Slot>, which: nat, union: Item, junk: seq<seq<byte>>)
    requires |junk| == |fs| + 1 && EncSlots(fs, slots, which, union).Some?
    ensures Amid(fs, slots, which, union, junk).Some?
  {
    hide EncSlot;
    if fs == [] {
    } else {
      AmidSome(fs[1..], slots[1..], which, union, junk[1..]);
    }
  }

  lemma {:induction false} AmidNothing(fs: seq<Field>, slots: seq<Slot>, which: nat, union: Item)
    ensures Amid(fs, slots, which, union, Nothing(|fs| + 1)) == EncSlots(fs, slots, which, union)
  {
    hide EncSlot;
    if fs == [] || slots == [] {
    } else {
      AmidNothing(fs[1..], slots[1..], which, union);
      assert Nothing(|fs| + 1)[1..] == Nothing(|fs[1..]| + 1);
      var first, rest := EncSlot(fs[0], slots[0], which, union), EncSlots(fs[1..], slots[1..], which, union);
      if first.Some? && rest.Some? { assert [] + (first.value + rest.value) == first.value + rest.value; }
    }
  }

  // ---- Every value that can travel has an encoding.

  lemma {:induction false} EncodableItem(t: LType, item: Item)
    requires WellFormedType(t) && ItemOk(Wire, t, item)
    ensures EncItem(t, item).Some?
    decreases t
  {
    if t.MessageT? {
      EncodableSlots(t.fields, item.msg.slots, item.msg.which, item.msg.union);
    } else if !t.StringT? {
      IntRoundTrip(t, item);
    }
  }

  lemma {:induction false} EncodableSlot(f: Field, slot: Slot, which: nat, union: Item)
    requires WellFormedField(f) && SlotOk(Wire, f, slot) && MemberOk(Wire, f, which, union)
    ensures EncSlot(f, slot, which, union).Some?
    decreases f, 1
  {
    match f.htype {
      case Required => EncodableItem(f.ltype, slot.item);
      case Optional => if slot.has { EncodableItem(f.ltype, slot.item); }
      case Repeated(max) => EncodableEach(f, slot.items[..slot.count]);
      case Oneof => if which == f.tag { EncodableItem(f.ltype, union); }
    }
  }

  lemma {:induction false} EncodableEach(f: Field, items: seq<Item>)
    requires WellFormedField(f) && forall i :: 0 <= i < |items| ==> ItemOk(Wire, f.ltype, items[i])
    ensures EncEach(f, items).Some?
    decreases f, 0, |items|
  {
    hide ItemOk, WellFormedField;
    if items == [] {
    } else {
      assert WellFormedType(f.ltype) by { FieldType(f); }
      EncodableItem(f.ltype, items[0]);
      EncodableEach(f, items[1..]);
    }
  }

  lemma FieldType(f: Field)
    requires WellFormedField(f)
    ensures WellFormedType(f.ltype)
  {}

  lemma {:induction false} EncodableSlots(fs: seq<Field>, slots: seq<Slot>, which: nat, union: Item)
    requires WellFormedFields(fs) && SlotsOk(Wire, fs, slots) && UnionOk(Wire, fs, which, union)
    ensures EncSlots(fs, slots, which, union).Some?
    decreases fs
  {
    hide SlotOk, MemberOk, WellFormedField, EncSlot;
    if fs == [] {
    } else {
      EncodableSlot(fs[0], slots[0], which, union);
      EncodableSlots(fs[1..], slots[1..], which, union);
    }
  }

  // ---- Round trip, by structure of the descriptor.

  ghost predicate Progress(fs: seq<Field>, n: nat, m: Msg, s: State)
    requires n <= |fs|
  {
    && |s.msg.slots| == |fs| && (fs == [] || s.pos < |fs|)
    && SamePrefix(fs, n, m, s.msg)
    && (forall i :: n <= i < |fs| ==> FreshSlot(fs[i], s.msg.slots[i]))
    && SeenExactly(s.seen, RequiredCount(fs[..n]))
  }

  lemma {:induction false} ItemRoundTrip(t: LType, entry: bool, item: Item, dest: Item, tail: seq<byte>)
    returns (back: Item)
    requires WellFormedType(t) && ItemOk(Wire, t, item)
    requires if entry then ItemOk(Shape, t, dest) else FreshItem(t, dest)
    ensures EncItem(t, item).Some?
    ensures DecItem(t, entry, EncItem(t, item).value + tail, dest) == Some((back, tail))
    ensures SameItem(t, item, back)
    decreases t, 2
  {
    hide TwoTo, EncVarint, DecDelimited, DecMsg, EncMsg, CString;
    match t {
      case StringT(size) => back := StringRoundTrip(t, entry, item, dest, tail);
      case MessageT(fields) =>
        var start := if entry then DefaultMsg(fields, dest.msg) else dest.msg;
        if entry { DefaultItemFresh(t, dest); }
        back := MessageRoundTrip(t, entry, item, dest, start, tail);
      case _ => back := NumberRoundTrip(t, entry, item, dest, tail);
    }
  }

  lemma NumberRoundTrip(t: LType, entry: bool, item: Item, dest: Item, tail: seq<byte>) returns (back: Item)
    requires WellFormedType(t) && !t.StringT? && !t.MessageT? && ItemOk(Wire, t, item)
    ensures EncItem(t, item).Some?
    ensures DecItem(t, entry, EncItem(t, item).value + tail, dest) == Some((back, tail))
    ensures SameItem(t, item, back)
  {
    hide EncVarint, Dec64, DecInt, TwoTo;
    IntRoundTrip(t, item);
    Varint64RoundTrip(Unsigned64(item.n), tail);
    back := item;
  }

  lemma StringRoundTrip(t: LType, entry: bool, item: Item, dest: Item, tail: seq<byte>) returns (back: Item)
    requires t.StringT? && WellFormedType(t) && ItemOk(Wire, t, item) && ItemOk(Shape, t, dest)
    ensures EncItem(t, item).Some?
    ensures DecItem(t, entry, EncItem(t, item).value + tail, dest) == Some((back, tail))
    ensures SameItem(t, item, back)
  {
    hide Delimited, DecDelimited;
    var text := CString(item.buf);
    CStringShort(item.buf);
    DelimitedRoundTrip(text, tail);
    CStringFilled(item.buf, dest.buf[|text| + 1..]);
    back := StrV(FillString(dest.buf, text));
  }

  lemma {:induction false} MessageRoundTrip(t: LType, entry: bool, item: Item, dest: Item, start: Msg, tail: seq<byte>)
    returns (back: Item)
    requires t.MessageT? && WellFormedType(t) && ItemOk(Wire, t, item) && dest.MsgV?
    requires start == (if entry then DefaultMsg(t.fields, dest.msg) else dest.msg) && FreshMsg(t.fields, start)
    ensures EncItem(t, item).Some?
    ensures DecItem(t, entry, EncItem(t, item).value + tail, dest) == Some((back, tail))
    ensures SameItem(t, item, back)
    decreases t, 1
  {
    hide Delimited, DecDelimited, EncMsg, DecMsg, SameMsg, MsgOk, FreshMsg, DefaultMsg, MaxMsg, WellFormedFields;
    var body := EncMsg(t.fields, item.msg);
    MsgWireRange(t.fields, item.msg);
    if body.Some? { MsgBound(STORED, t.fields, item.msg); }
    var m := MsgRoundTrip(t.fields, item.msg, start);
    DelimitedRoundTrip(body.value, tail);
    back := MsgV(m);
  }

  /** A required field, or an optional one that is present. */
  lemma {:induction false} SingleField(f: Field, i: nat, slot: Slot, dest: Msg, tail: seq<byte>) returns (back: Msg)
    requires WellFormedField(f) && i < |dest.slots| && SlotOk(Wire, f, slot) && FreshSlot(f, dest.slots[i])
    requires f.htype.Required? || (f.htype.Optional? && slot.has)
    ensures EncItem(f.ltype, slot.item).Some? && |back.slots| == |dest.slots|
    ensures DecField(f, i, EncItem(f.ltype, slot.item).value + tail, dest) == Some((back, tail))
    ensures back == dest.(slots := dest.slots[i := back.slots[i]]) && SameSlot(f, slot, back.slots[i])
    decreases f
  {
    hide DecItem, EncItem, ItemOk, FreshItem, SameItem;
    var item := ItemRoundTrip(f.ltype, false, slot.item, dest.slots[i].item, tail);
    back := dest.(slots := dest.slots[i := if f.htype.Required? then Single(item) else Flagged(true, item)]);
  }

  /** The selected member of a oneof. */
  lemma {:induction false} UnionField(f: Field, i: nat, union: Item, dest: Msg, tail: seq<byte>) returns (back: Msg)
    requires WellFormedField(f) && i < |dest.slots| && f.htype.Oneof? && ItemOk(Wire, f.ltype, union)
    ensures EncItem(f.ltype, union).Some?
    ensures DecField(f, i, EncItem(f.ltype, union).value + tail, dest) == Some((back, tail))
    ensures back == dest.(which := f.tag, union := back.union) && SameItem(f.ltype, union, back.union)
    decreases f
  {
    hide DecItem, EncItem, ItemOk, FreshItem, SameItem;
    ZeroItemFresh(f.ltype);
    var item := ItemRoundTrip(f.ltype, false, union, ZeroItem(f.ltype), tail);
    back := dest.(which := f.tag, union := item);
  }

  /** One more entry of an array that already holds c. */
  lemma {:induction false} EntryField(f: Field, i: nat, item: Item, c: nat, dest: Msg, tail: seq<byte>)
    returns (back: Msg)
    requires WellFormedField(f) && i < |dest.slots| && f.htype.Repeated? && c < f.htype.max
    requires dest.slots[i].Counted? && dest.slots[i].count == c && |dest.slots[i].items| == f.htype.max
    requires ItemOk(Wire, f.ltype, item) && ItemOk(Shape, f.ltype, dest.slots[i].items[c])
    ensures EncItem(f.ltype, item).Some? && |back.slots| == |dest.slots|
    ensures DecField(f, i, EncItem(f.ltype, item).value + tail, dest) == Some((back, tail))
    ensures back == dest.(slots := dest.slots[i := back.slots[i]])
    ensures back.slots[i].Counted? && back.slots[i].count == c + 1 && |back.slots[i].items| == f.htype.max
    ensures back.slots[i].items == dest.slots[i].items[c := back.slots[i].items[c]]
    ensures SameItem(f.ltype, item, back.slots[i].items[c])
    decreases f
  {
    hide DecItem, EncItem, ItemOk, FreshItem, SameItem;
    var items := dest.slots[i].items;
    var entry := ItemRoundTrip(f.ltype, true, item, items[c], tail);
    back := dest.(slots := dest.slots[i := Counted(c + 1, items[c := entry])]);
  }

  lemma {:induction false} MsgRoundTrip(fs: seq<Field>, m: Msg, start: Msg) returns (back: Msg)
    requires WellFormedFields(fs) && MsgOk(Wire, fs, m) && FreshMsg(fs, start)
    ensures EncMsg(fs, m).Some?
    ensures DecMsg(fs, EncMsg(fs, m).value, start) == Some((back, []))
    ensures SameMsg(fs, m, back)
    decreases fs, 3
  {
    hide SlotOk, UnionOk, FreshSlot, EncSlots, DecFields, AllSeen, RequiredCount, Amid;
    SuffixEncodable(fs, 0, m);
    assert fs[0..] == fs && m.slots[0..] == m.slots;
    AmidNothing(fs, m.slots, m.which, m.union);
    back := AmidRoundTrip(fs, m, start, Nothing(|fs| + 1));
  }

  lemma {:induction false} AmidRoundTrip(fs: seq<Field>, m: Msg, start: Msg, junk: seq<seq<byte>>) returns (back: Msg)
    requires WellFormedFields(fs) && MsgOk(Wire, fs, m) && FreshMsg(fs, start) && AllUnknown(fs, junk)
    requires |junk| == |fs| + 1
    ensures EncMsg(fs, m).Some? && Amid(fs, m.slots, m.which, m.union, junk).Some?
    ensures DecMsg(fs, Amid(fs, m.slots, m.which, m.union, junk).value, start) == Some((back, []))
    ensures SameMsg(fs, m, back)
    decreases fs, 2, |fs| + 1
  {
    hide SlotOk, UnionOk, FreshSlot, EncSlots, DecFields, AllSeen, RequiredCount, Amid;
    assert fs[0..] == fs && m.slots[0..] == m.slots && fs[..0] == [] && fs[..|fs|] == fs && junk[0..] == junk;
    NoneRequired();
    SuffixEncodable(fs, 0, m);
    var s := FieldsRoundTrip(fs, 0, m, State(0, NONE_SEEN, start), junk);
    SeenAll(s.seen, RequiredCount(fs));
    back := s.msg;
  }

  lemma NoneRequired()
    ensures RequiredCount([]) == 0
  {}

  lemma {:induction false} FieldsRoundTrip(fs: seq<Field>, n: nat, m: Msg, s: State, junk: seq<seq<byte>>)
    returns (s': State)
    requires n <= |fs| && WellFormedFields(fs) && MsgOk(Wire, fs, m) && Progress(fs, n, m, s)
    requires |junk| == |fs| + 1 && AllUnknown(fs, junk)
    ensures Progress(fs, |fs|, m, s')
    ensures var bytes := Amid(fs[n..], m.slots[n..], m.which, m.union, junk[n..]);
            bytes.Some? && DecFields(fs, bytes.value, s) == Some((s', []))
    decreases fs, 2, |fs| - n
  {
    hide WellFormedField, SlotOk, MemberOk, Progress, EncSlot, DecTag, Unknown;
    SuffixEncodable(fs, n, m);
    ProgressShape(fs, n, m, s);
    if n == |fs| {
      s' := s;
      JunkSkipped(fs, junk[n], [], s);
      assert junk[n] + [] == junk[n];
    } else {
      assert fs[n..][1..] == fs[n + 1..] && m.slots[n..][1..] == m.slots[n + 1..] && junk[n..][1..] == junk[n + 1..];
      var first := EncSlot(fs[n], m.slots[n], m.which, m.union).value;
      SuffixEncodable(fs, n + 1, m);
      AmidSome(fs[n + 1..], m.slots[n + 1..], m.which, m.union, junk[n + 1..]);
      var tail := Amid(fs[n + 1..], m.slots[n + 1..], m.which, m.union, junk[n + 1..]).value;
      JunkSkipped(fs, junk[n], first + tail, s);
      var s1 := SlotTurn(fs, n, m, s, tail);
      s' := FieldsRoundTrip(fs, n + 1, m, s1, junk);
    }
  }

  lemma SuffixEncodable(fs: seq<Field>, n: nat, m: Msg)
    requires n <= |fs| && WellFormedFields(fs) && MsgOk(Wire, fs, m)
    ensures n <= |m.slots| && EncSlots(fs[n..], m.slots[n..], m.which, m.union).Some?
  {
    hide WellFormedField, SlotOk, MemberOk, EncSlots;
    EncodableSlots(fs[n..], m.slots[n..], m.which, m.union);
  }

  ghost predicate Fits(fs: seq<Field>, s: State) {
    |s.msg.slots| == |fs| && (fs == [] || s.pos < |fs|)
  }

  lemma ProgressShape(fs: seq<Field>, n: nat, m: Msg, s: State)
    requires n <= |fs| && Progress(fs, n, m, s)
    ensures Fits(fs, s)
  {}

  /** The encoding of entry n moves the decoder one entry on. */
  lemma {:induction false} SlotTurn(fs: seq<Field>, n: nat, m: Msg, s: State, tail: seq<byte>) returns (s1: State)
    requires n < |fs| == |m.slots| && WellFormedFields(fs) && Progress(fs, n, m, s)
    requires SlotOk(Wire, fs[n], m.slots[n]) && MemberOk(Wire, fs[n], m.which, m.union)
    requires EncSlot(fs[n], m.slots[n], m.which, m.union).Some?
    ensures Progress(fs, n + 1, m, s1) && Fits(fs, s1) && Fits(fs, s)
    ensures DecFields(fs, EncSlot(fs[n], m.slots[n], m.which, m.union).value + tail, s) == DecFields(fs, tail, s1)
    decreases fs, 1
  {
    hide WellFormedField, MemberOk, DecFields, Progress;
    var f, slot := fs[n], m.slots[n];
    ProgressShape(fs, n, m, s);
    assert [] + tail == tail;
    match f.htype {
      case Required => s1 := SingleTurn(fs, n, m, s, tail);
      case Optional =>
        if slot.has { s1 := SingleTurn(fs, n, m, s, tail); } else { s1 := s; SkippedTurn(fs, n, m, s); }
      case Repeated(max) =>
        EntriesStart(fs, n, m, s);
        assert slot.items[0..slot.count] == slot.items[..slot.count];
        s1 := EntriesTurn(fs, n, m, 0, s, tail);
        EntriesEnd(fs, n, m, s1);
      case Oneof =>
        if m.which == f.tag { s1 := UnionTurn(fs, n, m, s, tail); } else { s1 := s; SkippedTurn(fs, n, m, s); }
    }
    ProgressShape(fs, n + 1, m, s1);
  }

  lemma CountNext(fs: seq<Field>, n: nat, seen: Bitmap)
    requires n < |fs| && SeenExactly(seen, RequiredCount(fs[..n]))
    ensures SeenExactly(MarkSeen(seen, fs[n], RequiredCount(fs[..n])), RequiredCount(fs[..n + 1]))
  {
    hide SeenExactly, MarkSeen, RequiredCount;
    RequiredCountNext(fs, n);
    SeenNext(seen, fs[n], RequiredCount(fs[..n]));
  }

  /** One more entry agrees; a member selected there is the only one. */
  lemma PrefixNext(fs: seq<Field>, n: nat, a: Msg, b: Msg, b': Msg)
    requires n < |fs| && SamePrefix(fs, n, a, b) && |b'.slots| == |fs|
    requires forall i :: 0 <= i < n ==> b'.slots[i] == b.slots[i]
    requires SameSlot(fs[n], a.slots[n], b'.slots[n])
    requires if Selected(fs[n], a.which) then
               b'.which == a.which && SameItem(fs[n].ltype, a.union, b'.union) &&
               (forall i :: 0 <= i < n ==> !Selected(fs[i], a.which))
             else b'.which == b.which && b'.union == b.union
    ensures SamePrefix(fs, n + 1, a, b')
  {
    hide SameItem, SameSlot, Selected;
    forall i | 0 <= i < n + 1 ensures SameSlot(fs[i], a.slots[i], b'.slots[i]) && SameMember(fs[i], a, b') {
      if i < n {
        assert SameSlot(fs[i], a.slots[i], b.slots[i]) && SameMember(fs[i], a, b);
      }
    }
    if forall i :: 0 <= i < n + 1 ==> !Selected(fs[i], a.which) {
      assert !Selected(fs[n], a.which);
      forall i | 0 <= i < n ensures !Selected(fs[i], a.which) {}
    }
  }

  /** An entry that puts nothing on the wire leaves the initialised storage. */
  lemma SkippedTurn(fs: seq<Field>, n: nat, m: Msg, s: State)
    requires n < |fs| && |m.slots| == |fs| && Progress(fs, n, m, s)
    requires if fs[n].htype.Optional? then m.slots[n].Flagged? && !m.slots[n].has
             else fs[n].htype.Oneof? && m.which != fs[n].tag
    ensures Progress(fs, n + 1, m, s)
  {
    hide SameItem, FreshItem, SeenExactly, RequiredCount, SamePrefix;
    RequiredCountNext(fs, n);
    assert FreshSlot(fs[n], s.msg.slots[n]);
    PrefixNext(fs, n, m, s.msg, s.msg);
  }

  lemma SlotProgress(fs: seq<Field>, n: nat, m: Msg, s: State, b: Msg)
    requires n < |fs| && Progress(fs, n, m, s) && |b.slots| == |fs|
    requires b == s.msg.(slots := s.msg.slots[n := b.slots[n]]) && !fs[n].htype.Oneof?
    requires SameSlot(fs[n], m.slots[n], b.slots[n])
    ensures Progress(fs, n + 1, m, State(n, MarkSeen(s.seen, fs[n], RequiredCount(fs[..n])), b))
  {
    hide SameItem, SameSlot, FreshSlot, SeenExactly, RequiredCount, MarkSeen, SamePrefix;
    CountNext(fs, n, s.seen);
    PrefixNext(fs, n, m, s.msg, b);
  }

  lemma {:induction false} SingleTurn(fs: seq<Field>, n: nat, m: Msg, s: State, tail: seq<byte>) returns (s1: State)
    requires n < |fs| && WellFormedFields(fs) && Progress(fs, n, m, s) && |m.slots| == |fs|
    requires SlotOk(Wire, fs[n], m.slots[n])
    requires fs[n].htype.Required? || (fs[n].htype.Optional? && m.slots[n].has)
    requires EncSlot(fs[n], m.slots[n], m.which, m.union).Some?
    ensures Progress(fs, n + 1, m, s1) && Fits(fs, s1) && Fits(fs, s)
    ensures DecFields(fs, EncSlot(fs[n], m.slots[n], m.which, m.union).value + tail, s) == DecFields(fs, tail, s1)
    decreases fs, 0
  {
    hide WellFormedField, SlotOk, DecFields, DecField, EncItem, SameSlot, FreshSlot, SeenExactly, EncTag, RequiredCount;
    var f := fs[n];
    assert WellFormedField(f) && FreshSlot(f, s.msg.slots[n]);
    SlotShape(f, m.slots[n]);
    var b := SingleField(f, n, m.slots[n], s.msg, tail);
    FieldTurn(fs, n, EncItem(f.ltype, m.slots[n].item).value, tail, s, b);
    SlotProgress(fs, n, m, s, b);
    s1 := State(n, MarkSeen(s.seen, f, RequiredCount(fs[..n])), b);
  }

  lemma SlotShape(f: Field, slot: Slot)
    requires SlotOk(Wire, f, slot)
    ensures f.htype.Required? ==> slot.Single?
    ensures f.htype.Optional? ==> slot.Flagged?
  {}

  lemma {:induction false} UnionTurn(fs: seq<Field>, n: nat, m: Msg, s: State, tail: seq<byte>) returns (s1: State)
    requires n < |fs| && WellFormedFields(fs) && Progress(fs, n, m, s) && |m.slots| == |fs|
    requires MemberOk(Wire, fs[n], m.which, m.union) && fs[n].htype.Oneof? && m.which == fs[n].tag
    requires EncSlot(fs[n], m.slots[n], m.which, m.union).Some?
    ensures Progress(fs, n + 1, m, s1) && Fits(fs, s1) && Fits(fs, s)
    ensures DecFields(fs, EncSlot(fs[n], m.slots[n], m.which, m.union).value + tail, s) == DecFields(fs, tail, s1)
    decreases fs, 0
  {
    hide WellFormedField, DecFields, DecField, EncItem, SameSlot, SameItem, FreshSlot, SeenExactly, EncTag,
         RequiredCount, ItemOk, SamePrefix;
    var f := fs[n];
    assert WellFormedField(f);
    var b := UnionField(f, n, m.union, s.msg, tail);
    FieldTurn(fs, n, EncItem(f.ltype, m.union).value, tail, s, b);
    s1 := State(n, MarkSeen(s.seen, f, RequiredCount(fs[..n])), b);
    CountNext(fs, n, s.seen);
    forall i | 0 <= i < n ensures !Selected(fs[i], m.which) { assert fs[i].tag != f.tag; }
    SharedSame(f, m.slots[n], b.slots[n]);
    PrefixNext(fs, n, m, s.msg, b);
  }

  lemma SharedSame(f: Field, a: Slot, b: Slot)
    requires f.htype.Oneof?
    ensures SameSlot(f, a, b)
  {}

  // ---- Arrays: entry by entry.

  ghost predicate Entries(fs: seq<Field>, n: nat, m: Msg, c: nat, s: State)
    requires n < |fs|
  {
    && |m.slots| == |fs| && fs[n].htype.Repeated? && Fits(fs, s)
    && SamePrefix(fs, n, m, s.msg)
    && (forall i :: n < i < |fs| ==> FreshSlot(fs[i], s.msg.slots[i]))
    && SeenExactly(s.seen, RequiredCount(fs[..n]))
    && EntriesSame(fs[n], m.slots[n], c, s.msg.slots[n])
  }

  ghost predicate EntriesSame(f: Field, a: Slot, c: nat, b: Slot)
    requires f.htype.Repeated?
  {
    && a.Counted? && b.Counted? && b.count == c <= a.count <= f.htype.max && |b.items| == |a.items| == f.htype.max
    && (forall i :: 0 <= i < c ==> SameItem(f.ltype, a.items[i], b.items[i]))
    && (forall i :: c <= i < f.htype.max ==> ItemOk(Shape, f.ltype, b.items[i]))
  }

  lemma EntriesStart(fs: seq<Field>, n: nat, m: Msg, s: State)
    requires n < |fs| && |m.slots| == |fs| && Progress(fs, n, m, s) && fs[n].htype.Repeated? && m.slots[n].Counted?
    requires m.slots[n].count <= |m.slots[n].items| == fs[n].htype.max
    ensures Entries(fs, n, m, 0, s)
  {
    hide SameItem, ItemOk, SeenExactly, RequiredCount, SameSlot;
    assert FreshSlot(fs[n], s.msg.slots[n]);
  }

  lemma EntriesEnd(fs: seq<Field>, n: nat, m: Msg, s: State)
    requires n < |fs| && fs[n].htype.Repeated? && |m.slots| == |fs| && m.slots[n].Counted?
    requires Entries(fs, n, m, m.slots[n].count, s)
    ensures Progress(fs, n + 1, m, s)
  {
    hide SameItem, ItemOk, SeenExactly, RequiredCount, FreshSlot, SamePrefix;
    RequiredCountNext(fs, n);
    PrefixNext(fs, n, m, s.msg, s.msg);
  }

  lemma {:induction false} EntriesTurn(fs: seq<Field>, n: nat, m: Msg, c: nat, s: State, tail: seq<byte>)
    returns (s1: State)
    requires n < |fs| && WellFormedFields(fs) && Entries(fs, n, m, c, s) && SlotOk(Wire, fs[n], m.slots[n])
    requires EncEach(fs[n], m.slots[n].items[c..m.slots[n].count]).Some?
    ensures Entries(fs, n, m, m.slots[n].count, s1) && Fits(fs, s1)
    ensures DecFields(fs, EncEach(fs[n], m.slots[n].items[c..m.slots[n].count]).value + tail, s) ==
            DecFields(fs, tail, s1)
    decreases fs, 0, m.slots[n].count - c
  {
    hide SlotOk, DecFields, DecField, EncItem, EncTag, SamePrefix, SameItem, ItemOk, FreshSlot, SeenExactly,
         RequiredCount, EncEach, WellFormedField, EntriesSame;
    var f, slot := fs[n], m.slots[n];
    EntriesNow(f, slot, c, s.msg.slots[n]);
    if c == slot.count {
      s1 := s;
      assert slot.items[c..slot.count] == [];
      NoEntries(f);
      assert [] + tail == tail;
    } else {
      var items := slot.items[c..slot.count];
      assert items[1..] == slot.items[c + 1..slot.count] && items[0] == slot.items[c];
      EachFirst(f, items);
      var rest := EncEach(f, items[1..]).value;
      var body := EncItem(f.ltype, items[0]).value;
      assert WellFormedField(f);
      EntryOk(f, slot, c);
      var b := EntryField(f, n, items[0], c, s.msg, rest + tail);
      var head := EncTag(f.tag, WireTypeFor(f.ltype)) + body;
      assert EncEach(f, items).value + tail == head + (rest + tail) by { Regroup(head, rest, tail); }
      FieldTurn(fs, n, body, rest + tail, s, b);
      var t := State(n, MarkSeen(s.seen, f, RequiredCount(fs[..n])), b);
      EntriesNext(fs, n, m, c, s, b);
      s1 := EntriesTurn(fs, n, m, c + 1, t, tail);
    }
  }

  lemma Regroup<T>(a: seq<T>, b: seq<T>, c: seq<T>)
    ensures a + b + c == a + (b + c)
  {}

  lemma NoEntries(f: Field)
    ensures EncEach(f, []) == Some([])
  {}

  lemma EachFirst(f: Field, items: seq<Item>)
    requires items != [] && EncEach(f, items).Some?
    ensures EncItem(f.ltype, items[0]).Some? && EncEach(f, items[1..]).Some?
    ensures EncEach(f, items).value ==
            EncTag(f.tag, WireTypeFor(f.ltype)) + EncItem(f.ltype, items[0]).value + EncEach(f, items[1..]).value
  {
    hide EncItem, EncTag;
  }

  lemma EntriesNow(f: Field, a: Slot, c: nat, b: Slot)
    requires f.htype.Repeated? && EntriesSame(f, a, c, b)
    ensures a.Counted? && b.Counted? && b.count == c <= a.count <= f.htype.max
    ensures |b.items| == |a.items| == f.htype.max && (c < f.htype.max ==> ItemOk(Shape, f.ltype, b.items[c]))
  {}

  lemma EntryOk(f: Field, slot: Slot, c: nat)
    requires f.htype.Repeated? && SlotOk(Wire, f, slot) && c < slot.count
    ensures slot.Counted? && c < |slot.items| && ItemOk(Wire, f.ltype, slot.items[c])
  {}

  lemma EntriesNext(fs: seq<Field>, n: nat, m: Msg, c: nat, s: State, b: Msg)
    requires n < |fs| && Entries(fs, n, m, c, s) && |b.slots| == |fs| && c < m.slots[n].count
    requires b == s.msg.(slots := s.msg.slots[n := b.slots[n]])
    requires b.slots[n].Counted? && b.slots[n].count == c + 1 && |b.slots[n].items| == fs[n].htype.max
    requires b.slots[n].items == s.msg.slots[n].items[c := b.slots[n].items[c]]
    requires SameItem(fs[n].ltype, m.slots[n].items[c], b.slots[n].items[c])
    ensures Entries(fs, n, m, c + 1, State(n, MarkSeen(s.seen, fs[n], RequiredCount(fs[..n])), b))
  {
    hide SameItem, SameSlot, ItemOk, FreshSlot, SeenExactly, RequiredCount, SamePrefix;
    PrefixKept(fs, n, m, s.msg, b);
    assert fs[n].htype.Repeated?;
    assert MarkSeen(s.seen, fs[n], RequiredCount(fs[..n])) == s.seen;
  }

  lemma PrefixKept(fs: seq<Field>, n: nat, a: Msg, b: Msg, b': Msg)
    requires n <= |fs| && SamePrefix(fs, n, a, b) && |b'.slots| == |fs|
    requires forall i :: 0 <= i < n ==> b'.slots[i] == b.slots[i]
    requires b'.which == b.which && b'.union == b.union
    ensures SamePrefix(fs, n, a, b')
  {
    hide SameItem, SameSlot, Selected;
    forall i | 0 <= i < n ensures SameSlot(fs[i], a.slots[i], b'.slots[i]) && SameMember(fs[i], a, b') {
      assert SameSlot(fs[i], a.slots[i], b.slots[i]) && SameMember(fs[i], a, b);
    }
  }

  // ---- The results.

  /** Decoding an encoded message into any storage gives the message back and uses up exactly its bytes. */
  lemma RoundTrip(fs: seq<Field>, m: Msg, dest: Msg) returns (back: Msg)
    requires WellFormedFields(fs) && MsgOk(Wire, fs, m) && MsgOk(Shape, fs, dest)
    ensures EncMsg(fs, m).Some?
    ensures Decode(fs, EncMsg(fs, m).value, dest) == Some((back, [])) && SameMsg(fs, m, back)
  {
    hide EncMsg, DecMsg, SameMsg;
    DefaultSlotsFresh(fs, dest.slots);
    back := MsgRoundTrip(fs, m, DefaultMsg(fs, dest));
  }

  /** The same with unknown fields strewn between the entries. */
  lemma RoundTripAmidUnknown(fs: seq<Field>, m: Msg, dest: Msg, junk: seq<seq<byte>>) returns (back: Msg)
    requires WellFormedFields(fs) && MsgOk(Wire, fs, m) && MsgOk(Shape, fs, dest)
    requires |junk| == |fs| + 1 && AllUnknown(fs, junk)
    ensures var bytes := Amid(fs, m.slots, m.which, m.union, junk);
            bytes.Some? && Decode(fs, bytes.value, dest) == Some((back, [])) && SameMsg(fs, m, back)
  {
    hide EncMsg, DecMsg, SameMsg, Amid;
    DefaultSlotsFresh(fs, dest.slots);
    back := AmidRoundTrip(fs, m, DefaultMsg(fs, dest), junk);
  }

  /** A string that fills its array without a terminator is encoded in full but does not fit back. */
  lemma StringDecodes(size: nat, item: Item, dest: Item, tail: seq<byte>)
    requires ItemOk(Range, StringT(size), item) && ItemOk(Shape, StringT(size), dest) && size < TWO32
    ensures EncItem(StringT(size), item).Some?
    ensures DecItem(StringT(size), false, EncItem(StringT(size), item).value + tail, dest).Some? <==> 0 in item.buf
  {
    hide Delimited, DecDelimited;
    CStringShort(item.buf);
    CStringFull(item.buf);
    DelimitedRoundTrip(CString(item.buf), tail);
  }

  lemma {:induction false} CStringFull(buf: seq<byte>)
    ensures 0 !in buf ==> CString(buf) == buf
  {
    if buf == [] {
    } else {
      CStringFull(buf[1..]);
    }
  }
}
