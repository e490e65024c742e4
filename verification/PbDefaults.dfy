/** Zeroed and default storage. */
module PbDefaults {
  import opened PbMessage

  // ---- Setting defaults keeps the shape.

  lemma {:induction false} DefaultShape(t: LType, item: Item)
    requires ItemOk(Shape, t, item)
    ensures ItemOk(Shape, t, DefaultItem(t, item))
    decreases t, 0
  {
    if t.MessageT? { MsgDefaultShape(t.fields, item.msg); }
  }

  lemma {:induction false} MsgDefaultShape(fields: seq<Field>, m: Msg)
    requires MsgOk(Shape, fields, m)
    ensures MsgOk(Shape, fields, DefaultMsg(fields, m))
    decreases fields
  {
    forall i | 0 <= i < |fields| ensures SlotOk(Shape, fields[i], DefaultSlots(fields, m.slots)[i]) {
      DefaultAt(fields, m.slots, i);
      SlotDefaultShape(fields[i], m.slots[i]);
    }
  }

  lemma {:induction false} SlotDefaultShape(f: Field, slot: Slot)
    requires SlotOk(Shape, f, slot)
    ensures SlotOk(Shape, f, DefaultSlot(f, slot))
    decreases f, 0
  {
    if slot.Single? || slot.Flagged? { DefaultShape(f.ltype, slot.item); }
  }

  lemma {:induction false} DefaultAt(fs: seq<Field>, slots: seq<Slot>, i: nat)
    requires i < |fs| && i < |slots|
    ensures DefaultSlots(fs, slots)[i] == DefaultSlot(fs[i], slots[i])
  {
    if i == 0 {
    } else {
      DefaultAt(fs[1..], slots[1..], i - 1);
    }
  }

  // ---- Zeroed storage has it, and is its own default.

  lemma {:induction false} ZeroAt(fs: seq<Field>, i: nat)
    requires i < |fs|
    ensures |ZeroSlots(fs)| == |fs| && ZeroSlots(fs)[i] == ZeroSlot(fs[i])
  {
    if i > 0 { ZeroAt(fs[1..], i - 1); } else if |fs| > 1 { ZeroAt(fs[1..], 0); }
  }

  lemma {:induction false} ZeroShape(t: LType)
    ensures ItemOk(Shape, t, ZeroItem(t))
    decreases t
  {
    if t.MessageT? {
      forall i | 0 <= i < |t.fields| ensures |ZeroSlots(t.fields)| == |t.fields| &&
                                             SlotOk(Shape, t.fields[i], ZeroSlots(t.fields)[i]) {
        ZeroAt(t.fields, i);
        ZeroShape(t.fields[i].ltype);
      }
    }
  }

  lemma {:induction false} DefaultOfZero(t: LType)
    ensures DefaultItem(t, ZeroItem(t)) == ZeroItem(t)
    decreases t, 0
  {
    if t.MessageT? { DefaultOfZeros(t.fields); }
  }

  lemma {:induction false} DefaultOfZeroSlot(f: Field)
    ensures DefaultSlot(f, ZeroSlot(f)) == ZeroSlot(f)
    decreases f, 0
  {
    DefaultOfZero(f.ltype);
  }

  lemma {:induction false} DefaultOfZeros(fs: seq<Field>)
    ensures DefaultSlots(fs, ZeroSlots(fs)) == ZeroSlots(fs)
    decreases fs
  {
    if fs == [] {
    } else {
      DefaultOfZeroSlot(fs[0]);
      DefaultOfZeros(fs[1..]);
      assert ZeroSlots(fs)[1..] == ZeroSlots(fs[1..]);
    }
  }
}
