/** The field iterator the encoder and the decoder walk descriptors with. */
module PbIterator {
  import opened Common
  import opened PbMessage

  class FieldIter {
    const fields: seq<Field>
    var pos: nat
    var requiredIndex: nat

    ghost predicate Valid()
      reads this
    {
      (fields == [] ==> pos == 0) && (fields != [] ==> pos < |fields|) && requiredIndex == RequiredCount(fields[..pos])
    }

    constructor (fields: seq<Field>)
      ensures Valid() && this.fields == fields && pos == 0
    {
      this.fields := fields;
      pos, requiredIndex := 0, 0;
    }

    /** Steps to the next entry; false when that wrapped back to the first one. */
    method Next() returns (more: bool)
      requires Valid()
      modifies this
      ensures Valid() && more == (old(pos) + 1 < |fields|)
      ensures fields != [] ==> pos == NextPos(fields, old(pos))
    {
      if fields == [] { return false; }
      if pos + 1 == |fields| {
        pos, requiredIndex := 0, 0;
        return false;
      }
      RequiredCountNext(fields, pos);
      if fields[pos].htype.Required? { requiredIndex := requiredIndex + 1; }
      pos := pos + 1;
      return true;
    }

    /** Searches on from the current entry, wrapping around once. A failed search ends where it began. */
    method Seek(tag: nat) returns (found: bool)
      requires Valid()
      modifies this
      ensures Valid()
      ensures fields != [] ==> found == Find(fields, old(pos), tag).Some?
      ensures fields != [] && found ==> Find(fields, old(pos), tag) == Some(pos)
      ensures fields == [] ==> found == (tag == 0)
      ensures !found ==> pos == old(pos)
    {
      if fields == [] {
        // only the terminator to look at, whose tag is 0
        return tag == 0;
      }
      var start := pos;
      var looked := 0;
      while true
        invariant Valid() && 0 <= looked < |fields|
        invariant pos == if start + looked < |fields| then start + looked else start + looked - |fields|
        invariant Find(fields, start, tag) == FindWithin(fields, pos, |fields| - looked, tag)
        decreases |fields| - looked
      {
        if fields[pos].tag == tag { return true; }
        var _ := Next();
        looked := looked + 1;
        if pos == start { return false; }
      }
    }
  }

  lemma {:induction false} RequiredCountNext(fs: seq<Field>, i: nat)
    requires i < |fs|
    ensures RequiredCount(fs[..i + 1]) == RequiredCount(fs[..i]) + if fs[i].htype.Required? then 1 else 0
  {
    if i == 0 {
      assert fs[..1] == [fs[0]] && fs[..0] == [];
    } else {
      assert fs[..i + 1][1..] == fs[1..][..i] && fs[..i][1..] == fs[1..][..i - 1];
      RequiredCountNext(fs[1..], i - 1);
    }
  }
}
