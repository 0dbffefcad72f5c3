/** The cursor over the fields of a descriptor, which wraps around at the end. */
module PbFields {
  import opened PbMessages

  function RequiredBefore(fields: seq<Field>, k: nat): (n: nat)
    requires k <= |fields|
    ensures n <= k
  {
    if k == 0 then 0 else RequiredBefore(fields, k - 1) + if fields[k-1].rule.Required? then 1 else 0
  }

  lemma {:induction false} RequiredGrows(fields: seq<Field>, i: nat, k: nat)
    requires i < k <= |fields|
    ensures RequiredBefore(fields, i) + (if fields[i].rule.Required? then 1 else 0) <= RequiredBefore(fields, k)
  {
    if i + 1 < k {
      RequiredGrows(fields, i, k - 1);
    }
  }

  /** Every count up to the number of required fields is that before one of them. */
  lemma {:induction false} RequiredAt(fields: seq<Field>, k: nat, c: nat) returns (i: nat)
    requires k <= |fields| && c < RequiredBefore(fields, k)
    ensures i < k && fields[i].rule.Required? && RequiredBefore(fields, i) == c
  {
    i := k - 1;
    if !(fields[k-1].rule.Required? && RequiredBefore(fields, k - 1) == c) {
      i := RequiredAt(fields, k - 1, c);
    }
  }

  class FieldIter {
    const fields: seq<Field>
    var pos: nat
    var requiredFieldIndex: nat

    ghost predicate Valid()
      reads this
    {
      && (if fields == [] then pos == 0 else pos < |fields|)
      && requiredFieldIndex == RequiredBefore(fields, pos)
    }

    constructor (fields: seq<Field>)
      ensures Valid() && this.fields == fields && pos == 0
    {
      this.fields := fields;
      pos, requiredFieldIndex := 0, 0;
    }

    /** False when there is no field left; the cursor is then at the first one again. */
    method Next() returns (ok: bool)
      requires Valid()
      modifies this
      ensures Valid()
      ensures ok <==> old(pos) + 1 < |fields|
      ensures pos == if ok then old(pos) + 1 else 0
    {
      if fields == [] {
        return false;
      }
      if pos + 1 == |fields| {
        pos, requiredFieldIndex := 0, 0;
        return false;
      }
      if fields[pos].rule.Required? {
        requiredFieldIndex := requiredFieldIndex + 1;
      }
      pos := pos + 1;
      return true;
    }

    /** Searches from the current field on, around to it again. */
    method Find(tag: nat) returns (found: bool)
      requires Valid()
      modifies this
      ensures Valid()
      ensures fields != [] ==> (found <==> exists k | 0 <= k < |fields| :: fields[k].tag == tag)
      ensures fields != [] && found ==> fields[pos].tag == tag
      ensures fields == [] ==> (found <==> tag == 0)
      ensures !found ==> pos == old(pos)
    {
      if fields == [] {
        return tag == 0;
      }
      var start := pos;
      var more := true;
      ghost var wrapped := false;
      while more
        invariant Valid()
        invariant forall k | start <= k < (if wrapped then |fields| else pos) :: fields[k].tag != tag
        invariant wrapped ==> pos <= start && forall k | 0 <= k < pos :: fields[k].tag != tag
        invariant !wrapped ==> start <= pos && (more || pos == start)
        invariant more ==> !wrapped || pos < start
        invariant !more ==> wrapped && pos == start
        decreases !wrapped, |fields| - pos, more
      {
        if fields[pos].tag == tag {
          return true;
        }
        var ok := Next();
        if !ok {
          wrapped := true;
        }
        more := pos != start;
      }
      return false;
    }
  }
}
