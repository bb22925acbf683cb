/**
 The shift counts the range checks let through. insert, remove and contains
 compute `1 << (i - 1)` on an `int` once i has passed the range check 1..maxElems,
 and getIntegerElements computes `1 << i` for i in 0..maxElems - 1. These lemmas
 state, in terms of the class model's own range check and `Contains`, which of
 those shifts have a value.
 */
module ShiftRange {
  import opened IntShift
  import opened TinyBitSets

  /** insert, remove and contains shift by i - 1 for each i that passes the range check,
      and getIntegerElements by every i in 0..maxElems - 1. All of these shifts have a
      value iff maxElems is at most 32. */
  lemma ShiftCountsDefined(maxElems: int)
    ensures (forall i :: InRange(i, maxElems) ==> ShiftDefined(i - 1)) <==> maxElems <= 32
    ensures (forall i :: 0 <= i < maxElems ==> ShiftDefined(i)) <==> maxElems <= 32
  {
    if maxElems > 32 {
      assert InRange(33, maxElems) && !ShiftDefined(33 - 1);
      assert !ShiftDefined(32);
    }
  }

  /** At capacity 33..64, contains(i) for each i in 33..maxElems passes the range check
      and then computes `1 << (i - 1)`, a shift by 32 or more, which has no value. */
  lemma ContainsShiftUndefined(t: TinyBitSet)
    requires t.Valid() && t.maxElems > 32
    ensures t.Contains(33).Ok?
    ensures forall i :: 33 <= i <= t.maxElems ==> t.Contains(i).Ok? && !ShiftDefined(i - 1)
  {
    forall i | 33 <= i <= t.maxElems
      ensures t.Contains(i).Ok? && !ShiftDefined(i - 1)
    {
      assert InRange(i, t.maxElems);
    }
  }
}
