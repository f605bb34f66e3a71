/** Counting the used slots of a memory block. */
module SlotCount {

  function Count(used: seq<bool>, lo: nat, hi: nat): (n: nat)
    requires lo <= hi <= |used|
    ensures n <= hi - lo
  {
    if lo == hi then 0 else Count(used, lo, hi - 1) + if used[hi - 1] then 1 else 0
  }

  lemma {:induction false} CountSame(used: seq<bool>, used': seq<bool>, lo: nat, hi: nat)
    requires lo <= hi <= |used| && hi <= |used'|
    requires forall i :: lo <= i < hi ==> used[i] == used'[i]
    ensures Count(used, lo, hi) == Count(used', lo, hi)
  {
    if lo < hi {
      CountSame(used, used', lo, hi - 1);
    }
  }

  lemma {:induction false} CountSet(used: seq<bool>, lo: nat, hi: nat, i: nat, v: bool)
    requires lo <= i < hi <= |used| && used[i] != v
    ensures Count(used[i := v], lo, hi) == Count(used, lo, hi) + if v then 1 else -1
  {
    if i == hi - 1 {
      CountSame(used, used[i := v], lo, hi - 1);
    } else {
      CountSet(used, lo, hi - 1, i, v);
    }
  }

  /** A block is full, or empty, exactly when its count says so. */
  lemma {:induction false} CountExtremes(used: seq<bool>, lo: nat, hi: nat)
    requires lo <= hi <= |used|
    ensures Count(used, lo, hi) == 0 <==> forall i :: lo <= i < hi ==> !used[i]
    ensures Count(used, lo, hi) == hi - lo <==> forall i :: lo <= i < hi ==> used[i]
  {
    if lo < hi {
      CountExtremes(used, lo, hi - 1);
    }
  }
}
