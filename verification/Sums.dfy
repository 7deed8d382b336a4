/** Sums over the threads of a system. */
module Sums {

  function Sum<T>(ts: seq<T>, f: T -> int): int {
    if |ts| == 0 then 0 else f(ts[0]) + Sum(ts[1..], f)
  }

  /** Changing one thread changes a sum by the difference. */
  lemma {:induction false} SumUpdate<T>(ts: seq<T>, i: nat, t: T, f: T -> int)
    requires i < |ts|
    ensures Sum(ts[i := t], f) == Sum(ts, f) - f(ts[i]) + f(t)
  {
    var us := ts[i := t];
    if i == 0 {
      assert us[1..] == ts[1..];
    } else {
      assert us[1..] == ts[1..][i - 1 := t];
      SumUpdate(ts[1..], i - 1, t, f);
    }
  }

  lemma {:induction false} SumBounds<T>(ts: seq<T>, f: T -> int, lo: int, hi: int)
    requires forall i :: 0 <= i < |ts| ==> lo <= f(ts[i]) <= hi
    ensures lo * |ts| <= Sum(ts, f) <= hi * |ts|
  {
    if |ts| > 0 {
      SumBounds(ts[1..], f, lo, hi);
    }
  }
}
