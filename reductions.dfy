/** The min/max reductions over the frame axis. Each Halide reduction starts
    from a pure definition (the initial value) and folds an update over
    `RDom(0, 7)`; here that is a left fold over the first `n` values. */
module Reductions {

  function Min(a: real, b: real): real
  {
    if a < b then a else b
  }

  function Max(a: real, b: real): real
  {
    if a > b then a else b
  }

  /** `init` folded with `Min` over `v[0], ..., v[n-1]`: a lower bound of
      every folded value, and either `init` or one of them. */
  function RunningMin(init: real, v: seq<real>, n: nat): (m: real)
    requires n <= |v|
    ensures m <= init
    ensures forall k :: 0 <= k < n ==> m <= v[k]
    ensures m == init || exists k :: 0 <= k < n && m == v[k]
  {
    if n == 0 then init else Min(RunningMin(init, v, n - 1), v[n - 1])
  }

  /** `init` folded with `Max` over `v[0], ..., v[n-1]`: an upper bound of
      every folded value, and either `init` or one of them. */
  function RunningMax(init: real, v: seq<real>, n: nat): (m: real)
    requires n <= |v|
    ensures m >= init
    ensures forall k :: 0 <= k < n ==> m >= v[k]
    ensures m == init || exists k :: 0 <= k < n && m == v[k]
  {
    if n == 0 then init else Max(RunningMax(init, v, n - 1), v[n - 1])
  }

  /** When no folded value exceeds the initial value, the running minimum
      of a non-empty range is one of the values: the initial value never
      shows through. */
  lemma RunningMinAttained(init: real, v: seq<real>, n: nat)
    requires 0 < n <= |v|
    requires forall j :: 0 <= j < n ==> v[j] <= init
    ensures exists k :: 0 <= k < n && RunningMin(init, v, n) == v[k]
  {
    if RunningMin(init, v, n) == init {
      assert RunningMin(init, v, n) == v[0];
    }
  }

  /** Dually, the running maximum of a non-empty range of values none of
      which is below the initial value is one of the values. */
  lemma RunningMaxAttained(init: real, v: seq<real>, n: nat)
    requires 0 < n <= |v|
    requires forall j :: 0 <= j < n ==> v[j] >= init
    ensures exists k :: 0 <= k < n && RunningMax(init, v, n) == v[k]
  {
    if RunningMax(init, v, n) == init {
      assert RunningMax(init, v, n) == v[0];
    }
  }
}
