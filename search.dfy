// The two searches a backtracking matcher makes over its attempts: the
// leftmost start position that succeeds, and, for a greedy `*`, the longest
// stretch after which the rest of the expression succeeds. Both are stated
// over the sequence of outcomes of every attempt.
module Search {
  import opened Outcomes

  /** The first index from `i` at which an attempt succeeded. */
  function FirstSome<T>(xs: seq<Option<T>>, i: nat): (r: Option<nat>)
    requires i <= |xs|
    ensures r.Some? ==> i <= r.value < |xs|
    decreases |xs| - i
  {
    if i == |xs| then None
    else if xs[i].Some? then Some(i)
    else FirstSome(xs, i + 1)
  }

  /** `FirstSome` stops at the first success from `i`, and finds nothing
      only when every attempt from `i` failed. */
  lemma {:induction false} FirstSomeSpec<T>(xs: seq<Option<T>>, i: nat)
    requires i <= |xs|
    ensures FirstSome(xs, i).Some? ==>
      xs[FirstSome(xs, i).value].Some? && forall p | i <= p < FirstSome(xs, i).value :: xs[p].None?
    ensures FirstSome(xs, i).None? ==> forall p | i <= p < |xs| :: xs[p].None?
    decreases |xs| - i
  {
    if i < |xs| && xs[i].None? {
      FirstSomeSpec(xs, i + 1);
    }
  }

  /** The last index in `[lo, hi]` at which an attempt succeeded. */
  function LastSome<T>(xs: seq<Option<T>>, lo: nat, hi: nat): (r: Option<nat>)
    requires lo <= hi < |xs|
    ensures r.Some? ==> lo <= r.value <= hi
    decreases hi - lo
  {
    if xs[hi].Some? then Some(hi)
    else if hi == lo then None
    else LastSome(xs, lo, hi - 1)
  }

  /** `LastSome` stops at the last success in `[lo, hi]`, and finds nothing
      only when every attempt there failed. */
  lemma {:induction false} LastSomeSpec<T>(xs: seq<Option<T>>, lo: nat, hi: nat)
    requires lo <= hi < |xs|
    ensures LastSome(xs, lo, hi).Some? ==>
      xs[LastSome(xs, lo, hi).value].Some? && forall q | LastSome(xs, lo, hi).value < q <= hi :: xs[q].None?
    ensures LastSome(xs, lo, hi).None? ==> forall q | lo <= q <= hi :: xs[q].None?
    decreases hi - lo
  {
    if xs[hi].None? && hi != lo {
      LastSomeSpec(xs, lo, hi - 1);
    }
  }
}
