/** Row selection by a boolean mask, as pandas does it with `frame[mask]` and `dropna`:
    the positions of the kept rows, in increasing order. */
module Subsequences {

  /** The positions of `s` whose element satisfies `keep`, in increasing order. */
  function Indices<T>(s: seq<T>, keep: T -> bool): (r: seq<nat>)
    ensures forall k :: 0 <= k < |r| ==> r[k] < |s| && keep(s[r[k]])
    ensures forall i :: 0 <= i < |s| && keep(s[i]) ==> i in r
    ensures forall j, k :: 0 <= j < k < |r| ==> r[j] < r[k]
  {
    if |s| == 0 then []
    else
      var front := Indices(s[..|s| - 1], keep);
      assert forall k :: 0 <= k < |front| ==> s[front[k]] == s[..|s| - 1][front[k]];
      if keep(s[|s| - 1]) then front + [|s| - 1] else front
  }

  /** A strictly increasing sequence of positions is no longer than the range they lie in. */
  lemma {:induction false} IncreasingBounded(r: seq<nat>, n: nat)
    requires forall k :: 0 <= k < |r| ==> r[k] < n
    requires forall j, k :: 0 <= j < k < |r| ==> r[j] < r[k]
    ensures |r| <= n
  {
    if |r| > 0 {
      var front := r[..|r| - 1];
      assert forall k :: 0 <= k < |front| ==> front[k] < r[|r| - 1];
      IncreasingBounded(front, r[|r| - 1]);
    }
  }

  /** A strictly increasing sequence of `n` positions below `n` holds every position. */
  lemma {:induction false} IndicesCover(idx: seq<nat>, n: nat, i: nat)
    requires |idx| == n && i < n
    requires forall k :: 0 <= k < |idx| ==> idx[k] < n
    requires forall j, k :: 0 <= j < k < |idx| ==> idx[j] < idx[k]
    ensures i in idx
  {
    var last := idx[n - 1];
    var front := idx[..n - 1];
    assert forall k :: 0 <= k < |idx| ==> idx[k] < last + 1;
    IncreasingBounded(idx, last + 1);
    if i != n - 1 {
      assert forall k :: 0 <= k < |front| ==> front[k] < n - 1;
      IndicesCover(front, n - 1, i);
    }
  }

  /** When every element passes the mask, every position is kept. */
  lemma {:induction false} AllIndices<T>(s: seq<T>, keep: T -> bool)
    requires forall i :: 0 <= i < |s| ==> keep(s[i])
    ensures |Indices(s, keep)| == |s|
  {
    if |s| > 0 {
      AllIndices(s[..|s| - 1], keep);
    }
  }
}
