/** The coerce-then-drop cleaning of a two-column (date, price) frame: both columns are
    coerced with "unparseable becomes missing", rows with a missing field are dropped,
    and the survivors are renumbered from 0 in their original order. */
module Cleaning {
  import opened Wrappers
  import opened Frames
  import opened Subsequences

  /** A row survives `dropna(subset=["ds", "y"])` after coercion. */
  predicate Usable(p: Parsers, row: Pair)
  {
    ToDatetime(p, row.date).Some? && ToNumeric(p, row.price).Some?
  }

  /** The mask `Usable` as a function value, for `Indices`. */
  function UsableMask(p: Parsers): Pair -> bool
  {
    row => Usable(p, row)
  }

  /** The cleaned row made from a usable one. */
  function Coerce(p: Parsers, row: Pair): Observation
    requires Usable(p, row)
  {
    Observation(ToDatetime(p, row.date).value, ToNumeric(p, row.price).value)
  }

  /** Coerce both columns, drop the rows with a missing field, renumber from 0. */
  function Clean(p: Parsers, rows: seq<Pair>): (r: seq<Observation>)
    ensures |r| <= |rows|
  {
    if |rows| == 0 then []
    else
      var front := Clean(p, rows[..|rows| - 1]);
      var last := rows[|rows| - 1];
      if Usable(p, last) then front + [Coerce(p, last)] else front
  }

  /** The frame as it stands after a cleaning pass: parsed timestamps and numbers. */
  function AsPairs(obs: seq<Observation>): (r: seq<Pair>)
    ensures |r| == |obs|
    ensures forall k :: 0 <= k < |obs| ==> r[k] == Pair(Stamp(obs[k].ds), Number(obs[k].y))
  {
    seq(|obs|, k requires 0 <= k < |obs| => Pair(Stamp(obs[k].ds), Number(obs[k].y)))
  }

  /** Cleaning keeps exactly the rows whose date and price both parse, in their original
      order, each coerced: the k-th output row comes from the k-th usable input row. */
  lemma {:induction false} CleanKeepsExactlyUsable(p: Parsers, rows: seq<Pair>)
    ensures |Clean(p, rows)| == |Indices(rows, UsableMask(p))|
    ensures forall k :: 0 <= k < |Clean(p, rows)| ==>
      var i := Indices(rows, UsableMask(p))[k];
      Usable(p, rows[i]) && Clean(p, rows)[k] == Coerce(p, rows[i])
  {
    if |rows| > 0 {
      var front := rows[..|rows| - 1];
      CleanKeepsExactlyUsable(p, front);
      var idx := Indices(front, UsableMask(p));
      assert forall k :: 0 <= k < |idx| ==> rows[idx[k]] == front[idx[k]];
    }
  }

  /** Every usable input row contributes a row to the output, and nothing else does. */
  lemma {:induction false} CleanDropsOnlyUnusable(p: Parsers, rows: seq<Pair>)
    ensures |Clean(p, rows)| == |rows| <==> forall i :: 0 <= i < |rows| ==> Usable(p, rows[i])
  {
    var idx := Indices(rows, UsableMask(p));
    CleanKeepsExactlyUsable(p, rows);
    if |Clean(p, rows)| == |rows| {
      forall i | 0 <= i < |rows| ensures Usable(p, rows[i]) {
        IndicesCover(idx, |rows|, i);
        var k :| 0 <= k < |idx| && idx[k] == i;
        assert UsableMask(p)(rows[idx[k]]);
      }
    } else {
      assert |idx| < |rows|;
      if forall i :: 0 <= i < |rows| ==> Usable(p, rows[i]) {
        AllIndices(rows, UsableMask(p));
        assert false;
      }
    }
  }

  /** A frame that already holds parsed timestamps and numbers passes cleaning unchanged. */
  lemma {:induction false} CleanOfParsed(p: Parsers, obs: seq<Observation>)
    ensures Clean(p, AsPairs(obs)) == obs
  {
    if |obs| > 0 {
      var front := obs[..|obs| - 1];
      CleanOfParsed(p, front);
      assert AsPairs(obs)[..|obs| - 1] == AsPairs(front);
    }
  }

  /** Cleaning is idempotent: the second pass over live data changes nothing. */
  lemma CleanIdempotent(p: Parsers, rows: seq<Pair>)
    ensures Clean(p, AsPairs(Clean(p, rows))) == Clean(p, rows)
  {
    CleanOfParsed(p, Clean(p, rows));
  }
}
