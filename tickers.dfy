/** The ticker list offered for selection (`data["Ticker"].unique()`) and the per-ticker
    filter and projection (`data[data["Ticker"] == t][["Date", "Close"]]`). */
module Tickers {
  import opened Wrappers
  import opened Frames
  import opened Subsequences

  /** The `Ticker` column of a table. */
  function TickerColumn(rows: seq<Row>): (r: seq<Cell>)
    ensures |r| == |rows|
    ensures forall i :: 0 <= i < |rows| ==> r[i] == Get(rows[i], "Ticker")
  {
    seq(|rows|, i requires 0 <= i < |rows| => Get(rows[i], "Ticker"))
  }

  /** The position of the first occurrence of `x` in `s`. */
  function FirstIndex(s: seq<Cell>, x: Cell): (i: nat)
    requires x in s
    ensures i < |s| && s[i] == x && x !in s[..i]
  {
    if s[0] == x then 0
    else
      1 + FirstIndex(s[1..], x)
  }

  /** The first occurrence of `x` is the one with no earlier `x`. */
  lemma FirstIndexUnique(s: seq<Cell>, x: Cell, i: nat)
    requires i < |s| && s[i] == x && x !in s[..i]
    ensures FirstIndex(s, x) == i
  {
    var f := FirstIndex(s, x);
    assert forall j :: 0 <= j < i ==> s[..i][j] == s[j];
    assert forall j :: 0 <= j < f ==> s[..f][j] == s[j];
  }

  ghost predicate Distinct<T>(r: seq<T>)
  {
    forall j, k :: 0 <= j < k < |r| ==> r[j] != r[k]
  }

  /** The distinct values of `s`, in order of first appearance (pandas' `unique`, which counts
      all missing values as one). */
  function Unique(s: seq<Cell>): (r: seq<Cell>)
    ensures forall x :: x in r <==> x in s
    ensures Distinct(r)
    ensures forall j, k :: 0 <= j < k < |r| ==> FirstIndex(s, r[j]) < FirstIndex(s, r[k])
  {
    if |s| == 0 then []
    else
      var front := s[..|s| - 1];
      var last := s[|s| - 1];
      var u := Unique(front);
      forall x | x in u ensures FirstIndex(s, x) == FirstIndex(front, x) {
        var i := FirstIndex(front, x);
        assert s[..i] == front[..i];
        FirstIndexUnique(s, x, i);
      }
      if last in u then
        assert forall x :: x in s ==> x in front || x == last;
        u
      else
        assert front == s[..|s| - 1];
        FirstIndexUnique(s, last, |s| - 1);
        u + [last]
  }

  /** `r` lists values of `s` ordered by where each first appears in `s`. */
  ghost predicate InFirstAppearanceOrder(s: seq<Cell>, r: seq<Cell>)
  {
    && (forall x :: x in r ==> x in s)
    && forall j, k :: 0 <= j < k < |r| ==> FirstIndex(s, r[j]) < FirstIndex(s, r[k])
  }

  /** Two listings of the same values, both in first-appearance order, are the same listing. */
  lemma {:induction false} FirstAppearanceOrderUnique(s: seq<Cell>, r1: seq<Cell>, r2: seq<Cell>)
    requires forall x :: x in r1 <==> x in r2
    requires InFirstAppearanceOrder(s, r1) && InFirstAppearanceOrder(s, r2)
    ensures r1 == r2
  {
    assert |r1| == 0 <==> |r2| == 0 by {
      if |r1| > 0 { assert r1[0] in r2; }
      if |r2| > 0 { assert r2[0] in r1; }
    }
    if |r1| > 0 {
      SameHead(s, r1, r2);
      var t1, t2 := r1[1..], r2[1..];
      forall x | x in t1 ensures x in t2 {
        var a :| 0 <= a < |t1| && t1[a] == x;
        assert FirstIndex(s, r1[0]) < FirstIndex(s, r1[a + 1]);
        assert x in r2 && r2 == [r2[0]] + t2;
      }
      forall x | x in t2 ensures x in t1 {
        var b :| 0 <= b < |t2| && t2[b] == x;
        assert FirstIndex(s, r2[0]) < FirstIndex(s, r2[b + 1]);
        assert x in r1 && r1 == [r1[0]] + t1;
      }
      FirstAppearanceOrderUnique(s, t1, t2);
      assert r1 == [r1[0]] + t1 && r2 == [r2[0]] + t2;
    }
  }

  /** Two non-empty listings of the same values in first-appearance order start alike. */
  lemma SameHead(s: seq<Cell>, r1: seq<Cell>, r2: seq<Cell>)
    requires |r1| > 0 && |r2| > 0
    requires forall x :: x in r1 <==> x in r2
    requires InFirstAppearanceOrder(s, r1) && InFirstAppearanceOrder(s, r2)
    ensures r1[0] == r2[0]
  {
    var h1, h2 := r1[0], r2[0];
    assert forall j :: 0 <= j < |r1| ==> FirstIndex(s, h1) <= FirstIndex(s, r1[j]);
    assert forall j :: 0 <= j < |r2| ==> FirstIndex(s, h2) <= FirstIndex(s, r2[j]);
    assert h2 in r1 && h1 in r2;
    assert FirstIndex(s, h1) == FirstIndex(s, h2);
  }

  /** The ticker list is determined by its two promises: it holds exactly the values of the
      column, each listed where it first appears. */
  lemma UniqueCharacterized(s: seq<Cell>, r: seq<Cell>)
    requires forall x :: x in r <==> x in s
    requires InFirstAppearanceOrder(s, r)
    ensures r == Unique(s)
  {
    FirstAppearanceOrderUnique(s, r, Unique(s));
  }

  /** The ticker the selection box returns: the picked option, and nothing when there are no
      options. A selection box only ever returns a listed option; the first option for a pick
      outside the list only makes this function total in its abstract `pick`. */
  function Selected(tickers: seq<Cell>, pick: nat): (r: Option<Cell>)
    ensures r.Some? <==> |tickers| > 0
    ensures r.Some? ==> r.value in tickers
  {
    if |tickers| == 0 then None
    else if pick < |tickers| then Some(tickers[pick])
    else Some(tickers[0])
  }

  /** `data["Ticker"] == selected` for one row. A missing value equals nothing, itself included,
      and comparing with no selection is false everywhere. */
  predicate Matches(selected: Option<Cell>, row: Row)
  {
    selected.Some? && selected.value != Missing && Get(row, "Ticker") == selected.value
  }

  function MatchMask(selected: Option<Cell>): Row -> bool
  {
    row => Matches(selected, row)
  }

  /** The `[["Date", "Close"]]` projection of one row. */
  function Project(row: Row): Pair
  {
    Pair(Get(row, "Date"), Get(row, "Close"))
  }

  /** With no selection, or with the missing value selected, the filter keeps no row. */
  lemma {:induction false} NothingSelectsNoRows(rows: seq<Row>, selected: Option<Cell>)
    requires selected.None? || selected.value == Missing
    ensures SelectTicker(rows, selected) == []
  {
    if |rows| > 0 {
      NothingSelectsNoRows(rows[..|rows| - 1], selected);
    }
  }

  /** The rows of the selected ticker, projected to Date and Close. */
  function SelectTicker(rows: seq<Row>, selected: Option<Cell>): (r: seq<Pair>)
    ensures |r| <= |rows|
  {
    if |rows| == 0 then []
    else
      var front := SelectTicker(rows[..|rows| - 1], selected);
      var last := rows[|rows| - 1];
      if Matches(selected, last) then front + [Project(last)] else front
  }

  /** The whole table projected to Date and Close (the two-column upload layout). */
  function ProjectAll(rows: seq<Row>): (r: seq<Pair>)
    ensures |r| == |rows|
    ensures forall i :: 0 <= i < |rows| ==> r[i] == Project(rows[i])
  {
    seq(|rows|, i requires 0 <= i < |rows| => Project(rows[i]))
  }

  /** Filtering keeps exactly the rows of the selected ticker, in their original order, each
      reduced to Date and Close: the k-th output row is the k-th matching input row. */
  lemma {:induction false} SelectTickerExact(rows: seq<Row>, selected: Option<Cell>)
    ensures |SelectTicker(rows, selected)| == |Indices(rows, MatchMask(selected))|
    ensures forall k :: 0 <= k < |SelectTicker(rows, selected)| ==>
      var i := Indices(rows, MatchMask(selected))[k];
      Matches(selected, rows[i]) && SelectTicker(rows, selected)[k] == Project(rows[i])
  {
    if |rows| > 0 {
      var front := rows[..|rows| - 1];
      SelectTickerExact(front, selected);
      var idx := Indices(front, MatchMask(selected));
      assert forall k :: 0 <= k < |idx| ==> rows[idx[k]] == front[idx[k]];
    }
  }

  /** A ticker offered for selection occurs in the data, so unless it is the missing value its
      series starts out non-empty. */
  lemma SelectedTickerHasRows(rows: seq<Row>, pick: nat)
    requires var sel := Selected(Unique(TickerColumn(rows)), pick); sel.Some? && sel.value != Missing
    ensures |SelectTicker(rows, Selected(Unique(TickerColumn(rows)), pick))| > 0
  {
    var sel := Selected(Unique(TickerColumn(rows)), pick);
    var col := TickerColumn(rows);
    assert sel.value in col;
    var i :| 0 <= i < |rows| && col[i] == sel.value;
    assert MatchMask(sel)(rows[i]);
    SelectTickerExact(rows, sel);
  }
}
