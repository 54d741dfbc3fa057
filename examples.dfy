/** Worked examples of the loading logic on small tables. */
module Examples {
  import opened Wrappers
  import opened Frames
  import opened Shapes
  import opened Tickers
  import opened Cleaning
  import opened LiveFeed
  import opened Pipeline

  /** A row of a three-column price table. */
  function PriceRow(date: string, ticker: string, close: real): (row: Row)
    ensures Get(row, "Date") == Text(date)
    ensures Get(row, "Ticker") == Text(ticker)
    ensures Get(row, "Close") == Number(close)
  {
    map["Date" := Text(date), "Ticker" := Text(ticker), "Close" := Number(close)]
  }

  /** The ticker list of a column reading `a, a, b`. */
  lemma TickerListOfThree(a: Cell, b: Cell)
    requires a != b
    ensures Unique([a, a, b]) == [a, b]
  {
    var col := [a, a, b];
    assert col[..1] == [a] && col[..2] == [a, a] && [a][..0] == [];
    assert Unique([a]) == [a];
    assert Unique([a, a]) == [a];
  }

  /** A demo table holding two days of ticker `a` and one of ticker `b`: the list offers `a`
      then `b`, and picking `a` yields its two days in order. */
  lemma DemoTwoTickers(p: Parsers, d1: string, d2: string, d3: string, t1: Timestamp, t2: Timestamp,
                       a: string, b: string)
    requires a != b
    requires p.dateOfText(d1) == Some(t1) && p.dateOfText(d2) == Some(t2)
    ensures var rows := [PriceRow(d1, a, 100.0), PriceRow(d2, a, 101.0), PriceRow(d3, b, 50.0)];
      && ResolveShape(["Date", "Ticker", "Close"]) == PerTicker
      && Unique(TickerColumn(rows)) == [Text(a), Text(b)]
      && TickerSeries(p, Table(["Date", "Ticker", "Close"], rows), 0)
         == [Observation(t1, 100.0), Observation(t2, 101.0)]
  {
    var r1, r2, r3 := PriceRow(d1, a, 100.0), PriceRow(d2, a, 101.0), PriceRow(d3, b, 50.0);
    var rows := [r1, r2, r3];
    assert TickerColumn(rows) == [Text(a), Text(a), Text(b)];
    TickerListOfThree(Text(a), Text(b));
    var sel := Some(Text(a));
    assert Selected([Text(a), Text(b)], 0) == sel;
    var x1, x2 := Pair(Text(d1), Number(100.0)), Pair(Text(d2), Number(101.0));
    SelectFirstTwo(r1, r2, r3, sel, x1, x2);
    CleanTwo(p, x1, x2, Observation(t1, 100.0), Observation(t2, 101.0));
  }

  /** Filtering three rows of which the first two match. */
  lemma SelectFirstTwo(r1: Row, r2: Row, r3: Row, sel: Option<Cell>, x1: Pair, x2: Pair)
    requires Matches(sel, r1) && Matches(sel, r2) && !Matches(sel, r3)
    requires Project(r1) == x1 && Project(r2) == x2
    ensures SelectTicker([r1, r2, r3], sel) == [x1, x2]
  {
    assert [r1, r2, r3][..2] == [r1, r2] && [r1, r2][..1] == [r1] && [r1][..0] == [];
    assert SelectTicker([r1], sel) == [x1];
  }

  /** Cleaning two usable rows. */
  lemma CleanTwo(p: Parsers, x1: Pair, x2: Pair, o1: Observation, o2: Observation)
    requires Usable(p, x1) && Coerce(p, x1) == o1
    requires Usable(p, x2) && Coerce(p, x2) == o2
    ensures Clean(p, [x1, x2]) == [o1, o2]
  {
    assert [x1, x2][..1] == [x1] && [x1][..0] == [];
    assert Clean(p, [x1]) == [o1];
  }

  /** An uploaded two-column table whose only price is unparseable cleans to an empty series;
      the run reports no error of its own for that (the series goes on to the forecaster). */
  lemma UnparseablePriceDropped(p: Parsers, d: string, na: string)
    requires p.numberOfText(na).None?
    ensures ResolveShape(["Date", "Close"]) == SingleSeries
    ensures Clean(p, ProjectAll([map["Date" := Text(d), "Close" := Text(na)]])) == []
  {
    var rows: seq<Row> := [map["Date" := Text(d), "Close" := Text(na)]];
    assert ProjectAll(rows) == [Pair(Text(d), Text(na))];
  }

  /** A name without the first character of `sub` does not contain `sub`. */
  lemma {:induction false} LacksFirstChar(s: string, sub: string)
    requires |sub| > 0 && sub[0] !in s
    ensures !Contains(s, sub)
  {
    if |s| > 0 {
      LacksFirstChar(s[1..], sub);
    }
  }

  /** Of the names `ZZZ_Open`, `ZZZ_Close`, `ZZZ_Volume`, only the second contains "Close". */
  lemma OnlyCloseMatches()
    ensures Contains("ZZZ_Close", "Close")
    ensures !Contains("ZZZ_Open", "Close") && !Contains("ZZZ_Volume", "Close")
  {
    assert "Close" <= "ZZZ_Close"[4..];
    assert 'C' !in "ZZZ_Open" && 'C' !in "ZZZ_Volume";
    LacksFirstChar("ZZZ_Open", "Close");
    LacksFirstChar("ZZZ_Volume", "Close");
  }

  /** A flat live frame: the scan settles on `ZZZ_Close` when it is numeric, and finds nothing
      when it is not and no other column qualifies. */
  lemma LiveCloseColumn(open: Column, close: Column, volume: Column)
    ensures close.numeric ==>
      FirstPriceColumn(["ZZZ_Open", "ZZZ_Close", "ZZZ_Volume"], [open, close, volume], 0) == Some(1)
    ensures !close.numeric ==>
      FirstPriceColumn(["ZZZ_Open", "ZZZ_Close", "ZZZ_Volume"], [open, close, volume], 0) == None
  {
    var names := ["ZZZ_Open", "ZZZ_Close", "ZZZ_Volume"];
    var columns := [open, close, volume];
    OnlyCloseMatches();
    assert !IsPriceColumn(names, columns, 0) && !IsPriceColumn(names, columns, 2);
    assert SoleName(names, 1);
  }
}
