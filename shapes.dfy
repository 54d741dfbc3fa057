/** Which layout an uploaded or built-in table has. The three-column per-ticker layout is
    tested first, then the two-column single-series layout. */
module Shapes {

  datatype Shape =
    | PerTicker      // Date, Ticker and Close are all columns
    | SingleSeries   // Date and Close are columns, Ticker is not
    | Unrecognized   // Date or Close is missing

  /** The shape test of the upload path: `{"Date","Ticker","Close"}` first, then `{"Date","Close"}`.
      The demo path accepts only `PerTicker`. */
  function ResolveShape(columns: seq<string>): (r: Shape)
    ensures r == PerTicker <==> "Date" in columns && "Ticker" in columns && "Close" in columns
    ensures r == SingleSeries <==> "Date" in columns && "Close" in columns && "Ticker" !in columns
    ensures r == Unrecognized <==> "Date" !in columns || "Close" !in columns
  {
    var present := set c | c in columns;
    if {"Date", "Ticker", "Close"} <= present then PerTicker
    else if {"Date", "Close"} <= present then SingleSeries
    else Unrecognized
  }
}
