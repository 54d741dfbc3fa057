/** The table cells the ingestion code handles, and the library coercions applied to them
    (pd.to_datetime and pd.to_numeric with errors="coerce"). */
module Frames {
  import opened Wrappers

  /** A parsed point in time; its resolution is left abstract. */
  datatype Timestamp = Timestamp(ticks: int)

  /** One cell of a frame: the missing value (NaN, None, NaT), text as read from a file,
      a number, or an already-parsed timestamp. */
  datatype Cell = Missing | Text(text: string) | Number(x: real) | Stamp(t: Timestamp)

  /** A row of a table read from CSV, keyed by column name. */
  type Row = map<string, Cell>

  /** A table as read from CSV: its column names in order and its rows. */
  datatype Table = Table(columns: seq<string>, rows: seq<Row>)

  /** The cell of `row` under `name`; a column the row does not carry reads as missing. */
  function Get(row: Row, name: string): Cell
  {
    if name in row then row[name] else Missing
  }

  /** A row of the two-column frame handed to cleaning: the date-like and the price-like cell. */
  datatype Pair = Pair(date: Cell, price: Cell)

  /** A row of the cleaned frame: `ds` and `y` both present. */
  datatype Observation = Observation(ds: Timestamp, y: real)

  /** The library parsers on raw values, left uninterpreted: each either yields a value or
      (errors="coerce") the missing value. */
  datatype Parsers = Parsers(
    dateOfText: string -> Option<Timestamp>,
    dateOfNumber: real -> Option<Timestamp>,
    numberOfText: string -> Option<real>,
    numberOfStamp: Timestamp -> Option<real>)

  /** pd.to_datetime(..., errors="coerce") on one cell. */
  function ToDatetime(p: Parsers, c: Cell): (r: Option<Timestamp>)
    ensures c.Missing? ==> r.None?
    ensures c.Stamp? ==> r == Some(c.t)
  {
    match c
    case Missing => None
    case Stamp(t) => Some(t)
    case Text(s) => p.dateOfText(s)
    case Number(x) => p.dateOfNumber(x)
  }

  /** pd.to_numeric(..., errors="coerce") on one cell. */
  function ToNumeric(p: Parsers, c: Cell): (r: Option<real>)
    ensures c.Missing? ==> r.None?
    ensures c.Number? ==> r == Some(c.x)
  {
    match c
    case Missing => None
    case Number(x) => Some(x)
    case Text(s) => p.numberOfText(s)
    case Stamp(t) => p.numberOfStamp(t)
  }
}
