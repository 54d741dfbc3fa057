/** One run of the loading script: the data mode picks a source, the source's table is
    reduced to a two-column (date, price) frame or the run stops with a reason, and the
    frame is cleaned into the series handed to the forecaster. */
module Pipeline {
  import opened Wrappers
  import opened Frames
  import opened Shapes
  import opened Tickers
  import opened Cleaning
  import opened LiveFeed

  /** The three options of the data-mode radio button. */
  datatype Mode = DemoDataset | UploadCsv | LiveQuotes

  /** The selections made in the interface: the mode, the position picked in the ticker
      selection box, and the symbol typed for the live feed. */
  datatype Config = Config(mode: Mode, pick: nat, symbol: string)

  /** What the run reads: the built-in demo table (absent when the file does not exist), the
      uploaded table (absent when nothing was uploaded), the live feed as a function of the
      symbol, and the library parsers. */
  datatype Sources = Sources(
    demoFile: Option<Table>,
    upload: Option<Table>,
    download: string -> Frame,
    parsers: Parsers)

  /** The reasons a run stops before forecasting. */
  datatype Error =
    | DemoFileMissing      // the demo file does not exist
    | DemoMissingColumns   // the demo table lacks Date, Ticker or Close
    | CsvMissingColumns    // the uploaded table lacks Date or Close
    | NoUpload             // upload mode with no file uploaded
    | NoDataForTicker      // the live feed returned an empty frame
    | NoCloseColumn        // no numeric column named with "Close" in the live frame
    | Unexpected           // an exception caught by the catch-all handler

  /** The cleaned series of the ticker picked from a three-column table. */
  function TickerSeries(p: Parsers, data: Table, pick: nat): (r: seq<Observation>)
    ensures |r| <= |data.rows|
  {
    Clean(p, SelectTicker(data.rows, Selected(Unique(TickerColumn(data.rows)), pick)))
  }

  /** The whole loading script, from the chosen mode to the cleaned (ds, y) series. */
  method PrepareSeries(config: Config, src: Sources) returns (r: Result<seq<Observation>, Error>)
    ensures config.mode == DemoDataset ==>
      && (src.demoFile.None? ==> r == Err(DemoFileMissing))
      && (src.demoFile.Some? && ResolveShape(src.demoFile.value.columns) != PerTicker ==>
            r == Err(DemoMissingColumns))
      && (src.demoFile.Some? && ResolveShape(src.demoFile.value.columns) == PerTicker ==>
            r == Ok(TickerSeries(src.parsers, src.demoFile.value, config.pick)))
    ensures config.mode == UploadCsv ==>
      && (src.upload.None? ==> r == Err(NoUpload))
      && (src.upload.Some? && ResolveShape(src.upload.value.columns) == PerTicker ==>
            r == Ok(TickerSeries(src.parsers, src.upload.value, config.pick)))
      && (src.upload.Some? && ResolveShape(src.upload.value.columns) == SingleSeries ==>
            r == Ok(Clean(src.parsers, ProjectAll(src.upload.value.rows))))
      && (src.upload.Some? && ResolveShape(src.upload.value.columns) == Unrecognized ==>
            r == Err(CsvMissingColumns))
    ensures config.mode == LiveQuotes ==>
      var q := src.download(config.symbol);
      var col := FirstPriceColumn(ColumnNames(q), q.columns, 0);
      && (q.Empty() ==> r == Err(NoDataForTicker))
      && (!q.Empty() && col.None? ==> r == Err(NoCloseColumn))
      && (!q.Empty() && col.Some? && "Date" in ColumnNames(q) ==> r == Err(Unexpected))
      && (!q.Empty() && col.Some? && "Date" !in ColumnNames(q) ==>
            r == Ok(Clean(src.parsers, PriceRows(q, col.value))))
    ensures r.Ok? && config.mode == DemoDataset ==> |r.value| <= |src.demoFile.value.rows|
    ensures r.Ok? && config.mode == UploadCsv ==> |r.value| <= |src.upload.value.rows|
    ensures r.Ok? && config.mode == LiveQuotes ==> |r.value| <= |src.download(config.symbol).dates|
  {
    var p := src.parsers;
    var df: seq<Pair>;
    match config.mode {
      case DemoDataset =>
        if src.demoFile.None? {
          return Err(DemoFileMissing);
        }
        var data := src.demoFile.value;
        if ResolveShape(data.columns) == PerTicker {
          var tickers := Unique(TickerColumn(data.rows));
          var selected := Selected(tickers, config.pick);
          df := SelectTicker(data.rows, selected);
        } else {
          return Err(DemoMissingColumns);
        }
      case UploadCsv =>
        if src.upload.None? {
          return Err(NoUpload);
        }
        var data := src.upload.value;
        match ResolveShape(data.columns) {
          case PerTicker =>
            var tickers := Unique(TickerColumn(data.rows));
            var selected := Selected(tickers, config.pick);
            df := SelectTicker(data.rows, selected);
          case SingleSeries =>
            df := ProjectAll(data.rows);
          case Unrecognized =>
            return Err(CsvMissingColumns);
        }
      case LiveQuotes =>
        var q := src.download(config.symbol);
        var data: Frame := q;
        if data.Empty() {
          return Err(NoDataForTicker);
        }
        if data.header.MultiLevel? {
          data := data.(header := Flat(Flatten(data.header.levels)));
        }
        assert data.header.names == ColumnNames(q);
        var priceCol := FindPriceColumn(data.header.names, data.columns);
        if priceCol.None? {
          return Err(NoCloseColumn);
        }
        // reset_index inserts the `Date` index as a column; an existing `Date` column makes it raise.
        if "Date" in data.header.names {
          return Err(Unexpected);
        }
        var prepared := Clean(p, PriceRows(data, priceCol.value));
        assert PriceRows(data, priceCol.value) == PriceRows(q, priceCol.value);
        df := AsPairs(prepared);
        CleanIdempotent(p, PriceRows(q, priceCol.value));
    }
    // Renaming Date/Close to ds/y does not move cells: the frame's two columns are positional here.
    var cleaned := Clean(p, df);
    r := Ok(cleaned);
  }
}
