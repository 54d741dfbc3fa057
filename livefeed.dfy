/** The live quote feed's frame and the column handling applied to it: flattening of
    multi-level column labels and the scan for the first numeric `Close` column. */
module LiveFeed {
  import opened Wrappers
  import opened Frames

  /** Column labels as the feed returns them: plain names, or one tuple of levels per column. */
  datatype Header = Flat(names: seq<string>) | MultiLevel(levels: seq<seq<string>>)

  /** One data column: whether its dtype is numeric, and its cells. */
  datatype Column = Column(numeric: bool, cells: seq<Cell>)

  /** A frame returned by the feed: the `Date` index, the column labels and the columns. */
  datatype Quotes = Quotes(dates: seq<Cell>, header: Header, columns: seq<Column>)
  {
    function Width(): nat
    {
      match header
      case Flat(names) => |names|
      case MultiLevel(levels) => |levels|
    }

    /** A frame has one label per column and one cell per index entry in every column. */
    predicate WellFormed()
    {
      Width() == |columns| && forall c | c in columns :: |c.cells| == |dates|
    }

    /** `DataFrame.empty`: no rows or no columns. */
    predicate Empty()
    {
      |dates| == 0 || |columns| == 0
    }
  }

  type Frame = q: Quotes | q.WellFormed() witness Quotes([], Flat([]), [])

  /** The characters Python's `str.strip()` removes. */
  predicate IsSpace(c: char)
  {
    c == ' ' || '\t' <= c <= '\r' || '\U{1C}' <= c <= '\U{1F}' || c == '\U{85}' || c == '\U{A0}'
    || c == '\U{1680}' || '\U{2000}' <= c <= '\U{200A}' || c == '\U{2028}' || c == '\U{2029}'
    || c == '\U{202F}' || c == '\U{205F}' || c == '\U{3000}'
  }

  /** `s` without its leading whitespace. */
  function StripStart(s: string): (r: string)
    ensures |r| <= |s| && r == s[|s| - |r|..]
    ensures forall k :: 0 <= k < |s| - |r| ==> IsSpace(s[k])
    ensures |r| > 0 ==> !IsSpace(r[0])
  {
    if |s| > 0 && IsSpace(s[0]) then StripStart(s[1..]) else s
  }

  /** `s` without its trailing whitespace. */
  function StripEnd(s: string): (r: string)
    ensures |r| <= |s| && r == s[..|r|]
    ensures forall k :: |r| <= k < |s| ==> IsSpace(s[k])
    ensures |r| > 0 ==> !IsSpace(r[|r| - 1])
  {
    if |s| > 0 && IsSpace(s[|s| - 1]) then StripEnd(s[..|s| - 1]) else s
  }

  /** `str.strip()`: the infix of `s` left after removing whitespace from both ends. */
  function Strip(s: string): (r: string)
    ensures |r| > 0 ==> !IsSpace(r[0]) && !IsSpace(r[|r| - 1])
    ensures exists i :: (
              && 0 <= i <= |s| - |r| && r <= s[i..]
              && (forall k :: 0 <= k < i ==> IsSpace(s[k]))
              && (forall k :: i + |r| <= k < |s| ==> IsSpace(s[k])))
  {
    var t := StripStart(s);
    var r := StripEnd(t);
    var i := |s| - |t|;
    assert r <= s[i..];
    r
  }

  /** Stripping a string that has no whitespace at either end leaves it as it is. */
  lemma StripKeeps(s: string)
    requires |s| > 0 ==> !IsSpace(s[0]) && !IsSpace(s[|s| - 1])
    ensures Strip(s) == s
  {
  }

  /** Stripping twice is stripping once. */
  lemma StripIdempotent(s: string)
    ensures Strip(Strip(s)) == Strip(s)
  {
    StripKeeps(Strip(s));
  }

  /** `'_'.join(levels)`. */
  function Join(levels: seq<string>): (r: string)
    ensures |levels| == 1 ==> r == levels[0]
  {
    if |levels| == 0 then ""
    else if |levels| == 1 then levels[0]
    else levels[0] + "_" + Join(levels[1..])
  }

  /** `s.split('_')`, the inverse of `Join` on levels free of `_`. */
  function Split(s: string): (r: seq<string>)
    ensures |r| >= 1
  {
    if |s| == 0 then [""]
    else
      var rest := Split(s[1..]);
      if s[0] == '_' then [""] + rest else [[s[0]] + rest[0]] + rest[1..]
  }

  /** A prefix free of `_` glues onto the first piece of the split. */
  lemma {:induction false} SplitGlues(a: string, t: string)
    requires '_' !in a
    ensures Split(a + t) == [a + Split(t)[0]] + Split(t)[1..]
  {
    if |a| > 0 {
      assert a[0] in a && forall c :: c in a[1..] ==> c in a;
      SplitGlues(a[1..], t);
      assert (a + t)[1..] == a[1..] + t;
      assert (a + t)[0] == a[0];
      assert [a[0]] + (a[1..] + Split(t)[0]) == a + Split(t)[0];
    } else {
      assert a + t == t;
      assert a + Split(t)[0] == Split(t)[0];
      assert Split(t) == [Split(t)[0]] + Split(t)[1..];
    }
  }

  /** Splitting a joined label gives back its levels, when no level contains `_`. */
  lemma {:induction false} SplitJoin(levels: seq<string>)
    requires |levels| >= 1
    requires forall k :: 0 <= k < |levels| ==> '_' !in levels[k]
    ensures Split(Join(levels)) == levels
  {
    if |levels| == 1 {
      SplitGlues(levels[0], "");
      assert levels[0] + "" == levels[0];
    } else {
      var rest := Join(levels[1..]);
      SplitJoin(levels[1..]);
      SplitGlues(levels[0], "_" + rest);
      assert Split("_" + rest) == [""] + Split(rest);
      assert levels[0] + "_" + rest == levels[0] + ("_" + rest);
      assert levels[0] + "" == levels[0];
    }
  }

  /** Every character of a joined label is `_` or a character of one of the levels. */
  lemma {:induction false} JoinChars(levels: seq<string>, c: char)
    requires c in Join(levels)
    ensures c == '_' || exists k :: 0 <= k < |levels| && c in levels[k]
  {
    if |levels| == 1 {
      assert c in levels[0];
    } else if |levels| > 1 {
      var rest := Join(levels[1..]);
      assert c in levels[0] || c == '_' || c in rest;
      if c in levels[0] {
        assert 0 < |levels|;
      } else if c in rest && c != '_' {
        JoinChars(levels[1..], c);
        var k :| 0 <= k < |levels[1..]| && c in levels[1..][k];
        assert c in levels[k + 1];
      }
    }
  }

  /** The flattened names of multi-level labels: each tuple's levels joined by `_`, then
      stripped. */
  function Flatten(levels: seq<seq<string>>): (r: seq<string>)
    ensures |r| == |levels|
    ensures forall i :: 0 <= i < |levels| ==> r[i] == Strip(Join(levels[i]))
  {
    seq(|levels|, i requires 0 <= i < |levels| => Strip(Join(levels[i])))
  }

  /** A column level with neither `_` nor whitespace in it. */
  predicate PlainLevel(level: string)
  {
    forall c | c in level :: c != '_' && !IsSpace(c)
  }

  /** A level free of `_` and of whitespace survives flattening, so the tuple can be read back
      from its flattened name. */
  lemma FlattenRecoverable(levels: seq<seq<string>>, i: nat)
    requires i < |levels| && |levels[i]| >= 1
    requires forall k :: 0 <= k < |levels[i]| ==> PlainLevel(levels[i][k])
    ensures Split(Flatten(levels)[i]) == levels[i]
  {
    var joined := Join(levels[i]);
    forall c | c in joined ensures !IsSpace(c) {
      JoinChars(levels[i], c);
    }
    if |joined| > 0 {
      assert joined[0] in joined && joined[|joined| - 1] in joined;
    }
    StripKeeps(joined);
    forall k | 0 <= k < |levels[i]| ensures '_' !in levels[i][k] {
      assert PlainLevel(levels[i][k]);
    }
    SplitJoin(levels[i]);
  }

  /** Flattening is not injective: two different tuples can give the same name, and the scan
      then finds that name on two columns. */
  lemma FlattenCanCollide(a: string, b: string, c: string)
    ensures [a + "_" + b, c] != [a, b + "_" + c]
    ensures var names := Flatten([[a + "_" + b, c], [a, b + "_" + c]]); names[0] == names[1]
  {
    assert |a + "_" + b| != |a|;
    assert Join([c]) == c && Join([b + "_" + c]) == b + "_" + c;
    assert a + "_" + b + "_" + c == a + "_" + (b + "_" + c);
  }

  /** The column names after the flattening step: plain names stay, tuples are flattened. */
  function ColumnNames(q: Frame): (r: seq<string>)
    ensures |r| == |q.columns|
  {
    match q.header
    case Flat(names) => names
    case MultiLevel(levels) => Flatten(levels)
  }

  /** Python's `sub in s` on strings. */
  predicate Contains(s: string, sub: string)
  {
    sub <= s || (|s| > 0 && Contains(s[1..], sub))
  }

  /** `Contains` is Python's `sub in s`: `sub` starts at some position of `s`. */
  lemma {:induction false} ContainsIff(s: string, sub: string)
    ensures Contains(s, sub) <==> exists i :: 0 <= i <= |s| && sub <= s[i..]
  {
    if sub <= s {
      assert s[0..] == s;
    } else if |s| == 0 {
      assert forall i :: 0 <= i <= |s| ==> s[i..] == s;
    } else {
      ContainsIff(s[1..], sub);
      assert forall i :: 0 <= i < |s| ==> s[1..][i..] == s[i + 1..];
      if exists i :: 0 <= i <= |s| && sub <= s[i..] {
        var i :| 0 <= i <= |s| && sub <= s[i..];
        assert i != 0 by { assert s[0..] == s; }
        assert sub <= s[1..][i - 1..];
      }
    }
  }

  /** No other column carries the name at `i`, so `data[names[i]]` is that one column (with a
      duplicated name it is a sub-frame, whose type is not a numeric dtype). */
  predicate SoleName(names: seq<string>, i: nat)
    requires i < |names|
  {
    forall j | 0 <= j < |names| && j != i :: names[j] != names[i]
  }

  /** The scan's test: the name contains "Close" and the column has a numeric dtype. */
  predicate IsPriceColumn(names: seq<string>, columns: seq<Column>, i: nat)
    requires |names| == |columns| && i < |names|
  {
    Contains(names[i], "Close") && SoleName(names, i) && columns[i].numeric
  }

  /** The first position at or after `from` that passes the scan's test. */
  function FirstPriceColumn(names: seq<string>, columns: seq<Column>, from: nat): (r: Option<nat>)
    requires |names| == |columns|
    ensures r.Some? ==> from <= r.value < |names| && IsPriceColumn(names, columns, r.value)
    ensures r.Some? ==> forall j :: from <= j < r.value ==> !IsPriceColumn(names, columns, j)
    ensures r.None? ==> forall j :: from <= j < |names| ==> !IsPriceColumn(names, columns, j)
    decreases |names| - from
  {
    if from >= |names| then None
    else if IsPriceColumn(names, columns, from) then Some(from)
    else FirstPriceColumn(names, columns, from + 1)
  }

  /** The loop over `data.columns` that stops at the first numeric column named with "Close". */
  method FindPriceColumn(names: seq<string>, columns: seq<Column>) returns (col: Option<nat>)
    requires |names| == |columns|
    ensures col == FirstPriceColumn(names, columns, 0)
    ensures col.Some? ==> col.value < |names| && IsPriceColumn(names, columns, col.value)
    ensures col.Some? ==> forall j :: 0 <= j < col.value ==> !IsPriceColumn(names, columns, j)
    ensures col.None? ==> forall j :: 0 <= j < |names| ==> !IsPriceColumn(names, columns, j)
  {
    col := None;
    var i := 0;
    while i < |names|
      invariant i <= |names|
      invariant col == None
      invariant FirstPriceColumn(names, columns, i) == FirstPriceColumn(names, columns, 0)
    {
      if Contains(names[i], "Close") && SoleName(names, i) && columns[i].numeric {
        return Some(i);
      }
      i := i + 1;
    }
  }

  /** The `Date` index beside the cells of column `i`, row by row. */
  function PriceRows(q: Frame, i: nat): (r: seq<Pair>)
    requires i < |q.columns|
    ensures |r| == |q.dates|
    ensures forall k :: 0 <= k < |r| ==> r[k] == Pair(q.dates[k], q.columns[i].cells[k])
  {
    assert q.columns[i] in q.columns;
    seq(|q.dates|, k requires 0 <= k < |q.dates| => Pair(q.dates[k], q.columns[i].cells[k]))
  }
}
