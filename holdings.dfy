/** The holdings summary: a table of tickers of interest is left-merged with a
    13F holdings export on ticker == symbol; missing market values become 0;
    rows without a ticker or with a zero value are dropped; the rest are
    sorted by market value, largest first, and written one per line as
    `<ticker> $<value with thousands separators>`, the lines joined by
    newlines. */
module Holdings {
  import opened Wrappers
  import opened Thousands
  import opened TextLines
  import opened Tagging

  /** A row of the ticker table; only its `Ticker` cell matters, and it may be
      missing. */
  datatype TickerRow = TickerRow(ticker: Option<string>)

  /** A row of the holdings export: its `Symbol` and its `Market Value`, which
      may be missing. */
  datatype ExportRow = ExportRow(symbol: string, marketValue: Option<int>)

  /** A table as the function receives it: the names of its columns and its
      rows. */
  datatype TickerTable = TickerTable(columns: set<string>, rows: seq<TickerRow>)
  datatype ExportTable = ExportTable(columns: set<string>, rows: seq<ExportRow>)

  /** A row of the left merge: the ticker, and the market value of the
      matching export row, missing when nothing matched. */
  datatype MergedRow = MergedRow(ticker: Option<string>, marketValue: Option<int>)

  /** A merged row after its missing market value has been replaced by 0. */
  datatype FilledRow = FilledRow(ticker: Option<string>, marketValue: int)

  /** A row that survives the filters: a present ticker and a value. */
  datatype Holding = Holding(ticker: string, marketValue: int)

  /** The invocation fails when a column it looks up is absent. */
  datatype SummaryError = MissingColumn(column: string)

  const TickerColumn: string := "Ticker"
  const SymbolColumn: string := "Symbol"
  const MarketValueColumn: string := "Market Value"

  // ---------------------------------------------------------------------------
  // Left merge on Ticker == Symbol

  /** Exact, case-sensitive key equality; a missing ticker matches nothing. */
  predicate Matches(t: TickerRow, e: ExportRow) {
    t.ticker == Some(e.symbol)
  }

  /** One merged row per export row that matches `t`, in export order. */
  function MatchedRows(t: TickerRow, exportRows: seq<ExportRow>): (r: seq<MergedRow>)
    ensures |r| <= |exportRows|
    ensures forall k :: 0 <= k < |r| ==> r[k].ticker == t.ticker
    decreases |exportRows|
  {
    if exportRows == [] then []
    else
      var rest := MatchedRows(t, exportRows[1..]);
      if Matches(t, exportRows[0]) then [MergedRow(t.ticker, exportRows[0].marketValue)] + rest else rest
  }

  /** The matched rows are exactly the pairs of `t`'s ticker with the value of
      an export row whose symbol is that ticker; there are none exactly when no
      export row matches. */
  lemma {:induction false} MatchedRowsMember(t: TickerRow, exportRows: seq<ExportRow>, m: MergedRow)
    ensures m in MatchedRows(t, exportRows) <==>
      m.ticker == t.ticker &&
      exists j :: 0 <= j < |exportRows| && Matches(t, exportRows[j]) && exportRows[j].marketValue == m.marketValue
    ensures MatchedRows(t, exportRows) == [] <==> forall j :: 0 <= j < |exportRows| ==> !Matches(t, exportRows[j])
    decreases |exportRows|
  {
    if exportRows != [] {
      MatchedRowsMember(t, exportRows[1..], m);
      assert forall j :: 1 <= j < |exportRows| ==> exportRows[j] == exportRows[1..][j - 1];
    }
  }

  /** What one ticker row contributes to the left merge: its matches, or a
      single row with a missing value when there are none. */
  function MergeOne(t: TickerRow, exportRows: seq<ExportRow>): (r: seq<MergedRow>)
    ensures |r| >= 1
  {
    var matched := MatchedRows(t, exportRows);
    if matched == [] then [MergedRow(t.ticker, None)] else matched
  }

  /** A ticker row contributes its pairings with every matching export row's
      value, or, when nothing matches, itself with a missing value. */
  lemma MergeOneMember(t: TickerRow, exportRows: seq<ExportRow>, m: MergedRow)
    ensures m in MergeOne(t, exportRows) <==>
      m.ticker == t.ticker &&
      ((exists j :: 0 <= j < |exportRows| && Matches(t, exportRows[j]) && exportRows[j].marketValue == m.marketValue) ||
       ((forall j :: 0 <= j < |exportRows| ==> !Matches(t, exportRows[j])) && m.marketValue == None))
    ensures (forall j :: 0 <= j < |exportRows| ==> !Matches(t, exportRows[j])) ==>
      MergeOne(t, exportRows) == [MergedRow(t.ticker, None)]
    ensures (exists j :: 0 <= j < |exportRows| && Matches(t, exportRows[j])) ==>
      MergeOne(t, exportRows) == MatchedRows(t, exportRows)
  {
    MatchedRowsMember(t, exportRows, m);
  }

  /** `pd.merge(tickers, export, left_on='Ticker', right_on='Symbol', how='left')`,
      keeping the two columns the rest of the function reads. */
  function LeftMerge(tickers: seq<TickerRow>, exportRows: seq<ExportRow>): (r: seq<MergedRow>)
    ensures |r| >= |tickers|
    decreases |tickers|
  {
    if tickers == [] then [] else MergeOne(tickers[0], exportRows) + LeftMerge(tickers[1..], exportRows)
  }

  /** The merge keeps the order of the ticker table: the rows of a prefix of
      it come first. */
  lemma {:induction false} LeftMergeAppend(t1: seq<TickerRow>, t2: seq<TickerRow>, exportRows: seq<ExportRow>)
    ensures LeftMerge(t1 + t2, exportRows) == LeftMerge(t1, exportRows) + LeftMerge(t2, exportRows)
    decreases |t1|
  {
    if t1 == [] {
      assert t1 + t2 == t2;
    } else {
      var t := t1 + t2;
      assert t[0] == t1[0] && t[1..] == t1[1..] + t2;
      LeftMergeAppend(t1[1..], t2, exportRows);
      var one := MergeOne(t1[0], exportRows);
      calc {
        LeftMerge(t, exportRows);
        one + LeftMerge(t1[1..] + t2, exportRows);
        one + (LeftMerge(t1[1..], exportRows) + LeftMerge(t2, exportRows));
        (one + LeftMerge(t1[1..], exportRows)) + LeftMerge(t2, exportRows);
      }
    }
  }

  /** A merged row comes from some ticker row: paired with the value of a
      matching export row, or, when no export row matches, with a missing
      value. */
  lemma {:induction false} LeftMergeMember(tickers: seq<TickerRow>, exportRows: seq<ExportRow>, m: MergedRow)
    ensures m in LeftMerge(tickers, exportRows) <==>
      exists i :: 0 <= i < |tickers| && m.ticker == tickers[i].ticker &&
        ((exists j :: 0 <= j < |exportRows| && Matches(tickers[i], exportRows[j]) && exportRows[j].marketValue == m.marketValue) ||
         ((forall j :: 0 <= j < |exportRows| ==> !Matches(tickers[i], exportRows[j])) && m.marketValue == None))
    decreases |tickers|
  {
    if tickers != [] {
      MergeOneMember(tickers[0], exportRows, m);
      LeftMergeMember(tickers[1..], exportRows, m);
      assert forall i :: 1 <= i < |tickers| ==> tickers[i] == tickers[1..][i - 1];
    }
  }

  // ---------------------------------------------------------------------------
  // How often each merged row occurs

  /** The indices of the export rows that match `t` and carry the value `v`. */
  function MatchingIndices(t: TickerRow, exportRows: seq<ExportRow>, v: Option<int>): set<int> {
    set j | 0 <= j < |exportRows| && Matches(t, exportRows[j]) && exportRows[j].marketValue == v
  }

  /** The pairs (ticker row index, export row index) that the merge joins
      with ticker `tk` and value `v`. */
  function MatchingPairs(tickers: seq<TickerRow>, exportRows: seq<ExportRow>, tk: string, v: int): set<(int, int)> {
    set i, j | 0 <= i < |tickers| && 0 <= j < |exportRows| &&
      tickers[i].ticker == Some(tk) && exportRows[j].symbol == tk && exportRows[j].marketValue == Some(v) :: (i, j)
  }

  /** Matching against a concatenation of export tables matches against each
      in turn: the matches keep the order of the export table. */
  lemma {:induction false} MatchedRowsAppend(t: TickerRow, a: seq<ExportRow>, b: seq<ExportRow>)
    ensures MatchedRows(t, a + b) == MatchedRows(t, a) + MatchedRows(t, b)
    decreases |a|
  {
    if a == [] {
      assert a + b == b;
    } else {
      var e := a + b;
      assert e[0] == a[0] && e[1..] == a[1..] + b;
      MatchedRowsAppend(t, a[1..], b);
      var head := if Matches(t, a[0]) then [MergedRow(t.ticker, a[0].marketValue)] else [];
      calc {
        MatchedRows(t, e);
        head + MatchedRows(t, a[1..] + b);
        head + (MatchedRows(t, a[1..]) + MatchedRows(t, b));
        (head + MatchedRows(t, a[1..])) + MatchedRows(t, b);
      }
    }
  }

  /** Appending an export row adds its index when it matches with value `v`. */
  lemma MatchingIndicesSnoc(t: TickerRow, p: seq<ExportRow>, x: ExportRow, v: Option<int>)
    ensures MatchingIndices(t, p + [x], v) ==
      MatchingIndices(t, p, v) + if Matches(t, x) && x.marketValue == v then {|p|} else {}
  {
    assert forall j :: 0 <= j < |p| ==> (p + [x])[j] == p[j];
  }

  /** A ticker row is paired with a value once per export row that matches it
      and carries that value. */
  lemma {:induction false} MatchedRowsCount(t: TickerRow, exportRows: seq<ExportRow>, v: Option<int>)
    ensures multiset(MatchedRows(t, exportRows))[MergedRow(t.ticker, v)] == |MatchingIndices(t, exportRows, v)|
    decreases |exportRows|
  {
    if exportRows == [] {
      assert MatchingIndices(t, exportRows, v) == {};
    } else {
      var n := |exportRows| - 1;
      var p, x := exportRows[..n], exportRows[n];
      assert exportRows == p + [x];
      MatchedRowsAppend(t, p, [x]);
      MatchedRowsCount(t, p, v);
      MatchingIndicesSnoc(t, p, x, v);
      assert [x][1..] == [];
      assert n !in MatchingIndices(t, p, v);
    }
  }

  /** A ticker row contributes a present value once per export row that
      matches it and carries that value; rows of other tickers get none. */
  lemma MergeOneCount(t: TickerRow, exportRows: seq<ExportRow>, tk: string, v: int)
    ensures multiset(MergeOne(t, exportRows))[MergedRow(Some(tk), Some(v))] ==
      if t.ticker == Some(tk) then |MatchingIndices(t, exportRows, Some(v))| else 0
  {
    var m := MergedRow(Some(tk), Some(v));
    MatchedRowsMember(t, exportRows, m);
    if MatchedRows(t, exportRows) == [] {
      assert MatchingIndices(t, exportRows, Some(v)) == {};
    } else if t.ticker == Some(tk) {
      MatchedRowsCount(t, exportRows, Some(v));
    } else {
      assert m !in MergeOne(t, exportRows);
    }
  }

  /** Tagging the matching indices with a ticker row index keeps their
      number. */
  lemma {:induction false} TagMatchingCount(n: int, t: TickerRow, exportRows: seq<ExportRow>, v: Option<int>)
    ensures |Tag(n, MatchingIndices(t, exportRows, v))| == |MatchingIndices(t, exportRows, v)|
    decreases |exportRows|
  {
    if exportRows == [] {
      assert MatchingIndices(t, exportRows, v) == {};
      TagEmpty(n);
    } else {
      var k := |exportRows| - 1;
      var p, x := exportRows[..k], exportRows[k];
      assert exportRows == p + [x];
      MatchingIndicesSnoc(t, p, x, v);
      TagMatchingCount(n, t, p, v);
      if Matches(t, x) && x.marketValue == v {
        TagAdd(n, MatchingIndices(t, p, v), k);
        assert k !in MatchingIndices(t, p, v);
      }
    }
  }

  /** Appending a ticker row with ticker `tk` adds its pairs with every export
      row matching it with value `v`; the pairs already there are kept. */
  lemma MatchingPairsSnoc(p: seq<TickerRow>, t: TickerRow, exportRows: seq<ExportRow>, tk: string, v: int)
    ensures var row := if t.ticker == Some(tk) then Tag(|p|, MatchingIndices(t, exportRows, Some(v))) else {};
      && MatchingPairs(p + [t], exportRows, tk, v) == MatchingPairs(p, exportRows, tk, v) + row
      && MatchingPairs(p, exportRows, tk, v) !! row
  {
    assert forall i :: 0 <= i < |p| ==> (p + [t])[i] == p[i];
  }

  /** How often the merge holds a row with a present ticker and value: once
      per pair of a ticker row with that ticker and an export row with that
      symbol and value. */
  lemma {:induction false} LeftMergeCount(tickers: seq<TickerRow>, exportRows: seq<ExportRow>, tk: string, v: int)
    ensures multiset(LeftMerge(tickers, exportRows))[MergedRow(Some(tk), Some(v))] == |MatchingPairs(tickers, exportRows, tk, v)|
    decreases |tickers|
  {
    if tickers == [] {
      assert MatchingPairs(tickers, exportRows, tk, v) == {};
    } else {
      var n := |tickers| - 1;
      var p, t := tickers[..n], tickers[n];
      assert tickers == p + [t];
      LeftMergeAppend(p, [t], exportRows);
      assert [t][1..] == [];
      assert LeftMerge([t], exportRows) == MergeOne(t, exportRows);
      LeftMergeCount(p, exportRows, tk, v);
      MergeOneCount(t, exportRows, tk, v);
      TagMatchingCount(n, t, exportRows, Some(v));
      MatchingPairsSnoc(p, t, exportRows, tk, v);
    }
  }

  // ---------------------------------------------------------------------------
  // fillna(0), dropna and the zero filter

  /** `fillna(0)` on the market value: a missing value becomes 0, a present
      one is kept, and the ticker is untouched. */
  function FillMissingValues(rows: seq<MergedRow>): (r: seq<FilledRow>)
    ensures |r| == |rows|
    decreases |rows|
  {
    if rows == [] then []
    else [FilledRow(rows[0].ticker, rows[0].marketValue.GetOr(0))] + FillMissingValues(rows[1..])
  }

  /** Row by row: the ticker is untouched, a present value is kept and a
      missing one becomes 0. */
  lemma {:induction false} FillMissingValuesAt(rows: seq<MergedRow>, k: int)
    requires 0 <= k < |rows|
    ensures var r := FillMissingValues(rows)[k];
      && r.ticker == rows[k].ticker
      && (rows[k].marketValue.Some? ==> r.marketValue == rows[k].marketValue.value)
      && (rows[k].marketValue.None? ==> r.marketValue == 0)
    decreases |rows|
  {
    if k > 0 {
      FillMissingValuesAt(rows[1..], k - 1);
    }
  }

  /** `dropna()` over the ticker and market value columns: only the ticker
      can be missing here, and such rows disappear; every other row is kept
      as often as it occurs. */
  function DropMissingTicker(rows: seq<FilledRow>): (r: seq<Holding>)
    ensures |r| <= |rows|
    ensures forall h :: multiset(r)[h] == multiset(rows)[FilledRow(Some(h.ticker), h.marketValue)]
    decreases |rows|
  {
    if rows == [] then []
    else
      var rest := DropMissingTicker(rows[1..]);
      assert rows == [rows[0]] + rows[1..];
      match rows[0].ticker
      case Some(t) => [Holding(t, rows[0].marketValue)] + rest
      case None => rest
  }

  /** `df[df['Market Value'] != 0]`: rows worth exactly 0 disappear, every
      other row (negative ones too) is kept as often as it occurs. */
  function DropZeroValue(rows: seq<Holding>): (r: seq<Holding>)
    ensures |r| <= |rows|
    ensures forall h :: multiset(r)[h] == if h.marketValue == 0 then 0 else multiset(rows)[h]
    decreases |rows|
  {
    if rows == [] then []
    else
      var rest := DropZeroValue(rows[1..]);
      assert rows == [rows[0]] + rows[1..];
      if rows[0].marketValue == 0 then rest else [rows[0]] + rest
  }

  /** The rows that reach the sort. */
  function SelectHoldings(tickers: seq<TickerRow>, exportRows: seq<ExportRow>): seq<Holding> {
    DropZeroValue(DropMissingTicker(FillMissingValues(LeftMerge(tickers, exportRows))))
  }

  /** A holding reaches the sort exactly when its value is nonzero and some
      ticker row carrying its ticker matched an export row carrying that
      value. A defaulted value is 0, so an unmatched ticker never gets
      through, and neither does a match whose exportRows value is missing. */
  lemma SelectHoldingsMember(tickers: seq<TickerRow>, exportRows: seq<ExportRow>, h: Holding)
    ensures h in SelectHoldings(tickers, exportRows) <==>
      h.marketValue != 0 &&
      exists i, j :: 0 <= i < |tickers| && 0 <= j < |exportRows| &&
        tickers[i].ticker == Some(h.ticker) && exportRows[j].symbol == h.ticker &&
        exportRows[j].marketValue == Some(h.marketValue)
  {
    var merged := LeftMerge(tickers, exportRows);
    var filled := FillMissingValues(merged);
    KeptRows(filled, h);
    if h.marketValue != 0 {
      FilledCount(merged, Some(h.ticker), h.marketValue);
      LeftMergeMember(tickers, exportRows, MergedRow(Some(h.ticker), Some(h.marketValue)));
    }
  }

  /** The two filters together keep a filled row exactly when it has a
      ticker and a nonzero value. */
  lemma KeptRows(filled: seq<FilledRow>, h: Holding)
    ensures h in DropZeroValue(DropMissingTicker(filled)) <==>
      h.marketValue != 0 && FilledRow(Some(h.ticker), h.marketValue) in filled
  {
  }

  /** A nonzero filled value occurs as often as that value occurred in the
      merge: filling only ever produces 0. */
  lemma {:induction false} FilledCount(merged: seq<MergedRow>, ticker: Option<string>, v: int)
    requires v != 0
    ensures multiset(FillMissingValues(merged))[FilledRow(ticker, v)] == multiset(merged)[MergedRow(ticker, Some(v))]
    decreases |merged|
  {
    if merged != [] {
      var m, rest := merged[0], merged[1..];
      FilledCount(rest, ticker, v);
      ConsCount(FilledRow(m.ticker, m.marketValue.GetOr(0)), FillMissingValues(rest), FilledRow(ticker, v));
      HeadCount(merged, MergedRow(ticker, Some(v)));
    }
  }

  lemma HeadCount<T>(s: seq<T>, z: T)
    requires |s| > 0
    ensures multiset(s)[z] == (if s[0] == z then 1 else 0) + multiset(s[1..])[z]
  {
    assert s == [s[0]] + s[1..];
  }

  lemma ConsCount<T>(a: T, s: seq<T>, z: T)
    ensures multiset([a] + s)[z] == (if a == z then 1 else 0) + multiset(s)[z]
  {
  }

  /** How often a holding reaches the sort: never with value 0, and
      otherwise once per pair of a ticker row carrying its ticker and an
      export row carrying its ticker and value. */
  lemma SelectHoldingsCount(tickers: seq<TickerRow>, exportRows: seq<ExportRow>, h: Holding)
    ensures multiset(SelectHoldings(tickers, exportRows))[h] ==
      if h.marketValue == 0 then 0 else |MatchingPairs(tickers, exportRows, h.ticker, h.marketValue)|
  {
    if h.marketValue != 0 {
      var merged := LeftMerge(tickers, exportRows);
      FilledCount(merged, Some(h.ticker), h.marketValue);
      LeftMergeCount(tickers, exportRows, h.ticker, h.marketValue);
    }
  }

  /** A ticker that no export row carries never reaches the output. */
  lemma UnmatchedTickerDropped(tickers: seq<TickerRow>, exportRows: seq<ExportRow>, t: string)
    requires forall j :: 0 <= j < |exportRows| ==> exportRows[j].symbol != t
    ensures forall h :: h in SelectHoldings(tickers, exportRows) ==> h.ticker != t
  {
    forall h | h in SelectHoldings(tickers, exportRows)
      ensures h.ticker != t
    {
      SelectHoldingsMember(tickers, exportRows, h);
    }
  }

  // ---------------------------------------------------------------------------
  // sort_values(by='Market Value', ascending=False)

  predicate NonIncreasing(s: seq<Holding>) {
    forall i, j :: 0 <= i < j < |s| ==> s[i].marketValue >= s[j].marketValue
  }

  predicate NonIncreasingInts(s: seq<int>) {
    forall i, j :: 0 <= i < j < |s| ==> s[i] >= s[j]
  }

  /** The market value column. */
  function Values(s: seq<Holding>): (r: seq<int>)
    ensures |r| == |s|
    decreases |s|
  {
    if s == [] then [] else [s[0].marketValue] + Values(s[1..])
  }

  /** Putting a row worth at least the first one in front keeps the order. */
  lemma ConsNonIncreasing(h: Holding, s: seq<Holding>)
    requires NonIncreasing(s)
    requires |s| == 0 || h.marketValue >= s[0].marketValue
    ensures NonIncreasing([h] + s)
  {
  }

  lemma NonIncreasingTail(s: seq<Holding>)
    requires |s| > 0 && NonIncreasing(s)
    ensures NonIncreasing(s[1..])
  {
  }

  /** Inserts `h` in front of the first row worth no more than it. */
  function Insert(h: Holding, s: seq<Holding>): (r: seq<Holding>)
    requires NonIncreasing(s)
    ensures NonIncreasing(r)
    ensures multiset(r) == multiset(s) + multiset{h}
    ensures |r| == |s| + 1
    ensures r[0] == h || (|s| > 0 && r[0] == s[0])
    decreases |s|
  {
    if s == [] || h.marketValue >= s[0].marketValue then [h] + s
    else
      NonIncreasingTail(s);
      var rest := Insert(h, s[1..]);
      assert multiset(s) == multiset{s[0]} + multiset(s[1..]) by {
        assert s == [s[0]] + s[1..];
      }
      ConsNonIncreasing(s[0], rest);
      [s[0]] + rest
  }

  /** The rows in non-increasing order of market value. Among rows of equal
      value this fixes one order. */
  function SortByValueDescending(s: seq<Holding>): (r: seq<Holding>)
    ensures NonIncreasing(r)
    ensures multiset(r) == multiset(s)
    ensures |r| == |s|
    decreases |s|
  {
    if s == [] then []
    else
      assert s == [s[0]] + s[1..];
      var r := Insert(s[0], SortByValueDescending(s[1..]));
      assert |r| == |multiset(r)|;
      r
  }

  lemma {:induction false} ValuesAppend(a: seq<Holding>, b: seq<Holding>)
    ensures Values(a + b) == Values(a) + Values(b)
    decreases |a|
  {
    if a == [] {
      assert a + b == b;
    } else {
      assert (a + b)[1..] == a[1..] + b;
      ValuesAppend(a[1..], b);
    }
  }

  lemma ValuesRemove(pre: seq<Holding>, x: Holding, post: seq<Holding>)
    ensures multiset(Values(pre + [x] + post)) == multiset(Values(pre + post)) + multiset{x.marketValue}
  {
    ValuesAppend(pre + [x], post);
    ValuesAppend(pre, [x]);
    ValuesAppend(pre, post);
    assert Values([x]) == [x.marketValue];
  }

  lemma MultisetCancel<T>(x: T, rest: seq<T>, pre: seq<T>, post: seq<T>)
    requires multiset([x] + rest) == multiset(pre + [x] + post)
    ensures multiset(rest) == multiset(pre + post)
  {
    calc {
      multiset(rest);
      multiset([x] + rest) - multiset{x};
      multiset(pre + [x] + post) - multiset{x};
      multiset(pre) + multiset(post);
      multiset(pre + post);
    }
  }

  /** An element of a sequence splits it into the part before it and the
      part after it. */
  lemma SplitAround<T>(b: seq<T>, x: T) returns (pre: seq<T>, post: seq<T>)
    requires x in multiset(b)
    ensures b == pre + [x] + post
  {
    var k :| 0 <= k < |b| && b[k] == x;
    pre, post := b[..k], b[k + 1..];
  }

  /** Rearranging rows rearranges their values. */
  lemma {:induction false} MultisetValues(a: seq<Holding>, b: seq<Holding>)
    requires multiset(a) == multiset(b)
    ensures multiset(Values(a)) == multiset(Values(b))
    decreases |a|
  {
    if a == [] {
      assert |b| == |multiset(b)| == 0;
    } else {
      var x, rest := a[0], a[1..];
      assert a == [x] + rest;
      var pre, post := SplitAround(b, x);
      MultisetCancel(x, rest, pre, post);
      calc {
        multiset(Values(a));
        { assert a == [] + [x] + rest; }
        multiset(Values([] + [x] + rest));
        { ValuesRemove([], x, rest); assert [] + rest == rest; }
        multiset(Values(rest)) + multiset{x.marketValue};
        { MultisetValues(rest, pre + post); }
        multiset(Values(pre + post)) + multiset{x.marketValue};
        { ValuesRemove(pre, x, post); }
        multiset(Values(b));
      }
    }
  }

  lemma {:induction false} ValuesAt(s: seq<Holding>, k: nat)
    requires k < |s|
    ensures Values(s)[k] == s[k].marketValue
    decreases k
  {
    if k > 0 {
      ValuesAt(s[1..], k - 1);
    }
  }

  lemma ValuesNonIncreasing(s: seq<Holding>)
    requires NonIncreasing(s)
    ensures NonIncreasingInts(Values(s))
  {
    forall i, j | 0 <= i < j < |s|
      ensures Values(s)[i] >= Values(s)[j]
    {
      ValuesAt(s, i);
      ValuesAt(s, j);
    }
  }

  lemma HeadIsLargest(a: seq<int>, v: int)
    requires NonIncreasingInts(a) && v in multiset(a)
    ensures |a| > 0 && a[0] >= v
  {
  }

  lemma TailsAgree(a: seq<int>, b: seq<int>)
    requires |a| > 0 && |b| > 0 && a[0] == b[0]
    requires NonIncreasingInts(a) && NonIncreasingInts(b)
    requires multiset(a) == multiset(b)
    ensures NonIncreasingInts(a[1..]) && NonIncreasingInts(b[1..])
    ensures multiset(a[1..]) == multiset(b[1..])
  {
    var x, a', b' := a[0], a[1..], b[1..];
    assert a == [x] + a' && b == [] + [x] + b';
    MultisetCancel(x, a', [], b');
    assert [] + b' == b';
  }

  /** Two non-increasing arrangements of the same numbers are equal. */
  lemma {:induction false} SortedIntsUnique(a: seq<int>, b: seq<int>)
    requires NonIncreasingInts(a) && NonIncreasingInts(b)
    requires multiset(a) == multiset(b)
    ensures a == b
    decreases |a|
  {
    if a == [] {
      assert |b| == |multiset(b)| == 0;
    } else {
      assert |b| == |multiset(b)| == |multiset(a)| == |a|;
      HeadIsLargest(a, b[0]);
      HeadIsLargest(b, a[0]);
      TailsAgree(a, b);
      SortedIntsUnique(a[1..], b[1..]);
      assert a == [a[0]] + a[1..] && b == [b[0]] + b[1..];
    }
  }

  /** The sort leaves only the order of equal-valued rows open: every
      non-increasing rearrangement of the rows has the same market value
      column as SortByValueDescending. */
  lemma SortOrderOnlyAffectsTies(rows: seq<Holding>, p: seq<Holding>)
    requires NonIncreasing(p) && multiset(p) == multiset(rows)
    ensures Values(p) == Values(SortByValueDescending(rows))
  {
    var s := SortByValueDescending(rows);
    MultisetValues(p, s);
    ValuesNonIncreasing(p);
    ValuesNonIncreasing(s);
    SortedIntsUnique(Values(p), Values(s));
  }

  // ---------------------------------------------------------------------------
  // The text

  /** `df['Ticker'] + ' $' + df['Market Value']` after the value has been
      formatted with `"{:,}"`. */
  function Line(h: Holding): string {
    h.ticker + " $" + FormatThousands(h.marketValue)
  }

  /** `df['Text']`: one line per row, in row order. */
  function Lines(rows: seq<Holding>): seq<string> {
    seq(|rows|, k requires 0 <= k < |rows| => Line(rows[k]))
  }

  /** The summary text of the selected rows. */
  function Render(rows: seq<Holding>): string {
    JoinLines(Lines(SortByValueDescending(rows)))
  }

  /** `generate_holdings_summary`: fails when a column it reads is absent,
      and otherwise renders the selected rows. */
  function GenerateHoldingsSummary(tickers: TickerTable, exportTable: ExportTable): (r: Result<string, SummaryError>)
    ensures r.Failure? <==>
      TickerColumn !in tickers.columns || SymbolColumn !in exportTable.columns || MarketValueColumn !in exportTable.columns
    ensures r.Failure? ==>
      || (r.error == MissingColumn(TickerColumn) && TickerColumn !in tickers.columns)
      || (r.error == MissingColumn(SymbolColumn) && SymbolColumn !in exportTable.columns)
      || (r.error == MissingColumn(MarketValueColumn) && MarketValueColumn !in exportTable.columns)
  {
    if TickerColumn !in tickers.columns then Failure(MissingColumn(TickerColumn))
    else if SymbolColumn !in exportTable.columns then Failure(MissingColumn(SymbolColumn))
    else if MarketValueColumn !in exportTable.columns then Failure(MissingColumn(MarketValueColumn))
    else Success(Render(SelectHoldings(tickers.rows, exportTable.rows)))
  }

  // ---------------------------------------------------------------------------
  // Reading a line back

  predicate IsNumberChar(c: char) {
    c == '-' || c == ',' || IsDigit(c)
  }

  lemma FormatThousandsChars(x: int)
    ensures forall i :: 0 <= i < |FormatThousands(x)| ==> IsNumberChar(FormatThousands(x)[i])
  {
    FormatThousandsShape(x);
  }

  /** The length of the longest suffix made of number characters. */
  function NumberSuffixLength(s: string): (n: nat)
    ensures n <= |s|
    decreases |s|
  {
    if s == [] || !IsNumberChar(s[|s| - 1]) then 0 else 1 + NumberSuffixLength(s[..|s| - 1])
  }

  lemma {:induction false} NumberSuffixLengthOf(p: string, f: string)
    requires |p| > 0 && !IsNumberChar(p[|p| - 1])
    requires forall i :: 0 <= i < |f| ==> IsNumberChar(f[i])
    ensures NumberSuffixLength(p + f) == |f|
    decreases |f|
  {
    var s := p + f;
    if f != [] {
      assert s[..|s| - 1] == p + f[..|f| - 1];
      NumberSuffixLengthOf(p, f[..|f| - 1]);
    } else {
      assert s == p;
    }
  }

  /** Reads a summary line back into the ticker and the value it shows: the
      number is the trailing run of '-', ',' and digits, and it must follow
      " $". */
  function ParseLine(l: string): Option<Holding> {
    var n := NumberSuffixLength(l);
    var head, number := l[..|l| - n], l[|l| - n..];
    if |head| >= 2 && head[|head| - 2..] == " $" then
      match ParseDecimal(StripCommas(number))
      case Some(v) => Some(Holding(head[..|head| - 2], v))
      case None => None
    else None
  }

  /** A line is unambiguous whatever the ticker holds: the ticker and the
      value can be read back from it. */
  lemma LineRoundTrip(h: Holding)
    ensures ParseLine(Line(h)) == Some(h)
  {
    var f := FormatThousands(h.marketValue);
    var p := h.ticker + " $";
    FormatThousandsChars(h.marketValue);
    NumberSuffixLengthOf(p, f);
    FormatThousandsRoundTrip(h.marketValue);
    var l := Line(h);
    assert l == p + f;
    assert l[..|l| - |f|] == p && l[|l| - |f|..] == f;
  }

  // ---------------------------------------------------------------------------
  // The summary as a whole

  predicate NoNewlineInTickers(tickers: seq<TickerRow>) {
    forall i :: 0 <= i < |tickers| && tickers[i].ticker.Some? ==> '\n' !in tickers[i].ticker.value
  }

  /** No line holds a newline when no ticker does. */
  lemma LinesNoNewline(rows: seq<Holding>)
    requires forall k :: 0 <= k < |rows| ==> '\n' !in rows[k].ticker
    ensures forall k :: 0 <= k < |rows| ==> '\n' !in Lines(rows)[k]
  {
    forall k | 0 <= k < |rows|
      ensures '\n' !in Lines(rows)[k]
    {
      var h := rows[k];
      FormatThousandsChars(h.marketValue);
      assert Lines(rows)[k] == h.ticker + " $" + FormatThousands(h.marketValue);
    }
  }

  /** With every required column present the invocation succeeds; the text is
      empty exactly when no row survives the filters; otherwise, as long as no
      ticker holds a newline, splitting it on newlines gives one line per
      surviving row, the rows taken in non-increasing order of value, each
      line the ticker, " $" and the formatted value. */
  lemma SummaryLines(tickers: TickerTable, exportTable: ExportTable)
    requires TickerColumn in tickers.columns
    requires SymbolColumn in exportTable.columns && MarketValueColumn in exportTable.columns
    ensures GenerateHoldingsSummary(tickers, exportTable).Success?
    ensures var text := GenerateHoldingsSummary(tickers, exportTable).value;
      var selected := SelectHoldings(tickers.rows, exportTable.rows);
      && (text == "" <==> selected == [])
      && (selected != [] && NoNewlineInTickers(tickers.rows) ==>
            exists rows: seq<Holding> ::
              && multiset(rows) == multiset(selected)
              && NonIncreasing(rows)
              && SplitLines(text) == Lines(rows))
  {
    var selected := SelectHoldings(tickers.rows, exportTable.rows);
    var rows := SortByValueDescending(selected);
    var lines := Lines(rows);
    assert GenerateHoldingsSummary(tickers, exportTable).value == JoinLines(lines);
    JoinLinesEmpty(lines);
    if |lines| == 1 {
      assert |lines[0]| > 0;
    }
    if selected != [] && NoNewlineInTickers(tickers.rows) {
      forall k | 0 <= k < |rows|
        ensures '\n' !in rows[k].ticker
      {
        var h := rows[k];
        assert h in multiset(selected);
        SelectHoldingsMember(tickers.rows, exportTable.rows, h);
      }
      LinesNoNewline(rows);
      SplitJoin(lines);
    }
  }

  // ---------------------------------------------------------------------------
  // A worked instance

  lemma ExampleMergeOne(exportRows: seq<ExportRow>)
    requires exportRows == [ExportRow("AAPL", Some(5000000)), ExportRow("MSFT", Some(0))]
    ensures MergeOne(TickerRow(Some("AAPL")), exportRows) == [MergedRow(Some("AAPL"), Some(5000000))]
    ensures MergeOne(TickerRow(Some("MSFT")), exportRows) == [MergedRow(Some("MSFT"), Some(0))]
    ensures MergeOne(TickerRow(Some("TSLA")), exportRows) == [MergedRow(Some("TSLA"), None)]
  {
    var aapl, msft, tsla := TickerRow(Some("AAPL")), TickerRow(Some("MSFT")), TickerRow(Some("TSLA"));
    assert exportRows[1..][1..] == [];
    assert MatchedRows(aapl, exportRows[1..]) == [];
    assert MatchedRows(msft, exportRows[1..]) == [MergedRow(Some("MSFT"), Some(0))];
    assert MatchedRows(tsla, exportRows[1..]) == [];
  }

  lemma ExampleMerge(tickers: seq<TickerRow>, exportRows: seq<ExportRow>)
    requires tickers == [TickerRow(Some("AAPL")), TickerRow(Some("MSFT")), TickerRow(Some("TSLA"))]
    requires exportRows == [ExportRow("AAPL", Some(5000000)), ExportRow("MSFT", Some(0))]
    ensures LeftMerge(tickers, exportRows) ==
      [MergedRow(Some("AAPL"), Some(5000000)), MergedRow(Some("MSFT"), Some(0)), MergedRow(Some("TSLA"), None)]
  {
    ExampleMergeOne(exportRows);
    assert tickers[1..][1..] == [tickers[2]];
    assert LeftMerge(tickers[1..][1..], exportRows) == [MergedRow(Some("TSLA"), None)];
    assert LeftMerge(tickers[1..], exportRows) == [MergedRow(Some("MSFT"), Some(0)), MergedRow(Some("TSLA"), None)];
  }

  lemma ExampleFilters(merged: seq<MergedRow>)
    requires merged ==
      [MergedRow(Some("AAPL"), Some(5000000)), MergedRow(Some("MSFT"), Some(0)), MergedRow(Some("TSLA"), None)]
    ensures DropZeroValue(DropMissingTicker(FillMissingValues(merged))) == [Holding("AAPL", 5000000)]
  {
    var filled := [FilledRow(Some("AAPL"), 5000000), FilledRow(Some("MSFT"), 0), FilledRow(Some("TSLA"), 0)];
    var kept := [Holding("AAPL", 5000000), Holding("MSFT", 0), Holding("TSLA", 0)];
    ExampleFill(merged, filled);
    ExampleDropTicker(filled, kept);
    ExampleDropZero(kept);
  }

  lemma ExampleFill(merged: seq<MergedRow>, filled: seq<FilledRow>)
    requires merged ==
      [MergedRow(Some("AAPL"), Some(5000000)), MergedRow(Some("MSFT"), Some(0)), MergedRow(Some("TSLA"), None)]
    requires filled == [FilledRow(Some("AAPL"), 5000000), FilledRow(Some("MSFT"), 0), FilledRow(Some("TSLA"), 0)]
    ensures FillMissingValues(merged) == filled
  {
    assert merged[1..][1..] == [merged[2]];
    assert FillMissingValues([merged[2]]) == [filled[2]];
    assert FillMissingValues(merged[1..]) == filled[1..];
  }

  lemma ExampleDropTicker(filled: seq<FilledRow>, kept: seq<Holding>)
    requires filled == [FilledRow(Some("AAPL"), 5000000), FilledRow(Some("MSFT"), 0), FilledRow(Some("TSLA"), 0)]
    requires kept == [Holding("AAPL", 5000000), Holding("MSFT", 0), Holding("TSLA", 0)]
    ensures DropMissingTicker(filled) == kept
  {
    assert filled[1..][1..] == [filled[2]];
    assert DropMissingTicker([filled[2]]) == [kept[2]];
    assert DropMissingTicker(filled[1..]) == kept[1..];
  }

  lemma ExampleDropZero(kept: seq<Holding>)
    requires kept == [Holding("AAPL", 5000000), Holding("MSFT", 0), Holding("TSLA", 0)]
    ensures DropZeroValue(kept) == [Holding("AAPL", 5000000)]
  {
    assert kept[1..][1..] == [kept[2]];
    assert DropZeroValue([kept[2]]) == [];
    assert DropZeroValue(kept[1..]) == [];
  }

  lemma ExampleLine()
    ensures Line(Holding("AAPL", 5000000)) == "AAPL $5,000,000"
  {
    FormatThousandsMillions();
  }

  lemma ExampleRender()
    ensures Render([Holding("AAPL", 5000000)]) == "AAPL $5,000,000"
  {
    var aapl := Holding("AAPL", 5000000);
    assert SortByValueDescending([aapl]) == [aapl];
    assert Lines([aapl]) == [Line(aapl)];
    ExampleLine();
  }

  /** Tickers AAPL, MSFT and TSLA against an export holding AAPL at 5,000,000
      and MSFT at 0: MSFT is dropped for its zero value, TSLA because it has
      no export row, and AAPL is written with its thousands separators. */
  lemma ThreeTickerExample(tickers: TickerTable, exportTable: ExportTable)
    requires tickers == TickerTable({TickerColumn},
      [TickerRow(Some("AAPL")), TickerRow(Some("MSFT")), TickerRow(Some("TSLA"))])
    requires exportTable == ExportTable({SymbolColumn, MarketValueColumn},
      [ExportRow("AAPL", Some(5000000)), ExportRow("MSFT", Some(0))])
    ensures GenerateHoldingsSummary(tickers, exportTable) == Success("AAPL $5,000,000")
  {
    ExampleMerge(tickers.rows, exportTable.rows);
    ExampleFilters(LeftMerge(tickers.rows, exportTable.rows));
    ExampleRender();
  }
}
