# Holdings summary generator, modelled in Dafny

The Streamlit app reads two tables. The first is a master table of tickers of interest, with a
`Ticker` column. The second is a 13F holdings export from WhaleWisdom, with `Symbol` and
`Market Value` columns. `generate_holdings_summary` turns the two into a plain-text summary
with one line per holding:

1. left-merge the ticker table with the export on `Ticker == Symbol`;
2. replace a missing market value with 0 and make it an integer;
3. drop rows without a ticker, and rows whose value is 0;
4. sort by market value, largest first;
5. format each value with Python's `"{:,}"`;
6. write `<ticker> $<value>` for each row and join the lines with newlines.

The model is pure, like the function: datatypes for the rows and tables, and functions and
lemmas for each step.

- `wrappers.dfy`: `Option`, which stands for a cell that may be missing (a pandas NaN), and
  `Result`, for an invocation that fails.
- `thousands.dfy`: Python's `str(x)`, `int(s)` and `"{:,}".format(x)` for integers. It proves
  the layout of the grouped form. It also proves that deleting the commas and parsing gives
  `x` back.
- `tagging.dfy`: pairing a set of row indices with one fixed row index, which is used to
  count the row pairs the merge joins.
- `text_lines.dfy`: `'\n'.join` and `str.split('\n')`, with their round trip and the layout of
  the joined text.
- `holdings.dfy`:
  - the merge, the fill, the two filters, the sort, the line format and the whole function;
  - what reaches the output, how many times, and in which order;
  - that every line can be read back;
  - that, over the tables the model describes, the function fails exactly when a required
    column is missing;
  - a worked three-ticker instance.

A missing required column makes pandas raise `KeyError`. The app catches the error and shows
it (`streamlit_app.py:59-64`). The model returns `Failure(MissingColumn(name))` instead.

## Model

| member | source | states |
|---|---|---|
| Holdings.MatchedRowsMember | streamlit_app.py:14 | A ticker row is paired with the value of every export row whose symbol equals its ticker, and with nothing else. There are no pairings exactly when no export row matches. |
| Holdings.MatchedRowsAppend | streamlit_app.py:14 | Matching a ticker row against a concatenation of export tables gives the matches of each table in turn, so the matches follow the export's row order. |
| Holdings.MatchedRowsCount | streamlit_app.py:14 | A ticker row is paired with a value once for each export row that matches it and carries that value. Duplicate export rows give duplicate pairings. |
| Holdings.MergeOneMember | streamlit_app.py:14 | In a left merge, a ticker row contributes its pairings with matching export rows. If nothing matches, it contributes exactly one row, which has a missing value. |
| Holdings.MergeOneCount | streamlit_app.py:14 | A ticker row contributes a row with a given present value once per export row that matches it and carries that value. It contributes no row for any other ticker. |
| Holdings.LeftMergeAppend | streamlit_app.py:14 | The left merge keeps the order of the left table: merging a concatenation is the concatenation of the merges. |
| Holdings.LeftMergeMember | streamlit_app.py:14 | A merged row exists exactly when some ticker row either matched an export row carrying that value, or matched none and has a missing value. |
| Holdings.LeftMergeCount | streamlit_app.py:14 | The merge holds a row with a present ticker and value once for each pair of a ticker row with that ticker and an export row with that symbol and value. |
| Holdings.FillMissingValuesAt | streamlit_app.py:17 | `fillna(0)`: row by row, a missing value becomes 0, a present value is kept, and the ticker is unchanged. |
| Holdings.FilledCount | streamlit_app.py:17 | A nonzero value occurs after filling exactly as often as it occurred before: filling only ever produces 0. |
| Holdings.DropMissingTicker | streamlit_app.py:20 | `dropna`: the rows with a present ticker are kept, each as often as it occurs, and the others are removed. |
| Holdings.DropZeroValue | streamlit_app.py:23 | Rows worth exactly 0 are removed. Every other row, negative ones included, is kept as often as it occurs. |
| Holdings.SelectHoldingsMember | streamlit_app.py:14-23 | A holding reaches the sort exactly when its value is nonzero and some ticker row with its ticker matched an export row carrying that value. |
| Holdings.SelectHoldingsCount | streamlit_app.py:14-23 | A holding reaches the sort as many times as there are pairs of a ticker row carrying its ticker and an export row carrying its ticker and value, and never when its value is 0. |
| Holdings.UnmatchedTickerDropped | streamlit_app.py:14-23 | A ticker that no export row carries never reaches the output. |
| Holdings.Insert | streamlit_app.py:25 | Inserting into a non-increasing sequence keeps it non-increasing and adds exactly the new row. |
| Holdings.SortByValueDescending | streamlit_app.py:25 | `sort_values(ascending=False)`: the result is non-increasing in market value and is a permutation of the input. |
| Holdings.SortOrderOnlyAffectsTies | streamlit_app.py:25 | Every non-increasing permutation of the rows has the same value column as the sort. Only the order of equal-valued rows is left open. |
| Holdings.LineRoundTrip | streamlit_app.py:26-29 | The ticker and the value can be read back from a line `<ticker> $<formatted value>`, whatever the ticker holds. |
| Holdings.GenerateHoldingsSummary | streamlit_app.py:14-17 | Over the tables the model describes, the invocation fails exactly when `Ticker`, `Symbol` or `Market Value` is absent, and the error names a column that is absent. |
| Holdings.SummaryLines | streamlit_app.py:9-34 | With all columns present the invocation succeeds. The text is empty exactly when no row survives. Otherwise, when no ticker holds a newline, splitting on newlines gives one line per surviving row, in non-increasing order of value. |
| Holdings.ThreeTickerExample | streamlit_app.py:9-34 | AAPL (5,000,000), MSFT (0) and TSLA (absent from the export) give exactly `AAPL $5,000,000`. |
| Thousands.Digits | streamlit_app.py:26 | The decimal digits of a natural number are never empty and have no leading zero, except for zero, which is "0". |
| Thousands.DigitsOfValue | streamlit_app.py:26 | Digit strings without a leading zero are canonical: such a string is the digit form of its own value. |
| Thousands.DecimalRoundTrip | streamlit_app.py:26 | `int(str(x)) == x` for every integer. |
| Thousands.GroupShape | streamlit_app.py:26 | Grouping adds one comma per full group of three digits after the first group, at every fourth position from the right, and keeps the leading digit. |
| Thousands.FormatThousandsShape | streamlit_app.py:26 | `"{:,}"` starts with '-' exactly for negative numbers and has a well-grouped body. The body starts with '0' only for zero, which is written "0". |
| Thousands.FormatThousandsStrip | streamlit_app.py:26 | Deleting the commas from `"{:,}".format(x)` gives `str(x)`. |
| Thousands.FormatThousandsRoundTrip | streamlit_app.py:26 | Deleting the commas and parsing gives `x` back. |
| Thousands.FormatThousandsMillions | streamlit_app.py:26 | `"{:,}".format(5000000) == "5,000,000"`. |
| Thousands.FormatThousandsSmall | streamlit_app.py:26 | `"{:,}"` of -1234, 999 and 0 gives "-1,234", "999" and "0". |
| TextLines.SplitJoin | streamlit_app.py:32 | Splitting `'\n'.join(lines)` on newlines gives the lines back, when there is at least one line and none holds a newline. |
| TextLines.JoinLinesAppend | streamlit_app.py:32 | Appending a line to a nonempty list appends a newline and that line to the text, so a single newline separates each line from the next. |
| TextLines.JoinLinesLayout | streamlit_app.py:32 | The joined text holds one newline fewer than there are lines, when no line holds one, and ends with the last line. |
| TextLines.JoinLinesEmpty | streamlit_app.py:32 | The joined text is empty exactly when there are no lines, or a single empty one. |

## Left out

- Reading the Excel files is left out. This includes `pd.read_excel`, the three skipped banner rows of the export (`streamlit_app.py:7`, `streamlit_app.py:11`), and the cell types a file may hold. The model starts from tables that were already read.
- `st.cache_data`, the session state, the uploads, the buttons, the text area and the download (`streamlit_app.py:5-6`, `streamlit_app.py:36-68`) are user interface and I/O.
- The industry AUM page (`pages/3_📈_Industry_AUM_Lookup.py`) is not part of this model.
- Holdings.FillMissingValuesAt: values are integers from the start. The truncation of a fractional float by `astype(int)` is not modelled. Neither is the failure on an infinite value.
- Holdings.FillMissingValuesAt: `astype(int)` casts to a fixed-width integer (64-bit, or 32-bit on some platforms). Values outside that range wrap around or are undefined. The model's integers are unbounded, so it does not wrap.
- Holdings.GenerateHoldingsSummary: a `Ticker` column whose cells are all blank is read as a float column. The merge of a float column with the string `Symbol` column then fails with a `ValueError`. The model only knows missing cells, not column types. It succeeds on such a table, with an empty summary.
- Holdings.GenerateHoldingsSummary: only the columns the function reads are modelled. When both tables carry a column of the same name, pandas renames the columns with the suffixes `_x` and `_y`. That case is not modelled.
- Holdings.GenerateHoldingsSummary: when several columns are missing, the error reported is the first missing one in the order `Ticker`, `Symbol`, `Market Value`. The contract promises only that the reported column is missing, not which one pandas reports first.
- Holdings.SortByValueDescending: pandas' default sort makes no promise about the order of equal-valued rows. The model fixes one order. SortOrderOnlyAffectsTies proves that the value column is the same for every order, so the model leaves only that order open.
- Holdings.MatchedRowsMember: export symbols are always present strings and tickers are strings or missing. Pandas also pairs a missing ticker with a missing symbol, but the rows that produces have no ticker, so `dropna` removes them and the output is the same.
- Holdings.SummaryLines: the line-by-line statement assumes that no ticker holds a newline. A ticker with a newline spreads over several lines of the text.
- Holdings.DropMissingTicker: the contract gives how often each row is kept but not that the kept rows stay in order. The sort that follows discards that order, except among equal-valued rows, whose order the model leaves open.
- Holdings.DropZeroValue: the same as for DropMissingTicker. The contract gives multiplicities, not order.
