# County COVID-19 community level report, modelled in Dafny

The script `covid-county-level.py` asks the CDC open-data service for the
week's COVID-19 community level of every county (optionally one state or one
county), sorts the rows by severity and county name, and prints one coloured
line per county. This project models its pure core:

- the severity key of `compare_by_covid_level`: the `weights` table
  (high 0, medium 1, low 2), looked up after lower-casing the level, paired
  with the county name;
- the stable `sorted(data, key=...)` call. Python works out every key before it
  compares anything, so one unknown level anywhere makes the whole sort fail
  with the `KeyError` of the first such row. That error carries the key that
  was looked up, which is the level after lower-casing;
- the report loop of `main`:
  - the `colors` table (high red, medium yellow, low green);
  - the `county (state): ` prefix padded to 35 columns, or the `county: `
    prefix padded to 24 columns when a state filter was given;
  - the level text, printed as written;
  - the exit status;
- the query window: `last_week = today - timedelta(days=7)` on Python's
  proleptic Gregorian dates, and the SoQL `where` clause that writes both dates
  in ISO form.

Files:

| file | module | contents |
|---|---|---|
| results.dfy | `Results` | `Option`, `Result` |
| ascii.dfy | `Ascii` | `str.lower()` on ASCII |
| strorder.dfy | `StrOrder` | Python's `str` ordering (lexicographic by code point), proved a total order |
| levels.dfy | `Levels` | severity enum, the weight and colour tables |
| sorting.dfy | `CountySort` | record, key, key-tagged entries, stable insertion sort, sortedness / permutation / stability / idempotence / uniqueness |
| render.dfy | `Render` | padding, line rendering, the report loop, `main` |
| datewindow.dfy | `DateWindow` | dates, ordinals, `last_week`, ISO text, the `where` clause |

CPython's `sorted` with a `key` function first computes every element's
key, then sorts. The model follows the same order. `FirstUnknown` finds the
first row without a weight. `Tag` pairs each row with its key. A stable
insertion sort orders the tagged entries, and `Rows` drops the tags again.
`SortByLevelCharacterised` proves that the result is the one sorted
arrangement of the rows that keeps equal-key rows in input order. Any stable
sort, Python's included, returns that same list.

The format spec `<35` only pads: a longer prefix is printed whole, and
`PadRight` states exactly that.

## Model

| member | source | states |
|---|---|---|
| Ascii.Lower | covid-county-level.py:26 | every upper-case ASCII letter is lowered, every other character kept, length preserved |
| Levels.Rank | covid-county-level.py:25-26 | weight 0/1/2 exactly when the lowered level is high/medium/low; no weight (the KeyError) exactly when it is none of them |
| Levels.ColorOf | covid-county-level.py:57-61 | red/yellow/green exactly when the lowered level is high/medium/low; no colour (KeyError) otherwise |
| Levels.SeverityOf | covid-county-level.py:25-26 | the reference reading of a level as a severity enum (high, medium, low, or none), against which `KeyOf` and `TablesAgree` state the weight and colour |
| Levels.TablesAgree | covid-county-level.py:57-61 | a level has a weight iff it has a colour, and both tables read the same severity |
| Levels.CaseInsensitive | covid-county-level.py:26 | levels equal after lowering get the same weight and the same colour |
| Levels.RankOfLowered | covid-county-level.py:26 | looking up an already lowered level gives the same weight and colour |
| Levels.HighSpellings | covid-county-level.py:25-26 | "HIGH", "High" and "high" all get weight 0 and colour red |
| Levels.UnknownSpellings | covid-county-level.py:26 | "critical" and the empty level have neither weight nor colour |
| StrOrder.LeTotal | covid-county-level.py:26 | any two county names are comparable |
| StrOrder.LeTransitive | covid-county-level.py:26 | the county-name order is transitive |
| StrOrder.LeAntisymmetric | covid-county-level.py:26 | names ordered both ways are equal |
| StrOrder.LtIffNotGe | covid-county-level.py:26 | `a < b` holds exactly when `b <= a` fails, as Python's comparison of `str` gives |
| CountySort.KeyOf | covid-county-level.py:24-26 | the key is the weight of the row's severity (high 0, medium 1, low 2) paired with its county |
| CountySort.KeyLeTotal | covid-county-level.py:26 | any two keys are comparable under Python's tuple order (weight first, county name to break ties) |
| CountySort.KeyLeTransitive | covid-county-level.py:26 | the tuple order on keys is transitive |
| CountySort.KeyLeAntisymmetric | covid-county-level.py:26 | keys ordered both ways are equal |
| CountySort.FirstUnknown | covid-county-level.py:51 | finds the first row, in input order, whose level has no weight, or reports that every row has one |
| CountySort.Insert | covid-county-level.py:51 | inserting adds one entry, and every entry of the result is the new one or one of the old |
| CountySort.InsertSorted | covid-county-level.py:51 | insertion keeps a sorted sequence sorted |
| CountySort.InsertionSort | covid-county-level.py:51 | the output has the input's length and is ordered by (weight, county) |
| CountySort.SortPermutes | covid-county-level.py:51 | the output is a permutation of the input entries |
| CountySort.SortRowsPermute | covid-county-level.py:51 | the sorted rows are a permutation of the input rows |
| CountySort.InsertWithKey | covid-county-level.py:51 | an inserted entry goes in front of the entries sharing its key, and other keys' entries keep their order |
| CountySort.SortStable | covid-county-level.py:51 | for every key, the entries with that key keep their input order |
| CountySort.SortedIsFixpoint | covid-county-level.py:51 | an already sorted input comes back unchanged |
| CountySort.SortedStableUnique | covid-county-level.py:51 | two sorted sequences agreeing on every key's entries are identical |
| CountySort.SortCharacterised | covid-county-level.py:51 | the insertion sort's output equals a sequence iff that sequence is sorted and keeps every key's entries in input order |
| CountySort.StableRows | covid-county-level.py:51 | rows keep every key's rows in input order exactly when their key-tagged entries do |
| CountySort.SortByLevel | covid-county-level.py:51 | fails iff some level is unknown, with the first unknown row's lowered level as the KeyError key; otherwise a sorted permutation of the rows that keeps equal-key rows in input order |
| CountySort.SortIdempotent | covid-county-level.py:51 | sorting the sorted output again gives the same result |
| CountySort.SortByLevelCharacterised | covid-county-level.py:51 | the sort returns a row sequence iff that sequence is sorted by (weight, county) and keeps every key's rows in input order |
| CountySort.SeverityBlocks | covid-county-level.py:24-26 | in sorted output every high row precedes every medium row, which precede every low row; rows of one level are in county order |
| CountySort.SingleRow | covid-county-level.py:51 | a single row with a known level is returned unchanged |
| CountySort.SwapByRank | covid-county-level.py:51 | a lower-severity row listed before a higher-severity row ends up after it |
| Render.PrefixChoice | covid-county-level.py:63-67 | no state filter or an empty one (`not state`) gives `county (state): ` in 35 columns; any other filter gives `county: ` in 24 columns |
| Render.PadRight | covid-county-level.py:63-67 | the field is max(len(prefix), width) long, starts with the prefix, and continues only with spaces |
| Render.RenderLine | covid-county-level.py:60-68 | fails iff the level is unknown, with the lowered level as the KeyError key; otherwise the colour of its severity, the level text unchanged, and the padded prefix (with state when no state filter, else without) |
| Render.LineLayout | covid-county-level.py:63-68 | a printed line is the prefix, spaces to the column, then the level text from column max(len(prefix), width) |
| Render.RenderAll | covid-county-level.py:59-68 | one line per row in order; on an unknown level the loop stops there, with the lines already printed |
| Render.PrintLines | covid-county-level.py:59-68 | the loop prints exactly what `RenderAll` describes |
| Render.Report | covid-county-level.py:54-73 | fails iff some level is unknown, with the sort's KeyError and no lines; otherwise line i is sorted row i rendered, one line per row; exit status 0 iff it succeeds |
| Render.ReportFollowsSort | covid-county-level.py:59-68 | line i is sorted row i rendered: its level text as written, its colour, and its prefix padded to 35 or 24 columns |
| Render.EmptyReport | covid-county-level.py:59 | no rows: no lines, exit status 0 |
| Render.TwoCountyExample | covid-county-level.py:54-68 | Bexar (Medium) then Allegany (High), no state filter: Allegany in red first, then Bexar in yellow, with 35-column `county (state): ` prefixes |
| Render.StateFilterExample | covid-county-level.py:63-67 | with a state filter the line is `county: ` padded to 24 columns |
| DateWindow.Ordinal | covid-county-level.py:45 | a date's day number lies within the span of its year |
| DateWindow.OrdinalOrder | covid-county-level.py:45 | one date is earlier in the calendar than another exactly when its day number is smaller |
| DateWindow.OrdinalInjective | covid-county-level.py:45 | two valid dates have the same day number exactly when they are the same date |
| DateWindow.OrdinalPositive | covid-county-level.py:44-45 | every date is day 1 or later, and only 0001-01-01 is day 1 |
| DateWindow.YearStep | covid-county-level.py:45 | consecutive years are 365 or 366 days apart, by the Gregorian leap rule |
| DateWindow.PrevDay | covid-county-level.py:45 | the day before is a valid date one ordinal earlier; it fails only at 0001-01-01 |
| DateWindow.MinusDays | covid-county-level.py:45 | `d - n days`, when it succeeds, is a valid date |
| DateWindow.MinusDaysOrdinal | covid-county-level.py:45 | `d - n days` is n ordinals earlier; it fails (OverflowError) iff that would fall before day 1 |
| DateWindow.MinusDaysCharacterised | covid-county-level.py:45 | `d - n days` returns a date exactly when that date is valid and n ordinals earlier |
| DateWindow.ZeroPadValue | covid-county-level.py:48 | zero-padded decimal text reads back as the number when the number fits the width |
| DateWindow.Iso | covid-county-level.py:48 | ten characters: digits, with dashes at positions 4 and 7 |
| DateWindow.IsoRoundTrip | covid-county-level.py:48 | the `YYYY-MM-DD` text of a date parses back to the same date |
| DateWindow.WhereClause | covid-county-level.py:44-48 | the clause names a `last_week` exactly 7 days before `today` and `today`, in ISO form; it fails iff `today` is in the first week of year 1 |
| DateWindow.WhereClauseNames | covid-county-level.py:44-48 | any valid date 7 days before `today` is the one the clause names, so the clause text is determined |
| DateWindow.MidMonthClause | covid-county-level.py:44-48 | for today 2024-03-15 the clause is `date_updated between "2024-03-08" and "2024-03-15"` |
| DateWindow.LeapMonthExample | covid-county-level.py:45 | a week before 2024-03-03 is 2024-02-25, passing 29 February |
| DateWindow.NewYearExample | covid-county-level.py:45 | a week before 2024-01-03 is 2023-12-27 |
| DateWindow.FirstWeekOverflows | covid-county-level.py:45 | there is no clause for 0001-01-07; there is one for 0001-01-08 |

## Left out

- Command-line parsing (`parse_cli_args`, lines 12-21): framework code. The state filter is a parameter of `Render.Report`.
- The Socrata client, its HTTP request, its 10-second timeout and its context manager (lines 47-49): a foreign library over the network. The fetched rows are an arbitrary input sequence. So the state and county filters that the server applies are not modelled, and neither are network errors.
- The app-token lookup in the environment (line 39): environment I/O. Nothing in the model depends on it.
- `datetime.now()` (line 44): a clock read. `today` is a parameter of `DateWindow.WhereClause`.
- termcolor's ANSI escape codes, `print` and `sys.exit` (lines 9, 64-68, 73): output side effects. A printed line is a `Render.Line` value with the colour as an enum, and the exit status is `Output.ExitCode`.
- Ascii.Lower: only ASCII letters are lowered; Python's `str.lower()` also maps non-ASCII letters. Of the non-ASCII characters, only the Kelvin sign (to `k`) and the dotted capital I (to `i` plus a combining dot) lower to text containing ASCII letters. Neither can turn a level into exactly "high", "medium" or "low", so the two lookups are unaffected.
- CountySort.KeyOf: rows are typed records with all three fields present. A row missing `county`, `state` or `covid_19_community_level`, which would raise KeyError in the script, is not modelled.
