# University Rankings Dashboard — reconciliation and selection model

A Dafny model of the logic inside the Streamlit dashboard `UNIVERSITY.py`
that compares New Jersey Institute of Technology (NJIT) with other
universities across four ranking agencies (TIMES, QS, USN, Washington
Monthly). The model covers the parts that turn the four ranking tables and
the user's choices into a list of universities to compare:

- **Rank bands** (`rank.dfy`, `numerals.dfy`): `parse_rank_range` turns a rank
  cell such as `"23-30"`, `"23–30"` or `"12"` into a (low, high, mid) band, and
  `build_rank_range_df` keeps the rows whose rank cell yields a band.
- **Reconciliation** (`tables.dfy`): the universities common to all four
  tables, the NJ filter ("All" / "Yes" / "No"), each agency's sorted extras,
  the year list, the "latest year" of the overview and of each agency tab,
  and the KPI cell lookup `get_metric_value`.
- **Selection** (`selection.dfy`): peer groups, the pool a user may add
  universities from, `all_selected_unis` with its Rutgers fallback, and the
  compared list with NJIT first.
- **Per-tab memory** (`session.dfy`): a `SessionState` class holding each tab's
  remembered manual picks, and one tab interaction as a method that rewrites
  that memory.
- **Colours** (`colors.dfy`): `create_color_map` as a loop that fills a map
  from the reserved-colour table and a hash-indexed fallback palette.
- Shared vocabulary (`basics.dfy`, `sorting.dfy`): `Option`, first-occurrence
  de-duplication (`Series.unique()`, `dict.fromkeys`), list comprehensions,
  `max(..., default=None)`, and Python's `sorted` on names and years.

A table is a sequence of `Record`s, one per row: a name (`IPEDS_Name`), a year,
the `New_Jersey_University` flag text, and a map from metric header to a cell
`Value`. A cell is NaN, None, an int, a float (kept as the text Python's
`str` prints for it) or text. Python's `hash` is a parameter `h`. Each widget's
result is an input, required to come from that widget's options without
repeats. The order that `list(set(...))` produces is left open: `ListOfSet`
picks elements in any order, so every property proved about the selection
holds for every order Python may produce.

Three behaviours of the code a reader might not expect, all modelled as written:
- The code never swaps a band written high-first (`"30-23"` gives low 30,
  high 23), so low ≤ high is not a property of a band.
- An agency's extras are its universities outside the common set. They need
  not be unique to that one agency.
- NJIT appears twice in the compared list when the peer-group table itself
  lists NJIT. Peer names are not filtered (UNIVERSITY.py:136-140).

## Model

| member | source | states |
|---|---|---|
| `Sorting.SortNames` | UNIVERSITY.py:152 | `sorted` of a duplicate-free name list has the same elements and is strictly ascending in Python's `str` order |
| `Sorting.SortAscending` | UNIVERSITY.py:188 | insertion sort under any strict total order yields a strictly ascending list when its input has no repeats |
| `Sorting.AscendingUnique` | UNIVERSITY.py:111-118 | two ascending lists with the same elements are equal, so the arbitrary order of a Python set never shows after `sorted` |
| `Sorting.StrLessIsStrictTotalOrder` | UNIVERSITY.py:127 | Python's lexicographic `str` comparison is irreflexive, transitive and total |
| `Basics.MaxOf` | UNIVERSITY.py:603 | `max(s, default=None)` is `None` exactly for the empty list, otherwise an element no smaller than any other |
| `Basics.Dedup` | UNIVERSITY.py:571 | first-occurrence de-duplication (`dict.fromkeys`, `unique()`) has no repeats and keeps every element |
| `Basics.DedupPrefix` | UNIVERSITY.py:571 | de-duplicating a longer list never reorders what the shorter one already listed |
| `Numerals.ParseInt` | UNIVERSITY.py:357-359 | `int(text)` succeeds only on non-empty text whose characters after the first are digits, and a negative result needs a leading minus |
| `Numerals.IntToString` | UNIVERSITY.py:367 | `str(i)` is non-empty and holds a minus sign exactly when `i` is negative |
| `Numerals.ParseIntUnsigned` | UNIVERSITY.py:357-359 | without a minus sign, `int` succeeds exactly on an optional `+` followed by digits, and its value is non-negative |
| `Numerals.ParseIntOfIntToString` | UNIVERSITY.py:367 | `int(str(i)) == i` for every integer |
| `RankRange.ReplaceChar` | UNIVERSITY.py:355 | `replace("–", "-")` keeps the length, leaves no en dash behind, and changes nothing in text without one |
| `RankRange.Split` | UNIVERSITY.py:355 | `split("-")` returns at least one part, and no part contains a hyphen |
| `RankRange.SplitJoin` | UNIVERSITY.py:355 | `"-".join(s.split("-")) == s` |
| `RankRange.SplitAround` | UNIVERSITY.py:355 | text with exactly one hyphen splits into the two sides of that hyphen |
| `RankRange.MinusTextSplitsInTwo` | UNIVERSITY.py:355-359 | text that `int` reads with a minus sign always splits in two, so the single-value branch never sees a minus |
| `RankRange.ParseRankRange` | UNIVERSITY.py:353-362 | `parse_rank_range`: whenever a band is returned, its mid is the floor mean `(low + high) // 2` |
| `RankRange.RankMidBetween` | UNIVERSITY.py:357 | the mid of every band lies between its low and high, whichever of them is larger |
| `RankRange.RankOfSingle` | UNIVERSITY.py:358-360 | a single numeral `n` parses to the band (n, n, n) |
| `RankRange.RankOfPair` | UNIVERSITY.py:355-357 | `a-b` or `a–b` parses to (a, b, (a + b) // 2) in the order written, never reordered |
| `RankRange.ParsedIsRankText` | UNIVERSITY.py:353-362 | every text that parses is a numeral, or two numerals joined by one dash |
| `RankRange.ParseRankRangeCharacterised` | UNIVERSITY.py:353-362 | a band is returned if and only if the text is a rank text, and all three numbers of a band are non-negative |
| `RankRange.RankRejectsTwoDashes` | UNIVERSITY.py:355-362 | text with two or more dashes (`"1-2-3"`) gives no band, and no exception escapes |
| `RankRange.RankRejectsLeadingDash` | UNIVERSITY.py:355-362 | a leading minus or en dash (`"-5"`) gives no band |
| `RankRange.RankRejectsForeignText` | UNIVERSITY.py:359-362 | empty text, or text with a character other than digits, `+` and dashes (`"abc"`, `"12.0"`), gives no band |
| `RankRange.RankExamplesParsed` | UNIVERSITY.py:353-357 | `"23-30"` and `"23–30"` give (23, 30, 26); `"12"` gives (12, 12, 12); `"30-23"` gives (30, 23, 26) |
| `RankRange.RankExamplesRejected` | UNIVERSITY.py:361-362 | `"abc"`, `""`, `"1-2-3"`, `"-5"` and `"12.0"` give no band |
| `RankRange.RankCell` | UNIVERSITY.py:366-367 | a missing cell (NaN, None) contributes no band; any band `str(cell)` yields has non-negative low, high and mid |
| `RankRange.KeptRows` | UNIVERSITY.py:366-368 | the rows kept by `build_rank_range_df`: no more than the input, each an input row carrying the band of its own cell |
| `RankRange.KeptRowsAreParsedRows` | UNIVERSITY.py:366-368 | the kept rows are exactly the input rows with a non-missing cell that parses, in input order |
| `RankRange.BuildRankRange` | UNIVERSITY.py:364-368 | `build_rank_range_df` as written: raises (`None`) exactly when no cell of the column is present; otherwise returns the kept rows |
| `RankRange.BuildRankRangeKeepsParsedRows` | UNIVERSITY.py:364-368 | when some cell is present, the frame is returned and its rows are exactly the input rows whose non-missing cell parses, in input order |
| `RankRange.BuildRankRangeFailsWithoutCells` | UNIVERSITY.py:366-367 | a filtered table with no present rank cell (for example an empty one) makes `build_rank_range_df` raise, where the rows it would keep are none |
| `RankRange.IntCellBand` | UNIVERSITY.py:366-367 | an integer cell `i` is kept as (i, i, i) exactly when `i >= 0` |
| `RankRange.FloatCellDropped` | UNIVERSITY.py:366-368 | every float cell is dropped, since `str` of a float always has a `.` or an exponent, or is `inf`/`-inf` (`12.0`, `1e+16`) |
| `Tables.CommonUniversities` | UNIVERSITY.py:37-39 | a university is common exactly when each of the four tables has a row naming it |
| `Tables.CommonIgnoresRepeatedRows` | UNIVERSITY.py:39 | a further row for a university a table already lists, such as the same university in another year, leaves the common set unchanged, in any of the four tables |
| `Tables.Combined` | UNIVERSITY.py:146 | `pd.concat` of the four tables holds all their rows and only those, TIMES rows first in their order |
| `Tables.FilteredCombined` | UNIVERSITY.py:41-48 | keeps exactly the combined rows of common universities that pass the NJ filter ("All": any flag; "Yes"/"No": equal flag) |
| `Tables.Extras` | UNIVERSITY.py:187-191 | an agency's extras are exactly its names outside the common set other than NJIT, sorted and duplicate-free |
| `Sorting.SortYears` | UNIVERSITY.py:111-118 | `sorted` of a duplicate-free year list has the same elements and is strictly ascending |
| `Tables.AllYears` | UNIVERSITY.py:111-118 | the year list holds exactly the years of any agency's rows, ascending and duplicate-free |
| `Tables.LatestYearOverview` | UNIVERSITY.py:312-317 | `None` exactly when no row names a compared university, otherwise the largest year of such a row |
| `Tables.LatestYearTab` | UNIVERSITY.py:597-603 | `None` exactly when no selected year has a row of a compared university, otherwise the largest selected year that has one |
| `Tables.FirstRowIndex` | UNIVERSITY.py:196 | the index of the first row naming the university, or `None` when no row does |
| `Tables.MetricValueAsWritten` | UNIVERSITY.py:194-201 | the KPI lookup as written is "N/A" exactly when there is no row, no column or a None cell; otherwise it shows the first matching row's cell, NaN included |
| `Tables.MetricValueAsWrittenShowsNan` | UNIVERSITY.py:196-199 | as written, a NaN cell of a float column is shown as NaN, not "N/A" |
| `Tables.MetricValue` | UNIVERSITY.py:194-201 | the corrected lookup is "N/A" exactly when there is no row, no column, or a missing (NaN or None) cell; otherwise the first matching row's cell |
| `Tables.MetricValueNeverShowsMissing` | UNIVERSITY.py:199 | the corrected lookup never shows NaN, and shows "N/A" for a NaN cell |
| `Selection.PeerTypes` | UNIVERSITY.py:127 | the peer groups on offer are exactly the table's group names, sorted and duplicate-free |
| `Selection.PeerGroupUniversities` | UNIVERSITY.py:136-140 | empty when no group is selected; otherwise exactly the names listed under a selected group |
| `Selection.CommonUniversitiesFiltered` | UNIVERSITY.py:149-152 | exactly the common universities with a row passing the NJ filter, NJIT excepted, sorted and duplicate-free |
| `Selection.AvailableForManual` | UNIVERSITY.py:154-159 | the pool minus peer-group members, and minus Rutgers while a group is selected |
| `Selection.ManualPool` | UNIVERSITY.py:149-159 | the manual candidates are exactly the NJ-filtered common universities other than NJIT, peer members and, while a group is selected, Rutgers; sorted and duplicate-free |
| `Selection.ListOfSet` | UNIVERSITY.py:169 | `list(set(s))` lists each element of the set exactly once, in any order |
| `Selection.ResolveSelection` | UNIVERSITY.py:168-173 | the selection is duplicate-free, with the elements of peer ∪ manual; it is exactly `[Rutgers]` under the fallback (no group, nothing picked, Rutgers in the pool); it is empty only when nothing is picked and there is no fallback; the compared list (line 307) is NJIT followed by it, holds every peer member, and holds NJIT once unless the peer table lists NJIT |
| `Session.TabOptionsStartWithSelection` | UNIVERSITY.py:571 | a tab's options list the global selection first, in its order, then the extras not already listed |
| `Session.StoredPicks` | UNIVERSITY.py:587-590 | the stored picks are exactly the current picks outside the global selection, in pick order, without repeats |
| `Session.SessionState.Remembered` | UNIVERSITY.py:574 | a tab never visited remembers nothing; remembered lists have no repeats |
| `Session.SessionState.TabStep` | UNIVERSITY.py:570-603 | one interaction with one of the four tabs: options, widget defaults, the tab's stored picks rewritten while no other tab's change and only the four tab keys are ever stored, NJIT followed by the picks, their colours and the tab's latest year |
| `Colors.ColorOf` | UNIVERSITY.py:82-93 | a colour from the reserved table or the palette; NJIT's red goes to NJIT and to no other university |
| `Colors.FixedColorIgnoresHash` | UNIVERSITY.py:84-85 | a university of the reserved table gets its reserved colour whatever the hash |
| `Colors.FallbackColorFollowsHash` | UNIVERSITY.py:86-93 | any other university gets `palette[hash % 20]`, a colour that depends only on its name's hash |
| `Colors.CreateColorMap` | UNIVERSITY.py:54-95 | the map's keys are exactly the listed universities, each mapped to its own colour, whatever else is listed and in whatever order |

## Findings

| source | as written | input that shows it | evidently intended | confidence | as-written member | corrected member |
|---|---|---|---|---|---|---|
| UNIVERSITY.py:366-367 | when no rank cell of the filtered table is present (no year selected, or no compared university ranked in the selected years), `apply` yields an empty Series and assigning it to three columns raises `ValueError`, which no caller catches | a TIMES table filtered to no rows, as at line 377 with no year selected | an empty chart: no rows kept | medium, not executed; depends on the pandas version | `RankRange.BuildRankRange` (`RankRange.BuildRankRangeFailsWithoutCells`) | `RankRange.KeptRows` (`RankRange.KeptRowsAreParsedRows`) |
| UNIVERSITY.py:196-199 | a NaN cell of a numeric column is a Python `float`, so `get_metric_value` returns `round(nan, 2)` and the KPI box shows `nan` | a KPI row for the university whose cell in that column is NaN | every missing cell is shown as "N/A", as the `pd.notna` test on line 199 intends | medium, not executed | `Tables.MetricValueAsWritten` (`Tables.MetricValueAsWrittenShowsNan`) | `Tables.MetricValue` (`Tables.MetricValueNeverShowsMissing`) |

## Left out

- Streamlit widgets, layout, tabs, HTML/CSS and KPI grid chunking are user interface. Each widget's result is a method input.
- Plotly and matplotlib chart building and `rgba_with_opacity` are foreign libraries and floating-point colour arithmetic.
- The Excel and CSV loading, the missing-`peer.csv` fallback, `@st.cache_data` and the `astype` coercions are I/O and pandas internals. Tables are given already loaded and normalised.
- `get_peer_type` (UNIVERSITY.py:50-52) is not called by the compared logic and is not modelled.
- Numerals.ParseInt: reads ASCII text only. Python's `int` also strips surrounding whitespace, accepts `_` between digits and accepts non-ASCII decimal digits; such rank texts are not modelled.
- Tables.MetricValue: does not model `round(val, 2)` on floats. A float is returned as its printed text.
- Tables.MetricValueAsWritten: does not model `round(val, 2)` on floats. A float is returned as its printed text.
- RankRange.BuildRankRange: requires the rank column to exist. pandas raises `KeyError` otherwise, and that crash is not modelled. The `ValueError` raised when no cell is present is modelled as `None`.
- Selection.ResolveSelection: takes the peer members and the filtered pool as inputs. `Selection.PeerGroupUniversities` and `Selection.CommonUniversitiesFiltered` compute them.
- Selection.ListOfSet: fixes no element order, like Python's set iteration. No property depends on one.
- Colors.ColorOf: Python's concrete, per-process salted `str` hash is the parameter `h`.
- Session.SessionState.TabStep: Streamlit's own check that a widget's defaults lie among its options is not modelled. The widget's result is an input.
- The KPI boxes' test `if year:` is not modelled. It would also hide a year 0.
