/**
 * The four ranking tables (TIMES, QS, USN, Washington Monthly) after
 * loading, and the pure reconciliation over them: the universities common
 * to all four, the New Jersey filter, each agency's extra universities,
 * the year list, the "latest year" of each view and the KPI cell lookup.
 */
module Tables {
  import opened Basics
  import opened Sorting

  const NJIT_NAME: string := "New Jersey Institute of Technology"
  const DEFAULT_RUTGERS: string := "Rutgers University-New Brunswick"

  /** A cell of a metric column, as pandas holds it. */
  datatype Value =
    | Nan                  // missing value of a numeric column (a float NaN)
    | Null                 // missing value of an object column (None)
    | Int(i: int)
    | Float(repr: string)  // a non-NaN float, kept as Python's `str` prints it (FloatText)
    | Text(s: string)

  /**
   * The shapes of Python's `str` of a non-NaN float: a finite float always
   * prints with a '.' or an exponent ("12.0", "1e+16"); the infinities
   * print as "inf" and "-inf".
   */
  predicate FloatText(s: string)
  {
    '.' in s || 'e' in s || s == "inf" || s == "-inf"
  }

  /** `pd.notna(v)` */
  predicate NotNa(v: Value)
  {
    !v.Nan? && !v.Null?
  }

  /**
   * One row of a ranking table: `IPEDS_Name`, `Year`, `New_Jersey_University`
   * and the agency's own metric columns, keyed by their header text.  A
   * header absent from `metrics` is a column the table does not have.
   */
  datatype Record = Record(name: string, year: int, njFlag: string, metrics: map<string, Value>)

  type Table = seq<Record>

  /** `df["IPEDS_Name"]`, in row order. */
  function Names(t: Table): (r: seq<string>)
    ensures |r| == |t| && forall i :: 0 <= i < |t| ==> r[i] == t[i].name
  {
    seq(|t|, i requires 0 <= i < |t| => t[i].name)
  }

  /** `df["Year"]`, in row order. */
  function Years(t: Table): (r: seq<int>)
    ensures |r| == |t| && forall i :: 0 <= i < |t| ==> r[i] == t[i].year
  {
    seq(|t|, i requires 0 <= i < |t| => t[i].year)
  }

  /** `set(df["IPEDS_Name"])` */
  function NameSet(t: Table): set<string>
  {
    set r | r in t :: r.name
  }

  predicate Lists(t: Table, u: string)
  {
    exists r :: r in t && r.name == u
  }

  /** `get_common_universities`: the universities every agency ranks. */
  function CommonUniversities(times: Table, qs: Table, usn: Table, washington: Table): (c: set<string>)
    ensures forall u :: u in c <==> Lists(times, u) && Lists(qs, u) && Lists(usn, u) && Lists(washington, u)
  {
    NameSet(times) * NameSet(qs) * NameSet(usn) * NameSet(washington)
  }

  /** A further row adds its name to the table's name set. */
  lemma NameSetAppend(t: Table, row: Record)
    ensures NameSet(t + [row]) == NameSet(t) + {row.name}
  {
    assert forall r :: r in t + [row] <==> r in t || r == row;
  }

  /**
   * A further row of a university a table already lists (the same
   * university in another year, say), in any of the four tables, never
   * changes the common set.
   */
  lemma CommonIgnoresRepeatedRows(times: Table, qs: Table, usn: Table, washington: Table, row: Record)
    ensures Lists(times, row.name) ==>
      CommonUniversities(times + [row], qs, usn, washington) == CommonUniversities(times, qs, usn, washington)
    ensures Lists(qs, row.name) ==>
      CommonUniversities(times, qs + [row], usn, washington) == CommonUniversities(times, qs, usn, washington)
    ensures Lists(usn, row.name) ==>
      CommonUniversities(times, qs, usn + [row], washington) == CommonUniversities(times, qs, usn, washington)
    ensures Lists(washington, row.name) ==>
      CommonUniversities(times, qs, usn, washington + [row]) == CommonUniversities(times, qs, usn, washington)
  {
    NameSetAppend(times, row);
    NameSetAppend(qs, row);
    NameSetAppend(usn, row);
    NameSetAppend(washington, row);
  }

  /** The NJ filter choice of the sidebar: "All", "Yes" or "No". */
  datatype NjFilter = All | Yes | No

  predicate PassesNj(r: Record, nj: NjFilter)
  {
    match nj
    case All => true
    case Yes => r.njFlag == "Yes"
    case No => r.njFlag == "No"
  }

  /** `pd.concat([times_df, qs_df, usn_df, washington_df])` */
  function Combined(times: Table, qs: Table, usn: Table, washington: Table): (r: Table)
    ensures |r| == |times| + |qs| + |usn| + |washington|
    ensures r[..|times|] == times
    ensures forall row :: row in r <==> row in times || row in qs || row in usn || row in washington
  {
    times + qs + usn + washington
  }

  /** `get_filtered_combined_df`: rows of common universities that pass the NJ filter, in order. */
  function FilteredCombined(combined: Table, common: set<string>, nj: NjFilter): (r: Table)
    ensures forall i :: 0 <= i < |r| ==> r[i] in combined && r[i].name in common && PassesNj(r[i], nj)
    ensures forall i ::
      (0 <= i < |combined| && combined[i].name in common && PassesNj(combined[i], nj)) ==> combined[i] in r
  {
    Filter(combined, (x: Record) => x.name in common && PassesNj(x, nj))
  }

  /**
   * `extra_*_unis`: the agency's universities outside the common set, NJIT
   * excepted, sorted.
   */
  function Extras(t: Table, common: set<string>): (r: seq<string>)
    ensures Elems(r) == NameSet(t) - common - {NJIT_NAME}
    ensures Ascending(StrLess, r) && NoDup(r)
  {
    var unique := Dedup(Names(t));
    var kept := Filter(unique, u => u !in common && u != NJIT_NAME);
    FilterNoDup(unique, u => u !in common && u != NJIT_NAME);
    assert Elems(Names(t)) == NameSet(t) by {
      forall u | u in NameSet(t)
        ensures u in Elems(Names(t))
      {
        var row :| row in t && row.name == u;
        var k :| 0 <= k < |t| && t[k] == row;
        assert Names(t)[k] == u;
      }
    }
    SortNames(kept)
  }

  /** `years`: every year of any agency, ascending. */
  function AllYears(times: Table, qs: Table, usn: Table, washington: Table): (r: seq<int>)
    ensures forall y :: y in r <==> exists row :: row in Combined(times, qs, usn, washington) && row.year == y
    ensures Ascending(IntLess, r) && NoDup(r)
  {
    var all := Combined(times, qs, usn, washington);
    var years := Years(all);
    var r := SortYears(Dedup(years));
    assert Elems(r) == Elems(years);
    assert forall y :: y in r <==> y in Elems(years);
    forall y | y in years
      ensures exists row :: row in all && row.year == y
    {
      var k :| 0 <= k < |years| && years[k] == y;
      assert all[k] in all;
    }
    forall row | row in all
      ensures row.year in years
    {
      var k :| 0 <= k < |all| && all[k] == row;
      assert years[k] == row.year;
    }
    r
  }

  /**
   * The overview's latest year of one agency: the largest year of any row
   * of a compared university, or `None` (lines 313-316).
   */
  function LatestYearOverview(t: Table, compare: seq<string>): (r: Option<int>)
    ensures r == None <==> forall row :: row in t ==> row.name !in compare
    ensures r.Some? ==> exists row :: row in t && row.name in compare && row.year == r.value
    ensures forall row :: row in t && row.name in compare ==> r.Some? && row.year <= r.value
  {
    var rows := Filter(t, (row: Record) => row.name in compare);
    var years := Years(rows);
    assert forall row :: row in rows ==> row.year in years by {
      forall row | row in rows
        ensures row.year in years
      {
        var k :| 0 <= k < |rows| && rows[k] == row;
        assert years[k] == row.year;
      }
    }
    MaxOf(years)
  }

  /**
   * A tab's latest year: the largest selected year for which the tab's
   * filtered table (selected years, compared universities) has a row.
   */
  function LatestYearTab(selectedYears: seq<int>, t: Table, compare: seq<string>): (r: Option<int>)
    ensures r == None <==>
      forall y, row :: y in selectedYears && row in t && row.name in compare ==> row.year != y
    ensures r.Some? ==> r.value in selectedYears
    ensures r.Some? ==> exists row :: row in t && row.name in compare && row.year == r.value
    ensures forall row :: row in t && row.name in compare && row.year in selectedYears ==>
      r.Some? && row.year <= r.value
  {
    var tab := Filter(t, (row: Record) => row.year in selectedYears && row.name in compare);
    var present := Years(tab);
    var candidates := Filter(selectedYears, y => y in present);
    assert forall y :: y in present <==> exists row :: row in tab && row.year == y by {
      forall y | y in present
        ensures exists row :: row in tab && row.year == y
      {
        var k :| 0 <= k < |present| && present[k] == y;
        assert tab[k] in tab;
      }
      forall row | row in tab
        ensures row.year in present
      {
        var k :| 0 <= k < |tab| && tab[k] == row;
        assert present[k] == row.year;
      }
    }
    MaxOf(candidates)
  }

  /** Index of the first row naming `uni`. */
  function FirstRowIndex(t: Table, uni: string): (r: Option<nat>)
    ensures r.Some? ==> r.value < |t| && t[r.value].name == uni
    ensures r.Some? ==> forall j :: 0 <= j < r.value ==> t[j].name != uni
    ensures r.None? ==> forall j :: 0 <= j < |t| ==> t[j].name != uni
  {
    if t == [] then None
    else if t[0].name == uni then Some(0)
    else match FirstRowIndex(t[1..], uni)
      case None => None
      case Some(k) => Some(k + 1)
  }

  /** What a KPI box shows for one university and one column. */
  datatype Shown = Shown(v: Value) | NotAvailable

  /**
   * `get_metric_value` as written: no row or no such column give "N/A",
   * but a NaN cell is a Python `float`, so the numeric branch returns
   * `round(nan, 2)`, which is NaN, and the box shows "nan".
   */
  function MetricValueAsWritten(t: Table, uni: string, column: string): (r: Shown)
    ensures r.NotAvailable? <==>
      FirstRowIndex(t, uni).None? ||
      column !in t[FirstRowIndex(t, uni).value].metrics ||
      t[FirstRowIndex(t, uni).value].metrics[column].Null?
    ensures r.Shown? ==> r.v == t[FirstRowIndex(t, uni).value].metrics[column]
  {
    match FirstRowIndex(t, uni)
    case None => NotAvailable
    case Some(k) =>
      if column !in t[k].metrics then NotAvailable
      else match t[k].metrics[column]
        case Nan => Shown(Nan)
        case Null => NotAvailable
        case v => Shown(v)
  }

  /** A missing number of a float column shows as NaN rather than "N/A". */
  lemma MetricValueAsWrittenShowsNan(uni: string, year: int, column: string)
    ensures MetricValueAsWritten([Record(uni, year, "No", map[column := Nan])], uni, column) == Shown(Nan)
  {
  }

  /**
   * `get_metric_value` with every missing cell, NaN included, shown as
   * "N/A"; otherwise the first matching row's cell.
   */
  function MetricValue(t: Table, uni: string, column: string): (r: Shown)
    ensures r.NotAvailable? <==>
      FirstRowIndex(t, uni).None? ||
      column !in t[FirstRowIndex(t, uni).value].metrics ||
      !NotNa(t[FirstRowIndex(t, uni).value].metrics[column])
    ensures r.Shown? ==> NotNa(r.v) && r.v == t[FirstRowIndex(t, uni).value].metrics[column]
  {
    match FirstRowIndex(t, uni)
    case None => NotAvailable
    case Some(k) =>
      if column !in t[k].metrics || !NotNa(t[k].metrics[column]) then NotAvailable
      else Shown(t[k].metrics[column])
  }

  /** The corrected lookup never shows a missing cell. */
  lemma MetricValueNeverShowsMissing(t: Table, uni: string, column: string)
    ensures MetricValue(t, uni, column) != Shown(Nan)
    ensures MetricValue([Record(uni, 0, "No", map[column := Nan])], uni, column) == NotAvailable
  {
  }
}
