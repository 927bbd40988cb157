/**
 * The table logic of main.py that feeds the scatter and bar charts: the
 * year-range and country views, the sector columns offered for selection,
 * the latest-year slice, its transposition into (Sector, Pay_gap) rows and
 * the rule that picks the highlighted bars.
 */
module Dashboard {
  import opened Optional
  import opened Stats

  /** One row of the cleaned table as the dashboard reads it back. */
  datatype Record = Record(
    Country: string,
    Year: int,
    GDP: Option<real>,
    UrbanPopulation: Option<real>,
    Sectors: seq<Option<real>>)

  /**
   * Position of the first sector column in the cleaned file's header: the
   * file was written with a leading index column, so the names are the
   * index, Country, Year, GDP, Urban_population, and then one per sector.
   */
  const FirstSector: nat := 5

  /** The sector names offered for selection: the column names from position 5 on. */
  function SectorNames(header: seq<string>): (names: seq<string>)
    ensures |names| == if |header| <= FirstSector then 0 else |header| - FirstSector
    ensures forall j :: 0 <= j < |names| ==> names[j] == header[FirstSector + j]
    ensures forall name :: name in names <==>
              exists p :: FirstSector <= p < |header| && header[p] == name
  {
    if |header| <= FirstSector then [] else header[FirstSector..]
  }

  // ---------------------------------------------------------------------
  // Filters

  /** The rows whose Year lies in [lo, hi], both ends included, in table order. */
  function YearView(rows: seq<Record>, lo: int, hi: int): (view: seq<Record>)
    ensures |view| <= |rows|
    ensures forall r :: r in view <==> r in rows && lo <= r.Year <= hi
  {
    if rows == [] then []
    else (if lo <= rows[0].Year <= hi then [rows[0]] else []) + YearView(rows[1..], lo, hi)
  }

  /** The rows of one country, in table order. */
  function CountryView(rows: seq<Record>, country: string): (view: seq<Record>)
    ensures |view| <= |rows|
    ensures forall r :: r in view <==> r in rows && r.Country == country
  {
    if rows == [] then []
    else (if rows[0].Country == country then [rows[0]] else []) + CountryView(rows[1..], country)
  }

  /** The rows selected by the combined mask "year in range and country matches". */
  function YearCountryView(rows: seq<Record>, lo: int, hi: int, country: string): (view: seq<Record>)
    ensures |view| <= |rows|
    ensures forall r :: r in view <==> r in rows && lo <= r.Year <= hi && r.Country == country
  {
    if rows == [] then []
    else
      (if lo <= rows[0].Year <= hi && rows[0].Country == country then [rows[0]] else [])
      + YearCountryView(rows[1..], lo, hi, country)
  }

  /** Filtering keeps relative order: filtering a concatenation filters each part. */
  lemma {:induction false} YearViewAppend(xs: seq<Record>, ys: seq<Record>, lo: int, hi: int)
    ensures YearView(xs + ys, lo, hi) == YearView(xs, lo, hi) + YearView(ys, lo, hi)
  {
    if xs == [] {
      assert xs + ys == ys;
    } else {
      assert (xs + ys)[1..] == xs[1..] + ys;
      YearViewAppend(xs[1..], ys, lo, hi);
    }
  }

  /** A range that holds none of the table's years gives an empty view, not an error. */
  lemma YearViewOutsideData(rows: seq<Record>, lo: int, hi: int)
    requires forall i :: 0 <= i < |rows| ==> rows[i].Year < lo || rows[i].Year > hi
    ensures YearView(rows, lo, hi) == []
  {
  }

  /**
   * The single-country view is exactly the year view restricted to that
   * country, in the same relative order; so it is part of the year view.
   */
  lemma {:induction false} YearCountryViewIsCountryOfYearView(rows: seq<Record>, lo: int, hi: int, country: string)
    ensures YearCountryView(rows, lo, hi, country) == CountryView(YearView(rows, lo, hi), country)
    ensures forall r :: r in YearCountryView(rows, lo, hi, country) ==> r in YearView(rows, lo, hi)
  {
    if rows != [] {
      YearCountryViewIsCountryOfYearView(rows[1..], lo, hi, country);
      var head := if lo <= rows[0].Year <= hi then [rows[0]] else [];
      CountryViewAppend(head, YearView(rows[1..], lo, hi), country);
    }
  }

  lemma {:induction false} CountryViewAppend(xs: seq<Record>, ys: seq<Record>, country: string)
    ensures CountryView(xs + ys, country) == CountryView(xs, country) + CountryView(ys, country)
  {
    if xs == [] {
      assert xs + ys == ys;
    } else {
      assert (xs + ys)[1..] == xs[1..] + ys;
      CountryViewAppend(xs[1..], ys, country);
    }
  }

  // ---------------------------------------------------------------------
  // Latest-year slice

  /** The largest Year of the rows; undefined for no rows (pandas gives NaN). */
  function MaxYear(rows: seq<Record>): (y: Option<int>)
    ensures y.None? <==> rows == []
    ensures y.Some? ==> exists i :: 0 <= i < |rows| && rows[i].Year == y.value
    ensures y.Some? ==> forall i :: 0 <= i < |rows| ==> rows[i].Year <= y.value
  {
    if rows == [] then None
    else
      match MaxYear(rows[1..])
      case None => Some(rows[0].Year)
      case Some(rest) => Some(if rows[0].Year >= rest then rows[0].Year else rest)
  }

  /**
   * The rows whose Year equals the view's largest Year.  An empty view has
   * no largest Year, no row compares equal to it, and the slice is empty.
   */
  function LatestSlice(view: seq<Record>): (slice: seq<Record>)
    ensures forall r :: r in slice <==> r in view && MaxYear(view) == Some(r.Year)
  {
    match MaxYear(view)
    case None => []
    case Some(y) => YearView(view, y, y)
  }

  /**
   * Every row of the slice carries the view's largest Year, the slice holds
   * every row of the view with that Year, and it is non-empty exactly when
   * the view is.
   */
  lemma LatestSliceProperties(view: seq<Record>)
    ensures forall r :: r in LatestSlice(view) ==>
              r in view && forall i :: 0 <= i < |view| ==> view[i].Year <= r.Year
    ensures forall i :: 0 <= i < |view| && (forall j :: 0 <= j < |view| ==> view[j].Year <= view[i].Year) ==>
              view[i] in LatestSlice(view)
    ensures LatestSlice(view) != [] <==> view != []
  {
    if view != [] {
      var y := MaxYear(view).value;
      var i :| 0 <= i < |view| && view[i].Year == y;
      assert view[i] in LatestSlice(view);
    }
  }

  /** The year view holds each row in range as often as the table does, and no other row. */
  lemma {:induction false} YearViewCounts(rows: seq<Record>, lo: int, hi: int)
    ensures forall r :: multiset(YearView(rows, lo, hi))[r] ==
              if lo <= r.Year <= hi then multiset(rows)[r] else 0
  {
    if rows != [] {
      YearViewCounts(rows[1..], lo, hi);
      assert rows == [rows[0]] + rows[1..];
    }
  }

  /**
   * The slice holds each row of the view that carries the largest Year as
   * often as the view does, and no other row.
   */
  lemma LatestSliceCounts(view: seq<Record>)
    ensures forall r :: multiset(LatestSlice(view))[r] ==
              if MaxYear(view) == Some(r.Year) then multiset(view)[r] else 0
  {
    if view != [] {
      var y := MaxYear(view).value;
      YearViewCounts(view, y, y);
    }
  }

  /**
   * The slice is the year view of the single largest Year, so it keeps the
   * view's row order (see YearViewAppend).
   */
  lemma LatestSliceIsYearView(view: seq<Record>)
    requires view != []
    ensures LatestSlice(view) == YearView(view, MaxYear(view).value, MaxYear(view).value)
  {
  }

  // ---------------------------------------------------------------------
  // Bar chart: transpose and highlight

  /** One bar of the sector chart. */
  datatype SectorGap = SectorGap(Sector: string, PayGap: Option<real>)

  /**
   * The sector columns of the slice, transposed into one (Sector, Pay_gap)
   * row per column, in column order.  Naming the two columns of the
   * transposed frame succeeds only when the slice has exactly one row (any
   * other row count gives a column count other than two); that failure is
   * None.
   */
  function Transpose(header: seq<string>, slice: seq<Record>): (bars: Option<seq<SectorGap>>)
    requires forall i :: 0 <= i < |slice| ==> |slice[i].Sectors| == |SectorNames(header)|
    ensures bars.Some? <==> |slice| == 1
  {
    if |slice| != 1 then None
    else
      var names := SectorNames(header);
      Some(seq(|names|, j requires 0 <= j < |names| => SectorGap(names[j], slice[0].Sectors[j])))
  }

  function BarNames(bars: seq<SectorGap>): (names: seq<string>)
    ensures |names| == |bars|
  {
    seq(|bars|, j requires 0 <= j < |bars| => bars[j].Sector)
  }

  function PayGaps(bars: seq<SectorGap>): (gaps: seq<Option<real>>)
    ensures |gaps| == |bars|
  {
    seq(|bars|, j requires 0 <= j < |bars| => bars[j].PayGap)
  }

  /**
   * Transposing a one-row slice with N sector columns gives N bars whose
   * names are the sector column names and whose values are that row's cells,
   * both in column order: the two columns of the bar table give back the
   * header's sector names and the row.
   */
  lemma TransposeRoundTrip(header: seq<string>, row: Record)
    requires |row.Sectors| == |SectorNames(header)|
    ensures Transpose(header, [row]).Some?
    ensures |Transpose(header, [row]).value| == |row.Sectors|
    ensures BarNames(Transpose(header, [row]).value) == SectorNames(header)
    ensures PayGaps(Transpose(header, [row]).value) == row.Sectors
  {
  }

  /** Every bar's value is observed, and every observed value is some bar's. */
  lemma GapsObserved(bars: seq<SectorGap>)
    ensures forall j :: 0 <= j < |bars| && bars[j].PayGap.Some? ==> bars[j].PayGap.value in Present(PayGaps(bars))
    ensures forall v :: v in Present(PayGaps(bars)) ==> exists j :: 0 <= j < |bars| && bars[j].PayGap == Some(v)
  {
    var gaps := PayGaps(bars);
    forall j | 0 <= j < |bars| && bars[j].PayGap.Some?
      ensures bars[j].PayGap.value in Present(gaps)
    {
      assert gaps[j] == bars[j].PayGap;
      PresentMembership(gaps, bars[j].PayGap.value);
    }
    forall v | v in Present(gaps)
      ensures exists j :: 0 <= j < |bars| && bars[j].PayGap == Some(v)
    {
      PresentMembership(gaps, v);
      var j :| 0 <= j < |gaps| && gaps[j] == Some(v);
      assert bars[j].PayGap == Some(v);
    }
  }

  /**
   * The largest pay gap among the bars, skipping missing values: missing
   * only when every bar is, otherwise some bar's value that no bar exceeds.
   */
  function MaxGap(bars: seq<SectorGap>): (top: Option<real>)
    ensures top.None? <==> forall j :: 0 <= j < |bars| ==> bars[j].PayGap.None?
    ensures top.Some? ==> exists j :: 0 <= j < |bars| && bars[j].PayGap == top
    ensures top.Some? ==> forall j :: 0 <= j < |bars| && bars[j].PayGap.Some? ==> bars[j].PayGap.value <= top.value
  {
    GapsObserved(bars);
    var obs := Present(PayGaps(bars));
    if obs == [] then None else Some(Max(obs))
  }

  /**
   * The smallest pay gap among the bars, skipping missing values: missing
   * only when every bar is, otherwise some bar's value that no bar goes below.
   */
  function MinGap(bars: seq<SectorGap>): (bottom: Option<real>)
    ensures bottom.None? <==> forall j :: 0 <= j < |bars| ==> bars[j].PayGap.None?
    ensures bottom.Some? ==> exists j :: 0 <= j < |bars| && bars[j].PayGap == bottom
    ensures bottom.Some? ==> forall j :: 0 <= j < |bars| && bars[j].PayGap.Some? ==> bottom.value <= bars[j].PayGap.value
  {
    GapsObserved(bars);
    var obs := Present(PayGaps(bars));
    if obs == [] then None else Some(Min(obs))
  }

  /** A bar is coloured for highlight when its value equals the table's maximum or minimum. */
  predicate Highlighted(bars: seq<SectorGap>, gap: Option<real>)
  {
    gap.Some? && (gap == MaxGap(bars) || gap == MinGap(bars))
  }

  /** Bar b holds a value no other bar exceeds. */
  predicate IsTop(bars: seq<SectorGap>, b: nat)
    requires b < |bars|
  {
    bars[b].PayGap.Some? &&
    forall j :: 0 <= j < |bars| && bars[j].PayGap.Some? ==> bars[j].PayGap.value <= bars[b].PayGap.value
  }

  /** Bar b holds a value no other bar goes below. */
  predicate IsBottom(bars: seq<SectorGap>, b: nat)
    requires b < |bars|
  {
    bars[b].PayGap.Some? &&
    forall j :: 0 <= j < |bars| && bars[j].PayGap.Some? ==> bars[b].PayGap.value <= bars[j].PayGap.value
  }

  /** A present bar value equals the maximum exactly when no bar exceeds it. */
  lemma TopIff(bars: seq<SectorGap>, b: nat)
    requires b < |bars| && bars[b].PayGap.Some?
    ensures bars[b].PayGap == MaxGap(bars) <==> IsTop(bars, b)
  {
    var top := MaxGap(bars);
    if IsTop(bars, b) {
      var j :| 0 <= j < |bars| && bars[j].PayGap == top;
      assert top.value <= bars[b].PayGap.value;
    }
  }

  /** A present bar value equals the minimum exactly when no bar goes below it. */
  lemma BottomIff(bars: seq<SectorGap>, b: nat)
    requires b < |bars| && bars[b].PayGap.Some?
    ensures bars[b].PayGap == MinGap(bars) <==> IsBottom(bars, b)
  {
    var bottom := MinGap(bars);
    if IsBottom(bars, b) {
      var j :| 0 <= j < |bars| && bars[j].PayGap == bottom;
      assert bars[b].PayGap.value <= bottom.value;
    }
  }

  /**
   * A bar is highlighted exactly when its value is the largest or the
   * smallest of the table's values; a bar with a missing value never is.
   */
  lemma HighlightedIff(bars: seq<SectorGap>, b: nat)
    requires b < |bars|
    ensures Highlighted(bars, bars[b].PayGap) <==> IsTop(bars, b) || IsBottom(bars, b)
  {
    if bars[b].PayGap.Some? {
      TopIff(bars, b);
      BottomIff(bars, b);
    }
  }

  /** Whenever some bar has a value, at least one bar is highlighted. */
  lemma SomeBarHighlighted(bars: seq<SectorGap>)
    requires exists j :: 0 <= j < |bars| && bars[j].PayGap.Some?
    ensures exists b :: 0 <= b < |bars| && Highlighted(bars, bars[b].PayGap)
  {
    var gaps := PayGaps(bars);
    var j :| 0 <= j < |bars| && bars[j].PayGap.Some?;
    assert gaps[j] == bars[j].PayGap;
    PresentMembership(gaps, bars[j].PayGap.value);
    var w := Max(Present(gaps));
    PresentMembership(gaps, w);
    var b :| 0 <= b < |gaps| && gaps[b] == Some(w);
    assert Highlighted(bars, bars[b].PayGap);
  }

  /**
   * Years 2019-2020 and country B over a cleaned two-country table: the
   * country view holds B's two rows in order and the latest-year slice only
   * B's 2020 row.
   */
  lemma SelectionScenario()
    ensures var a19 := Record("A", 2019, None, None, [Some(10.0)]);
            var a20 := Record("A", 2020, None, None, [Some(10.0)]);
            var b19 := Record("B", 2019, None, None, [Some(30.0)]);
            var b20 := Record("B", 2020, None, None, [Some(20.0)]);
            YearCountryView([a19, a20, b19, b20], 2019, 2020, "B") == [b19, b20] &&
            LatestSlice([b19, b20]) == [b20]
  {
    var a19 := Record("A", 2019, None, None, [Some(10.0)]);
    var a20 := Record("A", 2020, None, None, [Some(10.0)]);
    var b19 := Record("B", 2019, None, None, [Some(30.0)]);
    var b20 := Record("B", 2020, None, None, [Some(20.0)]);
    // one row of the filter at a time, from the last row up
    assert [b20][1..] == [] && [b19, b20][1..] == [b20] && [a20, b19, b20][1..] == [b19, b20];
    assert [a19, a20, b19, b20][1..] == [a20, b19, b20];
    assert YearCountryView([b20], 2019, 2020, "B") == [b20];
    assert YearCountryView([b19, b20], 2019, 2020, "B") == [b19, b20];
    assert YearCountryView([a20, b19, b20], 2019, 2020, "B") == [b19, b20];
    assert MaxYear([b20]) == Some(2020);
    assert MaxYear([b19, b20]) == Some(2020);
    assert YearView([b20], 2020, 2020) == [b20];
  }
}
