/**
 * The trend-chart data of main.py: trailing moving averages of the chosen
 * sector over the single-country view for windows 3, 5 and 7, and the melt
 * of Year, the sector and the three averages into long (Year, Variables,
 * Values) rows.
 */
module MovingAverage {
  import opened Optional
  import opened Stats
  import opened Dashboard

  /** The window lengths of the moving averages, in the order they are added. */
  const MaLengths: seq<nat> := [3, 5, 7]

  /**
   * The trailing moving average at row i with window w: the mean of the
   * observed values among rows i-w+1 .. i (fewer rows near the start),
   * defined only when at least w values were observed, so a window that is
   * short or holds a missing value gives no value.
   */
  function WindowMean(xs: seq<Option<real>>, w: nat, i: nat): (avg: Option<real>)
    requires 1 <= w && i < |xs|
    ensures avg.Some? ==> i + 1 >= w
    ensures avg.Some? ==> avg.value == Sum(Present(xs[i + 1 - w .. i + 1])) / w as real
  {
    var start := if i + 1 >= w then i + 1 - w else 0;
    var obs := Present(xs[start..i + 1]);
    if |obs| >= w then Mean(obs) else None
  }

  /**
   * The rolling mean of a whole column, row by row: one entry per row, and
   * none defined for the first w-1 rows.
   */
  function RollingMean(xs: seq<Option<real>>, w: nat): (ma: seq<Option<real>>)
    requires 1 <= w
    ensures |ma| == |xs|
    ensures forall i :: 0 <= i < |xs| && i + 1 < w ==> ma[i].None?
  {
    seq(|xs|, i requires 0 <= i < |xs| => WindowMean(xs, w, i))
  }

  /**
   * From row w-1 on, the moving average is defined exactly when all w
   * values of the window are present, and it is then their mean.
   */
  lemma RollingMeanDefinedIff(xs: seq<Option<real>>, w: nat, i: nat)
    requires 1 <= w && i < |xs| && i + 1 >= w
    ensures RollingMean(xs, w)[i].Some? <==> forall j :: i + 1 - w <= j <= i ==> xs[j].Some?
    ensures RollingMean(xs, w)[i].Some? ==>
              RollingMean(xs, w)[i].value == Sum(Present(xs[i + 1 - w .. i + 1])) / w as real
  {
    var window := xs[i + 1 - w .. i + 1];
    PresentFullIff(window);
    assert forall j :: i + 1 - w <= j <= i ==> xs[j] == window[j - (i + 1 - w)];
  }

  lemma SlideArithmetic(before: real, after: real, leaving: real, entering: real, w: real)
    requires w > 0.0 && after == before + entering - leaving
    ensures after / w == before / w + (entering - leaving) / w
  {
  }

  /** The windows ending at rows i and i+1 share all values but the one leaving and the one entering. */
  lemma {:induction false} WindowSumsSlide(xs: seq<Option<real>>, a: nat, b: nat)
    requires a < b < |xs|
    requires forall j :: a <= j <= b ==> xs[j].Some?
    ensures Sum(Present(xs[a + 1 .. b + 1])) == Sum(Present(xs[a .. b])) + xs[b].value - xs[a].value
  {
    var mid := xs[a + 1 .. b];
    assert xs[a .. b] == [xs[a]] + mid;
    assert xs[a + 1 .. b + 1] == mid + [xs[b]];
    PresentAppend([xs[a]], mid);
    PresentAppend(mid, [xs[b]]);
    assert Present([xs[a]]) == [xs[a].value];
    assert Present([xs[b]]) == [xs[b].value];
    SumAppend([xs[a].value], Present(mid));
    SumAppend(Present(mid), [xs[b].value]);
  }

  /**
   * Sliding the window one row down changes the average by the entering
   * value minus the leaving value, divided by the window length.
   */
  lemma RollingMeanSlides(xs: seq<Option<real>>, w: nat, i: nat)
    requires 1 <= w && i + 1 < |xs| && i + 1 >= w
    requires forall j :: i + 1 - w <= j <= i + 1 ==> xs[j].Some?
    ensures RollingMean(xs, w)[i].Some? && RollingMean(xs, w)[i + 1].Some?
    ensures RollingMean(xs, w)[i + 1].value ==
              RollingMean(xs, w)[i].value + (xs[i + 1].value - xs[i + 1 - w].value) / w as real
  {
    var a := i + 1 - w;
    var before := Sum(Present(xs[a .. i + 1]));
    var after := Sum(Present(xs[a + 1 .. i + 2]));
    WindowMeanOfFullWindow(xs, w, i);
    WindowMeanOfFullWindow(xs, w, i + 1);
    WindowSumsSlide(xs, a, i + 1);
    SlideArithmetic(before, after, xs[a].value, xs[i + 1].value, w as real);
  }

  /** A window whose w values are all present averages to their sum over w. */
  lemma WindowMeanOfFullWindow(xs: seq<Option<real>>, w: nat, i: nat)
    requires 1 <= w && i < |xs| && i + 1 >= w
    requires forall j :: i + 1 - w <= j <= i ==> xs[j].Some?
    ensures RollingMean(xs, w)[i] == Some(Sum(Present(xs[i + 1 - w .. i + 1])) / w as real)
  {
    RollingMeanDefinedIff(xs, w, i);
  }

  /**
   * A complete series a, b, c, d with window 3 averages to -, -,
   * (a+b+c)/3, (b+c+d)/3 (so 10, 20, 30, 40 gives -, -, 20, 30).
   */
  lemma RollingMeanExample(a: real, b: real, c: real, d: real)
    ensures RollingMean([Some(a), Some(b), Some(c), Some(d)], 3)
            == [None, None, Some((a + b + c) / 3.0), Some((b + c + d) / 3.0)]
  {
    var xs := [Some(a), Some(b), Some(c), Some(d)];
    ThreeWindow(xs, 2, a, b, c);
    ThreeWindow(xs, 3, b, c, d);
    var ma := RollingMean(xs, 3);
    assert ma == [ma[0], ma[1], ma[2], ma[3]];
  }

  /** A window of three present values a, b, c averages to (a+b+c)/3. */
  lemma ThreeWindow(xs: seq<Option<real>>, i: nat, a: real, b: real, c: real)
    requires 2 <= i < |xs| && xs[i - 2] == Some(a) && xs[i - 1] == Some(b) && xs[i] == Some(c)
    ensures RollingMean(xs, 3)[i] == Some((a + b + c) / 3.0)
  {
    WindowMeanOfFullWindow(xs, 3, i);
    assert xs[i - 2 .. i + 1] == [Some(a), Some(b), Some(c)];
    ThreePresent(a, b, c);
  }

  /** Three present values are all observed and add up to their sum. */
  lemma ThreePresent(a: real, b: real, c: real)
    ensures Sum(Present([Some(a), Some(b), Some(c)])) == a + b + c
  {
    var xs := [Some(a), Some(b), Some(c)];
    assert xs[1..] == [Some(b), Some(c)] && xs[1..][1..] == [Some(c)] && xs[1..][1..][1..] == [];
    assert Present([Some(c)]) == [c];
    assert Present([Some(b), Some(c)]) == [b] + [c];
    assert Present(xs) == [a] + [b, c];
    assert [a, b, c][1..] == [b, c] && [b, c][1..] == [c] && [c][1..] == [];
    assert Sum([c]) == c;
    assert Sum([b, c]) == b + c;
  }

  // ---------------------------------------------------------------------
  // Column names

  /** Decimal digits of n. */
  function Decimal(n: nat): (s: string)
    ensures |s| >= 1
    ensures forall j :: 0 <= j < |s| ==> '0' <= s[j] <= '9'
  {
    var digit := ['0' + (n % 10) as char];
    if n < 10 then digit else Decimal(n / 10) + digit
  }

  /** The number a string of decimal digits denotes. */
  function DecimalValue(s: string): nat
    requires forall j :: 0 <= j < |s| ==> '0' <= s[j] <= '9'
  {
    if s == [] then 0 else 10 * DecimalValue(s[..|s| - 1]) + (s[|s| - 1] as int - '0' as int)
  }

  /** The digits of n read back as n. */
  lemma {:induction false} DecimalRoundTrip(n: nat)
    ensures DecimalValue(Decimal(n)) == n
  {
    var digit := ['0' + (n % 10) as char];
    if n >= 10 {
      DecimalRoundTrip(n / 10);
      var s := Decimal(n / 10) + digit;
      assert s[..|s| - 1] == Decimal(n / 10);
    } else {
      assert digit[..0] == [];
    }
  }

  /**
   * The name of the moving-average column of window length w: "ma"
   * followed by at least one decimal digit.
   */
  function MaName(w: nat): (name: string)
    ensures |name| >= 3 && name[..2] == "ma"
    ensures forall j :: 2 <= j < |name| ==> '0' <= name[j] <= '9'
  {
    "ma" + Decimal(w)
  }

  /**
   * The digits after "ma" read back as the window length, so different
   * lengths never share a column name.
   */
  lemma MaNameRoundTrip(v: nat, w: nat)
    ensures DecimalValue(MaName(w)[2..]) == w
    ensures v != w ==> MaName(v) != MaName(w)
  {
    assert MaName(w)[2..] == Decimal(w);
    assert MaName(v)[2..] == Decimal(v);
    DecimalRoundTrip(w);
    DecimalRoundTrip(v);
  }

  /** The three added columns are named ma3, ma5 and ma7. */
  lemma MaNames()
    ensures MaName(3) == "ma3" && MaName(5) == "ma5" && MaName(7) == "ma7"
  {
  }

  // ---------------------------------------------------------------------
  // Building the columns and melting them

  /**
   * The loop over the window lengths: one named moving-average column per
   * length, appended in the order 3, 5, 7.
   */
  method MovingAverageColumns(series: seq<Option<real>>) returns (names: seq<string>, columns: seq<seq<Option<real>>>)
    ensures |names| == |columns| == |MaLengths|
    ensures forall j :: 0 <= j < |MaLengths| ==>
              names[j] == MaName(MaLengths[j]) && columns[j] == RollingMean(series, MaLengths[j])
  {
    names, columns := [], [];
    for j := 0 to |MaLengths|
      invariant |names| == |columns| == j
      invariant forall k :: 0 <= k < j ==>
                  names[k] == MaName(MaLengths[k]) && columns[k] == RollingMean(series, MaLengths[k])
    {
      var length := MaLengths[j];
      names := names + [MaName(length)];
      columns := columns + [RollingMean(series, length)];
    }
  }

  /** One row of the long table: a Year, a variable name and its value. */
  datatype LongRow = LongRow(Year: int, Variable: string, Value: Option<real>)

  /**
   * Unpivot: one block of rows per value column, in column order; inside a
   * block, one row per table row, in row order, carrying that row's Year.
   * Rows without a value are kept.
   */
  function Melt(years: seq<int>, names: seq<string>, columns: seq<seq<Option<real>>>): (long: seq<LongRow>)
    requires |names| == |columns|
    requires forall j :: 0 <= j < |columns| ==> |columns[j]| == |years|
    ensures |long| == |names| * |years|
  {
    if names == [] then []
    else
      var block := seq(|years|, i requires 0 <= i < |years| => LongRow(years[i], names[0], columns[0][i]));
      MulStep(|names|, |years|);
      block + Melt(years, names[1..], columns[1..])
  }

  lemma MulStep(m: nat, n: nat)
    requires m >= 1
    ensures m * n == n + (m - 1) * n
  {
  }

  /**
   * Row i of block j of the melted table is table row i's Year, the j-th
   * variable name and that variable's value at row i.
   */
  lemma {:induction false} MeltAt(years: seq<int>, names: seq<string>, columns: seq<seq<Option<real>>>, j: nat, i: nat)
    requires |names| == |columns|
    requires forall k :: 0 <= k < |columns| ==> |columns[k]| == |years|
    requires j < |names| && i < |years|
    ensures j * |years| + i < |Melt(years, names, columns)|
    ensures Melt(years, names, columns)[j * |years| + i] == LongRow(years[i], names[j], columns[j][i])
  {
    MulStep(|names|, |years|);
    if j > 0 {
      MeltAt(years, names[1..], columns[1..], j - 1, i);
      MulStep(j, |years|);
      MulMono(j, |names| - 1, |years|);
    }
  }

  lemma MulMono(a: nat, b: nat, n: nat)
    requires a <= b
    ensures a * n <= b * n
  {
  }

  /** The Year column of a view. */
  function Years(view: seq<Record>): (years: seq<int>)
    ensures |years| == |view|
  {
    seq(|view|, i requires 0 <= i < |view| => view[i].Year)
  }

  /** The chosen sector column of a view (s counts from the first sector column). */
  function SectorSeries(view: seq<Record>, s: nat): (series: seq<Option<real>>)
    requires forall i :: 0 <= i < |view| ==> s < |view[i].Sectors|
    ensures |series| == |view|
  {
    seq(|view|, i requires 0 <= i < |view| => view[i].Sectors[s])
  }

  /**
   * The trend-chart table for sector `s` of the single-country view: 4n
   * long rows for n view rows, first the sector's own values, then ma3, ma5
   * and ma7, each block in row order and carrying the row's Year.
   */
  method TrendChartData(header: seq<string>, view: seq<Record>, s: nat) returns (long: seq<LongRow>)
    requires s < |SectorNames(header)|
    requires forall i :: 0 <= i < |view| ==> |view[i].Sectors| == |SectorNames(header)|
    ensures |long| == 4 * |view|
    ensures forall i :: 0 <= i < |view| ==>
              long[i] == LongRow(view[i].Year, SectorNames(header)[s], view[i].Sectors[s])
    ensures forall j, i :: 0 <= j < |MaLengths| && 0 <= i < |view| ==>
              long[(j + 1) * |view| + i] ==
                LongRow(view[i].Year, MaName(MaLengths[j]), WindowMean(SectorSeries(view, s), MaLengths[j], i))
  {
    var series := SectorSeries(view, s);
    var maNames, maColumns := MovingAverageColumns(series);
    var names := [SectorNames(header)[s]] + maNames;
    var columns := [series] + maColumns;
    long := Melt(Years(view), names, columns);
    forall j, i | 0 <= j < |MaLengths| && 0 <= i < |view|
      ensures long[(j + 1) * |view| + i] ==
                LongRow(view[i].Year, MaName(MaLengths[j]), WindowMean(series, MaLengths[j], i))
    {
      MeltAt(Years(view), names, columns, j + 1, i);
      assert names[j + 1] == maNames[j] && columns[j + 1] == maColumns[j];
    }
    forall i | 0 <= i < |view|
      ensures long[i] == LongRow(view[i].Year, SectorNames(header)[s], view[i].Sectors[s])
    {
      MeltAt(Years(view), names, columns, 0, i);
    }
  }
}
