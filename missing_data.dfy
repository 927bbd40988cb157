/**
 * The one-shot cleaning pass of missing_data.py: every missing cell of the
 * raw pay-gap table is overwritten with the mean of the same column over the
 * rows of the same country.  The group means are computed once, from the raw
 * table, before any cell is written.
 */
module MissingData {
  import opened Optional
  import opened Stats

  /**
   * One row of the raw table: its country and its numeric cells in column
   * order (Year, GDP, Urban_population, then one cell per sector).
   */
  datatype RawRow = RawRow(Country: string, Cells: seq<Option<real>>)

  type Table = seq<RawRow>

  /** Every row has exactly `width` numeric cells, as every data frame does. */
  predicate Rectangular(t: Table, width: nat)
  {
    forall i :: 0 <= i < |t| ==> |t[i].Cells| == width
  }

  /** The countries occurring in the table: the keys of the group-by. */
  function Countries(t: Table): set<string>
  {
    set i | 0 <= i < |t| :: t[i].Country
  }

  /** The rows of country c, in table order: one group of the group-by. */
  function CountryRows(t: Table, c: string): (g: Table)
    ensures |g| <= |t|
    ensures forall r :: r in g <==> r in t && r.Country == c
  {
    if t == [] then []
    else (if t[0].Country == c then [t[0]] else []) + CountryRows(t[1..], c)
  }

  /**
   * The group holds each row of country c as often as the table does, and
   * no other row.
   */
  lemma {:induction false} CountryRowsCounts(t: Table, c: string)
    ensures forall r :: multiset(CountryRows(t, c))[r] == if r.Country == c then multiset(t)[r] else 0
  {
    if t != [] {
      CountryRowsCounts(t[1..], c);
      assert t == [t[0]] + t[1..];
    }
  }

  /**
   * The group keeps the table's order: the group of a concatenation is the
   * group of the first part followed by the group of the second.
   */
  lemma {:induction false} CountryRowsAppend(xs: Table, ys: Table, c: string)
    ensures CountryRows(xs + ys, c) == CountryRows(xs, c) + CountryRows(ys, c)
  {
    if xs == [] {
      assert xs + ys == ys;
    } else {
      assert (xs + ys)[1..] == xs[1..] + ys;
      CountryRowsAppend(xs[1..], ys, c);
    }
  }

  /** Column k of a block of rows; a row without that column reads as missing. */
  function Column(rows: Table, k: nat): (col: seq<Option<real>>)
    ensures |col| == |rows|
  {
    seq(|rows|, i requires 0 <= i < |rows| =>
      if k < |rows[i].Cells| then rows[i].Cells[k] else None)
  }

  /**
   * The mean of column k over the observed cells of country c's rows only.
   * It is defined exactly when c has an observed value there (otherwise it
   * stays undefined and is never replaced by zero), and it lies between a
   * value observed in c's column and another one observed there.
   */
  function GroupMean(t: Table, c: string, k: nat): (m: Option<real>)
    ensures m.Some? <==> Observed(t, c, k)
  {
    ObservedIffPresent(t, c, k);
    Mean(Present(Column(CountryRows(t, c), k)))
  }

  /** Some row of country c has an observed value in column k. */
  predicate Observed(t: Table, c: string, k: nat)
  {
    exists i :: 0 <= i < |t| && t[i].Country == c && k < |t[i].Cells| && t[i].Cells[k].Some?
  }

  /** The table of group means, one entry per country and column. */
  function CountryMeans(t: Table, width: nat): (means: map<string, seq<Option<real>>>)
    ensures means.Keys == Countries(t)
    ensures forall c :: c in means ==> |means[c]| == width
    ensures forall c, k :: c in means && 0 <= k < width ==> means[c][k] == GroupMean(t, c, k)
  {
    map c | c in Countries(t) :: seq(width, k requires 0 <= k < width => GroupMean(t, c, k as nat))
  }

  /**
   * Row r with each missing cell replaced by its country's mean in `source`:
   * same country and width, observed cells kept, and a cell left missing
   * exactly when it was missing and r's country has no observed value in
   * that column of `source`.
   */
  function FillRow(r: RawRow, source: Table): (filled: RawRow)
    ensures filled.Country == r.Country && |filled.Cells| == |r.Cells|
    ensures forall k :: 0 <= k < |r.Cells| && r.Cells[k].Some? ==> filled.Cells[k] == r.Cells[k]
    ensures forall k :: 0 <= k < |r.Cells| ==>
              (filled.Cells[k].None? <==> r.Cells[k].None? && !Observed(source, r.Country, k))
  {
    RawRow(r.Country, seq(|r.Cells|, k requires 0 <= k < |r.Cells| =>
      if r.Cells[k].Some? then r.Cells[k] else GroupMean(source, r.Country, k)))
  }

  /** Every row filled on its own, in table order. */
  function FillRows(rows: Table, source: Table): (filled: Table)
    ensures |filled| == |rows|
    ensures forall i :: 0 <= i < |rows| ==> filled[i] == FillRow(rows[i], source)
  {
    seq(|rows|, i requires 0 <= i < |rows| => FillRow(rows[i], source))
  }

  /**
   * The cleaned table: same rows in the same order, same countries, same
   * columns; an observed cell is never changed and never becomes missing.
   */
  function Imputed(t: Table): (cleaned: Table)
    ensures |cleaned| == |t|
    ensures forall i :: 0 <= i < |t| ==>
              cleaned[i].Country == t[i].Country && |cleaned[i].Cells| == |t[i].Cells|
    ensures forall i, k :: 0 <= i < |t| && 0 <= k < |t[i].Cells| && t[i].Cells[k].Some? ==>
              cleaned[i].Cells[k] == t[i].Cells[k]
  {
    FillRows(t, t)
  }

  /**
   * The cleaning loop.  The means are taken from the raw table before the
   * first write; then every row is visited and its missing cells are
   * overwritten in place.
   */
  method FillMissing(a: array<RawRow>, width: nat)
    requires Rectangular(a[..], width)
    modifies a
    ensures a[..] == Imputed(old(a[..]))
  {
    ghost var raw := a[..];
    var means := CountryMeans(a[..], width);
    for i := 0 to a.Length
      invariant forall r :: 0 <= r < i ==> a[r] == FillRow(raw[r], raw)
      invariant forall r :: i <= r < a.Length ==> a[r] == raw[r]
    {
      ghost var row := a[i];
      assert row.Country in Countries(raw);
      FillCells(a, i, means[a[i].Country]);
      assert a[i] == FillRow(row, raw);
    }
    assert a[..] == FillRows(raw, raw);
  }

  /**
   * The inner loop over the columns of row i: each missing cell is
   * overwritten with the same column's entry of `fill`, the row's country
   * means; observed cells and every other row are left alone.
   */
  method FillCells(a: array<RawRow>, i: nat, fill: seq<Option<real>>)
    requires i < a.Length && |a[i].Cells| == |fill|
    modifies a
    ensures a[i].Country == old(a[i]).Country && |a[i].Cells| == |fill|
    ensures forall k :: 0 <= k < |fill| ==>
              a[i].Cells[k] == if old(a[i]).Cells[k].Some? then old(a[i]).Cells[k] else fill[k]
    ensures forall r :: 0 <= r < a.Length && r != i ==> a[r] == old(a[r])
  {
    var row := a[i];
    for j := 0 to |fill|
      invariant a[i].Country == row.Country && |a[i].Cells| == |fill|
      invariant forall k :: 0 <= k < j ==> a[i].Cells[k] == if row.Cells[k].Some? then row.Cells[k] else fill[k]
      invariant forall k :: j <= k < |fill| ==> a[i].Cells[k] == row.Cells[k]
      invariant forall r :: 0 <= r < a.Length && r != i ==> a[r] == old(a[r])
    {
      if row.Cells[j].None? {
        a[i] := a[i].(Cells := a[i].Cells[j := fill[j]]);
      }
    }
  }

  /** Country c's column k has an observed cell exactly when some row of c has one. */
  lemma ObservedIffPresent(t: Table, c: string, k: nat)
    ensures Present(Column(CountryRows(t, c), k)) != [] <==> Observed(t, c, k)
  {
    var g := CountryRows(t, c);
    var col := Column(g, k);
    PresentEmptyIff(col);
    if Observed(t, c, k) {
      var i :| 0 <= i < |t| && t[i].Country == c && k < |t[i].Cells| && t[i].Cells[k].Some?;
      assert t[i] in g;
      var j :| 0 <= j < |g| && g[j] == t[i];
      assert col[j].Some?;
    }
    if Present(col) != [] {
      var j :| 0 <= j < |col| && col[j].Some?;
      assert g[j] in t;
      var i :| 0 <= i < |t| && t[i] == g[j];
      assert t[i].Country == c && k < |t[i].Cells| && t[i].Cells[k].Some?;
    }
  }

  /**
   * A missing cell of country c in column k becomes c's own group mean for
   * column k, and stays missing exactly when c has no observed value there.
   */
  lemma ImputedMissingCell(t: Table, i: nat, k: nat)
    requires i < |t| && k < |t[i].Cells| && t[i].Cells[k].None?
    ensures Imputed(t)[i].Cells[k] == GroupMean(t, t[i].Country, k)
    ensures Imputed(t)[i].Cells[k].None? <==> !Observed(t, t[i].Country, k)
  {
  }

  /** Some row of country c holds, in column k, an observed value v with v <= bound (or v >= bound). */
  predicate ObservedAtMost(t: Table, c: string, k: nat, bound: real)
  {
    exists j :: 0 <= j < |t| && t[j].Country == c && k < |t[j].Cells| &&
                t[j].Cells[k].Some? && t[j].Cells[k].value <= bound
  }

  predicate ObservedAtLeast(t: Table, c: string, k: nat, bound: real)
  {
    exists j :: 0 <= j < |t| && t[j].Country == c && k < |t[j].Cells| &&
                t[j].Cells[k].Some? && t[j].Cells[k].value >= bound
  }

  /** Cell k of some row of country c holds the value v. */
  lemma ObservedValueInRows(t: Table, c: string, k: nat, v: real)
    requires v in Present(Column(CountryRows(t, c), k))
    ensures exists j :: 0 <= j < |t| && t[j].Country == c && k < |t[j].Cells| && t[j].Cells[k] == Some(v)
  {
    var g := CountryRows(t, c);
    PresentMembership(Column(g, k), v);
    var p :| 0 <= p < |g| && Column(g, k)[p] == Some(v);
    assert g[p] in g;
    var j :| 0 <= j < |t| && t[j] == g[p];
  }

  /**
   * A filled value is bracketed by values observed in its own country's
   * column: some row of that country holds a value no larger and some row
   * holds a value no smaller.
   */
  lemma ImputedWithinOwnCountryRange(t: Table, i: nat, k: nat)
    requires i < |t| && k < |t[i].Cells| && t[i].Cells[k].None? && Observed(t, t[i].Country, k)
    ensures Imputed(t)[i].Cells[k].Some?
    ensures ObservedAtMost(t, t[i].Country, k, Imputed(t)[i].Cells[k].value)
    ensures ObservedAtLeast(t, t[i].Country, k, Imputed(t)[i].Cells[k].value)
  {
    var c := t[i].Country;
    ImputedMissingCell(t, i, k);
    var obs := Present(Column(CountryRows(t, c), k));
    MeanBetweenMinAndMax(obs);
    ObservedValueInRows(t, c, k, Min(obs));
    ObservedValueInRows(t, c, k, Max(obs));
  }

  /**
   * When every country has an observed value in every column, no missing
   * cell is left after cleaning.
   */
  lemma ImputedComplete(t: Table, width: nat)
    requires Rectangular(t, width)
    requires forall c, k :: c in Countries(t) && 0 <= k < width ==> Observed(t, c, k)
    ensures forall i, k :: 0 <= i < |t| && 0 <= k < width ==> Imputed(t)[i].Cells[k].Some?
  {
    forall i, k | 0 <= i < |t| && 0 <= k < width
      ensures Imputed(t)[i].Cells[k].Some?
    {
      if t[i].Cells[k].None? {
        assert t[i].Country in Countries(t);
        ImputedMissingCell(t, i, k);
      }
    }
  }

  lemma FillRowsAppend(xs: Table, ys: Table, source: Table)
    ensures FillRows(xs + ys, source) == FillRows(xs, source) + FillRows(ys, source)
  {
  }

  /** Selecting a country's rows commutes with filling them. */
  lemma {:induction false} CountryRowsOfFilled(rows: Table, source: Table, c: string)
    ensures CountryRows(FillRows(rows, source), c) == FillRows(CountryRows(rows, c), source)
  {
    if rows != [] {
      var filled := FillRows(rows, source);
      assert filled[1..] == FillRows(rows[1..], source);
      CountryRowsOfFilled(rows[1..], source, c);
      var head := if rows[0].Country == c then [rows[0]] else [];
      FillRowsAppend(head, CountryRows(rows[1..], c), source);
    }
  }

  /** Filling a row reads only the group means of that row's own country. */
  lemma FillRowOwnCountry(r: RawRow, s: Table, u: Table)
    requires CountryRows(s, r.Country) == CountryRows(u, r.Country)
    ensures FillRow(r, s) == FillRow(r, u)
  {
  }

  /**
   * No cross-contamination between countries: two raw tables that agree on
   * the rows of country c, whatever their other rows, give the same cleaned
   * rows for c.
   */
  lemma ImputedOwnCountry(t: Table, u: Table, c: string)
    requires CountryRows(t, c) == CountryRows(u, c)
    ensures CountryRows(Imputed(t), c) == CountryRows(Imputed(u), c)
  {
    var g := CountryRows(t, c);
    CountryRowsOfFilled(t, t, c);
    CountryRowsOfFilled(u, u, c);
    forall i | 0 <= i < |g|
      ensures FillRow(g[i], t) == FillRow(g[i], u)
    {
      assert g[i] in g;
      FillRowOwnCountry(g[i], t, u);
    }
    assert FillRows(g, t) == FillRows(g, u);
  }

  /** A column with each missing cell replaced by v. */
  function FillColumn(xs: seq<Option<real>>, v: Option<real>): (filled: seq<Option<real>>)
    ensures |filled| == |xs|
  {
    seq(|xs|, i requires 0 <= i < |xs| => if xs[i].Some? then xs[i] else v)
  }

  /** The number of missing cells of a column. */
  function MissingCount(xs: seq<Option<real>>): (n: nat)
    ensures n + |Present(xs)| == |xs|
  {
    if xs == [] then 0 else (if xs[0].None? then 1 else 0) + MissingCount(xs[1..])
  }

  /** n copies of m added up; keeps the sum below free of multiplication. */
  function Copies(n: nat, m: real): real
  {
    if n == 0 then 0.0 else m + Copies(n - 1, m)
  }

  lemma {:induction false} CopiesIsProduct(n: nat, m: real)
    ensures Copies(n, m) == n as real * m
  {
    if n > 0 {
      CopiesIsProduct(n - 1, m);
      assert n as real * m == (n - 1) as real * m + m;
    }
  }

  lemma {:induction false} FilledColumnSum(xs: seq<Option<real>>, m: real)
    ensures |Present(FillColumn(xs, Some(m)))| == |xs|
    ensures Sum(Present(FillColumn(xs, Some(m)))) == Sum(Present(xs)) + Copies(MissingCount(xs), m)
  {
    if xs != [] {
      var filled := FillColumn(xs, Some(m));
      var rest := xs[1..];
      assert filled[1..] == FillColumn(rest, Some(m));
      FilledColumnSum(rest, m);
      var head := if xs[0].Some? then xs[0].value else m;
      assert filled[0] == Some(head);
      assert Present(filled) == [head] + Present(filled[1..]);
      SumCons(head, Present(filled[1..]));
      if xs[0].Some? {
        assert Present(xs) == [head] + Present(rest);
        SumCons(head, Present(rest));
      } else {
        assert Present(xs) == Present(rest);
      }
    } else {
      assert FillColumn(xs, Some(m)) == [];
    }
  }

  lemma SumCons(x: real, xs: seq<real>)
    ensures Sum([x] + xs) == x + Sum(xs)
  {
    assert ([x] + xs)[1..] == xs;
  }

  /** Filling a column's missing cells with its own mean leaves its mean unchanged. */
  lemma FillColumnKeepsMean(xs: seq<Option<real>>)
    ensures Mean(Present(FillColumn(xs, Mean(Present(xs))))) == Mean(Present(xs))
  {
    var obs := Present(xs);
    if obs == [] {
      assert FillColumn(xs, None) == xs;
    } else {
      FillColumnKeepsDefinedMean(xs, Mean(obs).value);
    }
  }

  lemma FillColumnKeepsDefinedMean(xs: seq<Option<real>>, m: real)
    requires Mean(Present(xs)) == Some(m)
    ensures Mean(Present(FillColumn(xs, Some(m)))) == Some(m)
  {
    FilledColumnSum(xs, m);
    PaddedMean(Present(xs), Present(FillColumn(xs, Some(m))), MissingCount(xs), m);
  }

  /** Adding z values whose sum is z copies of the mean m keeps the mean m. */
  lemma PaddedMean(obs: seq<real>, filled: seq<real>, z: nat, m: real)
    requires Mean(obs) == Some(m)
    requires |filled| == |obs| + z && Sum(filled) == Sum(obs) + Copies(z, m)
    ensures Mean(filled) == Some(m)
  {
    CopiesIsProduct(z, m);
    var s, p, total, n := Sum(obs), |obs| as real, Sum(filled), |filled| as real;
    MeanOfPadded(s, p, z as real, m, total, n);
  }

  /** Padding p observations of mean m with z more copies of m keeps the mean m. */
  lemma MeanOfPadded(s: real, p: real, z: real, m: real, total: real, n: real)
    requires p > 0.0 && z >= 0.0 && m == s / p
    requires total == s + z * m && n == p + z
    ensures total / n == m
  {
    assert s == m * p;
    assert total == n * m;
  }

  /** Cleaning leaves every group mean as it was. */
  lemma ImputedKeepsGroupMean(t: Table, width: nat, c: string, k: nat)
    requires Rectangular(t, width) && k < width
    ensures GroupMean(Imputed(t), c, k) == GroupMean(t, c, k)
  {
    var g := CountryRows(t, c);
    CountryRowsOfFilled(t, t, c);
    var filled := FillRows(g, t);
    assert forall i :: 0 <= i < |g| ==> g[i] in g;
    assert Column(filled, k) == FillColumn(Column(g, k), GroupMean(t, c, k));
    FillColumnKeepsMean(Column(g, k));
  }

  /**
   * Re-running the cleaning pass on its own output changes nothing: the
   * cleaned table's group means are the raw table's, so every cell a second
   * pass could fill is one the first pass could not.
   */
  lemma ImputeIdempotent(t: Table, width: nat)
    requires Rectangular(t, width)
    ensures Imputed(Imputed(t)) == Imputed(t)
  {
    var once := Imputed(t);
    forall i | 0 <= i < |t|
      ensures FillRow(once[i], once) == once[i]
    {
      forall k | 0 <= k < width
        ensures FillRow(once[i], once).Cells[k] == once[i].Cells[k]
      {
        ImputedKeepsGroupMean(t, width, t[i].Country, k);
      }
    }
  }

  /**
   * Two countries, one sector column: A's missing 2020 value becomes A's
   * own observed value x, whatever B holds (with x = 10 and B's values 30
   * and 20 it is 10, not the mean 20 of all observed values).
   */
  lemma OwnCountryScenario(x: real, p: real, q: real)
    ensures var raw := [RawRow("A", [Some(2019.0), Some(x)]), RawRow("A", [Some(2020.0), None]),
                        RawRow("B", [Some(2019.0), Some(p)]), RawRow("B", [Some(2020.0), Some(q)])];
            Imputed(raw)[1].Cells == [Some(2020.0), Some(x)]
  {
    var raw := [RawRow("A", [Some(2019.0), Some(x)]), RawRow("A", [Some(2020.0), None]),
                RawRow("B", [Some(2019.0), Some(p)]), RawRow("B", [Some(2020.0), Some(q)])];
    ScenarioMeanOfA(x, p, q);
    ImputedMissingCell(raw, 1, 1);
    var cells := Imputed(raw)[1].Cells;
    assert |cells| == 2 && cells[0] == Some(2020.0) && cells[1] == Some(x);
  }

  /** In that table, A's mean for the sector column is x, its single observed value. */
  lemma ScenarioMeanOfA(x: real, p: real, q: real)
    ensures var raw := [RawRow("A", [Some(2019.0), Some(x)]), RawRow("A", [Some(2020.0), None]),
                        RawRow("B", [Some(2019.0), Some(p)]), RawRow("B", [Some(2020.0), Some(q)])];
            GroupMean(raw, "A", 1) == Some(x)
  {
    var a19, a20 := RawRow("A", [Some(2019.0), Some(x)]), RawRow("A", [Some(2020.0), None]);
    var b19, b20 := RawRow("B", [Some(2019.0), Some(p)]), RawRow("B", [Some(2020.0), Some(q)]);
    var raw := [a19, a20, b19, b20];
    // A's group: one row of the table at a time, from the last row up
    assert [b20][1..] == [] && [b19, b20][1..] == [b20] && [a20, b19, b20][1..] == [b19, b20];
    assert raw[1..] == [a20, b19, b20];
    assert CountryRows([b20], "A") == [];
    assert CountryRows([b19, b20], "A") == [];
    assert CountryRows([a20, b19, b20], "A") == [a20];
    assert CountryRows(raw, "A") == [a19, a20];
    // A's observed values in the sector column and their mean
    var col := Column([a19, a20], 1);
    assert col == [Some(x), None];
    assert Present(col) == [x];
    assert [x][1..] == [];
    assert Sum([x]) == x;
  }
}
