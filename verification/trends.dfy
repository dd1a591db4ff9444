/** Per-year mention trends: row counts per name, the most mentioned names,
    the (year, name) table of counts or per-year percentages, and its long
    form. */
module Trends {
  import opened Seqs
  import opened Order
  import opened TopN

  /** One mention row as the trend code sees it: its year, when the
      publication date gave one, and its software name. */
  datatype Obs = Obs(year: Option<int>, name: string)

  function NameCol(obs: seq<Obs>): (ns: seq<string>)
    ensures |ns| == |obs|
    ensures forall i :: 0 <= i < |obs| ==> ns[i] == obs[i].name
  {
    if obs == [] then [] else [obs[0].name] + NameCol(obs[1..])
  }

  /** `value_counts().head(n).index`: the n names with the most rows, most
      first; names with equal counts in order of first appearance. */
  function TopNames(names: seq<string>, n: nat): (top: seq<string>)
    ensures |top| == if n < |Unique(names)| then n else |Unique(names)|
    ensures Distinct(top)
    ensures forall x :: x in top ==> x in names
    ensures forall a, b :: 0 <= a < b < |top| ==> Occ(names, top[a]) >= Occ(names, top[b])
    ensures forall x, a :: x in names && x !in top && 0 <= a < |top| ==> Occ(names, x) <= Occ(names, top[a])
    ensures forall a, b :: 0 <= a < b < |top| && Occ(names, top[a]) == Occ(names, top[b]) ==>
              IndexOf(names, top[a]) < IndexOf(names, top[b])
  {
    TopNamesDistinct(names, n);
    TopNamesDescending(names, n);
    TopNamesMembers(names, n);
    TopNamesLeftOut(names, n);
    TopNamesTieOrder(names, n);
    Chosen(names, n)
  }

  /** The names at the positions `nlargest` picks from the per-name counts. */
  function Chosen(names: seq<string>, n: nat): seq<string> {
    var u := Unique(names);
    PickNames(u, TopIndices(CountsOf(names, u), n))
  }

  lemma TopNamesDistinct(names: seq<string>, n: nat)
    ensures Distinct(Chosen(names, n))
  {
    var top := Chosen(names, n);
    forall a, b | 0 <= a < b < |top| ensures top[a] != top[b] {
      ChosenAt(names, n, a, b);
    }
  }

  lemma TopNamesDescending(names: seq<string>, n: nat)
    ensures forall a, b :: 0 <= a < b < |Chosen(names, n)| ==>
              Occ(names, Chosen(names, n)[a]) >= Occ(names, Chosen(names, n)[b])
  {
    var top := Chosen(names, n);
    forall a, b | 0 <= a < b < |top| ensures Occ(names, top[a]) >= Occ(names, top[b]) {
      ChosenAt(names, n, a, b);
    }
  }

  lemma TopNamesMembers(names: seq<string>, n: nat)
    ensures forall x :: x in Chosen(names, n) ==> x in names
  {
    var u := Unique(names);
    var idx := TopIndices(CountsOf(names, u), n);
    var top := Chosen(names, n);
    forall x | x in top ensures x in names {
      var a :| 0 <= a < |top| && top[a] == x;
      assert top[a] == u[idx[a]] && u[idx[a]] in u;
    }
  }

  /** Two picked positions hold different names, the first seen at least as often. */
  lemma ChosenAt(names: seq<string>, n: nat, a: nat, b: nat)
    requires a < b < |Chosen(names, n)|
    ensures Chosen(names, n)[a] != Chosen(names, n)[b]
    ensures Occ(names, Chosen(names, n)[a]) >= Occ(names, Chosen(names, n)[b])
  {
    var u := Unique(names);
    var counts := CountsOf(names, u);
    var idx := TopIndices(counts, n);
    assert idx[a] != idx[b] && counts[idx[a]] >= counts[idx[b]];
  }

  lemma TopNamesLeftOut(names: seq<string>, n: nat)
    ensures forall x, a :: x in names && x !in Chosen(names, n) && 0 <= a < |Chosen(names, n)| ==>
              Occ(names, x) <= Occ(names, Chosen(names, n)[a])
  {
    var u := Unique(names);
    var counts := CountsOf(names, u);
    var idx := TopIndices(counts, n);
    TopNamesExcluded(names, u, counts, idx, Chosen(names, n));
  }

  lemma TopNamesTieOrder(names: seq<string>, n: nat)
    ensures forall a, b :: (0 <= a < b < |Chosen(names, n)| &&
              Occ(names, Chosen(names, n)[a]) == Occ(names, Chosen(names, n)[b])) ==>
              Chosen(names, n)[a] in names && Chosen(names, n)[b] in names &&
              IndexOf(names, Chosen(names, n)[a]) < IndexOf(names, Chosen(names, n)[b])
  {
    var u := Unique(names);
    var counts := CountsOf(names, u);
    var idx := TopIndices(counts, n);
    TopNamesTies(names, u, counts, idx, Chosen(names, n));
  }

  function CountsOf(names: seq<string>, u: seq<string>): (counts: seq<int>)
    ensures |counts| == |u| && forall i :: 0 <= i < |u| ==> counts[i] == Occ(names, u[i])
  {
    seq(|u|, i requires 0 <= i < |u| => Occ(names, u[i]))
  }

  function PickNames(u: seq<string>, idx: seq<nat>): (top: seq<string>)
    requires forall a :: 0 <= a < |idx| ==> idx[a] < |u|
    ensures |top| == |idx| && forall a :: 0 <= a < |idx| ==> top[a] == u[idx[a]]
  {
    seq(|idx|, a requires 0 <= a < |idx| => u[idx[a]])
  }

  lemma TopNamesExcluded(names: seq<string>, u: seq<string>, counts: seq<int>, idx: seq<nat>, top: seq<string>)
    requires forall x :: x in u <==> x in names
    requires |counts| == |u| && forall i :: 0 <= i < |u| ==> counts[i] == Occ(names, u[i])
    requires forall a :: 0 <= a < |idx| ==> idx[a] < |u|
    requires forall k, a :: 0 <= k < |u| && k !in idx && 0 <= a < |idx| ==> counts[k] <= counts[idx[a]]
    requires |top| == |idx| && forall a :: 0 <= a < |idx| ==> top[a] == u[idx[a]]
    ensures forall x, a :: x in names && x !in top && 0 <= a < |top| ==> Occ(names, x) <= Occ(names, top[a])
  {
    forall x, a | x in names && x !in top && 0 <= a < |top|
      ensures Occ(names, x) <= Occ(names, top[a])
    {
      var k := IndexOf(u, x);
      assert forall b :: 0 <= b < |idx| ==> top[b] in top && idx[b] != k;
    }
  }

  lemma TopNamesTies(names: seq<string>, u: seq<string>, counts: seq<int>, idx: seq<nat>, top: seq<string>)
    requires forall x :: x in u <==> x in names
    requires forall i, j :: 0 <= i < j < |u| ==> IndexOf(names, u[i]) < IndexOf(names, u[j])
    requires |counts| == |u| && forall i :: 0 <= i < |u| ==> counts[i] == Occ(names, u[i])
    requires forall a :: 0 <= a < |idx| ==> idx[a] < |u|
    requires forall a, b :: 0 <= a < b < |idx| && counts[idx[a]] == counts[idx[b]] ==> idx[a] < idx[b]
    requires |top| == |idx| && forall a :: 0 <= a < |idx| ==> top[a] == u[idx[a]]
    ensures forall a, b :: 0 <= a < b < |top| && Occ(names, top[a]) == Occ(names, top[b]) ==>
              top[a] in names && top[b] in names && IndexOf(names, top[a]) < IndexOf(names, top[b])
  {
    forall a, b | 0 <= a < b < |top| && Occ(names, top[a]) == Occ(names, top[b])
      ensures top[a] in names && top[b] in names && IndexOf(names, top[a]) < IndexOf(names, top[b])
    {
      assert u[idx[a]] in u && u[idx[b]] in u;
    }
  }

  /** Rows with year `y` and name `x`. */
  function CellCount(obs: seq<Obs>, y: int, x: string): nat {
    if obs == [] then 0
    else (if obs[0].year == Some(y) && obs[0].name == x then 1 else 0) + CellCount(obs[1..], y, x)
  }

  /** Rows with year `y`, whatever their name. */
  function YearTotal(obs: seq<Obs>, y: int): nat {
    if obs == [] then 0 else (if obs[0].year == Some(y) then 1 else 0) + YearTotal(obs[1..], y)
  }

  lemma {:induction false} YearTotalPositive(obs: seq<Obs>, o: Obs)
    requires o in obs && o.year.Some?
    ensures YearTotal(obs, o.year.value) >= 1
  {
    if obs[0] != o {
      YearTotalPositive(obs[1..], o);
    }
  }

  /** The years that occur in `obs`, in row order with repeats. */
  function YearCol(obs: seq<Obs>): (ys: seq<int>)
    ensures forall y :: y in ys <==> exists o :: o in obs && o.year == Some(y)
  {
    if obs == [] then []
    else
      var rest := YearCol(obs[1..]);
      assert forall o :: o in obs <==> o == obs[0] || o in obs[1..];
      match obs[0].year
      case Some(y) => [y] + rest
      case None => rest
  }

  /** Rows that reach the trend table: a year and one of the top names
      (`groupby` leaves out rows without a year). */
  function TrendRows(obs: seq<Obs>, top: seq<string>): (r: seq<Obs>)
    ensures forall o :: o in r <==> o in obs && o.year.Some? && o.name in top
  {
    if obs == [] then []
    else
      var rest := TrendRows(obs[1..], top);
      assert forall o :: o in obs <==> o == obs[0] || o in obs[1..];
      if obs[0].year.Some? && obs[0].name in top then [obs[0]] + rest else rest
  }

  /** A wide table: one row per year, one column per name. */
  datatype Table = Table(years: seq<int>, names: seq<string>, cells: seq<seq<real>>)

  predicate Shaped(t: Table) {
    && |t.cells| == |t.years|
    && forall i :: 0 <= i < |t.cells| ==> |t.cells[i]| == |t.names|
  }

  /** The counts of one year, one per name of `names`. */
  function CountRow(obs: seq<Obs>, y: int, names: seq<string>): (row: seq<real>)
    ensures |row| == |names|
    ensures forall j :: 0 <= j < |names| ==> row[j] == CellCount(obs, y, names[j]) as real
  {
    if names == [] then [] else [CellCount(obs, y, names[0]) as real] + CountRow(obs, y, names[1..])
  }

  /** `c` rows out of `total`, in percent. */
  function Share(c: nat, total: nat): real
    requires total > 0
  {
    100.0 * c as real / total as real
  }

  lemma ShareRange(c: nat, total: nat)
    requires 0 < total && c <= total
    ensures 0.0 <= Share(c, total) <= 100.0
  {
    var t := total as real;
    assert 100.0 * c as real <= 100.0 * t;
    assert 100.0 * t / t == 100.0;
  }

  lemma ShareAdd(a: nat, b: nat, total: nat)
    requires total > 0
    ensures Share(a, total) + Share(b, total) == Share(a + b, total)
  {
  }

  /** The row count a percentage of `total` stands for. */
  function Unshare(p: real, total: nat): real {
    p * total as real / 100.0
  }

  lemma ShareInverse(c: nat, total: nat)
    requires total > 0
    ensures Unshare(Share(c, total), total) == c as real
  {
    var t := total as real;
    assert Share(c, total) * t == 100.0 * c as real;
  }

  /** The shares of one year, in percent of all its rows. */
  function PercentRow(obs: seq<Obs>, y: int, names: seq<string>): (row: seq<real>)
    requires YearTotal(obs, y) > 0
    ensures |row| == |names|
    ensures forall j :: 0 <= j < |names| ==> row[j] == Share(CellCount(obs, y, names[j]), YearTotal(obs, y))
  {
    if names == [] then []
    else [Share(CellCount(obs, y, names[0]), YearTotal(obs, y))] + PercentRow(obs, y, names[1..])
  }

  /** The column names of the trend table: top names that have a dated row, sorted. */
  function Columns(obs: seq<Obs>, top: seq<string>): (names: seq<string>)
    ensures Ascending(names, StrLess) && Distinct(names)
    ensures forall x :: x in names <==> x in top && exists o :: o in obs && o.year.Some? && o.name == x
  {
    StrLessStrictTotal();
    var rows := TrendRows(obs, top);
    var names := SortDistinct(NameCol(rows), StrLess);
    AscendingDistinct(names, StrLess);
    forall x ensures x in names <==> x in top && exists o :: o in obs && o.year.Some? && o.name == x {
      if x in names {
        var k :| 0 <= k < |rows| && NameCol(rows)[k] == x;
        assert rows[k] in rows;
      }
      if x in top && exists o :: o in obs && o.year.Some? && o.name == x {
        var o :| o in obs && o.year.Some? && o.name == x;
        assert o in rows;
        var k :| 0 <= k < |rows| && rows[k] == o;
        assert NameCol(rows)[k] == x;
      }
    }
    names
  }

  /** `groupby(['year', name]).size().unstack().fillna(0)` over the rows of
      the top names: a cell holds the rows with its year and name, 0 when
      there are none. */
  function Counts(obs: seq<Obs>, top: seq<string>): (t: Table)
    ensures Shaped(t)
    ensures Ascending(t.years, IntLess) && Distinct(t.years)
    ensures forall y :: y in t.years <==> exists o :: o in obs && o.year == Some(y) && o.name in top
    ensures t.names == Columns(obs, top)
    ensures forall i, j :: 0 <= i < |t.years| && 0 <= j < |t.names| ==>
              t.cells[i][j] == CellCount(obs, t.years[i], t.names[j]) as real
  {
    var years := TrendYears(obs, top);
    var names := Columns(obs, top);
    Table(years, names, seq(|years|, i requires 0 <= i < |years| => CountRow(obs, years[i], names)))
  }

  /** The row index of the count table: the years of the rows of the top
      names, sorted. */
  function TrendYears(obs: seq<Obs>, top: seq<string>): (years: seq<int>)
    ensures Ascending(years, IntLess) && Distinct(years)
    ensures forall y :: y in years <==> exists o :: o in obs && o.year == Some(y) && o.name in top
  {
    IntLessStrictTotal();
    var rows := TrendRows(obs, top);
    var years := SortDistinct(YearCol(rows), IntLess);
    AscendingDistinct(years, IntLess);
    forall y ensures y in years <==> exists o :: o in obs && o.year == Some(y) && o.name in top {
      if y in years {
        var o :| o in rows && o.year == Some(y);
      }
      if exists o :: o in obs && o.year == Some(y) && o.name in top {
        var o :| o in obs && o.year == Some(y) && o.name in top;
        assert o in rows;
      }
    }
    years
  }

  /** Percentage mode: every cell divided by its year's total over all names
      and multiplied by 100; the years are all years with rows, since the
      division aligns on the union of both indexes and fills the gaps with 0. */
  function Percentages(obs: seq<Obs>, top: seq<string>): (t: Table)
    ensures Shaped(t)
    ensures Ascending(t.years, IntLess) && Distinct(t.years)
    ensures forall y :: y in t.years <==> exists o :: o in obs && o.year == Some(y)
    ensures t.names == Columns(obs, top)
    ensures forall i :: 0 <= i < |t.years| ==> YearTotal(obs, t.years[i]) > 0
    ensures forall i, j :: 0 <= i < |t.years| && 0 <= j < |t.names| ==>
              t.cells[i][j] == Share(CellCount(obs, t.years[i], t.names[j]), YearTotal(obs, t.years[i]))
  {
    IntLessStrictTotal();
    var years := SortDistinct(YearCol(obs), IntLess);
    AscendingDistinct(years, IntLess);
    forall i | 0 <= i < |years| ensures YearTotal(obs, years[i]) > 0 {
      var o :| o in obs && o.year == Some(years[i]);
      YearTotalPositive(obs, o);
    }
    var names := Columns(obs, top);
    Table(years, names, seq(|years|, i requires 0 <= i < |years| => PercentRow(obs, years[i], names)))
  }

  /** Sum of the counts of one year over the names of `names`. */
  function CellSum(obs: seq<Obs>, y: int, names: seq<string>): nat {
    if names == [] then 0 else CellCount(obs, y, names[0]) + CellSum(obs, y, names[1..])
  }

  /** Peeling off the first row: it adds 1 for every occurrence of its name. */
  lemma {:induction false} CellSumStep(obs: seq<Obs>, y: int, names: seq<string>)
    requires obs != []
    ensures CellSum(obs, y, names) ==
              CellSum(obs[1..], y, names) + (if obs[0].year == Some(y) then Occ(names, obs[0].name) else 0)
  {
    if names != [] {
      CellSumStep(obs, y, names[1..]);
    }
  }

  lemma {:induction false} CellSumEmpty(y: int, names: seq<string>)
    ensures CellSum([], y, names) == 0
  {
    if names != [] {
      CellSumEmpty(y, names[1..]);
    }
  }

  /** Over distinct names a year's counts add up to at most its row total:
      every row is counted in at most one column. */
  lemma {:induction false} CellSumBound(obs: seq<Obs>, y: int, names: seq<string>)
    requires Distinct(names)
    ensures CellSum(obs, y, names) <= YearTotal(obs, y)
  {
    if obs == [] {
      CellSumEmpty(y, names);
    } else {
      CellSumStep(obs, y, names);
      OccDistinct(names, obs[0].name);
      CellSumBound(obs[1..], y, names);
    }
  }

  function RealSum(s: seq<real>): real {
    if s == [] then 0.0 else s[0] + RealSum(s[1..])
  }

  lemma {:induction false} CountRowSum(obs: seq<Obs>, y: int, names: seq<string>)
    ensures RealSum(CountRow(obs, y, names)) == CellSum(obs, y, names) as real
  {
    if names != [] {
      assert CountRow(obs, y, names)[1..] == CountRow(obs, y, names[1..]);
      CountRowSum(obs, y, names[1..]);
    }
  }

  lemma {:induction false} PercentRowSum(obs: seq<Obs>, y: int, names: seq<string>)
    requires YearTotal(obs, y) > 0
    ensures RealSum(PercentRow(obs, y, names)) == Share(CellSum(obs, y, names), YearTotal(obs, y))
  {
    if names != [] {
      assert PercentRow(obs, y, names)[1..] == PercentRow(obs, y, names[1..]);
      PercentRowSum(obs, y, names[1..]);
      ShareAdd(CellCount(obs, y, names[0]), CellSum(obs, y, names[1..]), YearTotal(obs, y));
    }
  }

  /** In percentage mode every cell lies in [0, 100]. */
  lemma PercentCellRange(obs: seq<Obs>, top: seq<string>, i: nat, j: nat)
    requires i < |Percentages(obs, top).years| && j < |Percentages(obs, top).names|
    ensures 0.0 <= Percentages(obs, top).cells[i][j] <= 100.0
  {
    var t := Percentages(obs, top);
    var y, x := t.years[i], t.names[j];
    CellSumBound(obs, y, [x]);
    ShareRange(CellCount(obs, y, x), YearTotal(obs, y));
  }

  /** In percentage mode the cells of a year add up to at most 100. */
  lemma PercentRowAtMost100(obs: seq<Obs>, top: seq<string>, i: nat)
    requires i < |Percentages(obs, top).years|
    ensures RealSum(Percentages(obs, top).cells[i]) <= 100.0
  {
    var t := Percentages(obs, top);
    var y := t.years[i];
    assert t.cells[i] == PercentRow(obs, y, t.names);
    PercentRowSum(obs, y, t.names);
    CellSumBound(obs, y, t.names);
    ShareRange(CellSum(obs, y, t.names), YearTotal(obs, y));
  }

  /** In count mode the cells of a year add up to at most the year's rows. */
  lemma CountRowAtMostTotal(obs: seq<Obs>, top: seq<string>, i: nat)
    requires i < |Counts(obs, top).years|
    ensures RealSum(Counts(obs, top).cells[i]) <= YearTotal(obs, Counts(obs, top).years[i]) as real
  {
    var t := Counts(obs, top);
    var y := t.years[i];
    assert t.cells[i] == CountRow(obs, y, t.names);
    CountRowSum(obs, y, t.names);
    CellSumBound(obs, y, t.names);
  }

  /** Percentages scale back to the counts: cell * total / 100 == count. */
  lemma PercentInverse(obs: seq<Obs>, top: seq<string>, i: nat, j: nat)
    requires i < |Percentages(obs, top).years| && j < |Percentages(obs, top).names|
    ensures Unshare(Percentages(obs, top).cells[i][j], YearTotal(obs, Percentages(obs, top).years[i])) ==
              CellCount(obs, Percentages(obs, top).years[i], Percentages(obs, top).names[j]) as real
  {
    var t := Percentages(obs, top);
    ShareInverse(CellCount(obs, t.years[i], t.names[j]), YearTotal(obs, t.years[i]));
  }

  /** One row of the long form. */
  datatype LongRow = LongRow(year: int, name: string, value: real)

  /** The long rows of column `j`, one per year. */
  function Column(t: Table, j: nat): (col: seq<LongRow>)
    requires Shaped(t) && j < |t.names|
    ensures |col| == |t.years|
    ensures forall i :: 0 <= i < |t.years| ==> col[i] == LongRow(t.years[i], t.names[j], t.cells[i][j])
  {
    seq(|t.years|, i requires 0 <= i < |t.years| => LongRow(t.years[i], t.names[j], t.cells[i][j]))
  }

  function MeltFrom(t: Table, j: nat): seq<LongRow>
    requires Shaped(t) && j <= |t.names|
    decreases |t.names| - j
  {
    if j == |t.names| then [] else Column(t, j) + MeltFrom(t, j + 1)
  }

  /** `j * ny`, by repeated addition. */
  function Offset(j: nat, ny: nat): nat {
    if j == 0 then 0 else Offset(j - 1, ny) + ny
  }

  lemma {:induction false} OffsetIsProduct(j: nat, ny: nat)
    ensures Offset(j, ny) == j * ny
  {
    if j > 0 {
      OffsetIsProduct(j - 1, ny);
      assert (j - 1) * ny + ny == j * ny;
    }
  }

  lemma {:induction false} OffsetBound(j: nat, n: nat, ny: nat, i: nat)
    requires j < n && i < ny
    ensures Offset(j, ny) + i < Offset(n, ny)
  {
    if j < n - 1 {
      OffsetBound(j, n - 1, ny, i);
    }
  }

  lemma {:induction false} MeltFromLength(t: Table, j: nat)
    requires Shaped(t) && j <= |t.names|
    ensures |MeltFrom(t, j)| == Offset(|t.names| - j, |t.years|)
    decreases |t.names| - j
  {
    if j < |t.names| {
      MeltFromLength(t, j + 1);
    }
  }

  lemma {:induction false} MeltFromIndex(t: Table, j0: nat, j: nat, i: nat)
    requires Shaped(t) && j0 <= j < |t.names| && i < |t.years|
    ensures Offset(j - j0, |t.years|) + i < |MeltFrom(t, j0)|
    ensures MeltFrom(t, j0)[Offset(j - j0, |t.years|) + i] == LongRow(t.years[i], t.names[j], t.cells[i][j])
    decreases j - j0
  {
    var ny := |t.years|;
    var col, rest := Column(t, j0), MeltFrom(t, j0 + 1);
    assert MeltFrom(t, j0) == col + rest;
    if j == j0 {
      assert (col + rest)[i] == col[i];
    } else {
      MeltFromIndex(t, j0 + 1, j, i);
      var k := Offset(j - (j0 + 1), ny) + i;
      assert Offset(j - j0, ny) == Offset(j - (j0 + 1), ny) + ny;
      assert (col + rest)[ny + k] == rest[k];
    }
  }

  /** Row `Offset(j, |years|) + i` of `m` is the cell of year `i` and name `j`. */
  predicate MeltedAt(t: Table, m: seq<LongRow>, i: nat, j: nat)
    requires Shaped(t) && i < |t.years| && j < |t.names|
  {
    Offset(j, |t.years|) + i < |m| &&
    m[Offset(j, |t.years|) + i] == LongRow(t.years[i], t.names[j], t.cells[i][j])
  }

  /** `pd.melt(id_vars='year')`: column by column, each column's years in
      order. */
  function Melt(t: Table): (m: seq<LongRow>)
    requires Shaped(t)
    ensures |m| == Offset(|t.names|, |t.years|)
    ensures forall i: nat, j: nat :: i < |t.years| && j < |t.names| ==> MeltedAt(t, m, i, j)
  {
    MeltFromLength(t, 0);
    var m := MeltFrom(t, 0);
    forall i: nat, j: nat | i < |t.years| && j < |t.names| ensures MeltedAt(t, m, i, j) {
      MeltFromIndex(t, 0, j, i);
    }
    m
  }

  /** The long form has one row per cell: years times names. */
  lemma MeltLength(t: Table)
    requires Shaped(t)
    ensures |Melt(t)| == |t.years| * |t.names|
  {
    OffsetIsProduct(|t.names|, |t.years|);
  }

  /** Every position below `Offset(nn, ny)` is `Offset(j, ny) + i` for a
      name position `j < nn` and a year position `i < ny`. */
  lemma {:induction false} OffsetSplit(k: nat, nn: nat, ny: nat) returns (i: nat, j: nat)
    requires k < Offset(nn, ny)
    ensures i < ny && j < nn && k == Offset(j, ny) + i
    decreases nn
  {
    if k < Offset(nn - 1, ny) {
      i, j := OffsetSplit(k, nn - 1, ny);
    } else {
      i, j := k - Offset(nn - 1, ny), nn - 1;
    }
  }

  /** Every long row is a cell of the table: its year, its name and its value. */
  lemma MeltIndex(t: Table, k: nat) returns (i: nat, j: nat)
    requires Shaped(t) && k < |Melt(t)|
    ensures i < |t.years| && j < |t.names|
    ensures Melt(t)[k] == LongRow(t.years[i], t.names[j], t.cells[i][j])
  {
    i, j := OffsetSplit(k, |t.names|, |t.years|);
    assert MeltedAt(t, Melt(t), i, j);
  }

  /** The count table's long form has a row for every dated row of a top
      name: its year, its name and its count. */
  lemma CountsHas(obs: seq<Obs>, top: seq<string>, y: int, x: string)
    requires x in top && Obs(Some(y), x) in obs
    ensures LongRow(y, x, CellCount(obs, y, x) as real) in Melt(Counts(obs, top))
  {
    var t := Counts(obs, top);
    assert y in t.years && x in t.names;
    var i, j := IndexOf(t.years, y), IndexOf(t.names, x);
    assert MeltedAt(t, Melt(t), i, j);
  }

  /** Every long row of the count table names a top name, in a year that
      has a dated row `o` of some top name. */
  lemma CountsRow(obs: seq<Obs>, top: seq<string>, k: nat) returns (o: Obs)
    requires k < |Melt(Counts(obs, top))|
    ensures Melt(Counts(obs, top))[k].name in top
    ensures o in obs && o.year == Some(Melt(Counts(obs, top))[k].year) && o.name in top
  {
    var t := Counts(obs, top);
    var i, j := MeltIndex(t, k);
    assert t.names[j] in t.names;
    assert t.years[i] in t.years;
    o :| o in obs && o.year == Some(t.years[i]) && o.name in top;
  }

  /** All the positions of year `i` in a long table of `nn` names. */
  lemma OffsetBounds(nn: nat, ny: nat, i: nat)
    requires i < ny
    ensures forall j: nat :: j < nn ==> Offset(j, ny) + i < Offset(nn, ny)
  {
    forall j: nat | j < nn ensures Offset(j, ny) + i < Offset(nn, ny) {
      OffsetBound(j, nn, ny, i);
    }
  }

  /** The values of year `i` read back out of a long table, one per name. */
  function UnmeltRow(ny: nat, nn: nat, m: seq<LongRow>, i: nat): (row: seq<real>)
    requires Offset(nn, ny) <= |m| && i < ny
    ensures |row| == nn
    decreases nn
  {
    if nn == 0 then []
    else UnmeltRow(ny, nn - 1, m, i) + [m[Offset(nn - 1, ny) + i].value]
  }

  /** Value `j` of the rebuilt row `i` is long row `Offset(j, ny) + i`. */
  lemma {:induction false} UnmeltRowAt(ny: nat, nn: nat, m: seq<LongRow>, i: nat, j: nat)
    requires Offset(nn, ny) <= |m| && i < ny && j < nn
    ensures Offset(j, ny) + i < |m| && UnmeltRow(ny, nn, m, i)[j] == m[Offset(j, ny) + i].value
    decreases nn
  {
    OffsetBound(j, nn, ny, i);
    if j < nn - 1 {
      UnmeltRowAt(ny, nn - 1, m, i, j);
    }
  }

  /** Reads the wide cells back out of a long table. */
  function Unmelt(ny: nat, nn: nat, m: seq<LongRow>): (cells: seq<seq<real>>)
    requires |m| == Offset(nn, ny)
    ensures |cells| == ny && forall i :: 0 <= i < ny ==> cells[i] == UnmeltRow(ny, nn, m, i)
  {
    seq(ny, i requires 0 <= i < ny => UnmeltRow(ny, nn, m, i))
  }

  /** Melting loses nothing: the wide table can be rebuilt from the long one. */
  lemma MeltRoundTrip(t: Table)
    requires Shaped(t)
    ensures Unmelt(|t.years|, |t.names|, Melt(t)) == t.cells
  {
    var m := Melt(t);
    var ny, nn := |t.years|, |t.names|;
    forall i: nat | i < ny ensures UnmeltRow(ny, nn, m, i) == t.cells[i] {
      var row := UnmeltRow(ny, nn, m, i);
      forall j: nat | j < nn ensures row[j] == t.cells[i][j] {
        UnmeltRowAt(ny, nn, m, i, j);
        assert MeltedAt(t, m, i, j);
      }
    }
  }
}
