/** The live trend app: the cleaned rows of the slider's year window, the N
    most mentioned names among them, and those names' per-year mention
    counts or per-year shares in percent, in long form. */
module AreaDash {
  import opened Seqs
  import opened Years
  import opened Rows
  import opened Trends

  /** The trend code's view of the cleaned mentions: every one has a year. */
  function ObsOf(ms: seq<Mention>): (obs: seq<Obs>)
    ensures |obs| == |ms|
    ensures forall i :: 0 <= i < |ms| ==> obs[i] == Obs(Some(ms[i].year), ms[i].name)
  {
    if ms == [] then [] else [Obs(Some(ms[0].year), ms[0].name)] + ObsOf(ms[1..])
  }

  /** The rows of the inclusive window [lo, hi]. */
  function WindowObs(rows: seq<Row>, lo: int, hi: int): seq<Obs> {
    ObsOf(InRange(Clean(rows), lo, hi))
  }

  /** The value type that switches the figure to percentages; any other
      value draws counts. */
  const Percentage: string := "percentage"

  /** The wide table of the figure: counts of the top names per year, or
      their shares of each year's rows. */
  function FigureTable(rows: seq<Row>, n: nat, valueType: string, lo: int, hi: int): (t: Table)
    ensures Shaped(t)
  {
    var obs := WindowObs(rows, lo, hi);
    var top := TopNames(NameCol(obs), n);
    if valueType == Percentage then Percentages(obs, top) else Counts(obs, top)
  }

  /** `update_figure(N, value_type, [lo, hi])`: the long table the area
      chart draws, one row per (year, name) cell. */
  function UpdateFigure(rows: seq<Row>, n: nat, valueType: string, lo: int, hi: int): seq<LongRow> {
    Melt(FigureTable(rows, n, valueType, lo, hi))
  }

  /** The figure holds exactly the table: one row per cell, and the table
      rebuilt from it. */
  lemma FigureRoundTrip(rows: seq<Row>, n: nat, valueType: string, lo: int, hi: int, t: Table)
    requires t == FigureTable(rows, n, valueType, lo, hi)
    ensures |UpdateFigure(rows, n, valueType, lo, hi)| == |t.years| * |t.names|
    ensures Unmelt(|t.years|, |t.names|, UpdateFigure(rows, n, valueType, lo, hi)) == t.cells
  {
    MeltLength(t);
    MeltRoundTrip(t);
  }

  /** Cleaned mentions with year `y` and name `x`. */
  function Mentioned(ms: seq<Mention>, y: int, x: string): nat {
    if ms == [] then 0 else (if ms[0].year == y && ms[0].name == x then 1 else 0) + Mentioned(ms[1..], y, x)
  }

  /** Cleaned mentions with year `y`. */
  function MentionsIn(ms: seq<Mention>, y: int): nat {
    if ms == [] then 0 else (if ms[0].year == y then 1 else 0) + MentionsIn(ms[1..], y)
  }

  /** Rows that pass the row filter, are dated in year `y` and name `x`. */
  function RowsOf(rows: seq<Row>, y: int, x: string): nat {
    if rows == [] then 0
    else (if Kept(rows[0]) && ParseYear(rows[0].pubdate) == Some(y) && rows[0].mappedToSoftware == x then 1 else 0)
         + RowsOf(rows[1..], y, x)
  }

  /** Rows that pass the row filter and are dated in year `y`. */
  function RowsIn(rows: seq<Row>, y: int): nat {
    if rows == [] then 0
    else (if Kept(rows[0]) && ParseYear(rows[0].pubdate) == Some(y) then 1 else 0) + RowsIn(rows[1..], y)
  }

  /** Cleaning keeps one mention per filtered, dated row: counting mentions
      of a year, with or without a name, counts the rows themselves. */
  lemma {:induction false} CleanCounts(rows: seq<Row>, y: int, x: string)
    ensures Mentioned(Clean(rows), y, x) == RowsOf(rows, y, x)
    ensures MentionsIn(Clean(rows), y) == RowsIn(rows, y)
  {
    if rows != [] {
      CleanCounts(rows[1..], y, x);
      if Kept(rows[0]) && ParseYear(rows[0].pubdate).Some? {
        assert Clean(rows)[1..] == Clean(rows[1..]);
      }
    }
  }

  lemma ObsOfCons(ms: seq<Mention>)
    requires ms != []
    ensures ObsOf(ms)[1..] == ObsOf(ms[1..])
  {
  }

  /** Inside the window the table's counts are plain mention counts: the
      window keeps every mention of a year it contains. */
  lemma {:induction false} WindowCounts(ms: seq<Mention>, lo: int, hi: int, y: int, x: string)
    requires lo <= y <= hi
    ensures CellCount(ObsOf(InRange(ms, lo, hi)), y, x) == Mentioned(ms, y, x)
    ensures YearTotal(ObsOf(InRange(ms, lo, hi)), y) == MentionsIn(ms, y)
  {
    if ms != [] {
      var w := InRange(ms, lo, hi);
      WindowCounts(ms[1..], lo, hi, y, x);
      if lo <= ms[0].year <= hi {
        assert w == [ms[0]] + InRange(ms[1..], lo, hi);
        assert w[1..] == InRange(ms[1..], lo, hi);
        ObsOfCons(w);
      }
    }
  }

  /** Every row of the window is dated within it. */
  lemma WindowDated(rows: seq<Row>, lo: int, hi: int, o: Obs)
    requires o in WindowObs(rows, lo, hi)
    ensures o.year.Some? && lo <= o.year.value <= hi
  {
    var w := InRange(Clean(rows), lo, hi);
    var q :| 0 <= q < |WindowObs(rows, lo, hi)| && WindowObs(rows, lo, hi)[q] == o;
    assert w[q] in w;
  }

  /** Every row of the figure lies in the window and names one of the N most
      mentioned names of the window. */
  lemma FigureWindow(rows: seq<Row>, n: nat, valueType: string, lo: int, hi: int, k: nat)
    requires k < |UpdateFigure(rows, n, valueType, lo, hi)|
    ensures lo <= UpdateFigure(rows, n, valueType, lo, hi)[k].year <= hi
    ensures UpdateFigure(rows, n, valueType, lo, hi)[k].name in TopNames(NameCol(WindowObs(rows, lo, hi)), n)
  {
    var obs := WindowObs(rows, lo, hi);
    var t := FigureTable(rows, n, valueType, lo, hi);
    var i, j := MeltIndex(t, k);
    assert t.years[i] in t.years;
    var o :| o in obs && o.year == Some(t.years[i]);
    WindowDated(rows, lo, hi, o);
    assert t.names[j] in t.names;
  }

  /** In count mode a row holds the number of cleaned mentions of its name
      in its year, which is the number of filtered rows of that year and name. */
  lemma FigureCount(rows: seq<Row>, n: nat, valueType: string, lo: int, hi: int, k: nat)
    requires valueType != Percentage && k < |UpdateFigure(rows, n, valueType, lo, hi)|
    ensures UpdateFigure(rows, n, valueType, lo, hi)[k].value ==
              Mentioned(Clean(rows), UpdateFigure(rows, n, valueType, lo, hi)[k].year,
                        UpdateFigure(rows, n, valueType, lo, hi)[k].name) as real
    ensures UpdateFigure(rows, n, valueType, lo, hi)[k].value ==
              RowsOf(rows, UpdateFigure(rows, n, valueType, lo, hi)[k].year,
                     UpdateFigure(rows, n, valueType, lo, hi)[k].name) as real
  {
    var t := FigureTable(rows, n, valueType, lo, hi);
    var i, j := MeltIndex(t, k);
    FigureWindow(rows, n, valueType, lo, hi, k);
    WindowCounts(Clean(rows), lo, hi, t.years[i], t.names[j]);
    CleanCounts(rows, t.years[i], t.names[j]);
  }

  /** In percentage mode a row holds the share, in percent, of its year's
      cleaned mentions that name it; the year has mentions, and the share
      lies in [0, 100]. */
  lemma FigurePercent(rows: seq<Row>, n: nat, valueType: string, lo: int, hi: int, k: nat)
    requires valueType == Percentage && k < |UpdateFigure(rows, n, valueType, lo, hi)|
    ensures MentionsIn(Clean(rows), UpdateFigure(rows, n, valueType, lo, hi)[k].year) > 0
    ensures UpdateFigure(rows, n, valueType, lo, hi)[k].value ==
              Share(Mentioned(Clean(rows), UpdateFigure(rows, n, valueType, lo, hi)[k].year,
                              UpdateFigure(rows, n, valueType, lo, hi)[k].name),
                    MentionsIn(Clean(rows), UpdateFigure(rows, n, valueType, lo, hi)[k].year))
    ensures 0.0 <= UpdateFigure(rows, n, valueType, lo, hi)[k].value <= 100.0
  {
    var obs := WindowObs(rows, lo, hi);
    var top := TopNames(NameCol(obs), n);
    var t := FigureTable(rows, n, valueType, lo, hi);
    var i, j := MeltIndex(t, k);
    FigureWindow(rows, n, valueType, lo, hi, k);
    WindowCounts(Clean(rows), lo, hi, t.years[i], t.names[j]);
    PercentCellRange(obs, top, i, j);
  }

  /** In percentage mode a row holds its name's share, in percent, of the
      filtered rows dated in its year. */
  lemma FigurePercentRows(rows: seq<Row>, n: nat, valueType: string, lo: int, hi: int, k: nat)
    requires valueType == Percentage && k < |UpdateFigure(rows, n, valueType, lo, hi)|
    ensures RowsIn(rows, UpdateFigure(rows, n, valueType, lo, hi)[k].year) > 0
    ensures UpdateFigure(rows, n, valueType, lo, hi)[k].value ==
              Share(RowsOf(rows, UpdateFigure(rows, n, valueType, lo, hi)[k].year,
                           UpdateFigure(rows, n, valueType, lo, hi)[k].name),
                    RowsIn(rows, UpdateFigure(rows, n, valueType, lo, hi)[k].year))
  {
    var f := UpdateFigure(rows, n, valueType, lo, hi)[k];
    FigurePercent(rows, n, valueType, lo, hi, k);
    CleanCounts(rows, f.year, f.name);
  }

  /** A mention counted by `Mentioned`. */
  lemma {:induction false} MentionedWitness(ms: seq<Mention>, y: int, x: string) returns (m: Mention)
    requires Mentioned(ms, y, x) > 0
    ensures m in ms && m.year == y && m.name == x
  {
    if ms[0].year == y && ms[0].name == x {
      m := ms[0];
    } else {
      m := MentionedWitness(ms[1..], y, x);
    }
  }

  lemma ObsOfMember(ms: seq<Mention>, m: Mention)
    requires m in ms
    ensures Obs(Some(m.year), m.name) in ObsOf(ms)
  {
    var q :| 0 <= q < |ms| && ms[q] == m;
    assert ObsOf(ms)[q] == Obs(Some(m.year), m.name);
  }

  /** A mention of year `y` and name `x` inside the window is a dated row of
      the window with that name. */
  lemma MentionedRow(ms: seq<Mention>, lo: int, hi: int, y: int, x: string)
    requires lo <= y <= hi && Mentioned(ms, y, x) > 0
    ensures Obs(Some(y), x) in ObsOf(InRange(ms, lo, hi))
  {
    var m := MentionedWitness(ms, y, x);
    ObsOfMember(InRange(ms, lo, hi), m);
  }

  /** In count mode the figure misses nothing: every top name mentioned in a
      year of the window has that year's count in the figure. */
  lemma FigureComplete(rows: seq<Row>, n: nat, valueType: string, lo: int, hi: int, y: int, x: string)
    requires valueType != Percentage && lo <= y <= hi && Mentioned(Clean(rows), y, x) > 0
    requires x in TopNames(NameCol(WindowObs(rows, lo, hi)), n)
    ensures LongRow(y, x, Mentioned(Clean(rows), y, x) as real) in UpdateFigure(rows, n, valueType, lo, hi)
  {
    var obs := WindowObs(rows, lo, hi);
    var top := TopNames(NameCol(obs), n);
    MentionedRow(Clean(rows), lo, hi, y, x);
    WindowCounts(Clean(rows), lo, hi, y, x);
    CountsHas(obs, top, y, x);
  }

  /** The figure draws at most N names. */
  lemma FigureNames(rows: seq<Row>, n: nat, valueType: string, lo: int, hi: int)
    ensures |FigureTable(rows, n, valueType, lo, hi).names| <= n
  {
    var obs := WindowObs(rows, lo, hi);
    var top := TopNames(NameCol(obs), n);
    var t := FigureTable(rows, n, valueType, lo, hi);
    DistinctSubset(t.names, top);
  }
}
