/** The offline trend script: every row of the mention table, labelled with
    its disambiguated name or, when there is none, its raw mention; the 20
    most frequent labels; and their per-year row counts in long form. */
module Area {
  import opened Seqs
  import opened Years
  import opened Rows
  import opened Trends

  /** The name a row is counted under. */
  function Label(r: Row): string {
    if r.mappedToSoftware == NotDisambiguated then r.software else r.mappedToSoftware
  }

  /** The rows as the trend code sees them: none is dropped, a row whose
      date gives no year keeps no year. */
  function Observe(rows: seq<Row>): (obs: seq<Obs>)
    ensures |obs| == |rows|
    ensures forall i :: 0 <= i < |rows| ==> obs[i] == Obs(ParseYear(rows[i].pubdate), Label(rows[i]))
  {
    if rows == [] then [] else [Obs(ParseYear(rows[0].pubdate), Label(rows[0]))] + Observe(rows[1..])
  }

  /** `software_counts.head(20)`. */
  const TopCount: nat := 20

  /** The labels the chart draws. */
  function TopLabels(rows: seq<Row>): seq<string> {
    TopNames(NameCol(Observe(rows)), TopCount)
  }

  /** The count table of the top labels: one row per year, one column per label. */
  function TrendTable(rows: seq<Row>): Table {
    Counts(Observe(rows), TopLabels(rows))
  }

  /** The long form the area chart draws. */
  function Trend(rows: seq<Row>): seq<LongRow> {
    Melt(TrendTable(rows))
  }

  /** Row `r` counts toward name `x`: its disambiguated name is `x`, or it
      has none and its raw mention is `x`. */
  predicate LabelledAs(r: Row, x: string) {
    || (r.mappedToSoftware != NotDisambiguated && r.mappedToSoftware == x)
    || (r.mappedToSoftware == NotDisambiguated && r.software == x)
  }

  /** Rows dated in year `y` that count toward name `x`. */
  function RowsWith(rows: seq<Row>, y: int, x: string): nat {
    if rows == [] then 0
    else (if ParseYear(rows[0].pubdate) == Some(y) && LabelledAs(rows[0], x) then 1 else 0) + RowsWith(rows[1..], y, x)
  }

  lemma ObserveTail(rows: seq<Row>)
    requires rows != []
    ensures Observe(rows)[1..] == Observe(rows[1..])
  {
  }

  /** A cell of the trend code counts exactly the rows dated in its year
      that count toward its name. */
  lemma {:induction false} ObserveCounts(rows: seq<Row>, y: int, x: string)
    ensures CellCount(Observe(rows), y, x) == RowsWith(rows, y, x)
  {
    if rows != [] {
      ObserveTail(rows);
      ObserveCounts(rows[1..], y, x);
    }
  }

  /** Every row of the chart is a top label, in a year that has a dated
      row of some top label. A cell may be 0: `fillna(0)` fills the pairs
      without rows. */
  lemma TrendRowKeys(rows: seq<Row>, k: nat)
    requires k < |Trend(rows)|
    ensures Trend(rows)[k].name in TopLabels(rows)
    ensures exists r :: r in rows && ParseYear(r.pubdate) == Some(Trend(rows)[k].year) && Label(r) in TopLabels(rows)
  {
    var obs := Observe(rows);
    var o := CountsRow(obs, TopLabels(rows), k);
    var q :| 0 <= q < |obs| && obs[q] == o;
    assert rows[q] in rows;
  }

  /** Every row of the chart holds the number of rows of its label dated in
      its year. */
  lemma TrendRowValue(rows: seq<Row>, k: nat)
    requires k < |Trend(rows)|
    ensures Trend(rows)[k].value == RowsWith(rows, Trend(rows)[k].year, Trend(rows)[k].name) as real
  {
    var t := TrendTable(rows);
    var i, j := MeltIndex(t, k);
    ObserveCounts(rows, t.years[i], t.names[j]);
  }

  /** A row counted by `RowsWith`. */
  lemma {:induction false} RowsWithWitness(rows: seq<Row>, y: int, x: string) returns (q: nat)
    requires RowsWith(rows, y, x) > 0
    ensures q < |rows| && ParseYear(rows[q].pubdate) == Some(y) && Label(rows[q]) == x
  {
    if ParseYear(rows[0].pubdate) == Some(y) && LabelledAs(rows[0], x) {
      q := 0;
    } else {
      var q' := RowsWithWitness(rows[1..], y, x);
      q := q' + 1;
    }
  }

  /** The chart misses nothing: every top label with rows in a year has
      that year's row count in the chart. */
  lemma TrendComplete(rows: seq<Row>, y: int, x: string)
    requires x in TopLabels(rows) && RowsWith(rows, y, x) > 0
    ensures LongRow(y, x, RowsWith(rows, y, x) as real) in Trend(rows)
  {
    var obs := Observe(rows);
    var q := RowsWithWitness(rows, y, x);
    assert obs[q] == Obs(Some(y), x);
    ObserveCounts(rows, y, x);
    CountsHas(obs, TopLabels(rows), y, x);
  }

  /** The chart draws at most 20 labels. */
  lemma TrendLabels(rows: seq<Row>)
    ensures |TrendTable(rows).names| <= TopCount
  {
    var t := TrendTable(rows);
    DistinctSubset(t.names, TopLabels(rows));
  }
}
