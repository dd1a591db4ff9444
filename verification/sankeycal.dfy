/** The precompute script: co-mention records for every year from the
    earliest to the latest publication year of the cleaned rows. */
module SankeyCal {
  import opened Seqs
  import opened Order
  import opened Pairs
  import opened Rows
  import opened CoMention

  /** `sankey_data`, one entry per year of `range(min_year, max_year + 1)`,
      each holding the records of that year's documents. There is none when
      no row survives the cleaning: `min()` of an empty year column is NaN
      and `range` refuses it. */
  function Precompute(rows: seq<Row>): (t: Option<PeriodTable>)
    ensures t.None? <==> Clean(rows) == []
    ensures t.Some? ==> forall y :: y in t.value <==>
              Min(YearsOf(Clean(rows))) <= y <= Max(YearsOf(Clean(rows)))
    ensures t.Some? ==> forall m :: m in Clean(rows) ==> m.year in t.value
  {
    var ms := Clean(rows);
    if ms == [] then None
    else
      var lo, hi := Min(YearsOf(ms)), Max(YearsOf(ms));
      YearsBetween(ms);
      Some(YearTable(ms, lo, hi))
  }

  /** One entry per year from `lo` to `hi`: the records of that year. */
  function YearTable(ms: seq<Mention>, lo: int, hi: int): (t: PeriodTable)
    ensures forall y :: y in t <==> lo <= y <= hi
    ensures forall y :: y in t ==> t[y] == PairRecords(OfYear(ms, y))
  {
    map y | lo <= y <= hi :: PairRecords(OfYear(ms, y))
  }

  /** Every mention's year lies between the earliest and the latest year. */
  lemma YearsBetween(ms: seq<Mention>)
    requires ms != []
    ensures forall m :: m in ms ==> Min(YearsOf(ms)) <= m.year <= Max(YearsOf(ms))
  {
    var ys := YearsOf(ms);
    forall m | m in ms ensures Min(ys) <= m.year <= Max(ys) {
      var k :| 0 <= k < |ms| && ms[k] == m;
      assert ys[k] == m.year;
    }
  }

  /** The entry of year `y` lists each pair of names that share a document
      published in `y` exactly once, sorted within the pair, with the number
      of such documents as its count. */
  lemma YearEntry(rows: seq<Row>, y: int)
    requires Precompute(rows).Some? && y in Precompute(rows).value
    ensures var recs := Precompute(rows).value[y];
            var ms := OfYear(Clean(rows), y);
            && (forall i :: 0 <= i < |recs| ==>
                  && StrLess(recs[i].source, recs[i].target)
                  && recs[i].count == |DocsCoMentioning(ms, recs[i].source, recs[i].target)|
                  && recs[i].count >= 1)
            && (forall i, j :: 0 <= i < j < |recs| ==> recs[i].Key() != recs[j].Key())
            && (forall a, b :: StrLess(a, b) && |DocsCoMentioning(ms, a, b)| > 0 ==>
                  exists i :: 0 <= i < |recs| && recs[i].Key() == Pair(a, b))
  {
    EntryOf(rows, y);
    PairRecordsSpec(OfYear(Clean(rows), y));
  }

  lemma EntryOf(rows: seq<Row>, y: int)
    requires Precompute(rows).Some? && y in Precompute(rows).value
    ensures Precompute(rows).value[y] == PairRecords(OfYear(Clean(rows), y))
  {
  }

  /** A year of the range without any cleaned row gets an empty list. */
  lemma EmptyYear(rows: seq<Row>, y: int)
    requires Precompute(rows).Some? && y in Precompute(rows).value
    requires forall m :: m in Clean(rows) ==> m.year != y
    ensures Precompute(rows).value[y] == []
  {
    var ms := OfYear(Clean(rows), y);
    EntryOf(rows, y);
    OfYearEmpty(Clean(rows), y);
    NoMentionNoRecord();
  }
}
