/** The Sankey app over the precomputed per-year records: merge the years
    of the slider window, keep the N heaviest pairs and draw them. */
module SankeyQuickdash {
  import opened Seqs
  import opened Order
  import opened Pairs
  import opened Merge
  import opened TopN
  import opened Sankey
  import opened Network

  /** `create_sankey(df, N)`: numeric counts only, then the N heaviest rows. */
  function CreateSankey(raws: seq<RawRecord>, n: nat): (d: Diagram)
    ensures Distinct(d.nodes) && WellFormed(d.nodes, d.links)
    ensures |d.links| == if n < |DropNonNumeric(raws)| then n else |DropNonNumeric(raws)|
    ensures Decode(d.nodes, d.links) == NLargest(DropNonNumeric(raws), n)
  {
    Build(NLargest(DropNonNumeric(raws), n))
  }

  /** Every drawn record is a row of the input whose count is a number. */
  lemma DrawnAreNumeric(raws: seq<RawRecord>, n: nat)
    ensures forall x :: x in NLargest(DropNonNumeric(raws), n) ==>
              RawRecord(x.source, x.target, Some(x.count)) in raws
  {
    var top := NLargest(DropNonNumeric(raws), n);
    forall x | x in top ensures RawRecord(x.source, x.target, Some(x.count)) in raws {
      var i :| 0 <= i < |top| && top[i] == x;
    }
  }

  /** `update_graph(N, [lo, hi])`: the merged window, read back with every
      count numeric, so the coercion drops nothing. */
  function UpdateGraph(table: PeriodTable, n: nat, lo: int, hi: int): (d: Diagram)
    ensures WellFormed(d.nodes, d.links)
    ensures Decode(d.nodes, d.links) == NLargest(MergeRange(table, lo, hi), n)
  {
    var merged := MergeRange(table, lo, hi);
    DropLift(merged);
    LinksRoundTrip(NLargest(merged, n));
    CreateSankey(Lift(merged), n)
  }

  /** What the drawn records say about the table: each pair occurs in some
      year of the window and carries its count summed over the window;
      heavier pairs come first and equal ones in ascending (Source, Target)
      order; every pair of the window left out weighs no more than any
      drawn one. */
  lemma TopMerged(table: PeriodTable, n: nat, lo: int, hi: int)
    ensures var r := NLargest(MergeRange(table, lo, hi), n);
            && (forall i :: 0 <= i < |r| ==>
                  && r[i].count == YearSum(table, lo, hi, r[i].Key())
                  && InWindow(table, lo, hi, r[i].Key()))
            && (forall i, j :: 0 <= i < j < |r| ==> r[i].count >= r[j].count)
            && (forall i, j :: 0 <= i < j < |r| && r[i].count == r[j].count ==>
                  PairLess(r[i].Key(), r[j].Key()))
            && (forall p, k :: InWindow(table, lo, hi, p) && p !in KeysOf(r) && 0 <= k < |r| ==>
                  YearSum(table, lo, hi, p) <= r[k].count)
  {
    var merged := MergeRange(table, lo, hi);
    var r := NLargest(merged, n);
    NLargestTiesAscending(merged, n);
    DrawnFromWindow(table, lo, hi, r);
    forall p, k | InWindow(table, lo, hi, p) && p !in KeysOf(r) && 0 <= k < |r|
      ensures YearSum(table, lo, hi, p) <= r[k].count
    {
      LeftOutAt(table, lo, hi, r, p, k);
    }
  }

  /** Some year of the window has a record for `p`. */
  predicate InWindow(table: PeriodTable, lo: int, hi: int, p: Pair) {
    exists y :: lo <= y <= hi && y in table && p in KeysOf(table[y])
  }

  lemma DrawnFromWindow(table: PeriodTable, lo: int, hi: int, r: seq<Record>)
    requires forall a :: 0 <= a < |r| ==> r[a] in MergeRange(table, lo, hi)
    ensures forall i :: 0 <= i < |r| ==>
              && r[i].count == YearSum(table, lo, hi, r[i].Key())
              && InWindow(table, lo, hi, r[i].Key())
  {
    var merged := MergeRange(table, lo, hi);
    forall i | 0 <= i < |r|
      ensures r[i].count == YearSum(table, lo, hi, r[i].Key())
      ensures InWindow(table, lo, hi, r[i].Key())
    {
      var c :| 0 <= c < |merged| && merged[c] == r[i];
      assert KeysOf(merged)[c] == r[i].Key();
      assert r[i].Key() in KeysOf(merged);
    }
  }

  lemma LeftOutAt(table: PeriodTable, lo: int, hi: int, r: seq<Record>, p: Pair, k: nat)
    requires forall x, a :: x in MergeRange(table, lo, hi) && x !in r && 0 <= a < |r| ==> x.count <= r[a].count
    requires k < |r| && p !in KeysOf(r) && InWindow(table, lo, hi, p)
    ensures YearSum(table, lo, hi, p) <= r[k].count
  {
    var merged := MergeRange(table, lo, hi);
    assert p in KeysOf(merged);
    var c :| 0 <= c < |merged| && KeysOf(merged)[c] == p;
    NotSelected(r, merged[c]);
  }
}
