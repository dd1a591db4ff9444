/** The live Sankey app: clean the rows, keep the slider's years, count the
    co-mentions, keep the N heaviest pairs and draw them. */
module SankeyDash {
  import opened Seqs
  import opened Order
  import opened Pairs
  import opened Rows
  import opened CoMention
  import opened TopN
  import opened Sankey
  import Merge

  /** `create_sankey(df, N)`. There is no figure when no document names two
      different programs: the empty counter gives a frame without columns,
      and assigning its missing columns to Source and Target raises. */
  function CreateSankey(ms: seq<Mention>, n: nat): (d: Option<Diagram>)
    ensures d.None? <==> forall a, b :: StrLess(a, b) ==> |DocsCoMentioning(ms, a, b)| == 0
    ensures d.Some? ==> |d.value.links| == if n < |PairRecords(ms)| then n else |PairRecords(ms)|
    ensures d.Some? ==> Distinct(d.value.nodes) && WellFormed(d.value.nodes, d.value.links)
    ensures d.Some? ==> Decode(d.value.nodes, d.value.links) == NLargest(PairRecords(ms), n)
  {
    PairRecordsEmpty(ms);
    var recs := PairRecords(ms);
    if recs == [] then None else Some(Build(NLargest(recs, n)))
  }

  /** What the drawn links (the records `CreateSankey` decodes to) say
      about the documents: each is a pair of
      different names, sorted, weighted by the number of documents naming
      both; no pair is drawn twice; heavier links come first, equal ones in
      the order the counter first met them; and every pair left out is
      shared by no more documents than any drawn one. */
  lemma TopPairs(ms: seq<Mention>, n: nat)
    ensures var r := NLargest(PairRecords(ms), n);
            && (forall i :: 0 <= i < |r| ==>
                  && StrLess(r[i].source, r[i].target)
                  && r[i].count == |DocsCoMentioning(ms, r[i].source, r[i].target)|
                  && r[i].count >= 1)
            && (forall i, j :: 0 <= i < j < |r| ==> r[i].Key() != r[j].Key() && r[i].count >= r[j].count)
            && (forall i, j :: 0 <= i < j < |r| && r[i].count == r[j].count ==>
                  IndexOf(PairRecords(ms), r[i]) < IndexOf(PairRecords(ms), r[j]))
            && (forall a, b, k :: StrLess(a, b) && 0 <= k < |r| && Pair(a, b) !in Merge.KeysOf(r) ==>
                  |DocsCoMentioning(ms, a, b)| <= r[k].count)
  {
    var recs := PairRecords(ms);
    var r := NLargest(recs, n);
    PairRecordsCounted(ms);
    CountedDistinct(ms, recs);
    SelectedCounted(ms, recs, r);
    SelectedKeys(recs, r);
    SelectedHeaviest(ms, recs, r);
  }

  /** Keys that tell records apart make the records distinct. */
  lemma CountedDistinct(ms: seq<Mention>, recs: seq<Record>)
    requires CountedBy(ms, recs)
    ensures Distinct(recs)
  {
    forall i, j | 0 <= i < j < |recs| ensures recs[i] != recs[j] {
      assert recs[i].Key() != recs[j].Key();
    }
  }

  lemma SelectedCounted(ms: seq<Mention>, recs: seq<Record>, r: seq<Record>)
    requires CountedBy(ms, recs)
    requires forall a :: 0 <= a < |r| ==> r[a] in recs
    ensures forall i :: 0 <= i < |r| ==>
              && StrLess(r[i].source, r[i].target)
              && r[i].count == |DocsCoMentioning(ms, r[i].source, r[i].target)|
              && r[i].count >= 1
  {
    forall i | 0 <= i < |r|
      ensures StrLess(r[i].source, r[i].target)
      ensures r[i].count == |DocsCoMentioning(ms, r[i].source, r[i].target)| && r[i].count >= 1
    {
      var k :| 0 <= k < |recs| && recs[k] == r[i];
    }
  }

  lemma SelectedKeys(recs: seq<Record>, r: seq<Record>)
    requires Distinct(recs)
    requires forall i, j :: 0 <= i < j < |recs| ==> recs[i].Key() != recs[j].Key()
    requires forall a :: 0 <= a < |r| ==> r[a] in recs
    requires TiesInInputOrder(recs, r)
    ensures forall i, j :: 0 <= i < j < |r| ==> r[i].Key() != r[j].Key()
  {
    forall i, j | 0 <= i < j < |r| ensures r[i].Key() != r[j].Key() {
      var p, q := IndexOf(recs, r[i]), IndexOf(recs, r[j]);
      if r[i].count == r[j].count {
        assert p < q;
        assert recs[p].Key() != recs[q].Key();
      } else {
        assert p != q;
        if p < q {
          assert recs[p].Key() != recs[q].Key();
        } else {
          assert recs[q].Key() != recs[p].Key();
        }
      }
    }
  }

  lemma SelectedHeaviest(ms: seq<Mention>, recs: seq<Record>, r: seq<Record>)
    requires CountedBy(ms, recs)
    requires forall a :: 0 <= a < |r| ==> r[a] in recs
    requires forall x, a :: x in recs && x !in r && 0 <= a < |r| ==> x.count <= r[a].count
    ensures forall a, b, k :: StrLess(a, b) && 0 <= k < |r| && Pair(a, b) !in Merge.KeysOf(r) ==>
              |DocsCoMentioning(ms, a, b)| <= r[k].count
  {
    forall a, b, k | StrLess(a, b) && 0 <= k < |r| && Pair(a, b) !in Merge.KeysOf(r)
      ensures |DocsCoMentioning(ms, a, b)| <= r[k].count
    {
      HeaviestAt(ms, recs, r, a, b, k);
    }
  }

  lemma HeaviestAt(ms: seq<Mention>, recs: seq<Record>, r: seq<Record>, a: string, b: string, k: nat)
    requires CountedBy(ms, recs)
    requires forall a :: 0 <= a < |r| ==> r[a] in recs
    requires forall x, a :: x in recs && x !in r && 0 <= a < |r| ==> x.count <= r[a].count
    requires StrLess(a, b) && k < |r| && Pair(a, b) !in Merge.KeysOf(r)
    ensures |DocsCoMentioning(ms, a, b)| <= r[k].count
  {
    if |DocsCoMentioning(ms, a, b)| > 0 {
      var i := RecordOf(ms, recs, a, b);
      NotSelected(r, recs[i]);
    } else {
      var j :| 0 <= j < |recs| && recs[j] == r[k];
      assert r[k].count >= 1;
    }
  }

  /** The position of the record of a co-mentioned pair. */
  lemma RecordOf(ms: seq<Mention>, recs: seq<Record>, a: string, b: string) returns (i: nat)
    requires CountedBy(ms, recs)
    requires StrLess(a, b) && |DocsCoMentioning(ms, a, b)| > 0
    ensures i < |recs| && recs[i].Key() == Pair(a, b)
    ensures recs[i].count == |DocsCoMentioning(ms, a, b)|
  {
    assert Shared(ms, a, b) > 0;
    i :| 0 <= i < |recs| && recs[i].Key() == Pair(a, b);
  }

  /** `update_graph(N, [lo, hi])` over the raw rows: the row filter and the
      year column, then the mentions of the inclusive window. An empty window
      has no mention, hence no figure. */
  function UpdateGraph(rows: seq<Row>, n: nat, lo: int, hi: int): (d: Option<Diagram>)
    ensures lo > hi ==> d.None?
    ensures d.None? <==> forall a, b :: StrLess(a, b) ==> |DocsCoMentioning(InRange(Clean(rows), lo, hi), a, b)| == 0
    ensures d.Some? ==> WellFormed(d.value.nodes, d.value.links)
    ensures d.Some? ==> Decode(d.value.nodes, d.value.links) == NLargest(PairRecords(InRange(Clean(rows), lo, hi)), n)
  {
    var ms := InRange(Clean(rows), lo, hi);
    assert lo > hi ==> PairRecords(ms) == [] by {
      if lo > hi {
        EmptyWindow(Clean(rows), lo, hi);
        NoMentionNoRecord();
      }
    }
    PairRecordsEmpty(ms);
    CreateSankey(ms, n)
  }
}
