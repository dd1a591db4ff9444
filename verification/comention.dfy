/** Co-mention counting: every document contributes one increment to each
    unordered pair of the distinct names it mentions. */
module CoMention {
  import opened Seqs
  import opened Order
  import opened Pairs
  import opened Tally
  import opened Rows

  /** The inner loop for a fixed `i`: `a` paired with every later name. */
  function PairsWith(a: string, rest: seq<string>): (ps: seq<Pair>)
    requires a !in rest
    ensures |ps| == |rest|
  {
    if rest == [] then [] else [Canon(a, rest[0])] + PairsWith(a, rest[1..])
  }

  /** The keys a document with the distinct names `names` bumps, in the order
      of the nested loop over i < j. */
  function DocPairs(names: seq<string>): (ps: seq<Pair>)
    requires Distinct(names)
  {
    if |names| < 2 then []
    else
      assert names[0] !in names[1..];
      PairsWith(names[0], names[1..]) + DocPairs(names[1..])
  }

  /** A document with k distinct names bumps k(k-1)/2 keys. */
  lemma {:induction false} DocPairsLength(names: seq<string>)
    requires Distinct(names)
    ensures 2 * |DocPairs(names)| == |names| * (|names| - 1)
  {
    if |names| >= 2 {
      var k := |names|;
      DocPairsLength(names[1..]);
      assert 2 * |DocPairs(names[1..])| == (k - 1) * (k - 2);
      assert (k - 1) * (k - 2) + 2 * (k - 1) == k * (k - 1);
    }
  }

  lemma CanonIs(a: string, b: string, p: Pair)
    requires a != b
    ensures Canon(a, b) == p <==>
              Canonical(p) && ((p.first == a && p.second == b) || (p.first == b && p.second == a))
  {
    if Canonical(p) && ((p.first == a && p.second == b) || (p.first == b && p.second == a)) {
      CanonOfCanonical(p);
      CanonSymmetric(a, b);
    }
  }

  lemma {:induction false} PairsWithOcc(a: string, rest: seq<string>, p: Pair)
    requires a !in rest && Distinct(rest)
    ensures Occ(PairsWith(a, rest), p) ==
              if Canonical(p) && ((p.first == a && p.second in rest) || (p.second == a && p.first in rest))
              then 1 else 0
  {
    if rest != [] {
      var r := rest[1..];
      assert rest[0] !in r;
      assert forall x :: x in rest <==> x == rest[0] || x in r;
      CanonIs(a, rest[0], p);
      PairsWithOcc(a, r, p);
    }
  }

  /** Every pair of distinct names of a document is bumped exactly once, and
      no other key is bumped. */
  lemma {:induction false} DocPairsOcc(names: seq<string>, p: Pair)
    requires Distinct(names)
    ensures Occ(DocPairs(names), p) ==
              if Canonical(p) && p.first in names && p.second in names then 1 else 0
  {
    if |names| >= 2 {
      var a, r := names[0], names[1..];
      assert a !in r;
      assert forall x :: x in names <==> x == a || x in r;
      OccAppend(PairsWith(a, r), DocPairs(r), p);
      PairsWithOcc(a, r, p);
      DocPairsOcc(r, p);
      if Canonical(p) { CanonOfCanonical(p); }
    } else if |names| == 1 {
      if Canonical(p) { CanonOfCanonical(p); }
    }
  }

  /** Counting one document raises the sum of all counters by k(k-1)/2 for a
      document with k distinct names. */
  lemma DocumentIncrements(t: Tally, names: seq<string>)
    requires Distinct(names)
    ensures 2 * (Total(AddAll(t, DocPairs(names))) - Total(t)) == |names| * (|names| - 1)
  {
    AddAllCounts(t, DocPairs(names));
    DocPairsLength(names);
  }

  predicate AllDistinct(groups: seq<seq<string>>) {
    forall i :: 0 <= i < |groups| ==> Distinct(groups[i])
  }

  /** The outer loop over documents. */
  function Process(t: Tally, groups: seq<seq<string>>): Tally
    requires AllDistinct(groups)
    decreases groups
  {
    if groups == [] then t else Process(AddAll(t, DocPairs(groups[0])), groups[1..])
  }

  /** Number of documents whose names include both `a` and `b`. */
  function Containing(groups: seq<seq<string>>, a: string, b: string): nat {
    if groups == [] then 0
    else (if a in groups[0] && b in groups[0] then 1 else 0) + Containing(groups[1..], a, b)
  }

  predicate CanonicalKeys(t: Tally) {
    forall i :: 0 <= i < |t| ==> Canonical(t[i].pair)
  }

  lemma {:induction false} ProcessCounts(t: Tally, groups: seq<seq<string>>)
    requires AllDistinct(groups)
    ensures forall p :: Get(Process(t, groups), p) ==
                         Get(t, p) + (if Canonical(p) then Containing(groups, p.first, p.second) else 0)
    ensures Valid(t) ==> Valid(Process(t, groups))
    ensures CanonicalKeys(t) ==> CanonicalKeys(Process(t, groups))
    decreases groups
  {
    if groups != [] {
      var ps := DocPairs(groups[0]);
      var t' := AddAll(t, ps);
      AddAllCounts(t, ps);
      AddAllKeys(t, ps);
      forall p ensures Occ(ps, p) ==
          if Canonical(p) && p.first in groups[0] && p.second in groups[0] then 1 else 0 {
        DocPairsOcc(groups[0], p);
      }
      if CanonicalKeys(t) {
        forall i | 0 <= i < |t'| ensures Canonical(t'[i].pair) {
          assert t'[i].pair in Keys(t');
          if t'[i].pair in ps {
            OccPositive(ps, t'[i].pair);
          } else {
            var j :| 0 <= j < |t| && Keys(t)[j] == t'[i].pair;
          }
        }
      }
      ProcessCounts(t', groups[1..]);
    }
  }

  /** The `connections` dictionary built from mentions `ms`. */
  function CoMentions(ms: seq<Mention>): Tally {
    Process([], Groups(ms))
  }

  /** Document `d` mentions both `a` and `b`. */
  predicate Both(ms: seq<Mention>, d: string, a: string, b: string) {
    Mentions(ms, d, a) && Mentions(ms, d, b)
  }

  /** The documents of `ms` that mention both `a` and `b`. */
  function DocsCoMentioning(ms: seq<Mention>, a: string, b: string): set<string> {
    set m | m in ms && Both(ms, m.doi, a, b) :: m.doi
  }

  lemma {:induction false} ContainingCounts(ms: seq<Mention>, ds: seq<string>, a: string, b: string)
    requires Distinct(ds)
    ensures Containing(GroupsOf(ms, ds), a, b) == |set d | d in ds && Both(ms, d, a, b)|
  {
    if ds == [] {
      assert (set d | d in ds && Both(ms, d, a, b)) == {};
    } else {
      var gs := GroupsOf(ms, ds);
      assert gs[1..] == GroupsOf(ms, ds[1..]);
      assert (a in gs[0] && b in gs[0]) == Both(ms, ds[0], a, b);
      DistinctTail(ds);
      ContainingCounts(ms, ds[1..], a, b);
      BothSplit(ms, ds, a, b);
    }
  }

  /** The documents of `ds` naming both: the head if it does, and those of
      the tail. */
  lemma BothSplit(ms: seq<Mention>, ds: seq<string>, a: string, b: string)
    requires ds != [] && ds[0] !in ds[1..]
    ensures |set d | d in ds && Both(ms, d, a, b)| ==
              (if Both(ms, ds[0], a, b) then 1 else 0) + |set d | d in ds[1..] && Both(ms, d, a, b)|
  {
    var s := set d | d in ds && Both(ms, d, a, b);
    var s' := set d | d in ds[1..] && Both(ms, d, a, b);
    assert forall d :: d in ds <==> d == ds[0] || d in ds[1..];
    if Both(ms, ds[0], a, b) {
      assert s == s' + {ds[0]};
    } else {
      assert s == s';
    }
  }

  /** The count of a pair is the number of documents that mention both of its
      names; non-canonical keys are never counted. */
  lemma CoMentionCount(ms: seq<Mention>, p: Pair)
    ensures Get(CoMentions(ms), p) ==
              if Canonical(p) then |DocsCoMentioning(ms, p.first, p.second)| else 0
  {
    var ds := DocOrder(ms);
    ProcessCounts([], Groups(ms));
    ContainingCounts(ms, ds, p.first, p.second);
    var a, b := p.first, p.second;
    assert (set d | d in ds && Both(ms, d, a, b)) == DocsCoMentioning(ms, a, b);
  }

  /** The counter holds distinct, canonical keys, each with a positive count. */
  lemma CoMentionsShape(ms: seq<Mention>)
    ensures Valid(CoMentions(ms)) && CanonicalKeys(CoMentions(ms))
  {
    ProcessCounts([], Groups(ms));
  }

  /** The counter as `{Source, Target, Count}` records, in insertion order. */
  function Records(t: Tally): (rs: seq<Record>)
    ensures |rs| == |t|
    ensures forall i :: 0 <= i < |t| ==>
              rs[i].Key() == t[i].pair && rs[i].count == t[i].count
  {
    if t == [] then [] else [Record(t[0].pair.first, t[0].pair.second, t[0].count)] + Records(t[1..])
  }

  /** Co-mention records of `ms`: one per pair of names that share a document. */
  function PairRecords(ms: seq<Mention>): seq<Record> {
    Records(CoMentions(ms))
  }

  /** Each record names two different names in sorted order, its count is the
      number of documents mentioning both (so at least 1), no pair has two
      records, and every co-mentioned pair has one. */
  lemma PairRecordsSpec(ms: seq<Mention>)
    ensures forall i :: 0 <= i < |PairRecords(ms)| ==>
              && StrLess(PairRecords(ms)[i].source, PairRecords(ms)[i].target)
              && PairRecords(ms)[i].count ==
                   |DocsCoMentioning(ms, PairRecords(ms)[i].source, PairRecords(ms)[i].target)|
              && PairRecords(ms)[i].count >= 1
    ensures forall i, j :: 0 <= i < j < |PairRecords(ms)| ==>
              PairRecords(ms)[i].Key() != PairRecords(ms)[j].Key()
    ensures forall a, b :: StrLess(a, b) && |DocsCoMentioning(ms, a, b)| > 0 ==>
              exists i :: 0 <= i < |PairRecords(ms)| && PairRecords(ms)[i].Key() == Pair(a, b)
  {
    PairRecordsCounts(ms);
    PairRecordsKeys(ms);
    PairRecordsComplete(ms);
  }

  lemma PairRecordsCounts(ms: seq<Mention>)
    ensures forall i :: 0 <= i < |PairRecords(ms)| ==>
              && StrLess(PairRecords(ms)[i].source, PairRecords(ms)[i].target)
              && PairRecords(ms)[i].count ==
                   |DocsCoMentioning(ms, PairRecords(ms)[i].source, PairRecords(ms)[i].target)|
              && PairRecords(ms)[i].count >= 1
  {
    var t := CoMentions(ms);
    var rs := PairRecords(ms);
    CoMentionsShape(ms);
    forall i | 0 <= i < |rs|
      ensures rs[i].count == |DocsCoMentioning(ms, rs[i].source, rs[i].target)|
    {
      GetValid(t, i);
      CoMentionCount(ms, t[i].pair);
    }
  }

  lemma PairRecordsKeys(ms: seq<Mention>)
    ensures forall i, j :: 0 <= i < j < |PairRecords(ms)| ==>
              PairRecords(ms)[i].Key() != PairRecords(ms)[j].Key()
  {
    var t := CoMentions(ms);
    var rs := PairRecords(ms);
    CoMentionsShape(ms);
    forall i, j | 0 <= i < j < |rs| ensures rs[i].Key() != rs[j].Key() {
      assert Keys(t)[i] != Keys(t)[j];
    }
  }

  lemma PairRecordsComplete(ms: seq<Mention>)
    ensures forall a, b :: StrLess(a, b) && |DocsCoMentioning(ms, a, b)| > 0 ==>
              exists i :: 0 <= i < |PairRecords(ms)| && PairRecords(ms)[i].Key() == Pair(a, b)
  {
    var t := CoMentions(ms);
    var rs := PairRecords(ms);
    CoMentionsShape(ms);
    forall a, b | StrLess(a, b) && |DocsCoMentioning(ms, a, b)| > 0
      ensures exists i :: 0 <= i < |rs| && rs[i].Key() == Pair(a, b)
    {
      CoMentionCount(ms, Pair(a, b));
      GetPositive(t, Pair(a, b));
      var i :| 0 <= i < |t| && Keys(t)[i] == Pair(a, b);
      assert rs[i].Key() == Pair(a, b);
    }
  }

  /** `recs` are the co-mention records of `ms`: sorted pairs of different
      names counted by their shared documents, one record per pair, and
      every co-mentioned pair has one. */
  ghost predicate CountedBy(ms: seq<Mention>, recs: seq<Record>) {
    && (forall i :: 0 <= i < |recs| ==>
          && StrLess(recs[i].source, recs[i].target)
          && recs[i].count == |DocsCoMentioning(ms, recs[i].source, recs[i].target)|
          && recs[i].count >= 1)
    && (forall i, j :: 0 <= i < j < |recs| ==> recs[i].Key() != recs[j].Key())
    && (forall a, b {:trigger Shared(ms, a, b)} :: StrLess(a, b) && Shared(ms, a, b) > 0 ==>
          exists i :: 0 <= i < |recs| && recs[i].Key() == Pair(a, b))
  }

  /** The number of documents naming both `a` and `b`. */
  function Shared(ms: seq<Mention>, a: string, b: string): nat {
    |DocsCoMentioning(ms, a, b)|
  }

  lemma PairRecordsCounted(ms: seq<Mention>)
    ensures CountedBy(ms, PairRecords(ms))
  {
    PairRecordsSpec(ms);
  }

  /** There are no records exactly when no document mentions two different
      names. */
  lemma PairRecordsEmpty(ms: seq<Mention>)
    ensures PairRecords(ms) == [] <==>
              forall a, b :: StrLess(a, b) ==> |DocsCoMentioning(ms, a, b)| == 0
  {
    PairRecordsSpec(ms);
    var rs := PairRecords(ms);
    if rs != [] {
      assert StrLess(rs[0].source, rs[0].target);
    }
  }

  lemma NoMentionNoRecord()
    ensures PairRecords([]) == []
  {
    forall a, b | StrLess(a, b) ensures |DocsCoMentioning([], a, b)| == 0 {
      assert DocsCoMentioning([], a, b) == {};
    }
    PairRecordsEmpty([]);
  }
}
