/** Top-N selection as pandas `nlargest(n, column)` with its default
    `keep='first'`: the n rows with the largest values, largest first, and
    among equal values the row that comes first in the input. */
module TopN {
  import opened Seqs
  import opened Order
  import opened Pairs
  import Merge

  /** Row `i` ranks ahead of row `j`: a larger value, or the same value and
      an earlier position. */
  predicate Before(keys: seq<int>, i: int, j: int) {
    0 <= i < |keys| && 0 <= j < |keys| && (keys[i] > keys[j] || (keys[i] == keys[j] && i < j))
  }

  predicate Ranked(keys: seq<int>, s: seq<nat>) {
    forall a, b :: 0 <= a < b < |s| ==> Before(keys, s[a], s[b])
  }

  /** Inserts row index `k` at its rank. */
  function InsertRank(keys: seq<int>, s: seq<nat>, k: nat): (r: seq<nat>)
    requires k < |keys| && k !in s && Ranked(keys, s)
    requires forall a :: 0 <= a < |s| ==> s[a] < |keys|
    ensures Ranked(keys, r) && |r| == |s| + 1
    ensures forall x :: x in r <==> x in s || x == k
  {
    if s == [] then [k]
    else if Before(keys, k, s[0]) then [k] + s
    else
      assert Before(keys, s[0], k);
      var t := InsertRank(keys, s[1..], k);
      assert forall a :: 0 <= a < |t| ==> t[a] in t;
      assert forall a :: 0 <= a < |t| ==> Before(keys, s[0], t[a]);
      [s[0]] + t
  }

  /** The indices 0 .. m-1 in rank order. */
  function Ranking(keys: seq<int>, m: nat): (r: seq<nat>)
    requires m <= |keys|
    ensures Ranked(keys, r) && |r| == m
    ensures forall x :: x in r <==> 0 <= x < m
    ensures forall a :: 0 <= a < m ==> r[a] < m
  {
    if m == 0 then []
    else
      var r := InsertRank(keys, Ranking(keys, m - 1), m - 1);
      assert forall a :: 0 <= a < |r| ==> r[a] in r;
      r
  }

  /** The positions `nlargest(n)` returns, in the order it returns them. */
  function TopIndices(keys: seq<int>, n: nat): (r: seq<nat>)
    ensures |r| == if n < |keys| then n else |keys|
    ensures forall a :: 0 <= a < |r| ==> r[a] < |keys|
    ensures forall a, b :: 0 <= a < b < |r| ==> keys[r[a]] >= keys[r[b]] && r[a] != r[b]
    ensures forall a, b :: 0 <= a < b < |r| && keys[r[a]] == keys[r[b]] ==> r[a] < r[b]
    ensures forall k, a :: 0 <= k < |keys| && k !in r && 0 <= a < |r| ==>
              keys[k] <= keys[r[a]] && (keys[k] == keys[r[a]] ==> r[a] < k)
  {
    var full := Ranking(keys, |keys|);
    var m := if n < |keys| then n else |keys|;
    var r := full[..m];
    forall k, a | 0 <= k < |keys| && k !in r && 0 <= a < |r|
      ensures Before(keys, r[a], k)
    {
      assert k in full;
      var q :| 0 <= q < |full| && full[q] == k;
      assert q >= m;
    }
    r
  }

  function Counts(recs: seq<Record>): (ks: seq<int>)
    ensures |ks| == |recs|
    ensures forall i :: 0 <= i < |recs| ==> ks[i] == recs[i].count
  {
    if recs == [] then [] else [recs[0].count] + Counts(recs[1..])
  }

  /** Among the selected rows, equal counts keep their input order. */
  predicate TiesInInputOrder(recs: seq<Record>, r: seq<Record>)
    requires Distinct(recs) && forall a :: 0 <= a < |r| ==> r[a] in recs
  {
    forall a, b :: 0 <= a < b < |r| && r[a].count == r[b].count ==>
      IndexOf(recs, r[a]) < IndexOf(recs, r[b])
  }

  /** `recs.nlargest(n, 'Count')`. */
  function NLargest(recs: seq<Record>, n: nat): (r: seq<Record>)
    ensures |r| == if n < |recs| then n else |recs|
    ensures forall a :: 0 <= a < |r| ==> r[a] in recs
    ensures forall a, b :: 0 <= a < b < |r| ==> r[a].count >= r[b].count
    ensures forall x, a :: x in recs && x !in r && 0 <= a < |r| ==> x.count <= r[a].count
    ensures Distinct(recs) ==> TiesInInputOrder(recs, r)
  {
    var r := Pick(recs, TopIndices(Counts(recs), n));
    TopExcluded(recs, n);
    TopTies(recs, n);
    r
  }

  lemma TopExcluded(recs: seq<Record>, n: nat)
    ensures forall x, a :: (x in recs && x !in Pick(recs, TopIndices(Counts(recs), n)) &&
              0 <= a < |Pick(recs, TopIndices(Counts(recs), n))|) ==>
              x.count <= Pick(recs, TopIndices(Counts(recs), n))[a].count
  {
    var idx := TopIndices(Counts(recs), n);
    PickExcluded(recs, idx, Pick(recs, idx));
  }

  lemma TopTies(recs: seq<Record>, n: nat)
    ensures Distinct(recs) ==> TiesInInputOrder(recs, Pick(recs, TopIndices(Counts(recs), n)))
  {
    var idx := TopIndices(Counts(recs), n);
    PickTies(recs, idx, Pick(recs, idx));
  }

  function Pick(recs: seq<Record>, idx: seq<nat>): (r: seq<Record>)
    requires forall a :: 0 <= a < |idx| ==> idx[a] < |recs|
    ensures |r| == |idx| && forall a :: 0 <= a < |idx| ==> r[a] == recs[idx[a]]
    ensures forall a :: 0 <= a < |r| ==> r[a] in recs
  {
    seq(|idx|, a requires 0 <= a < |idx| => recs[idx[a]])
  }

  lemma PickExcluded(recs: seq<Record>, idx: seq<nat>, r: seq<Record>)
    requires forall a :: 0 <= a < |idx| ==> idx[a] < |recs|
    requires forall k, a :: 0 <= k < |recs| && k !in idx && 0 <= a < |idx| ==>
               idx[a] < |recs| && recs[k].count <= recs[idx[a]].count
    requires r == Pick(recs, idx)
    ensures forall x, a :: x in recs && x !in r && 0 <= a < |r| ==> x.count <= r[a].count
  {
    forall x, a | x in recs && x !in r && 0 <= a < |r| ensures x.count <= r[a].count {
      var k :| 0 <= k < |recs| && recs[k] == x;
      assert forall b :: 0 <= b < |idx| ==> r[b] in r && idx[b] != k;
    }
  }

  lemma PickTies(recs: seq<Record>, idx: seq<nat>, r: seq<Record>)
    requires forall a :: 0 <= a < |idx| ==> idx[a] < |recs|
    requires forall a, b :: 0 <= a < b < |idx| && recs[idx[a]].count == recs[idx[b]].count ==>
               idx[a] < idx[b]
    requires r == Pick(recs, idx)
    ensures forall a :: 0 <= a < |r| ==> r[a] in recs
    ensures Distinct(recs) ==> TiesInInputOrder(recs, r)
  {
    if Distinct(recs) {
      forall a, b | 0 <= a < b < |r| && r[a].count == r[b].count
        ensures IndexOf(recs, r[a]) < IndexOf(recs, r[b])
      {
        IndexOfDistinct(recs, idx[a]);
        IndexOfDistinct(recs, idx[b]);
      }
    }
  }

  /** On a table with ascending keys (the output of the grouped merge), rows
      with equal counts come out in ascending (Source, Target) order. */
  lemma NLargestTiesAscending(recs: seq<Record>, n: nat)
    requires Ascending(Merge.KeysOf(recs), PairLess)
    ensures forall a, b :: (0 <= a < b < |NLargest(recs, n)| &&
              NLargest(recs, n)[a].count == NLargest(recs, n)[b].count) ==>
              PairLess(NLargest(recs, n)[a].Key(), NLargest(recs, n)[b].Key())
  {
    var r := NLargest(recs, n);
    PairLessStrictTotal();
    assert Distinct(recs) by {
      forall i, j | 0 <= i < j < |recs| ensures recs[i] != recs[j] {
        assert PairLess(Merge.KeysOf(recs)[i], Merge.KeysOf(recs)[j]);
      }
    }
    assert TiesInInputOrder(recs, r);
    forall a, b | 0 <= a < b < |r| && r[a].count == r[b].count
      ensures PairLess(r[a].Key(), r[b].Key())
    {
      var i, j := IndexOf(recs, r[a]), IndexOf(recs, r[b]);
      assert PairLess(Merge.KeysOf(recs)[i], Merge.KeysOf(recs)[j]);
    }
  }

  /** A record whose key no selected record has was not selected. */
  lemma NotSelected(r: seq<Record>, x: Record)
    requires x.Key() !in Merge.KeysOf(r)
    ensures x !in r
  {
    forall c | 0 <= c < |r| ensures r[c] != x {
      assert Merge.KeysOf(r)[c] == r[c].Key();
    }
  }
}
