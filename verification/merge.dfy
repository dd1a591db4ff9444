/** Range merge: the per-year pair-count records of an inclusive year window
    concatenated and summed per (Source, Target) key. */
module Merge {
  import opened Seqs
  import opened Order
  import opened Pairs

  function KeysOf(recs: seq<Record>): (ks: seq<Pair>)
    ensures |ks| == |recs|
    ensures forall i :: 0 <= i < |recs| ==> ks[i] == recs[i].Key()
  {
    if recs == [] then [] else [recs[0].Key()] + KeysOf(recs[1..])
  }

  lemma KeysOfAppend(a: seq<Record>, b: seq<Record>)
    ensures KeysOf(a + b) == KeysOf(a) + KeysOf(b)
  {
  }

  /** The records of the years lo, lo+1, ..., hi, in that order; a year
      missing from the table contributes no record. */
  function Window(table: PeriodTable, lo: int, hi: int): seq<Record>
    decreases hi - lo
  {
    if lo > hi then [] else (if lo in table then table[lo] else []) + Window(table, lo + 1, hi)
  }

  /** Sum of the counts of the records keyed `p`. */
  function SumFor(recs: seq<Record>, p: Pair): int {
    if recs == [] then 0
    else (if recs[0].Key() == p then recs[0].count else 0) + SumFor(recs[1..], p)
  }

  lemma {:induction false} SumForAppend(a: seq<Record>, b: seq<Record>, p: Pair)
    ensures SumFor(a + b, p) == SumFor(a, p) + SumFor(b, p)
  {
    if a == [] {
      assert a + b == b;
    } else {
      assert (a + b)[0] == a[0];
      assert (a + b)[1..] == a[1..] + b;
      SumForAppend(a[1..], b, p);
    }
  }

  lemma {:induction false} SumForAbsent(recs: seq<Record>, p: Pair)
    requires p !in KeysOf(recs)
    ensures SumFor(recs, p) == 0
  {
    if recs != [] {
      assert KeysOf(recs[1..]) == KeysOf(recs)[1..];
      SumForAbsent(recs[1..], p);
    }
  }

  /** The year-by-year sum of the counts of `p` over lo..hi. */
  function YearSum(table: PeriodTable, lo: int, hi: int, p: Pair): int
    decreases hi - lo
  {
    if lo > hi then 0
    else (if lo in table then SumFor(table[lo], p) else 0) + YearSum(table, lo + 1, hi, p)
  }

  lemma {:induction false} WindowSum(table: PeriodTable, lo: int, hi: int, p: Pair)
    ensures SumFor(Window(table, lo, hi), p) == YearSum(table, lo, hi, p)
    decreases hi - lo
  {
    if lo <= hi {
      var head := if lo in table then table[lo] else [];
      SumForAppend(head, Window(table, lo + 1, hi), p);
      WindowSum(table, lo + 1, hi, p);
    }
  }

  lemma {:induction false} WindowKeys(table: PeriodTable, lo: int, hi: int, p: Pair)
    ensures p in KeysOf(Window(table, lo, hi)) <==>
              exists y :: lo <= y <= hi && y in table && p in KeysOf(table[y])
    decreases hi - lo
  {
    if lo <= hi {
      var head := if lo in table then table[lo] else [];
      KeysOfAppend(head, Window(table, lo + 1, hi));
      WindowKeys(table, lo + 1, hi, p);
      if lo in table && p in KeysOf(table[lo]) {
        assert lo <= lo <= hi && lo in table && p in KeysOf(table[lo]);
      }
    }
  }

  /** Merging over lo..hi adds up merging over lo..mid and mid+1..hi. */
  lemma {:induction false} YearSumSplit(table: PeriodTable, lo: int, mid: int, hi: int, p: Pair)
    requires lo <= mid + 1 && mid <= hi
    ensures YearSum(table, lo, hi, p) == YearSum(table, lo, mid, p) + YearSum(table, mid + 1, hi, p)
    decreases mid - lo
  {
    if lo <= mid {
      YearSumSplit(table, lo + 1, mid, hi, p);
    }
  }

  /** A year missing from the table counts like a year with no records. */
  lemma {:induction false} AbsentYearAddsNothing(table: PeriodTable, lo: int, hi: int, y: int, p: Pair)
    requires y !in table
    ensures YearSum(table[y := []], lo, hi, p) == YearSum(table, lo, hi, p)
    decreases hi - lo
  {
    if lo <= hi {
      AbsentYearAddsNothing(table, lo + 1, hi, y, p);
    }
  }

  /** `groupby(['Source', 'Target'], as_index=False).sum()`: one record per
      key, keys in ascending order. */
  function GroupSum(recs: seq<Record>): (r: seq<Record>)
    ensures Ascending(KeysOf(r), PairLess)
    ensures forall p :: p in KeysOf(r) <==> p in KeysOf(recs)
    ensures forall i :: 0 <= i < |r| ==> r[i].count == SumFor(recs, r[i].Key())
  {
    PairLessStrictTotal();
    var ks := SortDistinct(KeysOf(recs), PairLess);
    var r := seq(|ks|, i requires 0 <= i < |ks| => Record(ks[i].first, ks[i].second, SumFor(recs, ks[i])));
    assert KeysOf(r) == ks;
    r
  }

  /** The count a table holds for `p`: its first record keyed `p`, or 0. */
  function Lookup(recs: seq<Record>, p: Pair): int {
    if recs == [] then 0 else if recs[0].Key() == p then recs[0].count else Lookup(recs[1..], p)
  }

  lemma {:induction false} LookupAscending(recs: seq<Record>, i: nat)
    requires i < |recs| && Ascending(KeysOf(recs), PairLess)
    ensures Lookup(recs, recs[i].Key()) == recs[i].count
  {
    PairLessStrictTotal();
    if i > 0 {
      assert PairLess(recs[0].Key(), recs[i].Key());
      assert KeysOf(recs[1..]) == KeysOf(recs)[1..];
      LookupAscending(recs[1..], i - 1);
    }
  }

  lemma {:induction false} LookupAbsent(recs: seq<Record>, p: Pair)
    requires p !in KeysOf(recs)
    ensures Lookup(recs, p) == 0
  {
    if recs != [] {
      assert KeysOf(recs[1..]) == KeysOf(recs)[1..];
      LookupAbsent(recs[1..], p);
    }
  }

  /** The merged table of the inclusive year window [lo, hi]. */
  function MergeRange(table: PeriodTable, lo: int, hi: int): (r: seq<Record>)
    ensures Ascending(KeysOf(r), PairLess)
    ensures forall p :: p in KeysOf(r) <==>
              exists y :: lo <= y <= hi && y in table && p in KeysOf(table[y])
    ensures forall i :: 0 <= i < |r| ==> r[i].count == YearSum(table, lo, hi, r[i].Key())
    ensures lo > hi ==> r == []
  {
    var w := Window(table, lo, hi);
    var r := GroupSum(w);
    forall p ensures p in KeysOf(w) <==> exists y :: lo <= y <= hi && y in table && p in KeysOf(table[y]) {
      WindowKeys(table, lo, hi, p);
    }
    forall i | 0 <= i < |r| ensures r[i].count == YearSum(table, lo, hi, r[i].Key()) {
      WindowSum(table, lo, hi, r[i].Key());
    }
    r
  }

  /** The merged count of any pair is its per-year counts summed over the
      window, absent years adding nothing. */
  lemma MergedCount(table: PeriodTable, lo: int, hi: int, p: Pair)
    ensures Lookup(MergeRange(table, lo, hi), p) == YearSum(table, lo, hi, p)
  {
    var r := MergeRange(table, lo, hi);
    var w := Window(table, lo, hi);
    WindowSum(table, lo, hi, p);
    WindowKeys(table, lo, hi, p);
    if p in KeysOf(r) {
      var i :| 0 <= i < |r| && KeysOf(r)[i] == p;
      LookupAscending(r, i);
    } else {
      LookupAbsent(r, p);
      SumForAbsent(w, p);
    }
  }

  /** Merging a window equals merging its two halves and adding pointwise. */
  lemma MergeSplit(table: PeriodTable, lo: int, mid: int, hi: int, p: Pair)
    requires lo <= mid < hi
    ensures Lookup(MergeRange(table, lo, hi), p) ==
              Lookup(MergeRange(table, lo, mid), p) + Lookup(MergeRange(table, mid + 1, hi), p)
  {
    MergedCount(table, lo, hi, p);
    MergedCount(table, lo, mid, p);
    MergedCount(table, mid + 1, hi, p);
    YearSumSplit(table, lo, mid, hi, p);
  }

  /** The merged window is empty exactly when every year of it that the
      table has holds no record. */
  lemma MergeEmpty(table: PeriodTable, lo: int, hi: int)
    ensures MergeRange(table, lo, hi) == [] <==>
              forall y :: lo <= y <= hi && y in table ==> table[y] == []
  {
    var r := MergeRange(table, lo, hi);
    if r != [] {
      assert KeysOf(r)[0] in KeysOf(r);
    }
    forall y | lo <= y <= hi && y in table && table[y] != [] ensures r != [] {
      var p := KeysOf(table[y])[0];
      assert p in KeysOf(table[y]);
      assert p in KeysOf(r);
    }
  }
}
