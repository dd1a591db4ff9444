/** Generic sequence vocabulary shared by every stage of the pipeline:
    optional values, occurrence counts, first-appearance de-duplication
    (pandas' `unique`), positions (Python's `list.index`), sums and extrema. */
module Seqs {

  datatype Option<+T> = None | Some(value: T)

  /** No element occurs twice. */
  predicate Distinct<T(==)>(s: seq<T>) {
    forall i, j :: 0 <= i < j < |s| ==> s[i] != s[j]
  }

  /** A distinct sequence without its head is distinct and lacks the head. */
  lemma DistinctTail<T>(s: seq<T>)
    requires Distinct(s) && s != []
    ensures Distinct(s[1..]) && s[0] !in s[1..]
  {
    var r := s[1..];
    forall i, j | 0 <= i < j < |r| ensures r[i] != r[j] {
      assert s[i + 1] != s[j + 1];
    }
    forall i | 0 <= i < |r| ensures r[i] != s[0] {
      assert s[i + 1] != s[0];
    }
  }

  /** A sequence without repeats is no longer than any sequence holding all
      of its elements. */
  lemma {:induction false} DistinctSubset<T>(a: seq<T>, b: seq<T>)
    requires Distinct(a) && forall x :: x in a ==> x in b
    ensures |a| <= |b|
    decreases |a|
  {
    if a != [] {
      assert a[0] in a && a[0] in b;
      var k :| 0 <= k < |b| && b[k] == a[0];
      var b' := b[..k] + b[k + 1..];
      DistinctTail(a);
      forall y | y in a[1..] ensures y in b' {
        assert y in a && y in b && y != a[0];
        var q :| 0 <= q < |b| && b[q] == y;
        if q < k {
          assert b'[q] == y;
        } else {
          assert q > k && b'[q - 1] == y;
        }
      }
      DistinctSubset(a[1..], b');
    }
  }

  /** Number of occurrences of `x` in `s`. */
  function Occ<T(==)>(s: seq<T>, x: T): nat {
    if s == [] then 0 else (if s[0] == x then 1 else 0) + Occ(s[1..], x)
  }

  lemma {:induction false} OccAppend<T>(a: seq<T>, b: seq<T>, x: T)
    ensures Occ(a + b, x) == Occ(a, x) + Occ(b, x)
  {
    if a == [] {
      assert a + b == b;
    } else {
      assert (a + b)[0] == a[0];
      assert (a + b)[1..] == a[1..] + b;
      OccAppend(a[1..], b, x);
    }
  }

  lemma {:induction false} OccPositive<T>(s: seq<T>, x: T)
    ensures Occ(s, x) > 0 <==> x in s
  {
    if s != [] {
      OccPositive(s[1..], x);
      assert x in s <==> s[0] == x || x in s[1..];
    }
  }

  lemma {:induction false} OccDistinct<T>(s: seq<T>, x: T)
    requires Distinct(s)
    ensures Occ(s, x) == if x in s then 1 else 0
  {
    if s != [] {
      OccDistinct(s[1..], x);
      OccPositive(s[1..], x);
      assert x in s <==> s[0] == x || x in s[1..];
    }
  }

  /** Position of the first occurrence of `x`: Python's `list.index`. */
  function IndexOf<T(==)>(s: seq<T>, x: T): (i: nat)
    requires x in s
    ensures i < |s| && s[i] == x
    ensures forall k :: 0 <= k < i ==> s[k] != x
  {
    if s[0] == x then 0 else 1 + IndexOf(s[1..], x)
  }

  lemma {:induction false} IndexOfAppend<T>(a: seq<T>, b: seq<T>, x: T)
    requires x in a + b
    ensures x in a ==> IndexOf(a + b, x) == IndexOf(a, x)
    ensures x !in a ==> x in b && IndexOf(a + b, x) == |a| + IndexOf(b, x)
  {
    var i := IndexOf(a + b, x);
    if x in a {
      var j := IndexOf(a, x);
      assert (a + b)[j] == x;
    } else {
      assert i >= |a|;
      assert b[i - |a|] == x;
      var j := IndexOf(b, x);
      assert (a + b)[|a| + j] == x;
    }
  }

  lemma IndexOfDistinct<T>(s: seq<T>, i: nat)
    requires Distinct(s) && i < |s|
    ensures IndexOf(s, s[i]) == i
  {
  }

  /** De-duplication keeping the first appearance of every element, in
      order of first appearance (pandas `Series.unique`). */
  function Unique<T(==,!new)>(s: seq<T>): (u: seq<T>)
    ensures Distinct(u)
    ensures forall x :: x in u <==> x in s
    ensures |u| <= |s|
    ensures forall i, j :: 0 <= i < j < |u| ==> IndexOf(s, u[i]) < IndexOf(s, u[j])
  {
    if s == [] then []
    else
      var p := s[..|s| - 1];
      var last := s[|s| - 1];
      assert s == p + [last];
      var u := Unique(p);
      UniqueOrderStep(p, last, u);
      if last in u then u else u + [last]
  }

  lemma UniqueOrderStep<T>(p: seq<T>, last: T, u: seq<T>)
    requires forall x :: x in u <==> x in p
    requires forall i, j :: 0 <= i < j < |u| ==> IndexOf(p, u[i]) < IndexOf(p, u[j])
    ensures forall i :: 0 <= i < |u| ==> IndexOf(p + [last], u[i]) == IndexOf(p, u[i])
    ensures last !in p ==> IndexOf(p + [last], last) == |p|
  {
    forall i | 0 <= i < |u|
      ensures IndexOf(p + [last], u[i]) == IndexOf(p, u[i])
    {
      IndexOfAppend(p, [last], u[i]);
    }
    if last !in p {
      IndexOfAppend(p, [last], last);
    }
  }

  function Sum(s: seq<int>): int {
    if s == [] then 0 else s[0] + Sum(s[1..])
  }

  function Min(s: seq<int>): (m: int)
    requires |s| > 0
    ensures m in s
    ensures forall i :: 0 <= i < |s| ==> m <= s[i]
  {
    if |s| == 1 then s[0]
    else
      var r := Min(s[1..]);
      assert forall i :: 1 <= i < |s| ==> s[i] == s[1..][i - 1];
      if s[0] <= r then s[0] else r
  }

  function Max(s: seq<int>): (m: int)
    requires |s| > 0
    ensures m in s
    ensures forall i :: 0 <= i < |s| ==> s[i] <= m
  {
    if |s| == 1 then s[0]
    else
      var r := Max(s[1..]);
      assert forall i :: 1 <= i < |s| ==> s[i] == s[1..][i - 1];
      if s[0] >= r then s[0] else r
  }
}
