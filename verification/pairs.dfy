/** Co-mention pair keys and the `{Source, Target, Count}` record shape in
    which pair counts are stored and exchanged. */
module Pairs {
  import opened Order

  /** An ordered pair of software names. The counting code only ever builds
      canonical ones (first name sorts strictly before the second), so that
      (A, B) and (B, A) share one counter. */
  datatype Pair = Pair(first: string, second: string)

  predicate Canonical(p: Pair) {
    StrLess(p.first, p.second)
  }

  /** `tuple(sorted((a, b)))` for two different names. */
  function Canon(a: string, b: string): (p: Pair)
    requires a != b
    ensures Canonical(p)
    ensures p.first != p.second
    ensures (p.first == a && p.second == b) || (p.first == b && p.second == a)
  {
    StrLessTotal(a, b);
    StrLessIrreflexive(a);
    if StrLess(a, b) then Pair(a, b) else Pair(b, a)
  }

  /** The order of mention never yields two keys for one pair of names. */
  lemma CanonSymmetric(a: string, b: string)
    requires a != b
    ensures Canon(a, b) == Canon(b, a)
  {
    StrLessTotal(a, b);
    if StrLess(a, b) && StrLess(b, a) {
      StrLessTransitive(a, b, a);
      StrLessIrreflexive(a);
    }
  }

  /** A canonical pair is its own canonical form. */
  lemma CanonOfCanonical(p: Pair)
    requires Canonical(p)
    ensures p.first != p.second && Canon(p.first, p.second) == p
  {
    StrLessIrreflexive(p.first);
  }

  /** Lexicographic order on (first, second): how pandas sorts a
      `groupby(['Source', 'Target'])` index. */
  predicate PairLess(p: Pair, q: Pair) {
    StrLess(p.first, q.first) || (p.first == q.first && StrLess(p.second, q.second))
  }

  lemma PairLessStrictTotal()
    ensures StrictTotal(PairLess)
  {
    StrLessStrictTotal();
  }

  /** One row of a pair-count table. */
  datatype Record = Record(source: string, target: string, count: int) {
    function Key(): Pair {
      Pair(source, target)
    }
  }

  /** Pair-count records per year, as precomputed once and reloaded by the
      dashboards. */
  type PeriodTable = map<int, seq<Record>>
}
