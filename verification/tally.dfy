/** The `connections` dictionary of the counting loops: a counter from pair
    keys to positive counts that, like a Python dict, remembers the order in
    which keys were first inserted. */
module Tally {
  import opened Seqs
  import opened Pairs

  datatype Entry = Entry(pair: Pair, count: nat)

  type Tally = seq<Entry>

  function Keys(t: Tally): (ks: seq<Pair>)
    ensures |ks| == |t|
    ensures forall i :: 0 <= i < |t| ==> ks[i] == t[i].pair
  {
    if t == [] then [] else [t[0].pair] + Keys(t[1..])
  }

  /** The counter's current value for `p`; 0 when `p` was never inserted. */
  function Get(t: Tally, p: Pair): nat {
    if t == [] then 0 else if t[0].pair == p then t[0].count else Get(t[1..], p)
  }

  /** Sum of all counters. */
  function Total(t: Tally): nat {
    if t == [] then 0 else t[0].count + Total(t[1..])
  }

  /** Keys are distinct and every stored count is at least 1. */
  predicate Valid(t: Tally) {
    Distinct(Keys(t)) && forall i :: 0 <= i < |t| ==> t[i].count >= 1
  }

  /** Counts one more occurrence of pair `p`: a new pair enters the counter
      with count 1, a known pair's count goes up by 1. */
  function Bump(t: Tally, p: Pair): (r: Tally)
    ensures forall q :: Get(r, q) == Get(t, q) + (if q == p then 1 else 0)
  {
    if t == [] then [Entry(p, 1)]
    else if t[0].pair == p then [Entry(p, t[0].count + 1)] + t[1..]
    else [t[0]] + Bump(t[1..], p)
  }

  /** Bumping adds one to the sum of all counters. */
  lemma {:induction false} BumpTotal(t: Tally, p: Pair)
    ensures Total(Bump(t, p)) == Total(t) + 1
  {
    if t != [] && t[0].pair != p {
      BumpTotal(t[1..], p);
    }
  }

  /** A key already present keeps its place; a new key goes to the end. */
  lemma {:induction false} BumpKeys(t: Tally, p: Pair)
    ensures Keys(Bump(t, p)) == if p in Keys(t) then Keys(t) else Keys(t) + [p]
  {
    if t != [] {
      assert Keys(t) == [t[0].pair] + Keys(t[1..]);
      var r := Bump(t, p);
      if t[0].pair == p {
        assert Keys(r) == [p] + Keys(t[1..]);
      } else {
        BumpKeys(t[1..], p);
        assert Keys(r) == [t[0].pair] + Keys(Bump(t[1..], p));
      }
    }
  }

  /** No stored count goes down, and a new key starts at 1. */
  lemma {:induction false} BumpCounts(t: Tally, p: Pair)
    ensures |Bump(t, p)| >= |t|
    ensures forall i :: 0 <= i < |t| ==> Bump(t, p)[i].count >= t[i].count
    ensures |Bump(t, p)| > |t| ==> Bump(t, p)[|t|].count == 1
  {
    if t != [] && t[0].pair != p {
      BumpCounts(t[1..], p);
      var r := Bump(t, p);
      assert forall i :: 1 <= i < |r| ==> r[i] == Bump(t[1..], p)[i - 1];
    }
  }

  lemma BumpValid(t: Tally, p: Pair)
    requires Valid(t)
    ensures Valid(Bump(t, p))
  {
    var r := Bump(t, p);
    BumpKeys(t, p);
    BumpCounts(t, p);
    assert |Keys(r)| == |r|;
  }

  /** Bumps every pair of `ps`, in order. */
  function AddAll(t: Tally, ps: seq<Pair>): Tally
    decreases ps
  {
    if ps == [] then t else AddAll(Bump(t, ps[0]), ps[1..])
  }

  /** Adding a list of pairs raises each counter by the number of times its
      pair occurs in the list, and the total by the list's length. */
  lemma {:induction false} AddAllCounts(t: Tally, ps: seq<Pair>)
    ensures forall q :: Get(AddAll(t, ps), q) == Get(t, q) + Occ(ps, q)
    ensures Total(AddAll(t, ps)) == Total(t) + |ps|
    ensures Valid(t) ==> Valid(AddAll(t, ps))
    decreases ps
  {
    if ps != [] {
      if Valid(t) { BumpValid(t, ps[0]); }
      BumpTotal(t, ps[0]);
      AddAllCounts(Bump(t, ps[0]), ps[1..]);
    }
  }

  /** The keys after adding are the keys before plus the pairs added. */
  lemma {:induction false} AddAllKeys(t: Tally, ps: seq<Pair>)
    ensures forall q :: q in Keys(AddAll(t, ps)) <==> q in Keys(t) || q in ps
    decreases ps
  {
    if ps != [] {
      BumpKeys(t, ps[0]);
      AddAllKeys(Bump(t, ps[0]), ps[1..]);
      assert forall q :: q in ps <==> q == ps[0] || q in ps[1..];
    }
  }

  /** In a valid tally the count stored beside a key is the key's value. */
  lemma {:induction false} GetValid(t: Tally, i: nat)
    requires Valid(t) && i < |t|
    ensures Get(t, t[i].pair) == t[i].count
  {
    if i > 0 {
      assert Keys(t)[0] != Keys(t)[i];
      assert Valid(t[1..]) by {
        forall a, b | 0 <= a < b < |t[1..]| ensures Keys(t[1..])[a] != Keys(t[1..])[b] {
          assert Keys(t)[a + 1] != Keys(t)[b + 1];
        }
      }
      GetValid(t[1..], i - 1);
    }
  }

  lemma {:induction false} GetPositive(t: Tally, p: Pair)
    ensures Get(t, p) > 0 ==> p in Keys(t)
  {
    if t != [] && t[0].pair != p {
      GetPositive(t[1..], p);
      assert Keys(t) == [t[0].pair] + Keys(t[1..]);
    }
  }
}
