/** Input rows of the mention table and the cleaned mentions the counting
    stages work on: the row filter, the year column and per-document
    grouping. */
module Rows {
  import opened Seqs
  import opened Order
  import opened Years

  /** The columns of one mention row that the pipeline reads. */
  datatype Row = Row(doi: string, pubdate: string, software: string,
                     mappedToSoftware: string, curationLabel: string)

  const NotDisambiguated: string := "not_disambiguated"
  const NotSoftware: string := "not_software"

  /** Rows with an undisambiguated name or curated as not software are noise. */
  predicate Kept(r: Row) {
    r.mappedToSoftware != NotDisambiguated && r.curationLabel != NotSoftware
  }

  /** A usable mention: document, publication year and software name. */
  datatype Mention = Mention(doi: string, year: int, name: string)

  /** `m` is what the cleaning step makes of row `r`. */
  predicate Yields(r: Row, m: Mention) {
    && Kept(r)
    && ParseYear(r.pubdate) == Some(m.year)
    && m.doi == r.doi
    && m.name == r.mappedToSoftware
  }

  /** The row filter followed by the year column: rows that are filtered out
      or whose year does not parse are dropped; the rest keep their order. */
  function Clean(rows: seq<Row>): (ms: seq<Mention>)
    ensures |ms| <= |rows|
    ensures forall m :: m in ms <==> exists r :: r in rows && Yields(r, m)
    ensures forall i :: 0 <= i < |ms| ==> ms[i].name != NotDisambiguated
  {
    if rows == [] then []
    else
      var r := rows[0];
      var rest := Clean(rows[1..]);
      assert forall x :: x in rows <==> x == r || x in rows[1..];
      if Kept(r) && ParseYear(r.pubdate).Some? then
        var m := Mention(r.doi, ParseYear(r.pubdate).value, r.mappedToSoftware);
        assert Yields(r, m);
        assert forall m' :: Yields(r, m') ==> m' == m;
        [m] + rest
      else rest
  }

  /** Mentions published in the inclusive year window [lo, hi], in order. */
  function InRange(ms: seq<Mention>, lo: int, hi: int): (r: seq<Mention>)
    ensures |r| <= |ms|
    ensures forall m :: m in r <==> m in ms && lo <= m.year <= hi
  {
    if ms == [] then []
    else
      var rest := InRange(ms[1..], lo, hi);
      assert forall x :: x in ms <==> x == ms[0] || x in ms[1..];
      if lo <= ms[0].year <= hi then [ms[0]] + rest else rest
  }

  /** Mentions published in year `y`. */
  function OfYear(ms: seq<Mention>, y: int): seq<Mention> {
    InRange(ms, y, y)
  }

  lemma {:induction false} OfYearEmpty(ms: seq<Mention>, y: int)
    requires forall m :: m in ms ==> m.year != y
    ensures OfYear(ms, y) == []
  {
    if ms != [] {
      assert ms[0] in ms;
      OfYearEmpty(ms[1..], y);
    }
  }

  lemma {:induction false} EmptyWindow(ms: seq<Mention>, lo: int, hi: int)
    requires lo > hi
    ensures InRange(ms, lo, hi) == []
  {
    if ms != [] {
      EmptyWindow(ms[1..], lo, hi);
    }
  }

  function Dois(ms: seq<Mention>): (ds: seq<string>)
    ensures |ds| == |ms|
    ensures forall i :: 0 <= i < |ms| ==> ds[i] == ms[i].doi
  {
    if ms == [] then [] else [ms[0].doi] + Dois(ms[1..])
  }

  function YearsOf(ms: seq<Mention>): (ys: seq<int>)
    ensures |ys| == |ms|
    ensures forall i :: 0 <= i < |ms| ==> ys[i] == ms[i].year
  {
    if ms == [] then [] else [ms[0].year] + YearsOf(ms[1..])
  }

  /** The documents in the order `groupby('doi')` visits them: sorted. */
  function DocOrder(ms: seq<Mention>): (ds: seq<string>)
    ensures Ascending(ds, StrLess) && Distinct(ds)
    ensures forall d :: d in ds <==> exists m :: m in ms && m.doi == d
  {
    StrLessStrictTotal();
    var ds := SortDistinct(Dois(ms), StrLess);
    AscendingDistinct(ds, StrLess);
    ds
  }

  /** The names mentioned in document `d`, in row order, repeats included. */
  function NamesOf(ms: seq<Mention>, d: string): (ns: seq<string>)
    ensures forall x :: x in ns <==> Mentions(ms, d, x)
  {
    if ms == [] then []
    else
      var rest := NamesOf(ms[1..], d);
      assert forall m :: m in ms <==> m == ms[0] || m in ms[1..];
      if ms[0].doi == d then [ms[0].name] + rest else rest
  }

  /** Some row of document `d` names `x`. */
  predicate Mentions(ms: seq<Mention>, d: string, x: string) {
    exists m :: m in ms && m.doi == d && m.name == x
  }

  /** `group['mapped_to_software'].unique()` for each document in `ds`. */
  function GroupsOf(ms: seq<Mention>, ds: seq<string>): (gs: seq<seq<string>>)
    ensures |gs| == |ds|
    ensures forall i :: 0 <= i < |ds| ==> Distinct(gs[i])
    ensures forall i, x :: 0 <= i < |ds| ==> (x in gs[i] <==> Mentions(ms, ds[i], x))
  {
    if ds == [] then []
    else
      var g := Unique(NamesOf(ms, ds[0]));
      var rest := GroupsOf(ms, ds[1..]);
      assert forall i :: 1 <= i < |ds| ==> ds[i] == ds[1..][i - 1];
      [g] + rest
  }

  /** The distinct names of every document, documents in `groupby` order. */
  function Groups(ms: seq<Mention>): seq<seq<string>> {
    GroupsOf(ms, DocOrder(ms))
  }
}
