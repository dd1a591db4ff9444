/** The co-mention network: per-node total weight and degree over the
    selected edges, and the colour domain of the degrees. */
module Network {
  import opened Seqs
  import opened Pairs
  import opened Sankey

  /** A record as read back before `pd.to_numeric(errors='coerce')`: a count
      that does not parse is `None`. */
  datatype RawRecord = RawRecord(source: string, target: string, count: Option<int>)

  function Lift(recs: seq<Record>): (raws: seq<RawRecord>)
    ensures |raws| == |recs|
  {
    if recs == [] then [] else [RawRecord(recs[0].source, recs[0].target, Some(recs[0].count))] + Lift(recs[1..])
  }

  /** `dropna(subset=['Count'])` after coercion: rows without a numeric count
      are dropped, the others keep their order. */
  function DropNonNumeric(raws: seq<RawRecord>): (recs: seq<Record>)
    ensures |recs| <= |raws|
    ensures forall r :: r in recs <==> RawRecord(r.source, r.target, Some(r.count)) in raws
  {
    if raws == [] then []
    else
      var rest := DropNonNumeric(raws[1..]);
      assert forall x :: x in raws <==> x == raws[0] || x in raws[1..];
      match raws[0].count
      case Some(c) => [Record(raws[0].source, raws[0].target, c)] + rest
      case None => rest
  }

  /** Dropping works row by row: the kept rows of a concatenation are the
      kept rows of each part, in order, repeats included. */
  lemma {:induction false} DropAppend(a: seq<RawRecord>, b: seq<RawRecord>)
    ensures DropNonNumeric(a + b) == DropNonNumeric(a) + DropNonNumeric(b)
  {
    if a == [] {
      assert a + b == b;
    } else {
      assert (a + b)[0] == a[0];
      assert (a + b)[1..] == a[1..] + b;
      DropAppend(a[1..], b);
    }
  }

  /** Records whose counts are all numbers pass the coercion unchanged. */
  lemma {:induction false} DropLift(recs: seq<Record>)
    ensures DropNonNumeric(Lift(recs)) == recs
  {
    if recs != [] {
      assert Lift(recs)[1..] == Lift(recs[1..]);
      DropLift(recs[1..]);
    }
  }

  /** Number of ends of edge `e` at node `v`: a self-loop meets its node twice. */
  function EndsAt(e: Link, v: nat): (k: nat)
    ensures k <= 2
  {
    (if e.source == v then 1 else 0) + (if e.target == v then 1 else 0)
  }

  /** Sum of the weights of the edges leaving `v`. */
  function OutWeight(edges: seq<Link>, v: nat): int {
    if edges == [] then 0
    else (if edges[0].source == v then edges[0].value else 0) + OutWeight(edges[1..], v)
  }

  /** Sum of the weights of the edges entering `v`. */
  function InWeight(edges: seq<Link>, v: nat): int {
    if edges == [] then 0
    else (if edges[0].target == v then edges[0].value else 0) + InWeight(edges[1..], v)
  }

  /** A node's total weight: its incoming plus its outgoing edge weights. */
  function TotalWeight(edges: seq<Link>, v: nat): int {
    InWeight(edges, v) + OutWeight(edges, v)
  }

  /** `G.degree()`: edges incident to `v`, in either direction. */
  function Degree(edges: seq<Link>, v: nat): nat {
    if edges == [] then 0 else EndsAt(edges[0], v) + Degree(edges[1..], v)
  }

  function WeightSum(edges: seq<Link>): int {
    if edges == [] then 0 else edges[0].value + WeightSum(edges[1..])
  }

  /** Every edge's ends are below `m`. */
  predicate Within(edges: seq<Link>, m: nat) {
    forall i :: 0 <= i < |edges| ==> edges[i].source < m && edges[i].target < m
  }

  /** Sum of TotalWeight over the nodes 0 .. m-1. */
  function NodeWeightSum(edges: seq<Link>, m: nat): int {
    if m == 0 then 0 else NodeWeightSum(edges, m - 1) + TotalWeight(edges, m - 1)
  }

  /** Sum of Degree over the nodes 0 .. m-1. */
  function NodeDegreeSum(edges: seq<Link>, m: nat): nat {
    if m == 0 then 0 else NodeDegreeSum(edges, m - 1) + Degree(edges, m - 1)
  }

  /** How many of the ends of `e` lie below `m`. */
  function EndsBelow(e: Link, m: nat): nat {
    (if e.source < m then 1 else 0) + (if e.target < m then 1 else 0)
  }

  /** Peeling off the first edge: it adds its weight once for each of its
      ends among the first `m` nodes. */
  lemma {:induction false} NodeWeightSumCons(edges: seq<Link>, m: nat)
    requires edges != []
    ensures NodeWeightSum(edges, m) == EndsBelow(edges[0], m) * edges[0].value + NodeWeightSum(edges[1..], m)
  {
    if m > 0 {
      NodeWeightSumCons(edges, m - 1);
      var e := edges[0];
      assert EndsBelow(e, m) == EndsBelow(e, m - 1) + EndsAt(e, m - 1);
    }
  }

  lemma {:induction false} NodeDegreeSumCons(edges: seq<Link>, m: nat)
    requires edges != []
    ensures NodeDegreeSum(edges, m) == EndsBelow(edges[0], m) + NodeDegreeSum(edges[1..], m)
  {
    if m > 0 {
      NodeDegreeSumCons(edges, m - 1);
    }
  }

  lemma {:induction false} NodeWeightSumEmpty(m: nat)
    ensures NodeWeightSum([], m) == 0 && NodeDegreeSum([], m) == 0
  {
    if m > 0 {
      NodeWeightSumEmpty(m - 1);
    }
  }

  /** Summed over all nodes, total weights count every edge weight twice:
      once at its source and once at its target. */
  lemma {:induction false} WeightHandshake(edges: seq<Link>, m: nat)
    requires Within(edges, m)
    ensures NodeWeightSum(edges, m) == 2 * WeightSum(edges)
  {
    if edges == [] {
      NodeWeightSumEmpty(m);
    } else {
      NodeWeightSumCons(edges, m);
      WeightHandshake(edges[1..], m);
    }
  }

  /** Summed over all nodes, degrees count every edge twice. */
  lemma {:induction false} DegreeHandshake(edges: seq<Link>, m: nat)
    requires Within(edges, m)
    ensures NodeDegreeSum(edges, m) == 2 * |edges|
  {
    if edges == [] {
      NodeWeightSumEmpty(m);
    } else {
      NodeDegreeSumCons(edges, m);
      DegreeHandshake(edges[1..], m);
    }
  }

  /** A node is counted in its degree once for every edge it is an end of. */
  lemma {:induction false} DegreePositive(edges: seq<Link>, v: nat, i: nat)
    requires i < |edges| && (edges[i].source == v || edges[i].target == v)
    ensures Degree(edges, v) >= 1
  {
    if i > 0 {
      DegreePositive(edges[1..], v, i - 1);
    }
  }

  /** Sum of the counts of the records whose Source is `x`. */
  function OutCount(recs: seq<Record>, x: string): int {
    if recs == [] then 0 else (if recs[0].source == x then recs[0].count else 0) + OutCount(recs[1..], x)
  }

  /** Sum of the counts of the records whose Target is `x`. */
  function InCount(recs: seq<Record>, x: string): int {
    if recs == [] then 0 else (if recs[0].target == x then recs[0].count else 0) + InCount(recs[1..], x)
  }

  lemma {:induction false} WeightsByName(nodes: seq<string>, recs: seq<Record>, v: nat)
    requires Distinct(nodes) && Covers(nodes, recs) && v < |nodes|
    ensures OutWeight(LinksFor(nodes, recs), v) == OutCount(recs, nodes[v])
    ensures InWeight(LinksFor(nodes, recs), v) == InCount(recs, nodes[v])
  {
    if recs != [] {
      var links := LinksFor(nodes, recs);
      assert links[1..] == LinksFor(nodes, recs[1..]);
      WeightsByName(nodes, recs[1..], v);
    }
  }

  /** A node's total weight is the summed count of the selected records that
      name it as Source or as Target. */
  lemma TotalWeightByName(recs: seq<Record>, v: nat)
    requires v < |NodeNames(recs)|
    ensures TotalWeight(Links(recs), v) ==
              OutCount(recs, NodeNames(recs)[v]) + InCount(recs, NodeNames(recs)[v])
  {
    NodeNamesCover(recs);
    WeightsByName(NodeNames(recs), recs, v);
  }

  function TotalWeights(edges: seq<Link>, m: nat): (ws: seq<int>)
    ensures |ws| == m && forall v :: 0 <= v < m ==> ws[v] == TotalWeight(edges, v)
  {
    seq(m, v requires 0 <= v < m => TotalWeight(edges, v))
  }

  function Degrees(edges: seq<Link>, m: nat): (ds: seq<int>)
    ensures |ds| == m && forall v :: 0 <= v < m ==> ds[v] == Degree(edges, v)
  {
    seq(m, v requires 0 <= v < m => Degree(edges, v))
  }

  /** The colour bar's `cmin` and `cmax`. */
  datatype Domain = Domain(cmin: int, cmax: int)

  /** `min(node_degrees)` and `max(node_degrees)`; there is none for an empty
      graph, where Python's `min` raises. */
  function ColourDomain(degrees: seq<int>): (d: Option<Domain>)
    ensures d.None? <==> degrees == []
    ensures d.Some? ==> d.value.cmin in degrees && d.value.cmax in degrees
    ensures d.Some? ==> forall v :: 0 <= v < |degrees| ==>
              d.value.cmin <= degrees[v] <= d.value.cmax
  {
    if degrees == [] then None else Some(Domain(Min(degrees), Max(degrees)))
  }

  /** In the network of selected records every node has an edge, so the
      colour domain starts at 1 or more. */
  lemma ColourDomainPositive(recs: seq<Record>)
    requires recs != []
    ensures ColourDomain(Degrees(Links(recs), |NodeNames(recs)|)).Some?
    ensures ColourDomain(Degrees(Links(recs), |NodeNames(recs)|)).value.cmin >= 1
  {
    var nodes := NodeNames(recs);
    var links := Links(recs);
    assert recs[0].source in nodes;
    var ds := Degrees(links, |nodes|);
    forall v | 0 <= v < |nodes| ensures ds[v] >= 1 {
      NoIsolatedNode(recs, v);
      var i :| 0 <= i < |links| && (links[i].source == v || links[i].target == v);
      DegreePositive(links, v, i);
    }
  }

  /** The colour bar of a network of selected records: it exists, starts
      at 1 or more and is not empty. */
  lemma ColourBounds(recs: seq<Record>)
    requires recs != []
    ensures ColourDomain(Degrees(Links(recs), |NodeNames(recs)|)).Some?
    ensures 1 <= ColourDomain(Degrees(Links(recs), |NodeNames(recs)|)).value.cmin
              <= ColourDomain(Degrees(Links(recs), |NodeNames(recs)|)).value.cmax
  {
    ColourDomainPositive(recs);
  }
}
