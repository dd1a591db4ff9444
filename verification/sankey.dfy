/** Node list and link index mapping of a Sankey diagram built from selected
    pair-count records. */
module Sankey {
  import opened Seqs
  import opened Pairs

  function Sources(recs: seq<Record>): (s: seq<string>)
    ensures |s| == |recs|
    ensures forall i :: 0 <= i < |recs| ==> s[i] == recs[i].source
  {
    if recs == [] then [] else [recs[0].source] + Sources(recs[1..])
  }

  function Targets(recs: seq<Record>): (t: seq<string>)
    ensures |t| == |recs|
    ensures forall i :: 0 <= i < |recs| ==> t[i] == recs[i].target
  {
    if recs == [] then [] else [recs[0].target] + Targets(recs[1..])
  }

  /** `x` is the Source or the Target of some record. */
  predicate Endpoint(recs: seq<Record>, x: string) {
    exists i :: 0 <= i < |recs| && (recs[i].source == x || recs[i].target == x)
  }

  /** The Source column followed by the Target column. */
  function Ends(recs: seq<Record>): (all: seq<string>)
    ensures |all| == 2 * |recs|
    ensures forall i :: 0 <= i < |recs| ==> all[i] == recs[i].source && all[|recs| + i] == recs[i].target
  {
    Sources(recs) + Targets(recs)
  }

  /** The names in the two columns are exactly the records' endpoints. */
  lemma EndsEndpoints(recs: seq<Record>)
    ensures forall x :: x in Ends(recs) <==> Endpoint(recs, x)
  {
    var all := Ends(recs);
    forall x ensures x in all <==> Endpoint(recs, x) {
      if x in all {
        var k :| 0 <= k < |all| && all[k] == x;
        if k < |recs| {
          assert recs[k].source == x;
        } else {
          assert recs[k - |recs|].target == x;
        }
      }
      if Endpoint(recs, x) {
        var i :| 0 <= i < |recs| && (recs[i].source == x || recs[i].target == x);
        assert all[i] == recs[i].source && all[|recs| + i] == recs[i].target;
      }
    }
  }

  /** `pd.concat([Source, Target]).unique()`: every endpoint once, in order
      of first appearance in the Sources followed by the Targets. */
  function NodeNames(recs: seq<Record>): (nodes: seq<string>)
    ensures Distinct(nodes)
    ensures forall x :: x in nodes <==> x in Ends(recs)
    ensures forall x :: x in nodes <==> Endpoint(recs, x)
    ensures |nodes| <= 2 * |recs|
    ensures forall i, j :: 0 <= i < j < |nodes| ==>
              IndexOf(Ends(recs), nodes[i]) < IndexOf(Ends(recs), nodes[j])
  {
    EndsEndpoints(recs);
    Unique(Ends(recs))
  }

  /** Every name that is some record's Source precedes every name that is
      only ever a Target. */
  lemma SourcesFirst(recs: seq<Record>, i: nat, j: nat)
    requires i < |NodeNames(recs)| && j < |NodeNames(recs)|
    requires NodeNames(recs)[i] in Sources(recs)
    requires NodeNames(recs)[j] !in Sources(recs)
    ensures i < j
  {
    var nodes := NodeNames(recs);
    var s, t := Sources(recs), Targets(recs);
    var x, y := nodes[i], nodes[j];
    assert Ends(recs) == s + t;
    IndexOfAppend(s, t, x);
    IndexOfAppend(s, t, y);
    assert IndexOf(s + t, x) < |s| <= IndexOf(s + t, y);
  }

  /** One Sankey link: node positions and the flow value. */
  datatype Link = Link(source: nat, target: nat, value: int)

  /** The link for record `r`, its ends looked up with `list.index`. */
  function LinkOf(nodes: seq<string>, r: Record): (l: Link)
    requires r.source in nodes && r.target in nodes
    ensures l.source < |nodes| && nodes[l.source] == r.source
    ensures l.target < |nodes| && nodes[l.target] == r.target
    ensures l.value == r.count
  {
    Link(IndexOf(nodes, r.source), IndexOf(nodes, r.target), r.count)
  }

  /** Every record's ends are names of `nodes`. */
  predicate Covers(nodes: seq<string>, recs: seq<Record>) {
    forall i :: 0 <= i < |recs| ==> recs[i].source in nodes && recs[i].target in nodes
  }

  lemma NodeNamesCover(recs: seq<Record>)
    ensures Covers(NodeNames(recs), recs)
  {
    var all := Ends(recs);
    forall i | 0 <= i < |recs|
      ensures recs[i].source in all && recs[i].target in all
    {
      assert all[i] == recs[i].source;
      assert all[|recs| + i] == recs[i].target;
    }
  }

  function LinksFor(nodes: seq<string>, recs: seq<Record>): (links: seq<Link>)
    requires Covers(nodes, recs)
    ensures |links| == |recs|
    ensures forall i :: 0 <= i < |recs| ==> links[i] == LinkOf(nodes, recs[i])
  {
    seq(|recs|, i requires 0 <= i < |recs| => LinkOf(nodes, recs[i]))
  }

  /** One link per record, in record order: its ends are the positions of the
      record's Source and Target in the node list, its value the count. */
  function Links(recs: seq<Record>): (links: seq<Link>)
    ensures |links| == |recs|
    ensures forall i :: 0 <= i < |recs| ==>
              && links[i].source < |NodeNames(recs)|
              && links[i].target < |NodeNames(recs)|
              && NodeNames(recs)[links[i].source] == recs[i].source
              && NodeNames(recs)[links[i].target] == recs[i].target
              && links[i].value == recs[i].count
  {
    NodeNamesCover(recs);
    LinksFor(NodeNames(recs), recs)
  }

  /** Every link's ends are positions of `nodes`. */
  predicate WellFormed(nodes: seq<string>, links: seq<Link>) {
    forall i :: 0 <= i < |links| ==> links[i].source < |nodes| && links[i].target < |nodes|
  }

  /** Reads the records back out of a diagram. */
  function Decode(nodes: seq<string>, links: seq<Link>): (recs: seq<Record>)
    requires WellFormed(nodes, links)
    ensures |recs| == |links|
  {
    seq(|links|, i requires 0 <= i < |links| =>
      Record(nodes[links[i].source], nodes[links[i].target], links[i].value))
  }

  /** The diagram loses nothing: its records are exactly the selected rows. */
  lemma LinksRoundTrip(recs: seq<Record>)
    ensures WellFormed(NodeNames(recs), Links(recs))
    ensures Decode(NodeNames(recs), Links(recs)) == recs
  {
    NodeNamesCover(recs);
    DecodeLinksFor(NodeNames(recs), recs);
  }

  lemma DecodeLinksFor(nodes: seq<string>, recs: seq<Record>)
    requires Covers(nodes, recs)
    ensures WellFormed(nodes, LinksFor(nodes, recs))
    ensures Decode(nodes, LinksFor(nodes, recs)) == recs
  {
    var d := Decode(nodes, LinksFor(nodes, recs));
    assert forall i :: 0 <= i < |recs| ==> d[i] == recs[i];
  }

  /** Every node is the end of at least one link. */
  lemma NoIsolatedNode(recs: seq<Record>, v: nat)
    requires v < |NodeNames(recs)|
    ensures exists i :: 0 <= i < |Links(recs)| && (Links(recs)[i].source == v || Links(recs)[i].target == v)
  {
    var nodes := NodeNames(recs);
    var links := Links(recs);
    assert Endpoint(recs, nodes[v]);
    var i :| 0 <= i < |recs| && (recs[i].source == nodes[v] || recs[i].target == nodes[v]);
    var l := links[i];
    assert nodes[l.source] == recs[i].source && nodes[l.target] == recs[i].target;
    assert l.source == v || l.target == v;
  }

  datatype Diagram = Diagram(nodes: seq<string>, links: seq<Link>)

  /** The Sankey figure's data for the selected rows. */
  function Build(recs: seq<Record>): (d: Diagram)
    ensures Distinct(d.nodes) && WellFormed(d.nodes, d.links)
    ensures |d.links| == |recs| && |d.nodes| <= 2 * |d.links|
    ensures Decode(d.nodes, d.links) == recs
  {
    LinksRoundTrip(recs);
    Diagram(NodeNames(recs), Links(recs))
  }
}
