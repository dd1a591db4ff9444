/** The network app over the precomputed per-year records: the merged
    window's N heaviest pairs as a directed graph with per-node weights and
    degrees, a degree colour scale and per-edge styles; and the slider step
    of the play animation. */
module NetworkQuickdash {
  import opened Seqs
  import opened Pairs
  import opened Merge
  import opened TopN
  import opened Sankey
  import opened Network
  import opened Encoding

  /** The edge weights, in edge order. */
  function LinkValues(links: seq<Link>): (ws: seq<int>)
    ensures |ws| == |links| && forall i :: 0 <= i < |links| ==> ws[i] == links[i].value
  {
    if links == [] then [] else [links[0].value] + LinkValues(links[1..])
  }

  /** Everything the figure shows apart from positions: vertex names, edges
      by vertex position, each vertex's total weight and degree, the colour
      bar bounds, the edge weights and one style per edge. */
  datatype Net = Net(nodes: seq<string>, links: seq<Link>, weights: seq<int>,
                     degrees: seq<int>, domain: Domain, values: seq<int>, styles: seq<Style>)

  /** The graph of the selected records `recs`: the figure's parts, each
      computed from the vertex names and edges of the records. */
  function NetOf(recs: seq<Record>): (g: Net)
    requires recs != []
    ensures g.nodes == NodeNames(recs) && g.links == Links(recs)
    ensures g.weights == TotalWeights(g.links, |g.nodes|) && g.degrees == Degrees(g.links, |g.nodes|)
    ensures g.values == LinkValues(g.links)
    ensures ColourDomain(g.degrees) == Some(g.domain)
    ensures Styles(g.values) == Some(g.styles)
  {
    var nodes := NodeNames(recs);
    var links := Links(recs);
    var ds := Degrees(links, |nodes|);
    ColourDomainPositive(recs);
    var values := LinkValues(links);
    Net(nodes, links, TotalWeights(links, |nodes|), ds, ColourDomain(ds).value, values, Styles(values).value)
  }

  /** The graph holds the selected records and nothing else: distinct
      vertex names, edges between them, and the records read back from the
      edges. */
  lemma NetworkRoundTrip(recs: seq<Record>, g: Net)
    requires recs != [] && g == NetOf(recs)
    ensures Distinct(g.nodes) && WellFormed(g.nodes, g.links)
    ensures Decode(g.nodes, g.links) == recs
  {
    LinksRoundTrip(recs);
  }

  /** `create_network(df, N, range)`. There is none for an empty selection:
      `min` of the empty degree array raises. */
  function CreateNetwork(raws: seq<RawRecord>, n: nat): (g: Option<Net>)
    ensures g.None? <==> n == 0 || DropNonNumeric(raws) == []
    ensures g.Some? ==> WellFormed(g.value.nodes, g.value.links)
    ensures g.Some? ==> Decode(g.value.nodes, g.value.links) == NLargest(DropNonNumeric(raws), n)
  {
    var top := NLargest(DropNonNumeric(raws), n);
    if top == [] then None
    else
      NetworkRoundTrip(top, NetOf(top));
      Some(NetOf(top))
  }

  /** A vertex's total weight is the summed count of the records that name
      it as Source or Target, and over all vertices the total weights add up
      to twice the edge weights and the degrees to twice the edges. */
  lemma NetworkWeights(recs: seq<Record>, g: Net)
    requires recs != [] && g == NetOf(recs)
    ensures forall v :: 0 <= v < |g.nodes| ==>
              g.weights[v] == OutCount(recs, g.nodes[v]) + InCount(recs, g.nodes[v])
    ensures NodeWeightSum(g.links, |g.nodes|) == 2 * WeightSum(g.links)
    ensures NodeDegreeSum(g.links, |g.nodes|) == 2 * |g.links|
  {
    forall v | 0 <= v < |g.nodes|
      ensures g.weights[v] == OutCount(recs, g.nodes[v]) + InCount(recs, g.nodes[v])
    {
      TotalWeightByName(recs, v);
    }
    WeightHandshake(g.links, |g.nodes|);
    DegreeHandshake(g.links, |g.nodes|);
  }

  /** Every vertex has an edge, so the colour bar starts at 1 or more; its
      bounds are degrees that occur and enclose all of them. */
  lemma NetworkColours(recs: seq<Record>, g: Net)
    requires recs != [] && g == NetOf(recs)
    ensures 1 <= g.domain.cmin <= g.domain.cmax
    ensures g.domain.cmin in g.degrees && g.domain.cmax in g.degrees
    ensures forall v :: 0 <= v < |g.degrees| ==> g.domain.cmin <= g.degrees[v] <= g.domain.cmax
  {
    ColourBounds(recs);
  }

  /** Edge styles: opacity in [0.1, 0.8] and width in [1, 10]. */
  lemma NetworkStyleBounds(recs: seq<Record>, g: Net)
    requires recs != [] && g == NetOf(recs)
    ensures forall i :: 0 <= i < |g.links| ==>
              && MinAlpha <= g.styles[i].alpha <= MinAlpha + AlphaRange
              && 1.0 <= g.styles[i].width <= 10.0
  {
    StylesProps(g.values, g.styles);
  }

  /** Edge opacity is ordered as the edge weights are. */
  lemma NetworkOpacityOrder(recs: seq<Record>, g: Net)
    requires recs != [] && g == NetOf(recs)
    ensures forall i, j :: 0 <= i < |g.links| && 0 <= j < |g.links| ==>
              (g.styles[i].alpha <= g.styles[j].alpha <==> g.links[i].value <= g.links[j].value)
  {
    StylesProps(g.values, g.styles);
  }

  /** Edge width is ordered as the edge weights are. */
  lemma NetworkWidthOrder(recs: seq<Record>, g: Net)
    requires recs != [] && g == NetOf(recs)
    ensures forall i, j :: 0 <= i < |g.links| && 0 <= j < |g.links| ==>
              (g.styles[i].width <= g.styles[j].width <==> g.links[i].value <= g.links[j].value)
  {
    StylesProps(g.values, g.styles);
  }

  /** `update_graph(N, [lo, hi])`: the merged window, read back with every
      count numeric. There is no figure for N = 0 or a window without any
      record. */
  function UpdateGraph(table: PeriodTable, n: nat, lo: int, hi: int): (g: Option<Net>)
    ensures g.None? <==> n == 0 || forall y :: lo <= y <= hi && y in table ==> table[y] == []
    ensures g.Some? ==> WellFormed(g.value.nodes, g.value.links)
    ensures g.Some? ==> Decode(g.value.nodes, g.value.links) == NLargest(MergeRange(table, lo, hi), n)
  {
    var merged := MergeRange(table, lo, hi);
    DropLift(merged);
    MergeEmpty(table, lo, hi);
    CreateNetwork(Lift(merged), n)
  }

  /** The slider's upper end for the animation. */
  const MaxYear: int := 2021

  datatype YearRange = YearRange(lo: int, hi: int)

  /** `update_slider`: one step of the animation moves the upper end one
      year on, up to 2021; an upper end past 2021 is pulled back to it. */
  function UpdateSlider(r: YearRange): (s: YearRange)
    ensures s.lo == r.lo && s.hi <= MaxYear
    ensures r.hi <= MaxYear ==> r.hi <= s.hi <= r.hi + 1
    ensures s.hi == r.hi <==> r.hi == MaxYear
    ensures r.hi >= MaxYear ==> s.hi == MaxYear
  {
    if r.hi < MaxYear then YearRange(r.lo, r.hi + 1) else YearRange(r.lo, MaxYear)
  }

  /** The range after `k` ticks. */
  function Steps(r: YearRange, k: nat): YearRange
    decreases k
  {
    if k == 0 then r else Steps(UpdateSlider(r), k - 1)
  }

  /** After k >= 1 ticks the upper end is min(hi + k, 2021), the lower end
      never moves, and 2021 is where the animation rests. */
  lemma {:induction false} SliderSteps(r: YearRange, k: nat)
    requires k >= 1
    ensures Steps(r, k).lo == r.lo
    ensures Steps(r, k).hi == if r.hi + k < MaxYear then r.hi + k else MaxYear
    decreases k
  {
    if k > 1 {
      SliderSteps(UpdateSlider(r), k - 1);
    }
  }

  lemma SliderRests(lo: int)
    ensures UpdateSlider(YearRange(lo, MaxYear)) == YearRange(lo, MaxYear)
  {
  }
}
