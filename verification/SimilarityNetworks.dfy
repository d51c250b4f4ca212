/** Networks of similar documents: the components of the similarity edges at or above a threshold. */
module SimilarityNetworks {
  import opened Sequences
  import opened Network
  import opened PlagiarismNetworks
  import opened UndirectedGraphs

  // ---------------------------------------------------------------- what the report must say

  predicate IsDocument(s: Net, n: Id) {
    n in s.nodes && s.nodes[n].kind == Document
  }

  predicate IsSimilar(e: Edge, threshold: real) {
    e.kind == Similarity && e.weight >= threshold
  }

  predicate Joins(e: Edge, a: Id, b: Id) {
    (e.source == a && e.target == b) || (e.source == b && e.target == a)
  }

  ghost predicate JoinedIn(es: seq<Edge>, threshold: real, a: Id, b: Id) {
    exists e :: e in es && IsSimilar(e, threshold) && Joins(e, a, b)
  }

  ghost predicate SimilarLink(s: Net, threshold: real, a: Id, b: Id) {
    IsDocument(s, a) && IsDocument(s, b) && JoinedIn(s.edges, threshold, a, b)
  }

  ghost function SimilarLinks(s: Net, threshold: real): (Id, Id) -> bool {
    (a, b) => SimilarLink(s, threshold, a, b)
  }

  ghost predicate SimilarityPath(s: Net, threshold: real, p: seq<Id>, a: Id, b: Id) {
    && |p| > 0 && p[0] == a && p[|p| - 1] == b
    && (forall i :: 0 <= i < |p| ==> IsDocument(s, p[i]))
    && (forall i :: 0 <= i < |p| - 1 ==> SimilarLink(s, threshold, p[i], p[i + 1]))
  }

  /** A chain of similarity edges of at least the threshold joins the two documents. */
  ghost predicate Connected(s: Net, threshold: real, a: Id, b: Id) {
    exists p :: SimilarityPath(s, threshold, p, a, b)
  }

  datatype SimilarityNetwork = SimilarityNetwork(documents: seq<Id>, size: nat, density: real, isDense: bool)

  ghost predicate Together(nets: seq<SimilarityNetwork>, a: Id, b: Id) {
    exists i :: 0 <= i < |nets| && a in nets[i].documents && b in nets[i].documents
  }

  /** Size, density and flag of a network are those of its documents under the given links. */
  ghost predicate DescribedBy(link: (Id, Id) -> bool, net: SimilarityNetwork) {
    && Distinct(net.documents) && net.size == |net.documents| >= 2
    && (net.isDense <==> net.density > 0.5)
    && IsDensity(link, net.documents, net.density)
    && net.density >= 2.0 / net.size as real
    && (net.density <= 1.0 <==> Loops(link, net.documents) <= UnlinkedPairs(link, net.documents))
    && ((forall d :: d in net.documents ==> !link(d, d)) ==> net.density <= 1.0)
  }

  /** A network is called dense exactly when more than half of its pairs are linked, loops counted in. */
  lemma DenseIff(link: (Id, Id) -> bool, net: SimilarityNetwork)
    requires DescribedBy(link, net)
    ensures net.isDense <==> 4 * |LinkedPositions(link, net.documents)| > net.size * (net.size - 1)
  {
    HalfDense(net.size, |LinkedPositions(link, net.documents)|, net.density);
  }

  lemma HalfDense(n: nat, m: nat, density: real)
    requires n >= 2 && DensityOf(n, m, density)
    ensures density > 0.5 <==> 4 * m > n * (n - 1)
  {
    ProductPositive(n);
    assert (n * (n - 1)) as real == n as real * (n - 1) as real;
    AboveHalfIff(density, n as real * (n - 1) as real, 2.0 * m as real);
  }

  lemma AboveHalfIff(d: real, pairs: real, total: real)
    requires pairs > 0.0 && d * pairs == total
    ensures d > 0.5 <==> total + total > pairs
  {
    if d > 0.5 { assert (d - 0.5) * pairs > 0.0; } else { assert (0.5 - d) * pairs >= 0.0; }
  }

  ghost predicate Describes(s: Net, threshold: real, net: SimilarityNetwork) {
    DescribedBy(SimilarLinks(s, threshold), net)
  }

  ghost predicate IsReport(s: Net, threshold: real, nets: seq<SimilarityNetwork>) {
    && (forall i :: 0 <= i < |nets| ==> Describes(s, threshold, nets[i]))
    && (forall i, j, d :: 0 <= i < j < |nets| && d in nets[i].documents ==> d !in nets[j].documents)
    && (forall a, b :: a != b ==> (Together(nets, a, b) <==> Connected(s, threshold, a, b)))
  }

  /** Two documents are linked exactly when some similarity edge of at least the threshold has these two ends, in either
      direction. */
  lemma SimilarLinkIff(s: Net, threshold: real, a: Id, b: Id)
    ensures SimilarLinks(s, threshold)(a, b) <==>
      && a in s.nodes && b in s.nodes && s.nodes[a].kind == s.nodes[b].kind == Document
      && exists e :: e in s.edges && e.kind == Similarity && e.weight >= threshold && {e.source, e.target} == {a, b}
  {
    forall e | e in s.edges ensures Joins(e, a, b) <==> {e.source, e.target} == {a, b} {
      SameEnds(e.source, e.target, a, b);
    }
  }

  lemma SameEnds(x: Id, y: Id, a: Id, b: Id)
    ensures {x, y} == {a, b} <==> (x == a && y == b) || (x == b && y == a)
  {
    if {x, y} == {a, b} { assert a in {x, y} && b in {x, y} && x in {a, b} && y in {a, b}; }
  }

  // ---------------------------------------------------------------- the similarity graph

  function Documents(s: Net): seq<Id> {
    Filter(s.order, n => IsDocument(s, n))
  }

  function SimilarityGraph(docs: seq<Id>, es: seq<Edge>, threshold: real): (g: Adjacency)
    ensures g.Keys == Elements(docs)
  {
    if es == [] then map d | d in docs :: []
    else
      var e, g := es[|es| - 1], SimilarityGraph(docs, es[..|es| - 1], threshold);
      if IsSimilar(e, threshold) && e.source in docs && e.target in docs then
        (assert e.source in g && e.target in g;
         Linked(g, e.source, e.target))
      else g
  }

  lemma JoinedInLonger(es: seq<Edge>, threshold: real, a: Id, b: Id)
    requires es != []
    ensures var e := es[|es| - 1];
      JoinedIn(es, threshold, a, b) <==>
        JoinedIn(es[..|es| - 1], threshold, a, b) || (IsSimilar(e, threshold) && Joins(e, a, b))
  {
  }

  lemma {:induction false} SimilarityGraphIsUndirected(docs: seq<Id>, es: seq<Edge>, threshold: real)
    ensures Undirected(SimilarityGraph(docs, es, threshold))
  {
    if es != [] {
      var rest, e := es[..|es| - 1], es[|es| - 1];
      SimilarityGraphIsUndirected(docs, rest, threshold);
      if IsSimilar(e, threshold) && e.source in docs && e.target in docs {
        LinkedAdds(SimilarityGraph(docs, rest, threshold), e.source, e.target);
      }
    }
  }

  lemma {:induction false} SimilarityGraphLinks(docs: seq<Id>, es: seq<Edge>, threshold: real, u: Id, v: Id)
    requires u in docs
    ensures v in SimilarityGraph(docs, es, threshold)[u] <==> v in docs && JoinedIn(es, threshold, u, v)
  {
    if es != [] {
      var rest, e := es[..|es| - 1], es[|es| - 1];
      SimilarityGraphLinks(docs, rest, threshold, u, v);
      JoinedInLonger(es, threshold, u, v);
      if IsSimilar(e, threshold) && e.source in docs && e.target in docs {
        SimilarityGraphIsUndirected(docs, rest, threshold);
        LinkedAdds(SimilarityGraph(docs, rest, threshold), e.source, e.target);
      }
    }
  }

  ghost function GraphAt(s: Net, threshold: real): Adjacency {
    SimilarityGraph(Documents(s), s.edges, threshold)
  }

  lemma GraphAtLinks(s: Net, threshold: real)
    requires Consistent(s)
    ensures Undirected(GraphAt(s, threshold))
    ensures forall d :: d in GraphAt(s, threshold) <==> IsDocument(s, d)
    ensures forall u, v :: u in GraphAt(s, threshold) ==>
      (v in GraphAt(s, threshold)[u] <==> SimilarLink(s, threshold, u, v))
  {
    SimilarityGraphIsUndirected(Documents(s), s.edges, threshold);
    forall u, v | u in GraphAt(s, threshold)
      ensures v in GraphAt(s, threshold)[u] <==> SimilarLink(s, threshold, u, v)
    {
      SimilarityGraphLinks(Documents(s), s.edges, threshold, u, v);
    }
    assert forall n :: n in s.nodes <==> n in Elements(s.order);
  }

  /** Reaching in the built graph is being joined by a chain of similarity edges. */
  lemma ReachesIsConnected(s: Net, threshold: real, a: Id, b: Id)
    requires Consistent(s)
    ensures Reaches(GraphAt(s, threshold), a, b) <==> Connected(s, threshold, a, b)
  {
    var g := GraphAt(s, threshold);
    GraphAtLinks(s, threshold);
    if Reaches(g, a, b) {
      var p :| IsPath(g, p, a, b);
      assert SimilarityPath(s, threshold, p, a, b);
    }
    if Connected(s, threshold, a, b) {
      var p :| SimilarityPath(s, threshold, p, a, b);
      assert IsPath(g, p, a, b);
    }
  }

  // ---------------------------------------------------------------- the detector

  method BuildSimilarityGraph(nodes: seq<Id>, edges: seq<Edge>, threshold: real) returns (g: Adjacency)
    ensures g == SimilarityGraph(nodes, edges, threshold)
  {
    g := map d | d in nodes :: [];
    for i := 0 to |edges|
      invariant g == SimilarityGraph(nodes, edges[..i], threshold)
    {
      var e := edges[i];
      assert edges[..i + 1][..i] == edges[..i];
      if e.kind == Similarity && e.weight >= threshold {
        if e.source in g && e.target in g {
          g := Linked(g, e.source, e.target);
        }
      }
    }
    assert edges[..|edges|] == edges;
  }

  method DetectSimilarityNetworks(network: PlagiarismNetwork, minSimilarity: real)
    returns (nets: seq<SimilarityNetwork>)
    requires network.Valid()
    ensures IsReport(network.State(), minSimilarity, nets)
  {
    ghost var s := network.State();
    var docs := Documents(network.State());
    var g := BuildSimilarityGraph(docs, network.edges, minSimilarity);
    GraphAtLinks(s, minSimilarity);
    assert forall x :: x in docs <==> x in Elements(docs);
    var comps := ConnectedComponents(g, docs);
    nets := ListNetworks(g, comps);
    ghost var origin :| Selected(g, comps, nets, origin);
    SelectionIsReport(s, minSimilarity, comps, nets, origin);
  }

  lemma SelectOne(g: Adjacency, comps: seq<seq<Id>>, k: nat, nets: seq<SimilarityNetwork>, origin: seq<nat>)
    requires k < |comps| && |comps[k]| >= 2 && forall u :: u in comps[k] ==> u in g
    requires Selected(g, comps[..k], nets, origin)
    ensures var c := comps[k];
      var net := SimilarityNetwork(c, |c|, Density(g, c), Density(g, c) > 0.5);
      Selected(g, comps[..k + 1], nets + [net], origin + [k])
  {
    assert forall j :: j in origin ==> j in origin + [k];
    assert (origin + [k])[|origin|] == k;
  }

  lemma SkipOne(g: Adjacency, comps: seq<seq<Id>>, k: nat, nets: seq<SimilarityNetwork>, origin: seq<nat>)
    requires k < |comps| && |comps[k]| < 2 && Selected(g, comps[..k], nets, origin)
    ensures Selected(g, comps[..k + 1], nets, origin)
  {
  }

  method ListNetworks(g: Adjacency, comps: seq<seq<Id>>) returns (nets: seq<SimilarityNetwork>)
    requires forall i, u :: 0 <= i < |comps| && u in comps[i] ==> u in g
    ensures ListsLarge(g, comps, nets)
  {
    nets := [];
    ghost var origin: seq<nat> := [];
    for k := 0 to |comps|
      invariant Selected(g, comps[..k], nets, origin)
    {
      var comp := comps[k];
      if |comp| >= 2 {
        var density := Density(g, comp);
        SelectOne(g, comps, k, nets, origin);
        nets := nets + [SimilarityNetwork(comp, |comp|, density, density > 0.5)];
        origin := origin + [k];
      } else {
        SkipOne(g, comps, k, nets, origin);
      }
    }
    assert comps[..|comps|] == comps;
  }

  /** The networks listed are the components of two or more documents, in the order found. */
  ghost predicate ListsLarge(g: Adjacency, comps: seq<seq<Id>>, nets: seq<SimilarityNetwork>) {
    exists origin :: Selected(g, comps, nets, origin)
  }

  /** Each network listed, and the position of the component it comes from. */
  ghost predicate Selected(g: Adjacency, comps: seq<seq<Id>>, nets: seq<SimilarityNetwork>, origin: seq<nat>) {
    && |origin| == |nets|
    && (forall i :: 0 <= i < |nets| ==> origin[i] < |comps| && |comps[origin[i]]| >= 2)
    && (forall i :: 0 <= i < |nets| ==>
          var c := comps[origin[i]];
          (forall u :: u in c ==> u in g) && nets[i] == SimilarityNetwork(c, |c|, Density(g, c), Density(g, c) > 0.5))
    && (forall i, j :: 0 <= i < j < |nets| ==> origin[i] < origin[j])
    && (forall k :: 0 <= k < |comps| && |comps[k]| >= 2 ==> k in origin)
  }

  lemma ComponentIsDescribed(g: Adjacency, link: (Id, Id) -> bool, c: seq<Id>)
    requires Undirected(g) && Records(g, link)
    requires |c| >= 2 && Distinct(c) && GrowsByLinks(g, c) && forall u :: u in c ==> u in g
    ensures DescribedBy(link, SimilarityNetwork(c, |c|, Density(g, c), Density(g, c) > 0.5))
  {
    DensityIsLinkedPairs(g, link, c);
    LinkedPairsBounds(g, link, c, Density(g, c));
    NoLoops(link, c);
  }

  lemma SelectionIsReport(s: Net, threshold: real, comps: seq<seq<Id>>, nets: seq<SimilarityNetwork>, origin: seq<nat>)
    requires Consistent(s)
    requires AreComponents(GraphAt(s, threshold), comps)
    requires forall x :: x in GraphAt(s, threshold) ==> exists i :: 0 <= i < |comps| && x in comps[i]
    requires Selected(GraphAt(s, threshold), comps, nets, origin)
    ensures IsReport(s, threshold, nets)
  {
    var g := GraphAt(s, threshold);
    GraphAtLinks(s, threshold);
    assert Records(g, SimilarLinks(s, threshold));
    forall i | 0 <= i < |nets| ensures Describes(s, threshold, nets[i]) {
      assert comps[origin[i]] in comps;
      ComponentIsDescribed(g, SimilarLinks(s, threshold), comps[origin[i]]);
    }
    forall a, b | a != b ensures Together(nets, a, b) <==> Connected(s, threshold, a, b) {
      ReachesIsConnected(s, threshold, a, b);
      if Together(nets, a, b) {
        var i :| 0 <= i < |nets| && a in nets[i].documents && b in nets[i].documents;
        assert a in comps[origin[i]];
      }
      if Reaches(g, a, b) {
        ReachingIsInside(g, a, b);
        var k :| 0 <= k < |comps| && a in comps[k];
        assert b in comps[k];
        TwoMembers(comps[k], a, b);
        LargeComponentListed(comps, nets, origin, k, a, b);
      }
    }
  }

  lemma ReachingIsInside(g: Adjacency, a: Id, b: Id)
    requires Reaches(g, a, b)
    ensures a in g
  {
    var p :| IsPath(g, p, a, b);
  }

  lemma LargeComponentListed(comps: seq<seq<Id>>, nets: seq<SimilarityNetwork>, origin: seq<nat>, k: nat, a: Id, b: Id)
    requires |origin| == |nets| && k in origin
    requires forall i :: 0 <= i < |nets| ==> origin[i] < |comps| && nets[i].documents == comps[origin[i]]
    requires k < |comps| && a in comps[k] && b in comps[k]
    ensures Together(nets, a, b)
  {
    var i :| 0 <= i < |origin| && origin[i] == k;
    assert nets[i].documents == comps[k];
  }

  lemma TwoMembers(c: seq<Id>, a: Id, b: Id)
    requires a in c && b in c && a != b
    ensures |c| >= 2
  {
  }

  // ---------------------------------------------------------------- thresholds

  lemma ConnectedAtLowerThreshold(s: Net, low: real, high: real, a: Id, b: Id)
    requires low <= high && Connected(s, high, a, b)
    ensures Connected(s, low, a, b)
  {
    var p :| SimilarityPath(s, high, p, a, b);
    forall i | 0 <= i < |p| - 1 ensures SimilarLink(s, low, p[i], p[i + 1]) {
      assert SimilarLink(s, high, p[i], p[i + 1]);
    }
    assert SimilarityPath(s, low, p, a, b);
  }

  ghost predicate InsideOneOf(fine: SimilarityNetwork, coarse: seq<SimilarityNetwork>) {
    exists j :: 0 <= j < |coarse| && forall d :: d in fine.documents ==> d in coarse[j].documents
  }

  /** Raising the threshold only splits: every network reported at the higher one lies inside one of the lower one. */
  lemma RaisingTheThresholdOnlySplits(s: Net, low: real, high: real, coarse: seq<SimilarityNetwork>,
      fine: seq<SimilarityNetwork>)
    requires low <= high && IsReport(s, low, coarse) && IsReport(s, high, fine)
    ensures forall i :: 0 <= i < |fine| ==> InsideOneOf(fine[i], coarse)
  {
    forall i | 0 <= i < |fine| ensures InsideOneOf(fine[i], coarse) {
      var ds := fine[i].documents;
      assert Describes(s, high, fine[i]);
      assert Together(fine, ds[0], ds[1]);
      var j := SharedNetwork(s, low, high, coarse, ds[0], ds[1]);
      forall d | d in ds ensures d in coarse[j].documents {
        if d != ds[0] {
          assert Together(fine, ds[0], d);
          var j' := SharedNetwork(s, low, high, coarse, ds[0], d);
        }
      }
    }
  }

  lemma SharedNetwork(s: Net, low: real, high: real, coarse: seq<SimilarityNetwork>, a: Id, b: Id) returns (j: nat)
    requires low <= high && IsReport(s, low, coarse)
    requires Connected(s, high, a, b) && a != b
    ensures j < |coarse| && a in coarse[j].documents && b in coarse[j].documents
  {
    ConnectedAtLowerThreshold(s, low, high, a, b);
    j :| 0 <= j < |coarse| && a in coarse[j].documents && b in coarse[j].documents;
  }
}
