/** Whole runs of calls on a network: automatic identifiers, and what refused attributes and self-links lead to. */
module NetworkRuns {
  import opened Sequences
  import opened EntityIds
  import opened Network
  import opened PlagiarismNetworks
  import opened UndirectedGraphs
  import opened SimilarityNetworks

  /** A call of `add_node` without or with an identifier, or of `add_edge`; calls that raise are part of a run too. */
  datatype Call = Auto(node: Node) | Named(id: Id, node: Node) | Link(edge: Edge)

  function Apply(s: Net, call: Call): (Net, Outcome) {
    match call
    case Auto(node) => AddNodeTo(s, node, None)
    case Named(id, node) => AddNodeTo(s, node, Some(id))
    case Link(edge) => AddEdgeTo(s, edge)
  }

  function After(s: Net, calls: seq<Call>): Net {
    if calls == [] then s else Apply(After(s, calls[..|calls| - 1]), calls[|calls| - 1]).0
  }

  lemma {:induction false} EveryRunIsConsistent(s: Net, calls: seq<Call>)
    requires Consistent(s)
    ensures Consistent(After(s, calls))
  {
    if calls != [] {
      EveryRunIsConsistent(s, calls[..|calls| - 1]);
      CallKeepsConsistent(After(s, calls[..|calls| - 1]), calls[|calls| - 1]);
    }
  }

  lemma CallKeepsConsistent(s: Net, call: Call)
    requires Consistent(s)
    ensures Consistent(Apply(s, call).0)
  {
    match call
    case Auto(node) => AddNodeKeepsConsistent(s, node, None);
    case Named(id, node) => AddNodeKeepsConsistent(s, node, Some(id));
    case Link(edge) => AddEdgeKeepsConsistent(s, edge);
  }

  /** What a call does to the node table and the edge list. */
  lemma CallStores(s: Net, call: Call)
    ensures match call
      case Auto(node) => Apply(s, call).0.nodes == s.nodes[NodeId(s.nodeCounter) := node]
        && Apply(s, call).0.edges == s.edges
      case Named(id, node) => Apply(s, call).0.nodes == s.nodes[id := node] && Apply(s, call).0.edges == s.edges
      case Link(e) =>
        && Apply(s, call).0.nodes == s.nodes
        && Apply(s, call).0.edges == if e.source in s.nodes && e.target in s.nodes then s.edges + [e] else s.edges
  {
  }

  /** What a call answers: the identifier under which the table or the list now ends up holding what was added, a
      missing end, or the name clash. */
  lemma CallAnswers(s: Net, call: Call)
    ensures match call
      case Auto(node) => Apply(s, call).1 == if Clean(node) then Added(NodeId(s.nodeCounter)) else AttributeClash
      case Named(id, node) => Apply(s, call).1 == if Clean(node) then Added(id) else AttributeClash
      case Link(e) =>
        Apply(s, call).1 ==
          if e.source !in s.nodes || e.target !in s.nodes then NodeNotFound
          else if Storable(e) then Added(EdgeId(s.edgeCounter))
          else AttributeClash
  {
  }

  // ---------------------------------------------------------------- automatic identifiers

  /** Two nodes are never numbered alike. */
  lemma NodeIdInjective(a: nat, b: nat)
    requires NodeId(a) == NodeId(b)
    ensures a == b
  {
    assert NodeId(a)[5..] == PadToSix(Decimal(a));
    assert NodeId(b)[5..] == PadToSix(Decimal(b));
    PaddedInjective(a, b);
  }

  /** How many of the calls number a node. */
  function Autos(calls: seq<Call>): nat {
    if calls == [] then 0 else Autos(calls[..|calls| - 1]) + if calls[|calls| - 1].Auto? then 1 else 0
  }

  lemma {:induction false} AutosGrow(calls: seq<Call>, j: nat, i: nat)
    requires j < i <= |calls|
    ensures Autos(calls[..j]) <= Autos(calls[..i])
    ensures calls[j].Auto? ==> Autos(calls[..j]) < Autos(calls[..i])
    decreases i
  {
    assert calls[..i][..i - 1] == calls[..i - 1];
    if j < i - 1 { AutosGrow(calls, j, i - 1); }
  }

  lemma {:induction false} CounterCountsAutos(s: Net, calls: seq<Call>)
    ensures After(s, calls).nodeCounter == s.nodeCounter + Autos(calls)
  {
    if calls != [] { CounterCountsAutos(s, calls[..|calls| - 1]); }
  }

  ghost predicate NamedBefore(calls: seq<Call>, i: nat, id: Id)
    requires i <= |calls|
  {
    exists j :: 0 <= j < i && calls[j].Named? && calls[j].id == id
  }

  ghost predicate NumberedBefore(s: Net, calls: seq<Call>, i: nat, id: Id)
    requires i <= |calls|
  {
    exists j :: 0 <= j < i && calls[j].Auto? && id == NodeId(s.nodeCounter + Autos(calls[..j]))
  }

  /** A node is in the table because it was there at first, was added under its name, or was numbered so. */
  lemma {:induction false} NodesComeFrom(s: Net, calls: seq<Call>, i: nat, id: Id)
    requires i <= |calls|
    ensures id in After(s, calls[..i]).nodes <==>
      id in s.nodes || NamedBefore(calls, i, id) || NumberedBefore(s, calls, i, id)
    decreases i
  {
    if i > 0 {
      NodesComeFrom(s, calls, i - 1, id);
      assert calls[..i][..i - 1] == calls[..i - 1];
      CounterCountsAutos(s, calls[..i - 1]);
      OneCallMore(s, calls, i, id);
    }
  }

  lemma OneCallMore(s: Net, calls: seq<Call>, i: nat, id: Id)
    requires 0 < i <= |calls|
    ensures NamedBefore(calls, i, id) <==>
      NamedBefore(calls, i - 1, id) || (calls[i - 1].Named? && calls[i - 1].id == id)
    ensures NumberedBefore(s, calls, i, id) <==>
      NumberedBefore(s, calls, i - 1, id) || (calls[i - 1].Auto? && id == NodeId(s.nodeCounter + Autos(calls[..i - 1])))
  {
  }

  /** The i-th call numbers a node and adds no entry to the node table: a node that was there is lost. */
  ghost predicate Overwrites(s: Net, calls: seq<Call>, i: nat)
    requires i < |calls|
  {
    calls[i].Auto? && After(s, calls[..i + 1]).nodes.Keys == After(s, calls[..i]).nodes.Keys
  }

  lemma OverwritesWhenTaken(s: Net, calls: seq<Call>, i: nat)
    requires i < |calls| && calls[i].Auto?
    ensures Overwrites(s, calls, i) <==> NodeId(s.nodeCounter + Autos(calls[..i])) in After(s, calls[..i]).nodes
  {
    AfterStep(s, calls, i);
    CounterCountsAutos(s, calls[..i]);
    CallStores(After(s, calls[..i]), calls[i]);
    KeysAfterUpdate(After(s, calls[..i]).nodes, NodeId(s.nodeCounter + Autos(calls[..i])), calls[i].node);
  }

  lemma AfterStep(s: Net, calls: seq<Call>, i: nat)
    requires i < |calls|
    ensures After(s, calls[..i + 1]) == Apply(After(s, calls[..i]), calls[i]).0
  {
    assert calls[..i + 1][..i] == calls[..i];
  }

  lemma KeysAfterUpdate(nodes: map<Id, Node>, id: Id, node: Node)
    ensures nodes[id := node].Keys == nodes.Keys <==> id in nodes
  {
    assert nodes[id := node].Keys == nodes.Keys + {id};
  }

  lemma NumbersAreNew(s: Net, calls: seq<Call>, i: nat)
    requires i <= |calls|
    ensures !NumberedBefore(s, calls, i, NodeId(s.nodeCounter + Autos(calls[..i])))
  {
    forall j | 0 <= j < i && calls[j].Auto?
      ensures NodeId(s.nodeCounter + Autos(calls[..i])) != NodeId(s.nodeCounter + Autos(calls[..j]))
    {
      AutosGrow(calls, j, i);
      if NodeId(s.nodeCounter + Autos(calls[..i])) == NodeId(s.nodeCounter + Autos(calls[..j])) {
        NodeIdInjective(s.nodeCounter + Autos(calls[..i]), s.nodeCounter + Autos(calls[..j]));
      }
    }
  }

  /** In any run an automatic node overwrites another exactly when the number drawn for it belongs to a node the network
      started with, or was given by a caller before. Numbers drawn earlier never come again. */
  lemma AutomaticIdOverwritesIff(s: Net, calls: seq<Call>, i: nat)
    requires i < |calls| && calls[i].Auto?
    ensures var id := NodeId(s.nodeCounter + Autos(calls[..i]));
      Overwrites(s, calls, i) <==> id in s.nodes || NamedBefore(calls, i, id)
  {
    OverwritesWhenTaken(s, calls, i);
    NodesComeFrom(s, calls, i, NodeId(s.nodeCounter + Autos(calls[..i])));
    NumbersAreNew(s, calls, i);
  }

  /** Callers stay clear of numbers that are still to be drawn. */
  ghost predicate ClearOfNumbers(calls: seq<Call>) {
    forall j, k :: 0 <= j < |calls| && calls[j].Named? && k >= Autos(calls[..j]) ==> calls[j].id != NodeId(k)
  }

  /** From an empty network nothing is ever overwritten by a numbered node as long as callers stay clear. */
  lemma ClearCallersLoseNothing(calls: seq<Call>, i: nat)
    requires i < |calls| && ClearOfNumbers(calls)
    ensures !Overwrites(EMPTY_NET, calls, i)
  {
    if calls[i].Auto? {
      AutomaticIdOverwritesIff(EMPTY_NET, calls, i);
      var id := NodeId(Autos(calls[..i]));
      if j :| 0 <= j < i && calls[j].Named? && calls[j].id == id {
        AutosGrow(calls, j, i);
        assert false;
      }
    }
  }

  /** After an extraction numbering starts again: the m-th numbered node overwrites exactly when its number was among
      the extracted nodes or was given before. */
  lemma ExtractionRestartsNumbers(s: Net, ids: seq<Id>, calls: seq<Call>, i: nat)
    requires i < |calls| && calls[i].Auto?
    ensures var id := NodeId(Autos(calls[..i]));
      Overwrites(Induced(s, ids), calls, i) <==> (id in ids && id in s.nodes) || NamedBefore(calls, i, id)
  {
    AutomaticIdOverwritesIff(Induced(s, ids), calls, i);
  }

  /** The first node of a network, extracted, is lost to the first node added to the extraction. */
  lemma ExtractedNodeIsLost(first: Node, second: Node)
    ensures var s := After(EMPTY_NET, [Auto(first)]);
      Overwrites(Induced(s, [NodeId(0)]), [Auto(second)], 0)
  {
    var s := After(EMPTY_NET, [Auto(first)]);
    assert [Auto(first)][..0] == [] && [Auto(second)][..0] == [];
    assert After(EMPTY_NET, []) == EMPTY_NET && s == Apply(EMPTY_NET, Auto(first)).0;
    CallStores(EMPTY_NET, Auto(first));
    assert NodeId(0) in s.nodes;
    assert NodeId(0) in [NodeId(0)];
    ExtractionRestartsNumbers(s, [NodeId(0)], [Auto(second)], 0);
  }

  // ---------------------------------------------------------------- refused attributes

  const DOC := Node(Document, map[], map[])

  /** Two documents and an edge between them. */
  function LinkRun(a: Id, b: Id, e: Edge): seq<Call> {
    [Named(a, DOC), Named(b, DOC), Link(e)]
  }

  lemma {:induction false} AfterOneMore(s: Net, calls: seq<Call>, call: Call)
    ensures After(s, calls + [call]) == Apply(After(s, calls), call).0
  {
    assert (calls + [call])[..|calls|] == calls;
  }

  lemma LinkRunState(a: Id, b: Id, e: Edge)
    requires e.source in {a, b} && e.target in {a, b}
    ensures var s := After(EMPTY_NET, LinkRun(a, b, e));
      Consistent(s) && s.nodes == map[a := DOC, b := DOC] && s.edges == [e]
    ensures After(EMPTY_NET, LinkRun(a, b, e)[..2]).nodes == map[a := DOC, b := DOC]
  {
    var one, two := [Named(a, DOC)], [Named(a, DOC), Named(b, DOC)];
    assert one == [] + one && two == one + [Named(b, DOC)] && LinkRun(a, b, e) == two + [Link(e)]
      && LinkRun(a, b, e)[..2] == two;
    AfterOneMore(EMPTY_NET, [], Named(a, DOC));
    AfterOneMore(EMPTY_NET, one, Named(b, DOC));
    AfterOneMore(EMPTY_NET, two, Link(e));
    CallStores(EMPTY_NET, Named(a, DOC));
    CallStores(After(EMPTY_NET, one), Named(b, DOC));
    CallStores(After(EMPTY_NET, two), Link(e));
    EmptyIsConsistent();
    EveryRunIsConsistent(EMPTY_NET, LinkRun(a, b, e));
  }

  /** A refused edge stays in the list but not in the multigraph: the degree total misses it, and every extraction of
      its two ends fails. */
  lemma RefusedEdgeIsHalfStored(a: Id, b: Id, weight: real, name: string, note: Value)
    requires name in ["self", "u_for_edge", "v_for_edge", "key", "type", "weight"]
    ensures var refused := Edge(a, b, Similarity, weight, map[name := note]);
      var calls := LinkRun(a, b, refused);
      var s := After(EMPTY_NET, calls);
      && Apply(After(EMPTY_NET, calls[..2]), calls[2]).1 == AttributeClash
      && s.edges == [refused] && DegreeSum(s.graph, s.order) == 0 && !Extractable(s, [a, b])
  {
    var refused := Edge(a, b, Similarity, weight, map[name := note]);
    assert name in refused.attributes.Keys && !Storable(refused);
    LinkRunState(a, b, refused);
    OneRefusedEdge(After(EMPTY_NET, LinkRun(a, b, refused)), refused);
  }

  lemma OneRefusedEdge(s: Net, e: Edge)
    requires Consistent(s) && s.edges == [e] && !Storable(e)
    ensures DegreeSum(s.graph, s.order) == 0 && !Extractable(s, [e.source, e.target])
  {
    Handshake(s);
    assert [e][..0] == [];
    assert StoredCount([e]) == 0;
    assert e in s.edges && Within([e.source, e.target])(e);
  }

  lemma EmptyIsConsistent()
    ensures Consistent(EMPTY_NET)
  {
  }

  /** A node with such an attribute is in the table but not in the multigraph, and cannot be extracted. */
  lemma RefusedNodeIsHalfStored(id: Id, kind: NodeType, name: string, note: Value)
    requires name in ["self", "node_for_adding", "type"]
    ensures var (s, r) := Apply(EMPTY_NET, Named(id, Node(kind, map[name := note], map[])));
      r == AttributeClash && id in s.nodes && id !in s.graph.succ && !Extractable(s, [id])
  {
    var (s, r) := Apply(EMPTY_NET, Named(id, Node(kind, map[name := note], map[])));
    assert name in s.nodes[id].attributes.Keys && !Clean(s.nodes[id]);
    assert id in [id];
  }

  /** No other name is refused. */
  lemma OtherNamesAreStored(e: Edge, n: Node)
    ensures (forall k :: k in ["self", "u_for_edge", "v_for_edge", "key", "type", "weight"] ==> k !in e.attributes) ==>
      Storable(e)
    ensures (forall k :: k in ["self", "node_for_adding", "type"] ==> k !in n.attributes) ==> Clean(n)
  {
    forall k | k in RESERVED_EDGE_NAMES ensures k in ["self", "u_for_edge", "v_for_edge", "key", "type", "weight"] {}
    forall k | k in RESERVED_NODE_NAMES ensures k in ["self", "node_for_adding", "type"] {}
  }

  // ---------------------------------------------------------------- self-links

  function SelfLinkRun(a: Id, b: Id, weight: real): seq<Call> {
    LinkRun(a, b, Edge(a, b, Similarity, weight, map[])) + [Link(Edge(a, a, Similarity, weight, map[]))]
  }

  ghost predicate SelfLinked(s: Net, a: Id, b: Id, weight: real) {
    && s.nodes == map[a := DOC, b := DOC]
    && s.edges == [Edge(a, b, Similarity, weight, map[]), Edge(a, a, Similarity, weight, map[])]
  }

  lemma SelfLinkState(a: Id, b: Id, weight: real)
    ensures Consistent(After(EMPTY_NET, SelfLinkRun(a, b, weight)))
      && SelfLinked(After(EMPTY_NET, SelfLinkRun(a, b, weight)), a, b, weight)
  {
    var e, loop := Edge(a, b, Similarity, weight, map[]), Edge(a, a, Similarity, weight, map[]);
    LinkRunState(a, b, e);
    AfterOneMore(EMPTY_NET, LinkRun(a, b, e), Link(loop));
    OneMoreLink(After(EMPTY_NET, LinkRun(a, b, e)), e, loop);
  }

  lemma OneMoreLink(s: Net, e: Edge, f: Edge)
    requires Consistent(s) && s.edges == [e] && f.source in s.nodes && f.target in s.nodes
    ensures Consistent(Apply(s, Link(f)).0)
    ensures Apply(s, Link(f)).0.nodes == s.nodes && Apply(s, Link(f)).0.edges == [e, f]
  {
    CallKeepsConsistent(s, Link(f));
    CallStores(s, Link(f));
  }

  /** Two documents, one link between them and a self-link: whatever the order found, their network has density 2. */
  lemma SelfLinkInflatesDensity(a: Id, b: Id, weight: real, threshold: real, nets: seq<SimilarityNetwork>)
    requires a != b && weight >= threshold
    requires IsReport(After(EMPTY_NET, SelfLinkRun(a, b, weight)), threshold, nets)
    ensures exists i :: 0 <= i < |nets| && Elements(nets[i].documents) == {a, b} && nets[i].density == 2.0
  {
    SelfLinkState(a, b, weight);
    DenseReport(After(EMPTY_NET, SelfLinkRun(a, b, weight)), a, b, weight, threshold, nets);
  }

  lemma DenseReport(s: Net, a: Id, b: Id, weight: real, threshold: real, nets: seq<SimilarityNetwork>)
    requires a != b && weight >= threshold && SelfLinked(s, a, b, weight) && IsReport(s, threshold, nets)
    ensures exists i :: 0 <= i < |nets| && Elements(nets[i].documents) == {a, b} && nets[i].density == 2.0
  {
    var i := TheirNetwork(s, a, b, weight, threshold, nets);
    SelfLinkLinks(s, a, b, weight, threshold);
    TwoDocumentsLinked(SimilarLinks(s, threshold), nets[i].documents, a, b);
    DensityAsDescribed(s, threshold, nets, i);
    LinkedPairsCount(SimilarLinks(s, threshold), nets[i].documents);
  }

  lemma DensityAsDescribed(s: Net, threshold: real, nets: seq<SimilarityNetwork>, i: nat)
    requires IsReport(s, threshold, nets) && i < |nets|
    ensures Distinct(nets[i].documents) && nets[i].size == |nets[i].documents|
    ensures IsDensity(SimilarLinks(s, threshold), nets[i].documents, nets[i].density)
  {
    assert Describes(s, threshold, nets[i]);
  }

  lemma TheirNetwork(s: Net, a: Id, b: Id, weight: real, threshold: real, nets: seq<SimilarityNetwork>) returns (i: nat)
    requires a != b && weight >= threshold && SelfLinked(s, a, b, weight) && IsReport(s, threshold, nets)
    ensures i < |nets| && Elements(nets[i].documents) == {a, b} && Distinct(nets[i].documents)
  {
    SelfLinkLinks(s, a, b, weight, threshold);
    assert SimilarityPath(s, threshold, [a, b], a, b);
    assert Together(nets, a, b);
    i :| 0 <= i < |nets| && a in nets[i].documents && b in nets[i].documents;
    DensityAsDescribed(s, threshold, nets, i);
    forall d | d in nets[i].documents ensures d in {a, b} {
      if d != a {
        assert Together(nets, a, d);
        ConnectedAreDocuments(s, threshold, a, d);
      }
    }
    assert Elements(nets[i].documents) == {a, b};
  }

  lemma ConnectedAreDocuments(s: Net, threshold: real, a: Id, d: Id)
    requires Connected(s, threshold, a, d)
    ensures IsDocument(s, d)
  {
    var p :| SimilarityPath(s, threshold, p, a, d);
    assert IsDocument(s, p[|p| - 1]);
  }

  lemma TwoDocumentsLinked(link: (Id, Id) -> bool, docs: seq<Id>, a: Id, b: Id)
    requires a != b && Distinct(docs) && Elements(docs) == {a, b}
    requires link(a, b) && link(b, a) && link(a, a) && !link(b, b)
    ensures |docs| == 2 && LinkedPairs(link, docs) == 2
  {
    DistinctSize(docs);
    assert a in docs && b in docs by { assert a in Elements(docs) && b in Elements(docs); }
    TwoDocuments(link, docs, a, b);
  }

  lemma SelfLinkLinks(s: Net, a: Id, b: Id, weight: real, threshold: real)
    requires a != b && weight >= threshold && SelfLinked(s, a, b, weight)
    ensures SimilarLink(s, threshold, a, b) && SimilarLink(s, threshold, b, a) && SimilarLink(s, threshold, a, a)
    ensures !SimilarLink(s, threshold, b, b)
  {
    assert s.edges[0] in s.edges && s.edges[1] in s.edges;
    assert Joins(s.edges[0], a, b) && Joins(s.edges[0], b, a) && Joins(s.edges[1], a, a);
    assert IsSimilar(s.edges[0], threshold) && IsSimilar(s.edges[1], threshold);
  }

  lemma TwoDocuments(link: (Id, Id) -> bool, docs: seq<Id>, a: Id, b: Id)
    requires a != b && Distinct(docs) && |docs| == 2 && a in docs && b in docs
    requires link(a, b) && link(b, a) && link(a, a) && !link(b, b)
    ensures LinkedPairs(link, docs) == 2
  {
    assert docs == [docs[0], docs[1]];
    assert docs[..1] == [docs[0]] && [docs[0]][..0] == [];
    assert LinksTo(link, [docs[0]], docs[0]) == if link(docs[0], docs[0]) then 1 else 0;
    assert LinksTo(link, [docs[0]], docs[1]) == if link(docs[0], docs[1]) then 1 else 0;
    assert LinksTo(link, docs, docs[1]) == LinksTo(link, [docs[0]], docs[1]) + if link(docs[1], docs[1]) then 1 else 0;
    assert LinkedPairs(link, [docs[0]]) == LinksTo(link, [docs[0]], docs[0]);
  }
}
