/** The network object and the extraction of induced subnetworks. */
module PlagiarismNetworks {
  import opened Sequences
  import opened EntityIds
  import opened Network

  // ---------------------------------------------------------------- induced subnetworks

  function KnownIn(s: Net): Id -> bool {
    (n: Id) => n in s.nodes
  }

  function Within(ids: seq<Id>): Edge -> bool {
    (e: Edge) => e.source in ids && e.target in ids
  }

  /** The requested identifiers that are known, each once, in the order requested. */
  function KeptIds(s: Net, ids: seq<Id>): seq<Id> {
    FirstOccurrences(Filter(ids, KnownIn(s)))
  }

  /** A network on some of the nodes of s with the given edges, counters as in a fresh network. */
  ghost function Extract(s: Net, kept: seq<Id>, inside: seq<Edge>): Net {
    Net(map n | n in kept && n in s.nodes :: s.nodes[n], kept, inside, GraphOf(Elements(kept), inside), 0, |inside|)
  }

  /** The induced part of s: requested nodes in the order requested, edges in their old order under new keys. */
  ghost function Induced(s: Net, ids: seq<Id>): Net {
    Extract(s, KeptIds(s, ids), Filter(s.edges, Within(ids)))
  }

  /** Everything the extraction would insert carries attributes the multigraph calls accept. */
  predicate Extractable(s: Net, ids: seq<Id>) {
    && (forall n :: n in ids && n in s.nodes ==> Clean(s.nodes[n]))
    && (forall e :: e in s.edges && Within(ids)(e) ==> Storable(e))
  }

  lemma KeptIdsStep(s: Net, before: seq<Id>, id: Id)
    ensures KeptIds(s, before + [id]) == if id in s.nodes then Inserted(KeptIds(s, before), id) else KeptIds(s, before)
  {
  }

  lemma ExtractOneMoreNode(s: Net, kept: seq<Id>, id: Id)
    requires id in s.nodes
    requires forall n :: n in kept ==> n in s.nodes
    ensures var (t, r) := AddNodeTo(Extract(s, kept, []), s.nodes[id], Some(id));
      if Clean(s.nodes[id]) then t == Extract(s, Inserted(kept, id), []) && r == Added(id) else r == AttributeClash
  {
    InsertedElements(kept, id);
    KeptNodes(s.nodes, kept, id);
    WithNodeAddsIsolated(Elements(kept), [], id);
  }

  lemma InsertedElements(ids: seq<Id>, id: Id)
    ensures Elements(Inserted(ids, id)) == Elements(ids) + {id}
  {
  }

  lemma KeptNodes(nodes: map<Id, Node>, kept: seq<Id>, id: Id)
    requires id in nodes
    ensures (map n | n in Inserted(kept, id) && n in nodes :: nodes[n])
         == (map n | n in kept && n in nodes :: nodes[n])[id := nodes[id]]
  {
  }

  lemma ExtractOneMoreEdge(s: Net, kept: seq<Id>, inside: seq<Edge>, e: Edge)
    requires e.source in kept && e.target in kept
    requires forall n :: n in kept ==> n in s.nodes
    ensures var (t, r) := AddEdgeTo(Extract(s, kept, inside), e);
      if Storable(e) then t == Extract(s, kept, inside + [e]) && r == Added(EdgeId(|inside|)) else r == AttributeClash
  {
    if Storable(e) { EdgeBetweenKnownNodes(Elements(kept), inside, e); }
  }

  /** What is extracted is exactly the induced part: a node is there iff it was requested and known, unchanged;
      an edge is there iff both its ends were requested, as often as before. */
  lemma InducedIsExact(s: Net, ids: seq<Id>)
    requires Consistent(s)
    ensures var sub := Induced(s, ids);
      && (forall n :: n in sub.nodes <==> n in ids && n in s.nodes)
      && (forall n :: n in sub.nodes ==> sub.nodes[n] == s.nodes[n])
      && (forall e :: multiset(sub.edges)[e] == if e.source in ids && e.target in ids then multiset(s.edges)[e] else 0)
  {
    forall e
      ensures multiset(Induced(s, ids).edges)[e]
        == if e.source in ids && e.target in ids then multiset(s.edges)[e] else 0
    {
      FilterCounts(s.edges, Within(ids), e);
    }
  }

  /** An extraction that does not fail is again a consistent network. */
  lemma ExtractionIsConsistent(s: Net, ids: seq<Id>)
    requires Consistent(s)
    ensures Extractable(s, ids) ==> Consistent(Induced(s, ids))
  {
    var sub := Induced(s, ids);
    assert sub.graph.succ.Keys == Elements(sub.order);
  }

  /** Extracting T from what was extracted for S is extracting the common identifiers at once. */
  lemma SubgraphOfSubgraph(s: Net, first: seq<Id>, second: seq<Id>)
    requires Consistent(s)
    ensures Induced(Induced(s, first), second) == Induced(s, Filter(second, n => n in first))
  {
    var sub, common := Induced(s, first), Filter(second, n => n in first);
    InducedIsExact(s, first);
    FilterTwice(second, n => n in first, KnownIn(s), KnownIn(sub));
    FilterTwice(s.edges, Within(first), Within(second), Within(common));
    assert KeptIds(sub, second) == KeptIds(s, common);
    assert Induced(sub, second).nodes == Induced(s, common).nodes;
  }

  // ---------------------------------------------------------------- the object

  predicate HasKind(link: map<string, EdgeData>, kind: EdgeType) {
    exists key :: key in link && link[key].kind == kind
  }

  function LinkedBy(links: LinkTable, n: Id, kind: EdgeType): Id -> bool {
    v => HasKind(LinkIn(links, n, v), kind)
  }

  /** The neighbours as the edge list alone gives them. */
  function NeighborsByList(es: seq<Edge>, n: Id, kind: Option<EdgeType>): seq<Id> {
    if kind.None? then Targets(es, n) else Filter(Targets(es, n), LinkedBy(Links(es), n, kind.value))
  }

  lemma NeighborsAreEdgeTargets(es: seq<Edge>, n: Id, kind: Option<EdgeType>)
    ensures Distinct(NeighborsByList(es, n, kind))
    ensures forall v :: v in NeighborsByList(es, n, kind) <==> EdgeTo(es, n, v, kind)
  {
    TargetsAre(es, n, n);
    if kind.Some? {
      FilterDistinct(Targets(es, n), LinkedBy(Links(es), n, kind.value));
    }
    forall v ensures v in NeighborsByList(es, n, kind) <==> EdgeTo(es, n, v, kind) {
      TargetsAre(es, n, v);
      PairsAreNeighbours(es, n, v);
      if kind.Some? && v in Targets(es, n) {
        TypedLinkIsTypedEdge(es, n, v, kind.value);
      }
    }
  }

  /** Every call, whatever it returns, leads from a consistent state to a consistent state. */
  lemma KeepsConsistent(s: Net)
    ensures Consistent(s) ==> forall node, nodeId :: Consistent(AddNodeTo(s, node, nodeId).0)
    ensures Consistent(s) ==> forall e :: Consistent(AddEdgeTo(s, e).0)
  {
    if Consistent(s) {
      forall node, nodeId ensures Consistent(AddNodeTo(s, node, nodeId).0) {
        AddNodeKeepsConsistent(s, node, nodeId);
      }
      forall e ensures Consistent(AddEdgeTo(s, e).0) {
        AddEdgeKeepsConsistent(s, e);
      }
    }
  }

  class PlagiarismNetwork {
    var nodes: map<Id, Node>
    var order: seq<Id>
    var edges: seq<Edge>
    var graph: MultiDiGraph
    var nodeCounter: nat
    var edgeCounter: nat

    function State(): Net
      reads this
    {
      Net(nodes, order, edges, graph, nodeCounter, edgeCounter)
    }

    ghost predicate Valid()
      reads this
    {
      Consistent(State())
    }

    constructor ()
      ensures Valid() && State() == EMPTY_NET
    {
      nodes, order, edges, graph, nodeCounter, edgeCounter := map[], [], [], EMPTY_GRAPH, 0, 0;
    }

    /** Adds or replaces a node; the node table keeps it even when the multigraph refuses its attributes. */
    method AddNode(kind: NodeType, attributes: Attributes, metadata: Attributes, nodeId: Option<Id>)
      returns (r: Outcome)
      modifies this
      ensures (State(), r) == AddNodeTo(old(State()), Node(kind, attributes, metadata), nodeId)
      ensures old(Valid()) ==> Valid()
    {
      ghost var before := State();
      KeepsConsistent(before);
      var id;
      if nodeId.None? {
        id := NodeId(nodeCounter);
        nodeCounter := nodeCounter + 1;
      } else {
        id := nodeId.value;
      }
      var node := Node(kind, attributes, metadata);
      nodes := nodes[id := node];
      order := Inserted(order, id);
      if Clean(node) {
        graph := graph.WithNode(id);
        r := Added(id);
      } else {
        r := AttributeClash;
      }
    }

    /** Appends an edge between known nodes; the list keeps it even when the multigraph refuses its attributes. */
    method AddEdge(source: Id, target: Id, kind: EdgeType, weight: real, attributes: Attributes) returns (r: Outcome)
      modifies this
      ensures (State(), r) == AddEdgeTo(old(State()), Edge(source, target, kind, weight, attributes))
      ensures old(Valid()) ==> Valid()
    {
      ghost var before := State();
      KeepsConsistent(before);
      var edge := Edge(source, target, kind, weight, attributes);
      if source !in nodes || target !in nodes {
        return NodeNotFound;
      }
      var edgeId := EdgeId(edgeCounter);
      edgeCounter := edgeCounter + 1;
      edges := edges + [edge];
      if Storable(edge) {
        graph := graph.WithEdge(source, target, edgeId, EdgeData(kind, weight, attributes));
        r := Added(edgeId);
      } else {
        r := AttributeClash;
      }
    }

    /** The distinct targets of the edges that leave a node, or of those of one type, in order of first appearance. */
    method GetNeighbors(nodeId: Id, kind: Option<EdgeType>) returns (r: seq<Id>)
      requires Valid()
      ensures r == NeighborsByList(edges, nodeId, kind)
    {
      if nodeId !in graph.succ {
        NoTrafficOutside(graph.succ.Keys, edges, nodeId);
        r := [];
      } else if kind.None? {
        r := graph.succ[nodeId];
      } else {
        r := TypedNeighbors(graph.links, nodeId, graph.succ[nodeId], kind.value);
      }
    }

    static method TypedNeighbors(links: LinkTable, nodeId: Id, all: seq<Id>, kind: EdgeType) returns (r: seq<Id>)
      ensures r == Filter(all, LinkedBy(links, nodeId, kind))
    {
      r := [];
      for i := 0 to |all|
        invariant r == Filter(all[..i], LinkedBy(links, nodeId, kind))
      {
        assert all[..i + 1][..i] == all[..i];
        if HasKind(LinkIn(links, nodeId, all[i]), kind) {
          r := r + [all[i]];
        }
      }
      assert all[..|all|] == all;
    }

    /** The reported average degree is 2E/V over the edges of the list, unless an edge was refused by the multigraph. */
    method AverageDegree() returns (avg: real)
      requires Valid()
      ensures nodes == map[] ==> avg == 0.0
      ensures nodes != map[] ==> avg == (2 * StoredCount(edges)) as real / |nodes| as real
      ensures nodes != map[] ==>
        (avg == (2 * |edges|) as real / |nodes| as real <==> forall e :: e in edges ==> Storable(e))
    {
      if nodes == map[] {
        return 0.0;
      }
      var total := 0;
      for i := 0 to |order|
        invariant total == DegreeSum(graph, order[..i])
      {
        assert order[..i + 1][..i] == order[..i];
        total := total + graph.Degree(order[i]);
      }
      assert order[..|order|] == order;
      Handshake(State());
      DistinctSize(order);
      assert |nodes| == |nodes.Keys| > 0;
      SameQuotient(total, 2 * |edges|, |nodes|);
      return total as real / |nodes| as real;
    }

    /** The subnetwork on the requested identifiers. It fails exactly when the node table or the edge list holds,
        among the requested part, attributes the multigraph calls refuse. */
    method GetSubgraph(ids: seq<Id>) returns (sub: Option<PlagiarismNetwork>)
      requires Valid()
      ensures sub.Some? <==> Extractable(State(), ids)
      ensures sub.Some? ==> fresh(sub.value) && sub.value.Valid() && sub.value.State() == Induced(State(), ids)
    {
      ExtractionIsConsistent(State(), ids);
      var result := new PlagiarismNetwork();
      var ok := CopyNodes(ids, result);
      if ok {
        ok := CopyEdges(ids, result);
      }
      return if ok then Some(result) else None;
    }

    method CopyNodes(ids: seq<Id>, result: PlagiarismNetwork) returns (ok: bool)
      requires result != this && result.State() == EMPTY_NET
      modifies result
      ensures ok <==> forall n :: n in ids && n in nodes ==> Clean(nodes[n])
      ensures ok ==> result.State() == Extract(State(), KeptIds(State(), ids), [])
    {
      ghost var s := State();
      assert KeptIds(s, ids[..0]) == [];
      assert result.State() == Extract(s, [], []);
      for i := 0 to |ids|
        invariant State() == s
        invariant result.State() == Extract(s, KeptIds(s, ids[..i]), [])
        invariant forall n :: n in ids[..i] && n in nodes ==> Clean(nodes[n])
      {
        assert ids[..i + 1] == ids[..i] + [ids[i]];
        KeptIdsStep(s, ids[..i], ids[i]);
        if ids[i] in nodes {
          var node := nodes[ids[i]];
          ExtractOneMoreNode(s, KeptIds(s, ids[..i]), ids[i]);
          var r := result.AddNode(node.kind, node.attributes, node.metadata, Some(ids[i]));
          if r == AttributeClash {
            return false;
          }
        }
      }
      assert ids[..|ids|] == ids;
      return true;
    }

    method CopyEdges(ids: seq<Id>, result: PlagiarismNetwork) returns (ok: bool)
      requires forall e :: e in edges ==> e.source in nodes && e.target in nodes
      requires result != this && result.State() == Extract(State(), KeptIds(State(), ids), [])
      modifies result
      ensures ok <==> forall e :: e in edges && Within(ids)(e) ==> Storable(e)
      ensures ok ==> result.State() == Induced(State(), ids)
    {
      ghost var s, kept := State(), KeptIds(State(), ids);
      assert Filter(edges[..0], Within(ids)) == [];
      for j := 0 to |edges|
        invariant State() == s
        invariant result.State() == Extract(s, kept, Filter(edges[..j], Within(ids)))
        invariant forall e :: e in edges[..j] && Within(ids)(e) ==> Storable(e)
      {
        var edge := edges[j];
        assert edges[..j + 1][..j] == edges[..j];
        assert edge in edges;
        if edge.source in ids && edge.target in ids {
          ExtractOneMoreEdge(s, kept, Filter(edges[..j], Within(ids)), edge);
          var r := result.AddEdge(edge.source, edge.target, edge.kind, edge.weight, edge.attributes);
          if r == AttributeClash {
            return false;
          }
        }
      }
      assert edges[..|edges|] == edges;
      return true;
    }
  }

  lemma SameQuotient(a: int, b: int, n: nat)
    requires n > 0
    ensures a as real / n as real == b as real / n as real <==> a == b
  {
    if a as real / n as real == b as real / n as real {
      assert a as real / n as real * n as real == a as real;
    }
  }
}
