/** Identifiers handed out by the plagiarism network: a prefix and a counter printed with at least six digits. */
module EntityIds {

  function Digit(d: nat): char
    requires d < 10
  {
    '0' + d as char
  }

  function Decimal(n: nat): (s: string)
    ensures |s| > 0
  {
    if n < 10 then [Digit(n)] else Decimal(n / 10) + [Digit(n % 10)]
  }

  function PadToSix(s: string): (r: string)
    decreases 6 - |s|
  {
    if |s| >= 6 then s else PadToSix("0" + s)
  }

  function NodeId(counter: nat): string {
    "node_" + PadToSix(Decimal(counter))
  }

  function EdgeId(counter: nat): string {
    "edge_" + PadToSix(Decimal(counter))
  }

  /** What a string of digits denotes; only used to show that the printed form determines the counter. */
  ghost function Denoted(s: string): int {
    if s == "" then 0 else Denoted(s[..|s| - 1]) * 10 + (s[|s| - 1] as int - '0' as int)
  }

  lemma {:induction false} DenotedDecimal(n: nat)
    ensures Denoted(Decimal(n)) == n
  {
    if n >= 10 {
      DenotedDecimal(n / 10);
      assert Decimal(n)[..|Decimal(n)| - 1] == Decimal(n / 10);
    } else {
      assert Decimal(n)[..0] == "";
    }
  }

  lemma {:induction false} DenotedLeadingZero(s: string)
    ensures Denoted("0" + s) == Denoted(s)
  {
    if s == "" {
      assert ("0" + s)[..0] == "";
    } else {
      assert ("0" + s)[..|s|] == "0" + s[..|s| - 1];
      DenotedLeadingZero(s[..|s| - 1]);
    }
  }

  lemma {:induction false} DenotedPadded(s: string)
    ensures Denoted(PadToSix(s)) == Denoted(s)
    decreases 6 - |s|
  {
    if |s| < 6 {
      DenotedPadded("0" + s);
      DenotedLeadingZero(s);
    }
  }

  lemma PaddedInjective(a: nat, b: nat)
    requires PadToSix(Decimal(a)) == PadToSix(Decimal(b))
    ensures a == b
  {
    DenotedDecimal(a);
    DenotedDecimal(b);
    DenotedPadded(Decimal(a));
    DenotedPadded(Decimal(b));
  }

  lemma {:induction false} DecimalLength(n: nat, digits: nat)
    requires digits > 0 && n < Power(digits)
    ensures |Decimal(n)| <= digits
  {
    if n >= 10 { DecimalLength(n / 10, digits - 1); }
  }

  ghost function Power(digits: nat): nat {
    if digits == 0 then 1 else 10 * Power(digits - 1)
  }

  lemma {:induction false} PaddedLength(s: string)
    ensures |PadToSix(s)| == if |s| <= 6 then 6 else |s|
    decreases 6 - |s|
  {
    if |s| < 6 { PaddedLength("0" + s); }
  }

  /** Up to a million, identifiers are the word and six digits that denote the counter; beyond, as many as it takes. */
  lemma IdsArePrinted(n: nat)
    ensures NodeId(n)[..5] == "node_" && Denoted(NodeId(n)[5..]) == n
    ensures EdgeId(n)[..5] == "edge_" && EdgeId(n)[5..] == NodeId(n)[5..]
    ensures n < 1000000 ==> |NodeId(n)| == 11
  {
    var digits := PadToSix(Decimal(n));
    assert NodeId(n)[5..] == digits && EdgeId(n)[5..] == digits;
    DenotedDecimal(n);
    DenotedPadded(Decimal(n));
    PaddedLength(Decimal(n));
    if n < 1000000 {
      assert Power(3) == 1000 && Power(6) == 1000000;
      DecimalLength(n, 6);
    }
  }

  /** Two edges never share a key: the printed counter determines the counter, however many digits it takes. */
  lemma EdgeIdInjective(a: nat, b: nat)
    requires EdgeId(a) == EdgeId(b)
    ensures a == b
  {
    assert EdgeId(a)[5..] == PadToSix(Decimal(a));
    assert EdgeId(b)[5..] == PadToSix(Decimal(b));
    PaddedInjective(a, b);
  }
}

/** The plagiarism network: a node table with an edge list, mirrored in a keyed directed multigraph. */
module Network {
  import opened Sequences
  import opened EntityIds

  type Id = string

  datatype NodeType =
    | Student | Document | Source | Institution | Cohort | Assignment | Collaborator | SuspiciousPattern

  datatype EdgeType =
    | Similarity | CoAuthorship | Collaboration | SharedSource | CohortMember | Institutional | Temporal | Suspicious

  datatype Value = Text(text: string) | Number(number: real) | Items(items: seq<Value>)

  type Attributes = map<string, Value>

  datatype Node = Node(kind: NodeType, attributes: Attributes, metadata: Attributes)

  datatype Edge = Edge(source: Id, target: Id, kind: EdgeType, weight: real, attributes: Attributes)

  datatype EdgeData = EdgeData(kind: EdgeType, weight: real, attributes: Attributes)

  // Keyword names the multigraph calls already use; an attribute of that name makes the call raise TypeError.
  const RESERVED_NODE_NAMES: set<string> := {"self", "node_for_adding", "type"}
  const RESERVED_EDGE_NAMES: set<string> := {"self", "u_for_edge", "v_for_edge", "key", "type", "weight"}

  predicate Clean(n: Node) {
    n.attributes.Keys !! RESERVED_NODE_NAMES
  }

  predicate Storable(e: Edge) {
    e.attributes.Keys !! RESERVED_EDGE_NAMES
  }

  // ---------------------------------------------------------------- the keyed multigraph

  /** Adjacency in insertion order in both directions, and the keyed edges between each ordered pair. */
  datatype MultiDiGraph = MultiDiGraph(
    succ: map<Id, seq<Id>>,
    pred: map<Id, seq<Id>>,
    links: LinkTable)
  {
    function WithNode(n: Id): MultiDiGraph {
      if n in succ then this else MultiDiGraph(succ[n := []], pred[n := []], links)
    }

    function WithEdge(u: Id, v: Id, key: string, data: EdgeData): MultiDiGraph {
      var g := WithNode(u).WithNode(v);
      MultiDiGraph(
        g.succ[u := Inserted(g.Successors(u), v)],
        g.pred[v := Inserted(g.Predecessors(v), u)],
        g.links[(u, v) := LinkIn(g.links, u, v)[key := data]])
    }

    function Successors(n: Id): seq<Id> {
      if n in succ then succ[n] else []
    }

    function Predecessors(n: Id): seq<Id> {
      if n in pred then pred[n] else []
    }

    function Degree(n: Id): nat {
      OutSize(links, n, Successors(n)) + InSize(links, n, Predecessors(n))
    }
  }

  type LinkTable = map<(Id, Id), map<string, EdgeData>>

  function LinkIn(links: LinkTable, u: Id, v: Id): map<string, EdgeData> {
    if (u, v) in links then links[(u, v)] else map[]
  }

  function OutSize(links: LinkTable, n: Id, vs: seq<Id>): nat {
    if vs == [] then 0 else OutSize(links, n, vs[..|vs| - 1]) + |LinkIn(links, n, vs[|vs| - 1])|
  }

  function InSize(links: LinkTable, n: Id, us: seq<Id>): nat {
    if us == [] then 0 else InSize(links, n, us[..|us| - 1]) + |LinkIn(links, us[|us| - 1], n)|
  }

  const EMPTY_GRAPH := MultiDiGraph(map[], map[], map[])

  function Inserted(s: seq<Id>, n: Id): seq<Id> {
    if n in s then s else s + [n]
  }

  // ---------------------------------------------------------------- what an edge list says by itself

  function Targets(es: seq<Edge>, n: Id): seq<Id> {
    if es == [] then []
    else
      var e, before := es[|es| - 1], Targets(es[..|es| - 1], n);
      if Storable(e) && e.source == n then Inserted(before, e.target) else before
  }

  function Sources(es: seq<Edge>, n: Id): seq<Id> {
    if es == [] then []
    else
      var e, before := es[|es| - 1], Sources(es[..|es| - 1], n);
      if Storable(e) && e.target == n then Inserted(before, e.source) else before
  }

  function Links(es: seq<Edge>): LinkTable {
    if es == [] then map[]
    else
      var e, before := es[|es| - 1], Links(es[..|es| - 1]);
      if !Storable(e) then before
      else
        var pair := (e.source, e.target);
        before[pair := LinkIn(before, e.source, e.target)[EdgeId(|es| - 1) := EdgeData(e.kind, e.weight, e.attributes)]]
  }

  function Outgoing(es: seq<Edge>, n: Id): nat {
    if es == [] then 0
    else Outgoing(es[..|es| - 1], n) + if Storable(es[|es| - 1]) && es[|es| - 1].source == n then 1 else 0
  }

  function Incoming(es: seq<Edge>, n: Id): nat {
    if es == [] then 0
    else Incoming(es[..|es| - 1], n) + if Storable(es[|es| - 1]) && es[|es| - 1].target == n then 1 else 0
  }

  function StoredCount(es: seq<Edge>): nat {
    if es == [] then 0 else StoredCount(es[..|es| - 1]) + if Storable(es[|es| - 1]) then 1 else 0
  }

  ghost function GraphOf(ids: set<Id>, es: seq<Edge>): MultiDiGraph {
    MultiDiGraph(map n | n in ids :: Targets(es, n), map n | n in ids :: Sources(es, n), Links(es))
  }

  // ---------------------------------------------------------------- the network as a value

  /** One state of the network; `order` is the insertion order of the node table. */
  datatype Net = Net(
    nodes: map<Id, Node>,
    order: seq<Id>,
    edges: seq<Edge>,
    graph: MultiDiGraph,
    nodeCounter: nat,
    edgeCounter: nat)

  const EMPTY_NET := Net(map[], [], [], EMPTY_GRAPH, 0, 0)

  datatype Outcome = Added(id: string) | NodeNotFound | AttributeClash

  /** Holds in every state that calls can reach, including calls that raised. */
  ghost predicate Consistent(s: Net) {
    && Distinct(s.order)
    && Elements(s.order) == s.nodes.Keys
    && s.edgeCounter == |s.edges|
    && (forall e :: e in s.edges ==> e.source in s.nodes && e.target in s.nodes)
    && s.graph.succ.Keys <= s.nodes.Keys
    && s.graph == GraphOf(s.graph.succ.Keys, s.edges)
    && (forall e :: e in s.edges && Storable(e) ==> e.source in s.graph.succ && e.target in s.graph.succ)
    && (forall n :: n in s.nodes && Clean(s.nodes[n]) ==> n in s.graph.succ)
  }

  function AddNodeTo(s: Net, node: Node, nodeId: Option<Id>): (Net, Outcome) {
    var id := if nodeId.None? then NodeId(s.nodeCounter) else nodeId.value;
    var t := s.(
      nodes := s.nodes[id := node],
      order := Inserted(s.order, id),
      nodeCounter := if nodeId.None? then s.nodeCounter + 1 else s.nodeCounter);
    if Clean(node) then (t.(graph := s.graph.WithNode(id)), Added(id)) else (t, AttributeClash)
  }

  function AddEdgeTo(s: Net, e: Edge): (Net, Outcome) {
    if e.source !in s.nodes || e.target !in s.nodes then (s, NodeNotFound)
    else
      var key := EdgeId(s.edgeCounter);
      var t := s.(edges := s.edges + [e], edgeCounter := s.edgeCounter + 1);
      if Storable(e) then
        (t.(graph := s.graph.WithEdge(e.source, e.target, key, EdgeData(e.kind, e.weight, e.attributes))), Added(key))
      else (t, AttributeClash)
  }

  lemma {:induction false} NoTrafficOutside(ids: set<Id>, es: seq<Edge>, n: Id)
    requires forall e :: e in es && Storable(e) ==> e.source in ids && e.target in ids
    requires n !in ids
    ensures Targets(es, n) == [] && Sources(es, n) == []
  {
    if es != [] {
      assert es[|es| - 1] in es;
      NoTrafficOutside(ids, es[..|es| - 1], n);
    }
  }

  lemma WithNodeAddsIsolated(ids: set<Id>, es: seq<Edge>, n: Id)
    requires forall e :: e in es && Storable(e) ==> e.source in ids && e.target in ids
    ensures GraphOf(ids, es).WithNode(n) == GraphOf(ids + {n}, es)
  {
    var g := GraphOf(ids, es);
    if n in ids {
      assert ids + {n} == ids;
    } else {
      NoTrafficOutside(ids, es, n);
      assert g.WithNode(n).succ == GraphOf(ids + {n}, es).succ;
      assert g.WithNode(n).pred == GraphOf(ids + {n}, es).pred;
    }
  }

  lemma EdgeBetweenKnownNodes(ids: set<Id>, es: seq<Edge>, e: Edge)
    requires Storable(e) && e.source in ids && e.target in ids
    ensures GraphOf(ids, es).WithEdge(e.source, e.target, EdgeId(|es|), EdgeData(e.kind, e.weight, e.attributes))
         == GraphOf(ids, es + [e])
  {
    var all := es + [e];
    assert all[..|all| - 1] == es && all[|all| - 1] == e;
    var g, h := GraphOf(ids, es), GraphOf(ids, all);
    assert g.WithNode(e.source).WithNode(e.target) == g;
    assert h.succ == g.succ[e.source := Inserted(g.Successors(e.source), e.target)];
    assert h.pred == g.pred[e.target := Inserted(g.Predecessors(e.target), e.source)];
  }

  /** Inserting one more edge into the mirror of a list gives the mirror of the longer list. */
  lemma GraphGrowsWithList(ids: set<Id>, es: seq<Edge>, e: Edge)
    requires forall x :: x in es && Storable(x) ==> x.source in ids && x.target in ids
    requires Storable(e)
    ensures GraphOf(ids, es).WithEdge(e.source, e.target, EdgeId(|es|), EdgeData(e.kind, e.weight, e.attributes))
         == GraphOf(ids + {e.source, e.target}, es + [e])
  {
    var known := ids + {e.source} + {e.target};
    WithNodeAddsIsolated(ids, es, e.source);
    WithNodeAddsIsolated(ids + {e.source}, es, e.target);
    EdgeBetweenKnownNodes(known, es, e);
    WithNodeAddsIsolated(known, es, e.source);
    assert known + {e.source} == known == ids + {e.source, e.target};
    assert GraphOf(known, es).WithNode(e.source) == GraphOf(known, es) == GraphOf(known, es).WithNode(e.target);
  }

  lemma AddNodeKeepsConsistent(s: Net, node: Node, nodeId: Option<Id>)
    requires Consistent(s)
    ensures Consistent(AddNodeTo(s, node, nodeId).0)
  {
    var (t, r) := AddNodeTo(s, node, nodeId);
    var id := if nodeId.None? then NodeId(s.nodeCounter) else nodeId.value;
    assert Elements(t.order) == t.nodes.Keys;
    if r.Added? {
      WithNodeAddsIsolated(s.graph.succ.Keys, s.edges, id);
      assert t.graph.succ.Keys == s.graph.succ.Keys + {id};
    }
  }

  lemma AddEdgeKeepsConsistent(s: Net, e: Edge)
    requires Consistent(s)
    ensures Consistent(AddEdgeTo(s, e).0)
  {
    if e.source in s.nodes && e.target in s.nodes {
      if Storable(e) {
        StoredEdgeKeepsConsistent(s, e);
      } else {
        RefusedEdgeKeepsMirror(s.graph.succ.Keys, s.edges, e);
      }
    }
  }

  lemma StoredEdgeKeepsConsistent(s: Net, e: Edge)
    requires Consistent(s) && Storable(e) && e.source in s.nodes && e.target in s.nodes
    ensures Consistent(AddEdgeTo(s, e).0)
  {
    var t := AddEdgeTo(s, e).0;
    GraphGrowsWithList(s.graph.succ.Keys, s.edges, e);
    assert t.graph.succ.Keys == s.graph.succ.Keys + {e.source, e.target};
  }

  lemma RefusedEdgeKeepsMirror(ids: set<Id>, es: seq<Edge>, e: Edge)
    requires !Storable(e)
    ensures GraphOf(ids, es + [e]) == GraphOf(ids, es)
  {
    var all := es + [e];
    assert all[..|all| - 1] == es && all[|all| - 1] == e;
    assert forall n :: Targets(all, n) == Targets(es, n) && Sources(all, n) == Sources(es, n);
  }

  // ---------------------------------------------------------------- reading the mirror back

  /** The keys between u and v are exactly the printed positions of the stored edges from u to v. */
  lemma {:induction false} LinkHoldsExactlyTheEdges(es: seq<Edge>, u: Id, v: Id, key: string)
    ensures var ls := Links(es);
      ((u, v) in ls && key in ls[(u, v)])
      <==> exists i :: 0 <= i < |es| && Storable(es[i]) && es[i].source == u && es[i].target == v && key == EdgeId(i)
  {
    if es != [] {
      var rest, e := es[..|es| - 1], es[|es| - 1];
      LinkHoldsExactlyTheEdges(rest, u, v, key);
      assert forall i :: 0 <= i < |rest| ==> es[i] == rest[i];
      if (u, v) in Links(es) && key in Links(es)[(u, v)] && !((u, v) in Links(rest) && key in Links(rest)[(u, v)]) {
        assert Storable(es[|es| - 1]) && key == EdgeId(|es| - 1);
      }
    }
  }

  lemma {:induction false} LinkData(es: seq<Edge>, i: nat)
    requires i < |es| && Storable(es[i])
    ensures (es[i].source, es[i].target) in Links(es)
    ensures EdgeId(i) in Links(es)[(es[i].source, es[i].target)]
    ensures Links(es)[(es[i].source, es[i].target)][EdgeId(i)] == EdgeData(es[i].kind, es[i].weight, es[i].attributes)
  {
    if i < |es| - 1 {
      LinkData(es[..|es| - 1], i);
      if EdgeId(i) == EdgeId(|es| - 1) { EdgeIdInjective(i, |es| - 1); }
    }
  }

  lemma {:induction false} TargetsAre(es: seq<Edge>, n: Id, v: Id)
    ensures Distinct(Targets(es, n))
    ensures v in Targets(es, n) <==> exists e :: e in es && Storable(e) && e.source == n && e.target == v
  {
    if es != [] {
      var rest, last := es[..|es| - 1], es[|es| - 1];
      assert es == rest + [last];
      TargetsAre(rest, n, v);
      TargetsAre(rest, n, last.target);
    }
  }

  lemma {:induction false} SourcesAre(es: seq<Edge>, n: Id, u: Id)
    ensures Distinct(Sources(es, n))
    ensures u in Sources(es, n) <==> exists e :: e in es && Storable(e) && e.target == n && e.source == u
  {
    if es != [] {
      var rest, last := es[..|es| - 1], es[|es| - 1];
      assert es == rest + [last];
      SourcesAre(rest, n, u);
      SourcesAre(rest, n, last.source);
    }
  }

  /** A stored edge of the given type (any type for None) leads from n to v. */
  ghost predicate EdgeTo(es: seq<Edge>, n: Id, v: Id, kind: Option<EdgeType>) {
    exists e :: e in es && Storable(e) && e.source == n && e.target == v && (kind.Some? ==> e.kind == kind.value)
  }

  /** Asking the multigraph for a typed edge between two nodes is asking the edge list. */
  lemma TypedLinkIsTypedEdge(es: seq<Edge>, n: Id, v: Id, kind: EdgeType)
    requires (n, v) in Links(es)
    ensures (exists key :: key in Links(es)[(n, v)] && Links(es)[(n, v)][key].kind == kind) <==>
      EdgeTo(es, n, v, Some(kind))
  {
    var link := Links(es)[(n, v)];
    if key :| key in link && link[key].kind == kind {
      LinkHoldsExactlyTheEdges(es, n, v, key);
      var i :| 0 <= i < |es| && Storable(es[i]) && es[i].source == n && es[i].target == v && key == EdgeId(i);
      LinkData(es, i);
      assert es[i] in es;
    }
    if EdgeTo(es, n, v, Some(kind)) {
      var e :| e in es && Storable(e) && e.source == n && e.target == v && e.kind == kind;
      var i :| 0 <= i < |es| && es[i] == e;
      LinkData(es, i);
    }
  }

  lemma {:induction false} PairsAreNeighbours(es: seq<Edge>, u: Id, v: Id)
    ensures (u, v) in Links(es) <==> v in Targets(es, u)
    ensures (u, v) in Links(es) <==> u in Sources(es, v)
  {
    if es != [] {
      PairsAreNeighbours(es[..|es| - 1], u, v);
    }
  }

  // ---------------------------------------------------------------- degrees

  lemma {:induction false} OutSizeAfterInsert(before: LinkTable, after: LinkTable, n: Id, vs: seq<Id>, v: Id,
      grown: nat)
    requires Distinct(vs)
    requires forall w :: w != v ==> LinkIn(after, n, w) == LinkIn(before, n, w)
    requires |LinkIn(after, n, v)| == |LinkIn(before, n, v)| + grown
    ensures OutSize(after, n, vs) == OutSize(before, n, vs) + if v in vs then grown else 0
  {
    if vs != [] {
      var rest, last := vs[..|vs| - 1], vs[|vs| - 1];
      assert vs == rest + [last];
      assert last !in rest;
      OutSizeAfterInsert(before, after, n, rest, v, grown);
    }
  }

  lemma {:induction false} InSizeAfterInsert(before: LinkTable, after: LinkTable, n: Id, us: seq<Id>, u: Id, grown: nat)
    requires Distinct(us)
    requires forall w :: w != u ==> LinkIn(after, w, n) == LinkIn(before, w, n)
    requires |LinkIn(after, u, n)| == |LinkIn(before, u, n)| + grown
    ensures InSize(after, n, us) == InSize(before, n, us) + if u in us then grown else 0
  {
    if us != [] {
      var rest, last := us[..|us| - 1], us[|us| - 1];
      assert us == rest + [last];
      assert last !in rest;
      InSizeAfterInsert(before, after, n, rest, u, grown);
    }
  }

  /** The key of a new edge is not yet used between its endpoints. */
  lemma NewKeyIsFresh(es: seq<Edge>, u: Id, v: Id)
    ensures EdgeId(|es|) !in LinkIn(Links(es), u, v)
  {
    if EdgeId(|es|) in LinkIn(Links(es), u, v) {
      LinkHoldsExactlyTheEdges(es, u, v, EdgeId(|es|));
      var i :| 0 <= i < |es| && EdgeId(|es|) == EdgeId(i);
      EdgeIdInjective(|es|, i);
    }
  }

  /** Summing the key counts over the successors counts the stored edges that leave n. */
  lemma {:induction false} OutSizeIsOutgoing(es: seq<Edge>, n: Id)
    ensures OutSize(Links(es), n, Targets(es, n)) == Outgoing(es, n)
  {
    if es != [] {
      var rest, e := es[..|es| - 1], es[|es| - 1];
      OutSizeIsOutgoing(rest, n);
      if Storable(e) {
        var v := e.target;
        TargetsAre(rest, n, v);
        NewKeyIsFresh(rest, e.source, v);
        PairsAreNeighbours(rest, n, v);
        OutSizeAfterInsert(Links(rest), Links(es), n, Targets(rest, n), v, if e.source == n then 1 else 0);
        if e.source == n && v !in Targets(rest, n) {
          assert Targets(es, n)[..|Targets(es, n)| - 1] == Targets(rest, n);
        }
      }
    }
  }

  lemma {:induction false} InSizeIsIncoming(es: seq<Edge>, n: Id)
    ensures InSize(Links(es), n, Sources(es, n)) == Incoming(es, n)
  {
    if es != [] {
      var rest, e := es[..|es| - 1], es[|es| - 1];
      InSizeIsIncoming(rest, n);
      if Storable(e) {
        var u := e.source;
        SourcesAre(rest, n, u);
        NewKeyIsFresh(rest, u, e.target);
        PairsAreNeighbours(rest, u, n);
        InSizeAfterInsert(Links(rest), Links(es), n, Sources(rest, n), u, if e.target == n then 1 else 0);
        if e.target == n && u !in Sources(rest, n) {
          assert Sources(es, n)[..|Sources(es, n)| - 1] == Sources(rest, n);
        }
      }
    }
  }

  /** The degree read off the multigraph is the number of stored edges that leave n plus those that enter it. */
  lemma DegreeCountsEdgeEnds(s: Net, n: Id)
    requires Consistent(s)
    ensures s.graph.Degree(n) == Outgoing(s.edges, n) + Incoming(s.edges, n)
    ensures s.graph.Degree(n) == |Leaving(s.edges, n)| + |Entering(s.edges, n)|
  {
    LeavingAreCounted(s.edges, n);
    EnteringAreCounted(s.edges, n);
    OutSizeIsOutgoing(s.edges, n);
    InSizeIsIncoming(s.edges, n);
    if n !in s.graph.succ {
      NoTrafficOutside(s.graph.succ.Keys, s.edges, n);
    }
  }

  /** The positions of the stored edges that leave a node, and of those that enter it. */
  ghost function Leaving(es: seq<Edge>, n: Id): set<nat> {
    set i: nat | i < |es| && Storable(es[i]) && es[i].source == n
  }

  ghost function Entering(es: seq<Edge>, n: Id): set<nat> {
    set i: nat | i < |es| && Storable(es[i]) && es[i].target == n
  }

  lemma {:induction false} LeavingAreCounted(es: seq<Edge>, n: Id)
    ensures Outgoing(es, n) == |Leaving(es, n)|
  {
    if es != [] {
      var k := |es| - 1;
      LeavingAreCounted(es[..k], n);
      assert Leaving(es, n) == Leaving(es[..k], n) + if Storable(es[k]) && es[k].source == n then {k} else {};
    }
  }

  lemma {:induction false} EnteringAreCounted(es: seq<Edge>, n: Id)
    ensures Incoming(es, n) == |Entering(es, n)|
  {
    if es != [] {
      var k := |es| - 1;
      EnteringAreCounted(es[..k], n);
      assert Entering(es, n) == Entering(es[..k], n) + if Storable(es[k]) && es[k].target == n then {k} else {};
    }
  }

  lemma {:induction false} StoredIsCounted(es: seq<Edge>)
    ensures StoredCount(es) == |StoredPositions(es)|
  {
    if es != [] {
      var k := |es| - 1;
      StoredIsCounted(es[..k]);
      assert StoredPositions(es) == StoredPositions(es[..k]) + if Storable(es[k]) then {k} else {};
    }
  }

  ghost function StoredPositions(es: seq<Edge>): set<nat> {
    set i: nat | i < |es| && Storable(es[i])
  }

  function DegreeSum(g: MultiDiGraph, ids: seq<Id>): nat {
    if ids == [] then 0 else DegreeSum(g, ids[..|ids| - 1]) + g.Degree(ids[|ids| - 1])
  }

  function EndSum(es: seq<Edge>, ids: seq<Id>): nat {
    if ids == [] then 0
    else EndSum(es, ids[..|ids| - 1]) + Outgoing(es, ids[|ids| - 1]) + Incoming(es, ids[|ids| - 1])
  }

  lemma {:induction false} DegreeSumIsEndSum(s: Net, ids: seq<Id>)
    requires Consistent(s)
    ensures DegreeSum(s.graph, ids) == EndSum(s.edges, ids)
  {
    if ids != [] {
      DegreeSumIsEndSum(s, ids[..|ids| - 1]);
      DegreeCountsEdgeEnds(s, ids[|ids| - 1]);
    }
  }

  lemma {:induction false} EndSumOfNothing(ids: seq<Id>)
    ensures EndSum([], ids) == 0
  {
    if ids != [] { EndSumOfNothing(ids[..|ids| - 1]); }
  }

  lemma {:induction false} EndSumAfterEdge(es: seq<Edge>, ids: seq<Id>)
    requires es != [] && Distinct(ids)
    ensures var e := es[|es| - 1];
      EndSum(es, ids) == EndSum(es[..|es| - 1], ids)
        + (if Storable(e) && e.source in ids then 1 else 0) + (if Storable(e) && e.target in ids then 1 else 0)
  {
    if ids != [] {
      var rest, last := ids[..|ids| - 1], ids[|ids| - 1];
      assert ids == rest + [last];
      assert last !in rest;
      EndSumAfterEdge(es, rest);
    }
  }

  lemma {:induction false} EndsAreTwicePerEdge(es: seq<Edge>, ids: seq<Id>)
    requires Distinct(ids)
    requires forall e :: e in es ==> e.source in ids && e.target in ids
    ensures EndSum(es, ids) == 2 * StoredCount(es)
  {
    if es == [] {
      EndSumOfNothing(ids);
    } else {
      assert es[|es| - 1] in es;
      EndsAreTwicePerEdge(es[..|es| - 1], ids);
      EndSumAfterEdge(es, ids);
    }
  }

  lemma {:induction false} StoredCountIsAll(es: seq<Edge>)
    ensures StoredCount(es) <= |es|
    ensures StoredCount(es) == |es| <==> forall e :: e in es ==> Storable(e)
  {
    if es != [] {
      assert es == es[..|es| - 1] + [es[|es| - 1]];
      StoredCountIsAll(es[..|es| - 1]);
    }
  }

  /** Handshake: over all nodes the degrees sum to twice the edges that reached the multigraph. That is twice the
      edge list exactly when no edge carried an attribute whose name the insertion call already uses. */
  lemma Handshake(s: Net)
    requires Consistent(s)
    ensures DegreeSum(s.graph, s.order) == 2 * StoredCount(s.edges)
    ensures DegreeSum(s.graph, s.order) == 2 * |s.edges| <==> forall e :: e in s.edges ==> Storable(e)
  {
    DegreeSumIsEndSum(s, s.order);
    assert forall n :: n in s.order <==> n in Elements(s.order);
    EndsAreTwicePerEdge(s.edges, s.order);
    StoredCountIsAll(s.edges);
  }

  /** The edge list and the multigraph hold the same edges: every stored edge sits under its own key with its own data,
      and every key of the multigraph belongs to one position of the list. */
  lemma MirrorHoldsTheSameEdges(s: Net)
    requires Consistent(s)
    ensures forall i :: 0 <= i < |s.edges| && Storable(s.edges[i]) ==>
      var link := LinkIn(s.graph.links, s.edges[i].source, s.edges[i].target);
      EdgeId(i) in link && link[EdgeId(i)] == EdgeData(s.edges[i].kind, s.edges[i].weight, s.edges[i].attributes)
    ensures forall u, v, key :: key in LinkIn(s.graph.links, u, v) ==>
      exists i :: 0 <= i < |s.edges| && Storable(s.edges[i]) && key == EdgeId(i)
               && s.edges[i].source == u && s.edges[i].target == v && u in s.nodes && v in s.nodes
    ensures forall u, v, x, y, key :: key in LinkIn(s.graph.links, u, v) && key in LinkIn(s.graph.links, x, y) ==>
      (u, v) == (x, y)
  {
    forall i | 0 <= i < |s.edges| && Storable(s.edges[i])
      ensures var link := LinkIn(s.graph.links, s.edges[i].source, s.edges[i].target);
        EdgeId(i) in link && link[EdgeId(i)] == EdgeData(s.edges[i].kind, s.edges[i].weight, s.edges[i].attributes)
    {
      LinkData(s.edges, i);
    }
    forall u, v, key | key in LinkIn(s.graph.links, u, v)
      ensures exists i :: 0 <= i < |s.edges| && Storable(s.edges[i]) && key == EdgeId(i)
               && s.edges[i].source == u && s.edges[i].target == v && u in s.nodes && v in s.nodes
    {
      LinkHoldsExactlyTheEdges(s.edges, u, v, key);
    }
    forall u, v, x, y, key | key in LinkIn(s.graph.links, u, v) && key in LinkIn(s.graph.links, x, y)
      ensures (u, v) == (x, y)
    {
      LinkHoldsExactlyTheEdges(s.edges, u, v, key);
      LinkHoldsExactlyTheEdges(s.edges, x, y, key);
      var i :| 0 <= i < |s.edges| && s.edges[i].source == u && s.edges[i].target == v && key == EdgeId(i);
      var j :| 0 <= j < |s.edges| && s.edges[j].source == x && s.edges[j].target == y && key == EdgeId(j);
      EdgeIdInjective(i, j);
    }
  }
}
