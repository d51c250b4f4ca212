/** Undirected graphs kept as adjacency lists: reachability, breadth-first components and edge counts. */
module UndirectedGraphs {
  import opened Sequences

  type Vertex = string
  type Adjacency = map<Vertex, seq<Vertex>>

  /** Every list is free of repetition and every link is recorded at both ends. */
  ghost predicate Undirected(adj: Adjacency) {
    && (forall u :: u in adj ==> Distinct(adj[u]))
    && (forall u, v :: u in adj && v in adj[u] ==> v in adj && u in adj[v])
  }

  /** Recording v at u; already there, it stays once. */
  function Half(adj: Adjacency, u: Vertex, v: Vertex): Adjacency
    requires u in adj
  {
    if v in adj[u] then adj else adj[u := adj[u] + [v]]
  }

  /** Inserting a link; a link that is already there stays once, a loop is recorded once. */
  function Linked(adj: Adjacency, u: Vertex, v: Vertex): Adjacency
    requires u in adj && v in adj
  {
    Half(Half(adj, u, v), v, u)
  }

  lemma HalfAdds(adj: Adjacency, u: Vertex, v: Vertex)
    requires u in adj && forall a :: a in adj ==> Distinct(adj[a])
    ensures Half(adj, u, v).Keys == adj.Keys
    ensures forall a :: a in adj ==> Distinct(Half(adj, u, v)[a])
    ensures forall a, b :: a in adj ==> (b in Half(adj, u, v)[a] <==> b in adj[a] || (a == u && b == v))
  {
  }

  lemma LinkedAdds(adj: Adjacency, u: Vertex, v: Vertex)
    requires u in adj && v in adj && Undirected(adj)
    ensures Linked(adj, u, v).Keys == adj.Keys && Undirected(Linked(adj, u, v))
    ensures forall a, b :: a in adj ==>
      (b in Linked(adj, u, v)[a] <==> b in adj[a] || (a == u && b == v) || (a == v && b == u))
  {
    HalfAdds(adj, u, v);
    HalfAdds(Half(adj, u, v), v, u);
  }

  // ---------------------------------------------------------------- reachability

  ghost predicate IsPath(adj: Adjacency, p: seq<Vertex>, a: Vertex, b: Vertex) {
    && |p| > 0 && p[0] == a && p[|p| - 1] == b
    && (forall i :: 0 <= i < |p| ==> p[i] in adj)
    && (forall i :: 0 <= i < |p| - 1 ==> p[i + 1] in adj[p[i]])
  }

  ghost predicate Reaches(adj: Adjacency, a: Vertex, b: Vertex) {
    exists p :: IsPath(adj, p, a, b)
  }

  lemma ReachesItself(adj: Adjacency, a: Vertex)
    requires a in adj
    ensures Reaches(adj, a, a)
  {
    assert IsPath(adj, [a], a, a);
  }

  lemma ReachesNext(adj: Adjacency, a: Vertex, b: Vertex, c: Vertex)
    requires Undirected(adj) && Reaches(adj, a, b) && b in adj && c in adj[b]
    ensures Reaches(adj, a, c)
  {
    var p :| IsPath(adj, p, a, b);
    assert IsPath(adj, p + [c], a, c);
  }

  lemma ReachesTransitive(adj: Adjacency, a: Vertex, b: Vertex, c: Vertex)
    requires Reaches(adj, a, b) && Reaches(adj, b, c)
    ensures Reaches(adj, a, c)
  {
    var p :| IsPath(adj, p, a, b);
    var q :| IsPath(adj, q, b, c);
    var r := p + q[1..];
    forall i | 0 <= i < |r| - 1 ensures r[i] in adj && r[i + 1] in adj[r[i]] {
      if i >= |p| - 1 { assert r[i] == q[i - (|p| - 1)] && r[i + 1] == q[i + 1 - (|p| - 1)]; }
    }
    assert IsPath(adj, r, a, c);
  }

  lemma ReachesSymmetric(adj: Adjacency, a: Vertex, b: Vertex)
    requires Undirected(adj) && Reaches(adj, a, b)
    ensures Reaches(adj, b, a)
  {
    var p :| IsPath(adj, p, a, b);
    var r := seq(|p|, i requires 0 <= i < |p| => p[|p| - 1 - i]);
    forall i | 0 <= i < |r| - 1 ensures r[i + 1] in adj[r[i]] {
      assert p[|p| - 1 - i] in adj[p[|p| - 2 - i]];
    }
    assert IsPath(adj, r, b, a);
  }

  ghost predicate Closed(adj: Adjacency, inside: seq<Vertex>) {
    forall u, v :: u in inside && u in adj && v in adj[u] ==> v in inside
  }

  /** Following links never leaves a closed part. */
  lemma ClosedPartIsNotLeft(adj: Adjacency, inside: seq<Vertex>, a: Vertex, b: Vertex)
    requires Closed(adj, inside) && a in inside && Reaches(adj, a, b)
    ensures b in inside
  {
    var p :| IsPath(adj, p, a, b);
    var i := 0;
    while i < |p| - 1
      invariant 0 <= i < |p| && p[i] in inside
    {
      i := i + 1;
    }
  }

  // ---------------------------------------------------------------- breadth-first search

  /** Discovery order: from the second vertex on, each has a neighbour discovered before it. */
  ghost predicate GrowsByLinks(adj: Adjacency, order: seq<Vertex>) {
    |order| <= 1 ||
    var rest, last := order[..|order| - 1], order[|order| - 1];
    GrowsByLinks(adj, rest) && last in adj && HasNeighborIn(adj, rest, last)
  }

  ghost predicate HasNeighborIn(adj: Adjacency, part: seq<Vertex>, v: Vertex) {
    exists w :: w in part && w in adj && v in adj[w]
  }

  /** A discovery order of vertices that v reaches. */
  ghost predicate Discovered(adj: Adjacency, v: Vertex, order: seq<Vertex>) {
    && Distinct(order) && GrowsByLinks(adj, order)
    && (forall x :: x in order ==> x in adj && Reaches(adj, v, x))
  }

  lemma DiscoverOne(adj: Adjacency, v: Vertex, order: seq<Vertex>, u: Vertex, w: Vertex)
    requires Undirected(adj) && Discovered(adj, v, order)
    requires u in order && u in adj && w in adj[u] && w !in order
    ensures Discovered(adj, v, order + [w])
  {
    var r := order + [w];
    ReachesNext(adj, v, u, w);
    assert HasNeighborIn(adj, order, w);
    assert r[..|r| - 1] == order;
  }

  /** All vertices reachable from v, in discovery order. */
  method BreadthFirst(adj: Adjacency, v: Vertex) returns (order: seq<Vertex>)
    requires Undirected(adj) && v in adj
    ensures forall x :: x in order <==> Reaches(adj, v, x)
    ensures Distinct(order) && |order| > 0 && order[0] == v && GrowsByLinks(adj, order)
  {
    order := [v];
    ReachesItself(adj, v);
    SizeWithin(adj, order);
    var next := 0;
    while next < |order|
      invariant 0 <= next <= |order| <= |adj| && |order| > 0 && order[0] == v
      invariant Discovered(adj, v, order)
      invariant forall i :: 0 <= i < next ==> AllIn(Neighbors(adj, order[i]), order)
      decreases |adj| - next
    {
      ghost var before := order;
      order := Discover(adj, v, order, next);
      SizeWithin(adj, order);
      forall i | 0 <= i < next + 1 ensures AllIn(Neighbors(adj, order[i]), order) {
        if i < next { assert AllIn(Neighbors(adj, before[i]), before); }
      }
      next := next + 1;
    }
    forall x | Reaches(adj, v, x) ensures x in order {
      assert Closed(adj, order) by {
        forall u, w | u in order && u in adj && w in adj[u] ensures w in order {
          var i :| 0 <= i < |order| && order[i] == u;
          assert AllIn(Neighbors(adj, order[i]), order);
        }
      }
      assert order[0] in order;
      ClosedPartIsNotLeft(adj, order, v, x);
    }
  }

  function Neighbors(adj: Adjacency, u: Vertex): seq<Vertex> {
    if u in adj then adj[u] else []
  }

  ghost predicate AllIn(part: seq<Vertex>, whole: seq<Vertex>) {
    forall w :: w in part ==> w in whole
  }

  /** Appends the neighbours of order[at] that are still undiscovered. */
  method Discover(adj: Adjacency, ghost v: Vertex, order: seq<Vertex>, at: nat) returns (r: seq<Vertex>)
    requires Undirected(adj) && at < |order| && Discovered(adj, v, order)
    ensures order <= r && Discovered(adj, v, r)
    ensures AllIn(Neighbors(adj, order[at]), r)
  {
    var u := order[at];
    assert u in order;
    var ws := adj[u];
    r := order;
    for i := 0 to |ws|
      invariant order <= r && Discovered(adj, v, r)
      invariant AllIn(ws[..i], r)
    {
      assert ws[..i + 1] == ws[..i] + [ws[i]];
      if ws[i] !in r {
        assert u == r[at];
        DiscoverOne(adj, v, r, u, ws[i]);
        r := r + [ws[i]];
      }
    }
    assert ws[..|ws|] == ws;
  }

  lemma SizeWithin(adj: Adjacency, order: seq<Vertex>)
    requires Distinct(order) && forall x :: x in order ==> x in adj
    ensures |order| <= |adj|
  {
    DistinctSize(order);
    SubsetSize(Elements(order), adj.Keys);
  }

  // ---------------------------------------------------------------- connected components

  /** The components partition the listed vertices, and two vertices share one iff a path joins them. */
  ghost predicate AreComponents(adj: Adjacency, comps: seq<seq<Vertex>>) {
    && (forall c :: c in comps ==> |c| > 0 && Distinct(c) && GrowsByLinks(adj, c))
    && (forall i, x, y :: 0 <= i < |comps| && x in comps[i] && x in adj ==> (y in comps[i] <==> Reaches(adj, x, y)))
    && (forall i, j, x :: 0 <= i < j < |comps| && x in comps[i] ==> x !in comps[j])
    && (forall i, x :: 0 <= i < |comps| && x in comps[i] ==> x in adj)
  }

  method ConnectedComponents(adj: Adjacency, ids: seq<Vertex>) returns (comps: seq<seq<Vertex>>)
    requires Undirected(adj) && forall x :: x in ids <==> x in adj
    ensures AreComponents(adj, comps)
    ensures forall x :: x in adj ==> exists i :: 0 <= i < |comps| && x in comps[i]
  {
    comps := [];
    var seen: set<Vertex> := {};
    for k := 0 to |ids|
      invariant AreComponents(adj, comps)
      invariant forall x :: x in seen <==> exists i :: 0 <= i < |comps| && x in comps[i]
      invariant forall x :: x in ids[..k] ==> x in seen
    {
      var v := ids[k];
      assert v in ids;
      if v !in seen {
        var c := BreadthFirst(adj, v);
        ComponentIsNew(adj, comps, c, v);
        ghost var before := comps;
        comps := comps + [c];
        seen := seen + Elements(c);
        assert v in c by { ReachesItself(adj, v); }
        forall x ensures x in seen <==> exists i :: 0 <= i < |comps| && x in comps[i] {
          if x in c { assert comps[|before|] == c; }
          if i :| 0 <= i < |before| && x in before[i] { assert comps[i] == before[i]; }
        }
      }
      assert ids[..k + 1] == ids[..k] + [v];
    }
    assert ids[..|ids|] == ids;
  }

  lemma ComponentIsNew(adj: Adjacency, comps: seq<seq<Vertex>>, c: seq<Vertex>, v: Vertex)
    requires Undirected(adj) && v in adj && AreComponents(adj, comps)
    requires forall i :: 0 <= i < |comps| ==> v !in comps[i]
    requires forall x :: x in c <==> Reaches(adj, v, x)
    requires |c| > 0 && Distinct(c) && GrowsByLinks(adj, c)
    ensures AreComponents(adj, comps + [c])
  {
    var all := comps + [c];
    forall x | x in c ensures x in adj {
      var p :| IsPath(adj, p, v, x);
    }
    forall x, y | x in c ensures y in c <==> Reaches(adj, x, y) {
      ReachesSymmetric(adj, v, x);
      if y in c { ReachesTransitive(adj, x, v, y); }
      if Reaches(adj, x, y) { ReachesTransitive(adj, v, x, y); }
    }
    forall i, x | 0 <= i < |comps| && x in comps[i] ensures x !in c {
      if x in c {
        ReachesSymmetric(adj, v, x);
        assert false;
      }
    }
    assert forall d :: d in all ==> d in comps || d == c;
  }

  // ---------------------------------------------------------------- counting edges

  /** Degree of u in the subgraph on `part`: its neighbours there, a loop counted once more. */
  function SubDegree(adj: Adjacency, part: seq<Vertex>, u: Vertex): nat
    requires u in adj
  {
    |Filter(adj[u], w => w in part)| + if u in part && u in adj[u] then 1 else 0
  }

  function DegreeTotal(adj: Adjacency, part: seq<Vertex>, list: seq<Vertex>): nat
    requires forall u :: u in list ==> u in adj
  {
    if list == [] then 0
    else DegreeTotal(adj, part, list[..|list| - 1]) + SubDegree(adj, part, list[|list| - 1])
  }

  function EdgeCount(adj: Adjacency, part: seq<Vertex>): nat
    requires forall u :: u in part ==> u in adj
  {
    DegreeTotal(adj, part, part) / 2
  }

  function Density(adj: Adjacency, part: seq<Vertex>): real
    requires forall u :: u in part ==> u in adj
  {
    Ratio(|part|, EdgeCount(adj, part))
  }

  lemma {:induction false} FilterGrows(s: seq<Vertex>, part: seq<Vertex>, v: Vertex)
    requires Distinct(s) && v !in part
    ensures |Filter(s, w => w in part + [v])| == |Filter(s, w => w in part)| + if v in s then 1 else 0
  {
    if s != [] {
      var rest, last := s[..|s| - 1], s[|s| - 1];
      assert s == rest + [last];
      assert last !in rest;
      FilterGrows(rest, part, v);
    }
  }

  // ---------------------------------------------------------------- linked pairs

  ghost predicate Records(adj: Adjacency, link: (Vertex, Vertex) -> bool) {
    forall u, w :: u in adj ==> (w in adj[u] <==> link(u, w))
  }

  /** How many of the vertices listed are linked to v. */
  ghost function LinksTo(link: (Vertex, Vertex) -> bool, part: seq<Vertex>, v: Vertex): nat {
    if part == [] then 0
    else LinksTo(link, part[..|part| - 1], v) + if link(part[|part| - 1], v) then 1 else 0
  }

  /** The linked pairs within a part: each vertex with itself and with those listed before it. */
  ghost function LinkedPairs(link: (Vertex, Vertex) -> bool, part: seq<Vertex>): nat {
    if part == [] then 0 else LinkedPairs(link, part[..|part| - 1]) + LinksTo(link, part, part[|part| - 1])
  }

  /** The same pairs as positions, the later one last; a position may be paired with itself. */
  ghost function LinkedPositions(link: (Vertex, Vertex) -> bool, part: seq<Vertex>): set<(nat, nat)> {
    set i: nat, j: nat | i <= j < |part| && link(part[i], part[j]) :: (i, j)
  }

  ghost function Column(link: (Vertex, Vertex) -> bool, part: seq<Vertex>, k: nat, j: nat): set<(nat, nat)>
    requires k <= |part| && j < |part|
  {
    set i: nat | i < k && link(part[i], part[j]) :: (i, j)
  }

  lemma {:induction false} ColumnCount(link: (Vertex, Vertex) -> bool, part: seq<Vertex>, k: nat, j: nat)
    requires k <= |part| && j < |part|
    ensures |Column(link, part, k, j)| == LinksTo(link, part[..k], part[j])
  {
    if k > 0 {
      ColumnCount(link, part, k - 1, j);
      assert part[..k][..k - 1] == part[..k - 1];
      assert Column(link, part, k, j)
        == Column(link, part, k - 1, j) + if link(part[k - 1], part[j]) then {(k - 1, j)} else {};
    }
  }

  lemma PositionsSplit(link: (Vertex, Vertex) -> bool, part: seq<Vertex>)
    requires part != []
    ensures var n := |part| - 1;
      && LinkedPositions(link, part) == LinkedPositions(link, part[..n]) + Column(link, part, n + 1, n)
      && LinkedPositions(link, part[..n]) !! Column(link, part, n + 1, n)
  {
  }

  lemma {:induction false} LinkedPairsCount(link: (Vertex, Vertex) -> bool, part: seq<Vertex>)
    ensures LinkedPairs(link, part) == |LinkedPositions(link, part)|
  {
    if part != [] {
      var n := |part| - 1;
      var rest := part[..n];
      LinkedPairsCount(link, rest);
      ColumnCount(link, part, n + 1, n);
      assert part[..n + 1] == part;
      PositionsSplit(link, part);
    }
  }

  /** Twice the linked pairs over the ordered pairs of different vertices, in a part of two or more. */
  ghost predicate IsDensity(link: (Vertex, Vertex) -> bool, part: seq<Vertex>, density: real) {
    DensityOf(|part|, |LinkedPositions(link, part)|, density)
  }

  ghost predicate DensityOf(n: nat, m: nat, density: real) {
    density * n as real * (n - 1) as real == 2.0 * m as real
  }

  lemma {:induction false} LinksToBounds(link: (Vertex, Vertex) -> bool, part: seq<Vertex>, v: Vertex)
    ensures LinksTo(link, part, v) <= |part|
    ensures (exists w :: w in part && link(w, v)) ==> LinksTo(link, part, v) > 0
  {
    if part != [] {
      assert part == part[..|part| - 1] + [part[|part| - 1]];
      LinksToBounds(link, part[..|part| - 1], v);
    }
  }

  /** Neighbours of v within a part, counted from its own list, are the vertices whose lists hold v. */
  lemma {:induction false} NeighborsAreLinks(adj: Adjacency, link: (Vertex, Vertex) -> bool, part: seq<Vertex>,
      v: Vertex)
    requires Undirected(adj) && Records(adj, link) && Distinct(part) && v in adj
    requires forall u :: u in part ==> u in adj
    ensures |Filter(adj[v], w => w in part)| == LinksTo(link, part, v)
  {
    if part == [] {
      FilterNone(adj[v], w => w in part);
    } else {
      var rest, last := part[..|part| - 1], part[|part| - 1];
      assert part == rest + [last];
      assert last !in rest;
      NeighborsAreLinks(adj, link, rest, v);
      FilterGrows(adj[v], rest, last);
    }
  }

  lemma {:induction false} TotalGrows(adj: Adjacency, link: (Vertex, Vertex) -> bool, part: seq<Vertex>,
      list: seq<Vertex>, v: Vertex)
    requires Undirected(adj) && Records(adj, link) && v !in part && v !in list
    requires forall u :: u in list ==> u in adj
    ensures DegreeTotal(adj, part + [v], list) == DegreeTotal(adj, part, list) + LinksTo(link, list, v)
  {
    if list != [] {
      var rest, last := list[..|list| - 1], list[|list| - 1];
      assert list == rest + [last];
      TotalGrows(adj, link, part, rest, v);
      FilterGrows(adj[last], part, v);
    }
  }

  /** Within a part the degrees, loops counted twice, sum to twice the number of linked pairs. */
  lemma {:induction false} DegreesCountLinks(adj: Adjacency, link: (Vertex, Vertex) -> bool, part: seq<Vertex>)
    requires Undirected(adj) && Records(adj, link) && Distinct(part)
    requires forall u :: u in part ==> u in adj
    ensures DegreeTotal(adj, part, part) == 2 * LinkedPairs(link, part)
  {
    if part != [] {
      var rest, v := part[..|part| - 1], part[|part| - 1];
      assert part == rest + [v];
      assert v !in rest;
      DegreesCountLinks(adj, link, rest);
      TotalGrows(adj, link, rest, rest, v);
      NeighborsAreLinks(adj, link, part, v);
    }
  }

  /** A connected part of n vertices has at least n - 1 linked pairs: each vertex is linked to one found before. */
  lemma {:induction false} ConnectedPartHasTreeEdges(adj: Adjacency, link: (Vertex, Vertex) -> bool, order: seq<Vertex>)
    requires Records(adj, link) && GrowsByLinks(adj, order)
    ensures LinkedPairs(link, order) >= |order| - 1
  {
    if |order| > 1 {
      var rest, v := order[..|order| - 1], order[|order| - 1];
      assert order == rest + [v];
      ConnectedPartHasTreeEdges(adj, link, rest);
      var w :| w in rest && w in adj && v in adj[w];
      LinksToBounds(link, rest, v);
    }
  }

  /** The vertices of a part that are linked to themselves. */
  ghost function Loops(link: (Vertex, Vertex) -> bool, part: seq<Vertex>): nat {
    if part == [] then 0
    else Loops(link, part[..|part| - 1]) + if link(part[|part| - 1], part[|part| - 1]) then 1 else 0
  }

  /** The pairs of different positions that are not linked. */
  ghost function UnlinkedPairs(link: (Vertex, Vertex) -> bool, part: seq<Vertex>): nat {
    if part == [] then 0
    else
      var rest, v := part[..|part| - 1], part[|part| - 1];
      LinksToBounds(link, rest, v);
      UnlinkedPairs(link, rest) + |rest| - LinksTo(link, rest, v)
  }

  /** Linked pairs are all pairs, less the unlinked ones, and the loops. */
  lemma {:induction false} LinkedAndUnlinked(link: (Vertex, Vertex) -> bool, part: seq<Vertex>)
    ensures 2 * LinkedPairs(link, part) == |part| * (|part| - 1) - 2 * UnlinkedPairs(link, part) + 2 * Loops(link, part)
  {
    if part != [] {
      var rest := part[..|part| - 1];
      LinkedAndUnlinked(link, rest);
      PairsOfOneMore(|rest|);
    }
  }

  lemma {:induction false} NoLoops(link: (Vertex, Vertex) -> bool, part: seq<Vertex>)
    ensures Loops(link, part) == 0 <==> forall u :: u in part ==> !link(u, u)
  {
    if part != [] {
      assert part == part[..|part| - 1] + [part[|part| - 1]];
      NoLoops(link, part[..|part| - 1]);
    }
  }

  ghost function LoopPositions(link: (Vertex, Vertex) -> bool, part: seq<Vertex>): set<nat> {
    set i: nat | i < |part| && link(part[i], part[i])
  }

  lemma {:induction false} LoopsCount(link: (Vertex, Vertex) -> bool, part: seq<Vertex>)
    ensures Loops(link, part) == |LoopPositions(link, part)|
  {
    if part != [] {
      var n := |part| - 1;
      LoopsCount(link, part[..n]);
      assert LoopPositions(link, part)
        == LoopPositions(link, part[..n]) + if link(part[n], part[n]) then {n} else {};
    }
  }

  lemma PairsOfOneMore(n: nat)
    ensures (n + 1) * n == n * (n - 1) + 2 * n
  {
  }

  /** The density of a part of two or more vertices, times its ordered pairs, is twice its linked pairs. */
  lemma DensityIsLinkedPairs(adj: Adjacency, link: (Vertex, Vertex) -> bool, part: seq<Vertex>)
    requires Undirected(adj) && Records(adj, link) && Distinct(part)
    requires forall u :: u in part ==> u in adj
    ensures |part| >= 2 ==> IsDensity(link, part, Density(adj, part))
    ensures |part| <= 1 ==> Density(adj, part) == 0.0
  {
    DegreesCountLinks(adj, link, part);
    LinkedPairsCount(link, part);
    RatioOfHalf(|part|, DegreeTotal(adj, part, part), |LinkedPositions(link, part)|, Density(adj, part));
  }

  /** The density of a connected part of n vertices is at least 2/n, and that of any part at most 1 exactly when loops
      do not outnumber unlinked pairs. */
  lemma LinkedPairsBounds(adj: Adjacency, link: (Vertex, Vertex) -> bool, part: seq<Vertex>, density: real)
    requires Records(adj, link) && |part| >= 2 && IsDensity(link, part, density)
    ensures GrowsByLinks(adj, part) ==> density >= 2.0 / |part| as real
    ensures density <= 1.0 <==> Loops(link, part) <= UnlinkedPairs(link, part)
  {
    var m := |LinkedPositions(link, part)|;
    LinkedPairsCount(link, part);
    if GrowsByLinks(adj, part) {
      ConnectedPartHasTreeEdges(adj, link, part);
      DensityAtLeast(|part|, m, density);
    }
    DensityAtMostOneIff(|part|, m, density, UnlinkedPairs(link, part), Loops(link, part)) by {
      LinkedAndUnlinked(link, part);
    }
  }

  /** Edges over possible edges; 0 for a single vertex or no edge. */
  function Ratio(n: nat, m: nat): real {
    if m == 0 || n <= 1 then 0.0
    else
      ProductPositive(n);
      2.0 * m as real / (n * (n - 1)) as real
  }

  lemma ProductPositive(n: nat)
    requires n >= 2
    ensures n * (n - 1) > 0
  {
  }

  lemma RatioOfHalf(n: nat, total: nat, m: nat, density: real)
    requires total == 2 * m && density == Ratio(n, total / 2)
    ensures n >= 2 ==> DensityOf(n, m, density)
    ensures n <= 1 ==> density == 0.0
  {
    if n >= 2 {
      ProductPositive(n);
      assert (n * (n - 1)) as real == n as real * (n - 1) as real;
      QuotientTimes(2.0 * m as real, n as real, (n - 1) as real);
    }
  }

  lemma QuotientTimes(a: real, x: real, y: real)
    requires x * y > 0.0
    ensures a / (x * y) * x * y == a
  {
    var q := a / (x * y);
    assert q * (x * y) == a;
  }

  lemma DensityAtLeast(n: nat, m: nat, density: real)
    requires n >= 2 && m >= n - 1 && DensityOf(n, m, density)
    ensures density >= 2.0 / n as real
  {
    ProductAtLeast(density, n as real, (n - 1) as real, m as real);
  }

  lemma ProductAtLeast(d: real, x: real, y: real, m: real)
    requires x > 0.0 && y > 0.0 && d * x * y == 2.0 * m && m >= y
    ensures d >= 2.0 / x
  {
    assert (d * x - 2.0) * y >= 0.0;
    assert d * x >= 2.0;
    assert 2.0 / x * x == 2.0;
    assert (d - 2.0 / x) * x >= 0.0;
  }

  lemma DensityAtMostOneIff(n: nat, m: nat, density: real, unlinked: nat, loops: nat)
    requires n >= 2 && DensityOf(n, m, density) && 2 * m == n * (n - 1) - 2 * unlinked + 2 * loops
    ensures density <= 1.0 <==> loops <= unlinked
  {
    ProductPositive(n);
    assert (n * (n - 1)) as real == n as real * (n - 1) as real;
    ProductAtMostIff(density, n as real, (n - 1) as real, 2.0 * m as real);
  }

  lemma ProductAtMostIff(d: real, x: real, y: real, total: real)
    requires x * y > 0.0 && d * x * y == total
    ensures d <= 1.0 <==> total <= x * y
  {
    assert d * x * y == d * (x * y);
    if d <= 1.0 { assert d * (x * y) <= 1.0 * (x * y); } else { assert (d - 1.0) * (x * y) > 0.0; }
  }
}
