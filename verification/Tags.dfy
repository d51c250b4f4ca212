/** The tag registry: tags by identifier, assignments, and two counters per tag name. */
module TagRegistry {
  import opened Sequences

  type TagId = nat

  datatype Tag = Tag(name: string, category: string, autoGenerated: bool)

  datatype Assignment = Assignment(document: string, tagId: TagId)

  /** One state of the registry; `order` is the insertion order of the tag table. */
  datatype Board = Board(
    tags: map<TagId, Tag>,
    order: seq<TagId>,
    assignments: seq<Assignment>,
    counter: map<string, int>,
    usage: map<string, int>)

  const EMPTY_BOARD := Board(map[], [], [], map[], map[])

  function At(m: map<string, int>, name: string): int {
    if name in m then m[name] else 0
  }

  /** The first tag of that name in the table. */
  function ByName(tags: map<TagId, Tag>, order: seq<TagId>, name: string): Option<TagId> {
    if order == [] then None
    else if order[0] in tags && tags[order[0]].name == name then Some(order[0])
    else ByName(tags, order[1..], name)
  }

  function Find(b: Board, name: string): Option<TagId> {
    ByName(b.tags, b.order, name)
  }

  /** Holds in every reachable state. */
  ghost predicate Consistent(b: Board) {
    && (forall id :: id in b.order <==> id in b.tags)
    && (forall i, j :: i in b.tags && j in b.tags && b.tags[i].name == b.tags[j].name ==> i == j)
    && (forall a :: a in b.assignments ==> a.tagId in b.tags)
    && (forall n :: n in b.counter || n in b.usage ==> Find(b, n).Some?)
    && (forall n :: 0 <= At(b.counter, n) <= At(b.usage, n))
  }

  lemma {:induction false} ByNameFinds(tags: map<TagId, Tag>, order: seq<TagId>, name: string)
    ensures ByName(tags, order, name).Some? ==>
      ByName(tags, order, name).value in order && ByName(tags, order, name).value in tags
      && tags[ByName(tags, order, name).value].name == name
    ensures ByName(tags, order, name).None? ==> forall id :: id in order && id in tags ==> tags[id].name != name
  {
    if order != [] { ByNameFinds(tags, order[1..], name); }
  }

  /** In a consistent registry a tag is found by name iff it is the one tag of that name. */
  lemma FindIsTheTag(b: Board, name: string, id: TagId)
    requires Consistent(b)
    ensures Find(b, name) == Some(id) <==> id in b.tags && b.tags[id].name == name
  {
    ByNameFinds(b.tags, b.order, name);
  }

  // ---------------------------------------------------------------- operations on states

  function AddTagTo(b: Board, tag: Tag, newId: TagId): (Board, TagId) {
    match Find(b, tag.name)
    case Some(id) => (b, id)
    case None =>
      (b.(tags := b.tags[newId := tag], order := b.order + [newId], counter := b.counter[tag.name := 0]), newId)
  }

  /** The registry with one more assignment of the tag, counted. */
  function Noted(t: Board, document: string, name: string, id: TagId): Board {
    t.(assignments := t.assignments + [Assignment(document, id)],
       counter := t.counter[name := At(t.counter, name) + 1],
       usage := t.usage[name := At(t.usage, name) + 1])
  }

  function AssignTo(b: Board, document: string, name: string, auto: bool, newId: TagId): Board {
    var (t, id) := AddTagTo(b, Tag(name, "custom", auto), newId);
    Noted(t, document, name, id)
  }

  function Others(document: string, id: TagId): Assignment -> bool {
    (a: Assignment) => !(a.document == document && a.tagId == id)
  }

  function UnassignFrom(b: Board, document: string, name: string): (Board, bool) {
    match Find(b, name)
    case None => (b, false)
    case Some(id) =>
      (b.(assignments := Filter(b.assignments, Others(document, id)),
          counter := if At(b.counter, name) > 0 then b.counter[name := At(b.counter, name) - 1] else b.counter),
       true)
  }

  lemma AddTagKeepsConsistent(b: Board, tag: Tag, newId: TagId)
    requires Consistent(b) && newId !in b.tags
    ensures Consistent(AddTagTo(b, tag, newId).0)
    ensures Find(AddTagTo(b, tag, newId).0, tag.name) == Some(AddTagTo(b, tag, newId).1)
    ensures forall n :: Find(b, n).Some? ==> Find(AddTagTo(b, tag, newId).0, n) == Find(b, n)
  {
    var (t, id) := AddTagTo(b, tag, newId);
    ByNameFinds(b.tags, b.order, tag.name);
    forall n
      ensures n == tag.name ==> Find(t, n) == Some(id)
      ensures Find(b, n).Some? ==> Find(t, n) == Find(b, n)
    {
      ByNameFinds(t.tags, t.order, n);
      ByNameFinds(b.tags, b.order, n);
      if Find(b, n).Some? && Find(b, tag.name).None? {
        assert Find(b, n).value in t.tags && t.tags[Find(b, n).value].name == n;
        assert Find(t, n).Some? && Find(t, n).value != newId;
      }
      if n == tag.name && Find(b, n).None? {
        assert t.order[|b.order|] == newId && t.tags[newId].name == n;
        assert Find(t, n).Some?;
      }
    }
    forall n ensures 0 <= At(t.counter, n) <= At(t.usage, n) {
      assert 0 <= At(b.counter, n) <= At(b.usage, n);
    }
  }

  lemma AssignKeepsConsistent(b: Board, document: string, name: string, auto: bool, newId: TagId)
    requires Consistent(b) && newId !in b.tags
    ensures Consistent(AssignTo(b, document, name, auto, newId))
  {
    var (t, id) := AddTagTo(b, Tag(name, "custom", auto), newId);
    AddTagKeepsConsistent(b, Tag(name, "custom", auto), newId);
    FindIsTheTag(t, name, id);
    var u := AssignTo(b, document, name, auto, newId);
    assert forall n :: Find(u, n) == Find(t, n);
    forall n ensures 0 <= At(u.counter, n) <= At(u.usage, n) {
      assert 0 <= At(t.counter, n) <= At(t.usage, n);
    }
  }

  lemma UnassignKeepsConsistent(b: Board, document: string, name: string)
    requires Consistent(b)
    ensures Consistent(UnassignFrom(b, document, name).0)
  {
    var u := UnassignFrom(b, document, name).0;
    assert forall n :: Find(u, n) == Find(b, n);
    forall n ensures 0 <= At(u.counter, n) <= At(u.usage, n) {
      assert 0 <= At(b.counter, n) <= At(b.usage, n);
    }
  }

  /** Assigning appends one assignment, to the tag of that name, which is entered as a custom one when it is new; and it
      counts under that name only. */
  lemma AssignAppends(b: Board, document: string, name: string, auto: bool, newId: TagId)
    requires Consistent(b) && newId !in b.tags
    ensures var u := AssignTo(b, document, name, auto, newId);
      && (forall id :: id in b.tags && b.tags[id].name == name ==>
            u.tags == b.tags && u.order == b.order && u.assignments == b.assignments + [Assignment(document, id)])
      && ((forall id :: id in b.tags ==> b.tags[id].name != name) ==>
            && u.tags == b.tags[newId := Tag(name, "custom", auto)] && u.order == b.order + [newId]
            && u.assignments == b.assignments + [Assignment(document, newId)])
      && (forall n :: n != name ==> At(u.counter, n) == At(b.counter, n) && At(u.usage, n) == At(b.usage, n))
  {
    forall id | id in b.tags && b.tags[id].name == name ensures Find(b, name) == Some(id) {
      FindIsTheTag(b, name, id);
    }
    ByNameFinds(b.tags, b.order, name);
  }

  /** Unassigning succeeds exactly for a known name; it takes away every assignment of the pair and no other. */
  lemma UnassignTakesThePair(b: Board, document: string, name: string, a: Assignment)
    requires Consistent(b)
    ensures var (u, found) := UnassignFrom(b, document, name);
      && (found <==> exists id :: id in b.tags && b.tags[id].name == name)
      && u.tags == b.tags && u.order == b.order && u.usage == b.usage
      && multiset(u.assignments)[a]
         == if a.document == document && a.tagId in b.tags && b.tags[a.tagId].name == name then 0
            else multiset(b.assignments)[a]
  {
    ByNameFinds(b.tags, b.order, name);
    if Find(b, name).Some? {
      FindIsTheTag(b, name, a.tagId);
      FilterCounts(b.assignments, Others(document, Find(b, name).value), a);
    }
  }

  // ---------------------------------------------------------------- the two views

  function TagNamesOf(b: Board, document: string, upTo: seq<Assignment>): seq<string> {
    if upTo == [] then []
    else
      var before, a := TagNamesOf(b, document, upTo[..|upTo| - 1]), upTo[|upTo| - 1];
      if a.document == document && a.tagId in b.tags then before + [b.tags[a.tagId].name] else before
  }

  function DocumentsOf(id: TagId, upTo: seq<Assignment>): seq<string> {
    if upTo == [] then []
    else
      var before, a := DocumentsOf(id, upTo[..|upTo| - 1]), upTo[|upTo| - 1];
      if a.tagId == id then before + [a.document] else before
  }

  function GetDocumentTags(b: Board, document: string): seq<string> {
    TagNamesOf(b, document, b.assignments)
  }

  function GetDocumentsByTag(b: Board, name: string): seq<string> {
    match Find(b, name)
    case None => []
    case Some(id) => DocumentsOf(id, b.assignments)
  }

  lemma {:induction false} NameCounts(b: Board, document: string, name: string, id: TagId, upTo: seq<Assignment>)
    requires Consistent(b) && id in b.tags && b.tags[id].name == name
    requires forall a :: a in upTo ==> a.tagId in b.tags
    ensures multiset(TagNamesOf(b, document, upTo))[name] == multiset(upTo)[Assignment(document, id)]
  {
    if upTo != [] {
      var n := |upTo| - 1;
      assert upTo == upTo[..n] + [upTo[n]];
      NameCounts(b, document, name, id, upTo[..n]);
    }
  }

  lemma {:induction false} DocumentCounts(document: string, id: TagId, upTo: seq<Assignment>)
    ensures multiset(DocumentsOf(id, upTo))[document] == multiset(upTo)[Assignment(document, id)]
  {
    if upTo != [] {
      var n := |upTo| - 1;
      assert upTo == upTo[..n] + [upTo[n]];
      DocumentCounts(document, id, upTo[..n]);
    }
  }

  lemma {:induction false} UnknownNameIsNowhere(b: Board, document: string, name: string, upTo: seq<Assignment>)
    requires forall id :: id in b.tags ==> b.tags[id].name != name
    ensures name !in TagNamesOf(b, document, upTo)
  {
    if upTo != [] { UnknownNameIsNowhere(b, document, name, upTo[..|upTo| - 1]); }
  }

  /** A document lists a tag as often as the tag lists the document. */
  lemma ViewsAgree(b: Board, document: string, name: string)
    requires Consistent(b)
    ensures multiset(GetDocumentTags(b, document))[name] == multiset(GetDocumentsByTag(b, name))[document]
    ensures name in GetDocumentTags(b, document) <==> document in GetDocumentsByTag(b, name)
  {
    ByNameFinds(b.tags, b.order, name);
    var tags, docs := GetDocumentTags(b, document), GetDocumentsByTag(b, name);
    if Find(b, name).Some? {
      NameCounts(b, document, name, Find(b, name).value, b.assignments);
      DocumentCounts(document, Find(b, name).value, b.assignments);
      assert name in tags <==> name in multiset(tags);
      assert document in docs <==> document in multiset(docs);
    } else {
      UnknownNameIsNowhere(b, document, name, b.assignments);
      assert name !in multiset(tags);
    }
  }

  // ---------------------------------------------------------------- the counter and the live assignments

  function Live(b: Board, name: string): nat {
    |GetDocumentsByTag(b, name)|
  }

  function Pairs(b: Board, document: string, name: string): nat {
    match Find(b, name)
    case None => 0
    case Some(id) => multiset(b.assignments)[Assignment(document, id)]
  }

  lemma {:induction false} RemovingPairs(document: string, id: TagId, other: TagId, upTo: seq<Assignment>)
    ensures var kept := Filter(upTo, Others(document, id));
      |DocumentsOf(other, kept)|
        == |DocumentsOf(other, upTo)| - (if other == id then multiset(upTo)[Assignment(document, id)] else 0)
  {
    if upTo != [] {
      var n := |upTo| - 1;
      var rest := Filter(upTo[..n], Others(document, id));
      assert upTo == upTo[..n] + [upTo[n]];
      RemovingPairs(document, id, other, upTo[..n]);
      assert (rest + [upTo[n]])[..|rest|] == rest;
    }
  }

  lemma {:induction false} PairsAtMostLive(document: string, id: TagId, upTo: seq<Assignment>)
    ensures multiset(upTo)[Assignment(document, id)] <= |DocumentsOf(id, upTo)|
  {
    if upTo != [] {
      var n := |upTo| - 1;
      assert upTo == upTo[..n] + [upTo[n]];
      PairsAtMostLive(document, id, upTo[..n]);
    }
  }

  ghost predicate CounterIsLive(b: Board) {
    forall n :: At(b.counter, n) == Live(b, n)
  }

  /** Assigning always keeps the counter equal to the live assignments. */
  lemma AssignKeepsCounter(b: Board, document: string, name: string, auto: bool, newId: TagId)
    requires Consistent(b) && newId !in b.tags && CounterIsLive(b)
    ensures CounterIsLive(AssignTo(b, document, name, auto, newId))
  {
    var (t, id) := AddTagTo(b, Tag(name, "custom", auto), newId);
    AddTagKeepsConsistent(b, Tag(name, "custom", auto), newId);
    forall n
      ensures At(AssignTo(b, document, name, auto, newId).counter, n)
        == Live(AssignTo(b, document, name, auto, newId), n)
    {
      AddTagKeepsLive(b, Tag(name, "custom", auto), newId, n);
      OneMoreLive(t, document, name, id, n);
    }
  }

  lemma OneMoreLive(t: Board, document: string, name: string, id: TagId, n: string)
    requires Consistent(t) && Find(t, name) == Some(id)
    ensures Live(Noted(t, document, name, id), n) == Live(t, n) + if n == name then 1 else 0
  {
    var u := Noted(t, document, name, id);
    assert u.assignments[..|t.assignments|] == t.assignments;
    assert Find(u, n) == Find(t, n);
    if n != name && Find(t, n).Some? {
      FindIsTheTag(t, n, Find(t, n).value);
      FindIsTheTag(t, name, id);
    }
  }

  lemma AddTagKeepsLive(b: Board, tag: Tag, newId: TagId, n: string)
    requires Consistent(b) && newId !in b.tags
    ensures var t := AddTagTo(b, tag, newId).0;
      Live(t, n) == Live(b, n) && (At(b.counter, n) == Live(b, n) ==> At(t.counter, n) == Live(t, n))
  {
    var t := AddTagTo(b, tag, newId).0;
    AddTagKeepsConsistent(b, tag, newId);
    if Find(b, n).None? && Find(t, n).Some? {
      FindIsTheTag(t, n, Find(t, n).value);
      ByNameFinds(b.tags, b.order, n);
      NoDocuments(newId, b.assignments);
    }
  }

  lemma {:induction false} NoDocuments(id: TagId, upTo: seq<Assignment>)
    requires forall a :: a in upTo ==> a.tagId != id
    ensures DocumentsOf(id, upTo) == []
  {
    if upTo != [] {
      assert upTo[|upTo| - 1] in upTo;
      NoDocuments(id, upTo[..|upTo| - 1]);
    }
  }

  /** Unassigning takes every assignment of the pair but counts one: the counter stays right exactly when the pair was
      assigned once, or the tag nowhere. */
  lemma UnassignKeepsCounterIff(b: Board, document: string, name: string)
    requires Consistent(b) && CounterIsLive(b) && Find(b, name).Some?
    ensures CounterIsLive(UnassignFrom(b, document, name).0) <==> Pairs(b, document, name) == 1 || Live(b, name) == 0
  {
    var u, id := UnassignFrom(b, document, name).0, Find(b, name).value;
    PairsAtMostLive(document, id, b.assignments);
    forall n ensures Live(u, n) == Live(b, n) - if n == name then Pairs(b, document, name) else 0 {
      assert Find(u, n) == Find(b, n);
      if Find(b, n).Some? {
        RemovingPairs(document, id, Find(b, n).value, b.assignments);
        FindIsTheTag(b, n, Find(b, n).value);
        FindIsTheTag(b, name, id);
      }
    }
    assert At(b.counter, name) == Live(b, name);
    if Pairs(b, document, name) == 1 || Live(b, name) == 0 {
      forall n ensures At(u.counter, n) == Live(u, n) {
        assert At(b.counter, n) == Live(b, n);
      }
    } else {
      assert At(u.counter, name) != Live(u, name);
    }
  }

  // ---------------------------------------------------------------- runs

  datatype Op =
    | AddTag(tag: Tag, newId: TagId)
    | Assign(document: string, name: string, auto: bool, newId: TagId)
    | Unassign(document: string, name: string)

  function Apply(b: Board, op: Op): Board {
    match op
    case AddTag(tag, newId) => AddTagTo(b, tag, newId).0
    case Assign(document, name, auto, newId) => AssignTo(b, document, name, auto, newId)
    case Unassign(document, name) => UnassignFrom(b, document, name).0
  }

  function Run(ops: seq<Op>): Board {
    if ops == [] then EMPTY_BOARD else Apply(Run(ops[..|ops| - 1]), ops[|ops| - 1])
  }

  /** Identifiers drawn for new tags are new. */
  ghost predicate FreshIds(ops: seq<Op>) {
    ops == [] ||
    var b, op := Run(ops[..|ops| - 1]), ops[|ops| - 1];
    FreshIds(ops[..|ops| - 1]) && (op.AddTag? || op.Assign? ==> op.newId !in b.tags)
  }

  /** The discipline of the tag panel: assign only an absent pair, unassign only a present one. */
  ghost predicate Disciplined(ops: seq<Op>) {
    ops == [] ||
    var b, op := Run(ops[..|ops| - 1]), ops[|ops| - 1];
    && Disciplined(ops[..|ops| - 1])
    && (op.Assign? ==> op.name !in GetDocumentTags(b, op.document))
    && (op.Unassign? ==> op.name in GetDocumentTags(b, op.document))
  }

  lemma {:induction false} EveryRunIsConsistent(ops: seq<Op>)
    requires FreshIds(ops)
    ensures Consistent(Run(ops))
  {
    if ops != [] {
      var b := Run(ops[..|ops| - 1]);
      EveryRunIsConsistent(ops[..|ops| - 1]);
      match ops[|ops| - 1]
      case AddTag(tag, newId) => AddTagKeepsConsistent(b, tag, newId);
      case Assign(document, name, auto, newId) => AssignKeepsConsistent(b, document, name, auto, newId);
      case Unassign(document, name) => UnassignKeepsConsistent(b, document, name);
    }
  }

  /** The assignments ever made to a name, by their position in the run. */
  ghost function AssignmentsMade(ops: seq<Op>, name: string): set<nat> {
    set i: nat | i < |ops| && ops[i].Assign? && ops[i].name == name
  }

  /** In every run the usage counter of a name is the number of assignments ever made to it, undone or not. */
  lemma {:induction false} UsageCountsAssignments(ops: seq<Op>, name: string)
    ensures At(Run(ops).usage, name) == |AssignmentsMade(ops, name)|
  {
    if ops != [] {
      var n := |ops| - 1;
      UsageCountsAssignments(ops[..n], name);
      assert AssignmentsMade(ops, name)
        == AssignmentsMade(ops[..n], name) + if ops[n].Assign? && ops[n].name == name then {n} else {};
      UsageAfter(Run(ops[..n]), ops[n], name);
    }
  }

  lemma UsageAfter(b: Board, op: Op, name: string)
    ensures At(Apply(b, op).usage, name) == At(b.usage, name) + if op.Assign? && op.name == name then 1 else 0
  {
  }

  ghost predicate NoRepeatedPair(b: Board) {
    forall a :: multiset(b.assignments)[a] <= 1
  }

  lemma PresentPair(b: Board, document: string, name: string)
    requires Consistent(b)
    ensures multiset(GetDocumentTags(b, document))[name] == Pairs(b, document, name)
    ensures name in GetDocumentTags(b, document) <==> Pairs(b, document, name) > 0
  {
    ViewsAgree(b, document, name);
    ByNameFinds(b.tags, b.order, name);
    var tags := GetDocumentTags(b, document);
    assert name in tags <==> name in multiset(tags);
    if Find(b, name).Some? { NameCounts(b, document, name, Find(b, name).value, b.assignments); }
  }

  /** In every run that keeps the discipline the counter of each tag is the number of its live assignments. */
  lemma {:induction false} DisciplinedRunsCountLive(ops: seq<Op>)
    requires FreshIds(ops) && Disciplined(ops)
    ensures CounterIsLive(Run(ops)) && NoRepeatedPair(Run(ops))
  {
    if ops != [] {
      var b := Run(ops[..|ops| - 1]);
      DisciplinedRunsCountLive(ops[..|ops| - 1]);
      EveryRunIsConsistent(ops[..|ops| - 1]);
      match ops[|ops| - 1]
      case AddTag(tag, newId) =>
        forall n ensures At(Run(ops).counter, n) == Live(Run(ops), n) { AddTagKeepsLive(b, tag, newId, n); }
      case Assign(document, name, auto, newId) =>
        AssignKeepsCounter(b, document, name, auto, newId);
        PresentPair(b, document, name);
        AssignedOnce(b, document, name, auto, newId);
      case Unassign(document, name) =>
        PresentPair(b, document, name);
        UnassignKeepsCounterIff(b, document, name);
        forall a ensures multiset(Run(ops).assignments)[a] <= 1 {
          FilterCounts(b.assignments, Others(document, Find(b, name).value), a);
        }
    }
  }

  lemma AssignedOnce(b: Board, document: string, name: string, auto: bool, newId: TagId)
    requires Consistent(b) && newId !in b.tags && NoRepeatedPair(b) && Pairs(b, document, name) == 0
    ensures NoRepeatedPair(AssignTo(b, document, name, auto, newId))
  {
    var u := AssignTo(b, document, name, auto, newId);
    var id := AddTagTo(b, Tag(name, "custom", auto), newId).1;
    assert u.assignments == b.assignments + [Assignment(document, id)];
    if Find(b, name).None? {
      assert Assignment(document, id) !in b.assignments;
      assert Assignment(document, id) !in multiset(b.assignments);
    }
  }

  lemma FirstAssignment(document: string, name: string, id: TagId)
    ensures AssignTo(EMPTY_BOARD, document, name, false, id)
         == Board(map[id := Tag(name, "custom", false)], [id], [Assignment(document, id)], map[name := 1],
           map[name := 1])
  {
    assert EMPTY_BOARD.order + [id] == [id];
    assert EMPTY_BOARD.assignments + [Assignment(document, id)] == [Assignment(document, id)];
  }

  lemma SecondAssignment(b: Board, document: string, name: string, id: TagId, other: TagId)
    requires Find(b, name) == Some(id)
    ensures var u := AssignTo(b, document, name, false, other);
      && u.assignments == b.assignments + [Assignment(document, id)] && u.tags == b.tags && u.order == b.order
      && u.counter == b.counter[name := At(b.counter, name) + 1]
  {
  }

  /** A pair assigned twice and unassigned once: the counter says 1 and nothing is assigned. */
  lemma DoubleAssignmentUnbalances(document: string, name: string, id: TagId, other: TagId)
    requires id != other
    ensures var ops := [Assign(document, name, false, id), Assign(document, name, false, other),
      Unassign(document, name)];
      FreshIds(ops) && At(Run(ops).counter, name) == 1 && Live(Run(ops), name) == 0
  {
    var one := Assign(document, name, false, id);
    var two := Assign(document, name, false, other);
    var ops := [one, two, Unassign(document, name)];
    assert ops[..2] == [one, two] && [one, two][..1] == [one] && [one][..0] == [];
    FirstAssignment(document, name, id);
    var b := Run([one]);
    assert FreshIds([]) && FreshIds([one]) && FreshIds([one, two]);
    assert Find(b, name) == Some(id);
    SecondAssignment(b, document, name, id, other);
    var c := Run([one, two]);
    TakenBack(c, document, name, id);
  }

  lemma TakenBack(c: Board, document: string, name: string, id: TagId)
    requires Find(c, name) == Some(id) && At(c.counter, name) == 2
    requires forall a :: a in c.assignments ==> a == Assignment(document, id)
    ensures At(UnassignFrom(c, document, name).0.counter, name) == 1
      && Live(UnassignFrom(c, document, name).0, name) == 0
  {
    var u := UnassignFrom(c, document, name).0;
    FilterNone(c.assignments, Others(document, id));
    assert u.assignments == [];
    assert Find(u, name) == Find(c, name);
  }

  // ---------------------------------------------------------------- the object

  class TagManager {
    var tags: map<TagId, Tag>
    var order: seq<TagId>
    var assignments: seq<Assignment>
    var tagCounter: map<string, int>
    var tagUsage: map<string, int>

    function State(): Board
      reads this
    {
      Board(tags, order, assignments, tagCounter, tagUsage)
    }

    constructor ()
      ensures State() == EMPTY_BOARD
    {
      tags, order, assignments, tagCounter, tagUsage := map[], [], [], map[], map[];
    }

    method GetTagByName(name: string) returns (r: Option<TagId>)
      ensures r == Find(State(), name)
    {
      for i := 0 to |order|
        invariant ByName(tags, order, name) == ByName(tags, order[i..], name)
      {
        if order[i] in tags && tags[order[i]].name == name {
          return Some(order[i]);
        }
      }
      return None;
    }

    method AddTag(tag: Tag, newId: TagId) returns (id: TagId)
      modifies this
      ensures (State(), id) == AddTagTo(old(State()), tag, newId)
    {
      var existing := GetTagByName(tag.name);
      if existing.Some? {
        return existing.value;
      }
      tags := tags[newId := tag];
      order := order + [newId];
      tagCounter := tagCounter[tag.name := 0];
      return newId;
    }

    method AssignTag(document: string, name: string, auto: bool, newId: TagId)
      modifies this
      ensures State() == AssignTo(old(State()), document, name, auto, newId)
    {
      var found := GetTagByName(name);
      var id;
      if found.Some? {
        id := found.value;
      } else {
        id := AddTag(Tag(name, "custom", auto), newId);
      }
      assignments := assignments + [Assignment(document, id)];
      tagCounter := tagCounter[name := At(tagCounter, name) + 1];
      tagUsage := tagUsage[name := At(tagUsage, name) + 1];
    }

    method UnassignTag(document: string, name: string) returns (known: bool)
      modifies this
      ensures (State(), known) == UnassignFrom(old(State()), document, name)
    {
      var found := GetTagByName(name);
      if found.None? {
        return false;
      }
      assignments := Filter(assignments, Others(document, found.value));
      if At(tagCounter, name) > 0 {
        tagCounter := tagCounter[name := At(tagCounter, name) - 1];
      }
      return true;
    }
  }
}
