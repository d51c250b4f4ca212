/** Documents submitted in the same hour and the average similarity over all pairs of them. */
module TemporalPatterns {
  import opened Sequences
  import opened Network

  /** The hour a node was submitted in, if it carries a usable submission time. */
  type Clock = Node -> Option<string>

  datatype TemporalPattern = TemporalPattern(
    window: string, documentCount: nat, avgSimilarity: real, documents: seq<Id>, suspicious: bool)

  // ---------------------------------------------------------------- grouping by hour

  /** The hour a document is listed under. */
  function HourOf(nodes: map<Id, Node>, clock: Clock, n: Id): Option<string> {
    if n in nodes && nodes[n].kind == Document then clock(nodes[n]) else None
  }

  predicate SubmittedIn(nodes: map<Id, Node>, clock: Clock, hour: string, n: Id) {
    HourOf(nodes, clock, n) == Some(hour)
  }

  function GroupOf(nodes: map<Id, Node>, clock: Clock, order: seq<Id>, hour: string): seq<Id> {
    Filter(order, n => SubmittedIn(nodes, clock, hour, n))
  }

  method GroupByHour(nodes: map<Id, Node>, clock: Clock, order: seq<Id>)
    returns (hours: seq<string>, groups: map<string, seq<Id>>)
    ensures Distinct(hours) && forall h :: h in hours <==> h in groups
    ensures forall h :: h in groups <==> GroupOf(nodes, clock, order, h) != []
    ensures forall h :: h in groups ==> groups[h] == GroupOf(nodes, clock, order, h)
  {
    hours, groups := [], map[];
    for i := 0 to |order|
      invariant Distinct(hours) && Elements(hours) == groups.Keys
      invariant GroupsSoFar(nodes, clock, order[..i], groups)
    {
      var hour := HourOf(nodes, clock, order[i]);
      GroupsGrow(nodes, clock, order, i, groups);
      if hour.Some? {
        if hour.value !in groups {
          assert hour.value !in Elements(hours);
          hours := hours + [hour.value];
          groups := groups[hour.value := []];
        }
        groups := groups[hour.value := groups[hour.value] + [order[i]]];
      }
    }
    assert order[..|order|] == order;
    assert forall h :: h in hours <==> h in Elements(hours);
  }

  ghost predicate GroupsSoFar(nodes: map<Id, Node>, clock: Clock, seen: seq<Id>, groups: map<string, seq<Id>>) {
    && (forall h :: h in groups <==> GroupOf(nodes, clock, seen, h) != [])
    && (forall h :: h in groups ==> groups[h] == GroupOf(nodes, clock, seen, h))
  }

  /** The groups after n was put in that of its hour, which is opened when it is not there yet. */
  function Grouped(groups: map<string, seq<Id>>, hour: Option<string>, n: Id): map<string, seq<Id>> {
    match hour
    case None => groups
    case Some(h) => groups[h := if h in groups then groups[h] + [n] else [n]]
  }

  lemma GroupGrows(nodes: map<Id, Node>, clock: Clock, order: seq<Id>, i: nat, h: string)
    requires i < |order|
    ensures GroupOf(nodes, clock, order[..i + 1], h)
         == if HourOf(nodes, clock, order[i]) == Some(h) then GroupOf(nodes, clock, order[..i], h) + [order[i]]
            else GroupOf(nodes, clock, order[..i], h)
  {
    assert order[..i + 1][..i] == order[..i];
  }

  /** One more node enters the group of its hour and no other. */
  lemma GroupsGrow(nodes: map<Id, Node>, clock: Clock, order: seq<Id>, i: nat, groups: map<string, seq<Id>>)
    requires i < |order| && GroupsSoFar(nodes, clock, order[..i], groups)
    ensures GroupsSoFar(nodes, clock, order[..i + 1], Grouped(groups, HourOf(nodes, clock, order[i]), order[i]))
  {
    var now := Grouped(groups, HourOf(nodes, clock, order[i]), order[i]);
    forall h
      ensures h in now <==> GroupOf(nodes, clock, order[..i + 1], h) != []
      ensures h in now ==> now[h] == GroupOf(nodes, clock, order[..i + 1], h)
    {
      GroupGrows(nodes, clock, order, i, h);
    }
  }

  /** The hour groups partition the dated documents: each is in the group of its own hour, once, and in no other. */
  lemma GroupsPartition(s: Net, clock: Clock, n: Id, hour: string)
    requires Consistent(s)
    ensures multiset(GroupOf(s.nodes, clock, s.order, hour))[n]
      == if n in s.nodes && s.nodes[n].kind == Document && clock(s.nodes[n]) == Some(hour) then 1 else 0
  {
    var group := GroupOf(s.nodes, clock, s.order, hour);
    FilterDistinct(s.order, m => SubmittedIn(s.nodes, clock, hour, m));
    DistinctCount(group, n);
    assert n in s.order <==> n in Elements(s.order);
  }

  lemma {:induction false} DistinctCount(s: seq<Id>, n: Id)
    requires Distinct(s)
    ensures multiset(s)[n] == if n in s then 1 else 0
  {
    if s != [] {
      var rest, last := s[..|s| - 1], s[|s| - 1];
      assert s == rest + [last];
      assert last !in rest;
      DistinctCount(rest, n);
    }
  }

  // ---------------------------------------------------------------- similarity of a pair

  predicate Between(e: Edge, a: Id, b: Id) {
    e.kind == Similarity && ((e.source == a && e.target == b) || (e.source == b && e.target == a))
  }

  /** The weight of the first similarity edge between two documents, in either direction; 0 without one. */
  function PairSimilarity(es: seq<Edge>, a: Id, b: Id): real {
    if es == [] then 0.0 else if Between(es[0], a, b) then es[0].weight else PairSimilarity(es[1..], a, b)
  }

  ghost predicate Joining(e: Edge, a: Id, b: Id) {
    e.kind == Similarity && {e.source, e.target} == {a, b}
  }

  /** The similarity of a pair is the weight of the first similarity edge with these two ends, and 0 without one. */
  lemma {:induction false} PairSimilarityIsFirst(es: seq<Edge>, a: Id, b: Id)
    ensures (forall k :: 0 <= k < |es| ==> !Joining(es[k], a, b)) ==> PairSimilarity(es, a, b) == 0.0
    ensures forall k :: 0 <= k < |es| && Joining(es[k], a, b) && (forall j :: 0 <= j < k ==> !Joining(es[j], a, b)) ==>
      PairSimilarity(es, a, b) == es[k].weight
  {
    if es != [] {
      PairSimilarityIsFirst(es[1..], a, b);
      JoiningIsBetween(es[0], a, b);
      assert forall k :: 0 < k < |es| ==> es[k] == es[1..][k - 1];
    }
  }

  lemma JoiningIsBetween(e: Edge, a: Id, b: Id)
    ensures Joining(e, a, b) <==> Between(e, a, b)
  {
    var ends, pair := {e.source, e.target}, {a, b};
    if ends == pair { assert a in ends && b in ends && e.source in pair && e.target in pair; }
  }

  lemma {:induction false} PairSimilarityIsSymmetric(es: seq<Edge>, a: Id, b: Id)
    ensures PairSimilarity(es, a, b) == PairSimilarity(es, b, a)
  {
    if es != [] { PairSimilarityIsSymmetric(es[1..], a, b); }
  }

  lemma {:induction false} PairSimilarityWithin(es: seq<Edge>, a: Id, b: Id, low: real, high: real)
    requires low <= 0.0 <= high && forall e :: e in es && e.kind == Similarity ==> low <= e.weight <= high
    ensures low <= PairSimilarity(es, a, b) <= high
  {
    if es != [] {
      assert es[0] in es;
      PairSimilarityWithin(es[1..], a, b, low, high);
    }
  }

  method FindSimilarity(es: seq<Edge>, a: Id, b: Id) returns (w: real)
    ensures w == PairSimilarity(es, a, b)
  {
    for i := 0 to |es|
      invariant PairSimilarity(es, a, b) == PairSimilarity(es[i..], a, b)
    {
      if (es[i].source == a && es[i].target == b) || (es[i].source == b && es[i].target == a) {
        if es[i].kind == Similarity {
          return es[i].weight;
        }
      }
    }
    return 0.0;
  }

  // ---------------------------------------------------------------- all pairs

  /** The similarities of docs[i] to the documents from position j on. */
  function RowFrom(es: seq<Edge>, docs: seq<Id>, i: nat, j: nat): seq<real>
    requires i < |docs|
    decreases |docs| - j
  {
    if j >= |docs| then [] else [PairSimilarity(es, docs[i], docs[j])] + RowFrom(es, docs, i, j + 1)
  }

  function PairsFrom(es: seq<Edge>, docs: seq<Id>, i: nat): seq<real>
    decreases |docs| - i
  {
    if i >= |docs| then [] else RowFrom(es, docs, i, i + 1) + PairsFrom(es, docs, i + 1)
  }

  function AllPairs(es: seq<Edge>, docs: seq<Id>): seq<real> {
    PairsFrom(es, docs, 0)
  }

  lemma {:induction false} RowLength(es: seq<Edge>, docs: seq<Id>, i: nat, j: nat)
    requires i < |docs| && j <= |docs|
    ensures |RowFrom(es, docs, i, j)| == |docs| - j
    decreases |docs| - j
  {
    if j < |docs| { RowLength(es, docs, i, j + 1); }
  }

  lemma {:induction false} PairsFromLength(es: seq<Edge>, docs: seq<Id>, i: nat)
    requires i <= |docs|
    ensures 2 * |PairsFrom(es, docs, i)| == (|docs| - i) * (|docs| - i - 1)
    decreases |docs| - i
  {
    if i < |docs| {
      var k := |docs| - i;
      RowLength(es, docs, i, i + 1);
      PairsFromLength(es, docs, i + 1);
      assert k * (k - 1) == (k - 1) * (k - 2) + 2 * (k - 1);
    }
  }

  /** k documents have exactly k(k - 1)/2 entries. */
  lemma AllPairsCount(es: seq<Edge>, docs: seq<Id>)
    ensures 2 * |AllPairs(es, docs)| == |docs| * (|docs| - 1)
  {
    PairsFromLength(es, docs, 0);
  }

  function Sum(xs: seq<real>): real {
    if xs == [] then 0.0 else xs[0] + Sum(xs[1..])
  }

  function Mean(xs: seq<real>): real {
    if xs == [] then 0.0 else Sum(xs) / |xs| as real
  }

  method CollectPairs(es: seq<Edge>, docs: seq<Id>) returns (similarities: seq<real>)
    ensures similarities == AllPairs(es, docs)
  {
    similarities := [];
    for i := 0 to |docs|
      invariant AllPairs(es, docs) == similarities + PairsFrom(es, docs, i)
    {
      ghost var before := similarities;
      for j := i + 1 to |docs|
        invariant before + RowFrom(es, docs, i, i + 1) == similarities + RowFrom(es, docs, i, j)
      {
        var w := FindSimilarity(es, docs[i], docs[j]);
        assert [w] + RowFrom(es, docs, i, j + 1) == RowFrom(es, docs, i, j);
        assert similarities + ([w] + RowFrom(es, docs, i, j + 1)) == similarities + [w] + RowFrom(es, docs, i, j + 1);
        similarities := similarities + [w];
      }
      assert before + RowFrom(es, docs, i, i + 1) == similarities;
      assert before + (RowFrom(es, docs, i, i + 1) + PairsFrom(es, docs, i + 1))
        == similarities + PairsFrom(es, docs, i + 1);
    }
  }

  lemma {:induction false} SumWithin(xs: seq<real>, low: real, high: real)
    requires forall x :: x in xs ==> low <= x <= high
    ensures low * |xs| as real <= Sum(xs) <= high * |xs| as real
  {
    if xs != [] {
      assert xs[0] in xs;
      assert forall x :: x in xs[1..] ==> x in xs;
      SumWithin(xs[1..], low, high);
      var n := |xs| as real;
      assert |xs[1..]| as real == n - 1.0;
      assert low * n == low * (n - 1.0) + low && high * n == high * (n - 1.0) + high;
    }
  }

  lemma QuotientWithin(total: real, n: nat, low: real, high: real)
    requires n > 0 && low * n as real <= total <= high * n as real
    ensures low <= total / n as real <= high
  {
    var q := total / n as real;
    assert q * n as real == total;
    CancelFactor(low, q, n as real);
    CancelFactor(q, high, n as real);
  }

  lemma CancelFactor(a: real, b: real, n: real)
    requires n > 0.0 && a * n <= b * n
    ensures a <= b
  {
    assert (a - b) * n <= 0.0;
  }

  lemma {:induction false} RowWithin(es: seq<Edge>, docs: seq<Id>, i: nat, j: nat, low: real, high: real)
    requires i < |docs| && low <= 0.0 <= high
    requires forall e :: e in es && e.kind == Similarity ==> low <= e.weight <= high
    ensures forall x :: x in RowFrom(es, docs, i, j) ==> low <= x <= high
    decreases |docs| - j
  {
    if j < |docs| {
      PairSimilarityWithin(es, docs[i], docs[j], low, high);
      RowWithin(es, docs, i, j + 1, low, high);
    }
  }

  lemma {:induction false} PairsWithin(es: seq<Edge>, docs: seq<Id>, i: nat, low: real, high: real)
    requires low <= 0.0 <= high
    requires forall e :: e in es && e.kind == Similarity ==> low <= e.weight <= high
    ensures forall x :: x in PairsFrom(es, docs, i) ==> low <= x <= high
    decreases |docs| - i
  {
    if i < |docs| {
      RowWithin(es, docs, i, i + 1, low, high);
      PairsWithin(es, docs, i + 1, low, high);
    }
  }

  /** The reported average stays within any bounds that hold 0 and the weights of the similarity edges: within [0, 1]
      when the weights are. */
  lemma AverageWithin(es: seq<Edge>, docs: seq<Id>, low: real, high: real)
    requires low <= 0.0 <= high
    requires forall e :: e in es && e.kind == Similarity ==> low <= e.weight <= high
    ensures low <= Mean(AllPairs(es, docs)) <= high
  {
    var xs := AllPairs(es, docs);
    if xs != [] {
      PairsWithin(es, docs, 0, low, high);
      SumWithin(xs, low, high);
      QuotientWithin(Sum(xs), |xs|, low, high);
    }
  }

  // ---------------------------------------------------------------- the order of documents does not matter

  function Towards(es: seq<Edge>, a: Id, docs: seq<Id>): real {
    if docs == [] then 0.0 else PairSimilarity(es, a, docs[0]) + Towards(es, a, docs[1..])
  }

  function Double(es: seq<Edge>, sources: seq<Id>, targets: seq<Id>): real {
    if sources == [] then 0.0 else Towards(es, sources[0], targets) + Double(es, sources[1..], targets)
  }

  function Selves(es: seq<Edge>, docs: seq<Id>): real {
    if docs == [] then 0.0 else PairSimilarity(es, docs[0], docs[0]) + Selves(es, docs[1..])
  }

  lemma {:induction false} SumAppend(xs: seq<real>, ys: seq<real>)
    ensures Sum(xs + ys) == Sum(xs) + Sum(ys)
  {
    if xs == [] {
      assert xs + ys == ys;
    } else {
      assert (xs + ys)[1..] == xs[1..] + ys;
      SumAppend(xs[1..], ys);
    }
  }

  lemma {:induction false} RowIsTowards(es: seq<Edge>, docs: seq<Id>, i: nat, j: nat)
    requires i < |docs| && j <= |docs|
    ensures Sum(RowFrom(es, docs, i, j)) == Towards(es, docs[i], docs[j..])
    decreases |docs| - j
  {
    if j < |docs| {
      RowIsTowards(es, docs, i, j + 1);
      assert docs[j..][1..] == docs[j + 1..];
    }
  }

  lemma {:induction false} ColumnIsTowards(es: seq<Edge>, a: Id, docs: seq<Id>, rest: seq<Id>)
    ensures Double(es, docs, [a] + rest) == Towards(es, a, docs) + Double(es, docs, rest)
  {
    if docs != [] {
      ColumnIsTowards(es, a, docs[1..], rest);
      PairSimilarityIsSymmetric(es, a, docs[0]);
      assert ([a] + rest)[1..] == rest;
    }
  }

  /** Twice the sum over pairs, plus the loops, is the sum over all ordered pairs. */
  lemma {:induction false} TwicePairsIsDouble(es: seq<Edge>, docs: seq<Id>, i: nat)
    requires i <= |docs|
    ensures 2.0 * Sum(PairsFrom(es, docs, i)) + Selves(es, docs[i..]) == Double(es, docs[i..], docs[i..])
    decreases |docs| - i
  {
    if i < |docs| {
      var a, rest := docs[i], docs[i + 1..];
      assert docs[i..] == [a] + rest && docs[i..][1..] == rest;
      TwicePairsIsDouble(es, docs, i + 1);
      SumAppend(RowFrom(es, docs, i, i + 1), PairsFrom(es, docs, i + 1));
      RowIsTowards(es, docs, i, i + 1);
      ColumnIsTowards(es, a, rest, rest);
    }
  }

  function Without(s: seq<Id>, k: nat): seq<Id>
    requires k < |s|
  {
    s[..k] + s[k + 1..]
  }

  lemma {:induction false} TowardsWithout(es: seq<Edge>, a: Id, s: seq<Id>, k: nat)
    requires k < |s|
    ensures Towards(es, a, s) == PairSimilarity(es, a, s[k]) + Towards(es, a, Without(s, k))
  {
    if k == 0 {
      assert Without(s, 0) == s[1..];
    } else {
      TowardsWithout(es, a, s[1..], k - 1);
      assert Without(s, k) == [s[0]] + Without(s[1..], k - 1);
    }
  }

  lemma {:induction false} DoubleWithout(es: seq<Edge>, s: seq<Id>, t: seq<Id>, k: nat)
    requires k < |s|
    ensures Double(es, s, t) == Towards(es, s[k], t) + Double(es, Without(s, k), t)
  {
    if k == 0 {
      assert Without(s, 0) == s[1..];
    } else {
      DoubleWithout(es, s[1..], t, k - 1);
      assert Without(s, k) == [s[0]] + Without(s[1..], k - 1);
    }
  }

  lemma {:induction false} SelvesWithout(es: seq<Edge>, s: seq<Id>, k: nat)
    requires k < |s|
    ensures Selves(es, s) == PairSimilarity(es, s[k], s[k]) + Selves(es, Without(s, k))
  {
    if k == 0 {
      assert Without(s, 0) == s[1..];
    } else {
      SelvesWithout(es, s[1..], k - 1);
      assert Without(s, k) == [s[0]] + Without(s[1..], k - 1);
    }
  }

  lemma SameWithoutFirst(s: seq<Id>, t: seq<Id>) returns (k: nat)
    requires s != [] && multiset(s) == multiset(t)
    ensures k < |t| && t[k] == s[0] && multiset(s[1..]) == multiset(Without(t, k))
  {
    assert s[0] in multiset(t);
    k :| 0 <= k < |t| && t[k] == s[0];
    WithoutLosesOne(s, 0);
    WithoutLosesOne(t, k);
    assert Without(s, 0) == s[1..];
  }

  lemma WithoutLosesOne(s: seq<Id>, k: nat)
    requires k < |s|
    ensures multiset(Without(s, k)) == multiset(s) - multiset{s[k]}
  {
    assert s == s[..k] + [s[k]] + s[k + 1..];
  }

  lemma {:induction false} PermutedTowards(es: seq<Edge>, a: Id, s: seq<Id>, t: seq<Id>)
    requires multiset(s) == multiset(t)
    ensures Towards(es, a, s) == Towards(es, a, t)
  {
    if s == [] {
      assert |t| == |multiset(t)| == |multiset(s)| == 0;
    } else {
      var k := SameWithoutFirst(s, t);
      PermutedTowards(es, a, s[1..], Without(t, k));
      TowardsWithout(es, a, t, k);
    }
  }

  lemma {:induction false} PermutedDouble(es: seq<Edge>, s: seq<Id>, t: seq<Id>, u: seq<Id>, v: seq<Id>)
    requires multiset(s) == multiset(t) && multiset(u) == multiset(v)
    ensures Double(es, s, u) == Double(es, t, v)
    ensures Selves(es, s) == Selves(es, t)
  {
    if s == [] {
      assert |t| == |multiset(t)| == |multiset(s)| == 0;
    } else {
      var k := SameWithoutFirst(s, t);
      PermutedDouble(es, s[1..], Without(t, k), u, v);
      PermutedTowards(es, s[0], u, v);
      DoubleWithout(es, t, v, k);
      SelvesWithout(es, t, k);
    }
  }

  /** The average over a group does not depend on the order in which its documents were added. */
  lemma AverageIgnoresOrder(es: seq<Edge>, docs: seq<Id>, others: seq<Id>)
    requires multiset(docs) == multiset(others)
    ensures Mean(AllPairs(es, docs)) == Mean(AllPairs(es, others))
  {
    assert docs[0..] == docs && others[0..] == others;
    TwicePairsIsDouble(es, docs, 0);
    TwicePairsIsDouble(es, others, 0);
    PermutedDouble(es, docs, others, docs, others);
    assert |docs| == |multiset(docs)| == |others|;
    AllPairsCount(es, docs);
    AllPairsCount(es, others);
  }

  /** The average, times the ordered pairs of different positions, is the sum of the similarities over them: over all
      ordered pairs less those of a position with itself. */
  lemma AverageIsOverPairs(es: seq<Edge>, docs: seq<Id>)
    requires |docs| >= 2
    ensures Mean(AllPairs(es, docs)) * (|docs| * (|docs| - 1)) as real == Double(es, docs, docs) - Selves(es, docs)
  {
    assert docs[0..] == docs;
    TwicePairsIsDouble(es, docs, 0);
    AllPairsCount(es, docs);
    MeanTimes(AllPairs(es, docs), |docs| * (|docs| - 1));
  }

  lemma MeanTimes(xs: seq<real>, n: nat)
    requires n == 2 * |xs|
    ensures Mean(xs) * n as real == 2.0 * Sum(xs)
  {
    if xs != [] {
      var q := Sum(xs) / |xs| as real;
      assert q * |xs| as real == Sum(xs);
    }
  }

  // ---------------------------------------------------------------- the detector

  predicate Crowded(docs: seq<Id>) {
    |docs| > 3
  }

  function PatternOf(es: seq<Edge>, hour: string, docs: seq<Id>): TemporalPattern {
    var avg := Mean(AllPairs(es, docs));
    TemporalPattern(hour, |docs|, avg, docs, avg > 0.5)
  }

  predicate Suspect(es: seq<Edge>, docs: seq<Id>) {
    Crowded(docs) && Mean(AllPairs(es, docs)) > 0.3
  }

  /** One pattern per hour in turn, for the hours worth reporting. */
  function Reports(es: seq<Edge>, hours: seq<string>, groups: map<string, seq<Id>>): seq<TemporalPattern>
    requires forall h :: h in hours ==> h in groups
  {
    if hours == [] then []
    else
      var n := |hours| - 1;
      assert hours[n] in hours;
      var before, docs := Reports(es, hours[..n], groups), groups[hours[n]];
      if Suspect(es, docs) then before + [PatternOf(es, hours[n], docs)] else before
  }

  lemma {:induction false} ReportsOnce(es: seq<Edge>, hours: seq<string>, groups: map<string, seq<Id>>)
    requires Distinct(hours) && forall h :: h in hours ==> h in groups
    ensures forall p :: p in Reports(es, hours, groups) <==>
      p.window in hours && Suspect(es, groups[p.window]) && p == PatternOf(es, p.window, groups[p.window])
    ensures forall i, j :: 0 <= i < j < |Reports(es, hours, groups)| ==>
      Reports(es, hours, groups)[i].window != Reports(es, hours, groups)[j].window
  {
    if hours != [] {
      var n := |hours| - 1;
      var before := Reports(es, hours[..n], groups);
      assert hours == hours[..n] + [hours[n]];
      assert hours[n] !in hours[..n];
      ReportsOnce(es, hours[..n], groups);
      forall i | 0 <= i < |before| ensures before[i].window != hours[n] {
        assert before[i] in before;
      }
    }
  }

  method ListPatterns(es: seq<Edge>, hours: seq<string>, groups: map<string, seq<Id>>)
    returns (patterns: seq<TemporalPattern>)
    requires forall h :: h in hours ==> h in groups
    ensures patterns == Reports(es, hours, groups)
  {
    patterns := [];
    for k := 0 to |hours|
      invariant patterns == Reports(es, hours[..k], groups)
    {
      assert hours[..k + 1][..k] == hours[..k];
      assert hours[k] in hours;
      var docs := groups[hours[k]];
      if |docs| > 3 {
        var similarities := CollectPairs(es, docs);
        var avg := Mean(similarities);
        if avg > 0.3 {
          patterns := patterns + [TemporalPattern(hours[k], |docs|, avg, docs, avg > 0.5)];
        }
      }
    }
    assert hours[..|hours|] == hours;
  }

  /** Reports an hour, once, exactly when more than three documents fall in it and their average similarity exceeds
      0.3. */
  method DetectTemporalPatterns(s: Net, clock: Clock) returns (patterns: seq<TemporalPattern>)
    requires Consistent(s)
    ensures forall p :: p in patterns <==>
      var docs := GroupOf(s.nodes, clock, s.order, p.window);
      var average := Mean(AllPairs(s.edges, docs));
      |docs| >= 4 && average > 0.3 && p == TemporalPattern(p.window, |docs|, average, docs, average > 0.5)
    ensures forall i, j :: 0 <= i < j < |patterns| ==> patterns[i].window != patterns[j].window
  {
    var hours, groups := GroupByHour(s.nodes, clock, s.order);
    patterns := ListPatterns(s.edges, hours, groups);
    ReportsOnce(s.edges, hours, groups);
  }

  // ---------------------------------------------------------------- change histories

  function Max(a: nat, b: nat): nat {
    if a >= b then a else b
  }

  function LengthSimilarity(m: nat, n: nat): real
    requires m > 0 && n > 0
  {
    1.0 - (if m >= n then m - n else n - m) as real / Max(m, n) as real
  }

  /** Similarity of two change histories, given the types of their changes. */
  function CompareChangePatterns(first: seq<string>, second: seq<string>): real {
    if first == [] || second == [] then 0.0
    else
      var a, b := Elements(first), Elements(second);
      assert first[0] in a && second[0] in b;
      (LengthSimilarity(|first|, |second|) + |a * b| as real / Max(|a|, |b|) as real) / 2.0
  }

  lemma ShareOfOne(x: nat, y: nat)
    requires x <= y && y > 0
    ensures 0.0 <= x as real / y as real <= 1.0
    ensures x as real / y as real == 1.0 <==> x == y
  {
    Quotient(x as real, y as real);
  }

  lemma Quotient(x: real, y: real)
    requires 0.0 <= x <= y && y > 0.0
    ensures 0.0 <= x / y <= 1.0
    ensures x / y == 1.0 <==> x == y
  {
    assert x / y * y == x;
  }

  lemma LengthSimilarityIsShare(m: nat, n: nat)
    requires m > 0 && n > 0
    ensures 0.0 <= LengthSimilarity(m, n) <= 1.0
    ensures LengthSimilarity(m, n) == 1.0 <==> m == n
  {
    var d := if m >= n then m - n else n - m;
    ShareOfOne(d, Max(m, n));
    if d as real / Max(m, n) as real == 0.0 { assert d as real / Max(m, n) as real * Max(m, n) as real == 0.0; }
  }

  /** The similarity of two histories is symmetric, lies in [0, 1], and is 1 exactly for non-empty histories of the same
      length with the same set of change types. */
  lemma ChangeSimilarity(first: seq<string>, second: seq<string>)
    ensures CompareChangePatterns(first, second) == CompareChangePatterns(second, first)
    ensures 0.0 <= CompareChangePatterns(first, second) <= 1.0
    ensures CompareChangePatterns(first, second) == 1.0 <==>
      first != [] && second != [] && |first| == |second| && Elements(first) == Elements(second)
  {
    if first != [] && second != [] {
      var a, b := Elements(first), Elements(second);
      assert first[0] in a && second[0] in b;
      assert a * b == b * a;
      SubsetSize(a * b, a);
      SubsetSize(a * b, b);
      LengthSimilarityIsShare(|first|, |second|);
      ShareOfOne(|a * b|, Max(|a|, |b|));
      if a == b { assert a * b == a; }
    }
  }

  /** Twice the similarity is the sum of two shares: the shorter length in the longer, and the common change types in
      the larger set of types. */
  lemma ChangeSimilarityIsMean(first: seq<string>, second: seq<string>)
    requires first != [] && second != []
    ensures var (a, b) := (Elements(first), Elements(second));
      IsMeanShare(|first|, |second|, |a * b|, |a|, |b|, CompareChangePatterns(first, second))
  {
    var a, b := Elements(first), Elements(second);
    assert first[0] in a && second[0] in b;
    LengthsAndShare(|first|, |second|, |a * b|, |a|, |b|, CompareChangePatterns(first, second));
  }

  /** r is the mean of shorter/longer and common/larger, cleared of fractions. */
  ghost predicate IsMeanShare(m: nat, n: nat, common: nat, p: nat, q: nat, r: real) {
    var (shorter, longer, larger) := (if m <= n then m else n, if m <= n then n else m, if p >= q then p else q);
    2.0 * r * longer as real * larger as real == shorter as real * larger as real + common as real * longer as real
  }

  lemma LengthsAndShare(m: nat, n: nat, common: nat, p: nat, q: nat, r: real)
    requires m > 0 && n > 0 && p > 0
    requires r == (LengthSimilarity(m, n) + common as real / Max(p, q) as real) / 2.0
    ensures IsMeanShare(m, n, common, p, q, r)
  {
    var x, d := Max(m, n), if m >= n then m - n else n - m;
    assert (x - d) as real == x as real - d as real;
    TwoShares(d as real, x as real, common as real, Max(p, q) as real);
  }

  lemma TwoShares(d: real, x: real, c: real, y: real)
    requires x > 0.0 && y > 0.0
    ensures 2.0 * ((1.0 - d / x + c / y) / 2.0) * x * y == (x - d) * y + c * x
  {
    var p, q := d / x, c / y;
    assert p * x == d && q * y == c;
    assert (1.0 - p + q) * x * y == x * y - (p * x) * y + (q * y) * x;
  }
}
