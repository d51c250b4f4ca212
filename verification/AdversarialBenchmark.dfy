/** Detection rates per transformation category and overall, their degradation, and the regression gate. */
module AdversarialBenchmark {
  import opened Sequences
  import opened Sorting
  import opened DetectionMetrics
  import opened Rounding

  /** One adversarial pair: the transformation that made it and its similarity score. */
  datatype Pair = Pair(transformation: string, score: real)

  type Groups = map<string, seq<real>>

  // ---------------------------------------------------------------- grouping

  function ScoresOf(pairs: seq<Pair>): seq<real> {
    seq(|pairs|, i requires 0 <= i < |pairs| => pairs[i].score)
  }

  function ScoresIn(pairs: seq<Pair>, category: string): seq<real> {
    if pairs == [] then []
    else
      var before, p := ScoresIn(pairs[..|pairs| - 1], category), pairs[|pairs| - 1];
      if p.transformation == category then before + [p.score] else before
  }

  ghost function Categories(pairs: seq<Pair>): set<string> {
    set i | 0 <= i < |pairs| :: pairs[i].transformation
  }

  method GroupByTransformation(pairs: seq<Pair>) returns (groups: Groups)
    ensures groups.Keys == Categories(pairs)
    ensures forall c :: c in groups ==> groups[c] == ScoresIn(pairs, c) && groups[c] != []
  {
    groups := map[];
    for i := 0 to |pairs|
      invariant forall c :: c in groups <==> ScoresIn(pairs[..i], c) != []
      invariant forall c :: c in groups ==> groups[c] == ScoresIn(pairs[..i], c)
    {
      assert pairs[..i + 1][..i] == pairs[..i];
      var p := pairs[i];
      var earlier := if p.transformation in groups then groups[p.transformation] else [];
      groups := groups[p.transformation := earlier + [p.score]];
    }
    assert pairs[..|pairs|] == pairs;
    forall c ensures c in groups <==> c in Categories(pairs) {
      CategoryHasScores(pairs, c);
    }
  }

  lemma {:induction false} CategoryHasScores(pairs: seq<Pair>, c: string)
    ensures ScoresIn(pairs, c) != [] <==> c in Categories(pairs)
  {
    if pairs != [] {
      var n := |pairs| - 1;
      CategoryHasScores(pairs[..n], c);
      if i :| 0 <= i < |pairs| && pairs[i].transformation == c && i < n { assert pairs[..n][i].transformation == c; }
      if i :| 0 <= i < n && pairs[..n][i].transformation == c { assert pairs[i].transformation == c; }
      assert pairs[n].transformation in Categories(pairs);
    }
  }

  // ---------------------------------------------------------------- rates

  function Ones(n: nat): seq<int> {
    seq(n, _ => 1)
  }

  /** All adversarial pairs should be detected, so every label is 1. */
  function Detected(scores: seq<real>, threshold: real): nat {
    CountsAt(scores, Ones(|scores|), threshold).tp
  }

  function Rate(scores: seq<real>, threshold: real): real {
    Quotient(Detected(scores, threshold), |scores|, 0.0)
  }

  lemma {:induction false} DetectedOneMore(scores: seq<real>, score: real, threshold: real)
    ensures Detected(scores + [score], threshold) == Detected(scores, threshold) + if score >= threshold then 1 else 0
    ensures Detected(scores, threshold) <= |scores|
  {
    var all := scores + [score];
    assert all[..|scores|] == scores && Ones(|all|)[..|scores|] == Ones(|scores|);
    if scores != [] {
      assert scores == scores[..|scores| - 1] + [scores[|scores| - 1]];
      DetectedOneMore(scores[..|scores| - 1], scores[|scores| - 1], threshold);
    }
  }

  function DetectedIn(pairs: seq<Pair>, threshold: real, categories: seq<string>): nat {
    if categories == [] then 0
    else
      var n := |categories| - 1;
      DetectedIn(pairs, threshold, categories[..n]) + Detected(ScoresIn(pairs, categories[n]), threshold)
  }

  function SizeIn(pairs: seq<Pair>, categories: seq<string>): nat {
    if categories == [] then 0
    else
      var n := |categories| - 1;
      SizeIn(pairs, categories[..n]) + |ScoresIn(pairs, categories[n])|
  }

  lemma {:induction false} NothingInNoPairs(threshold: real, categories: seq<string>)
    ensures DetectedIn([], threshold, categories) == 0 == SizeIn([], categories)
  {
    if categories != [] { NothingInNoPairs(threshold, categories[..|categories| - 1]); }
  }

  lemma {:induction false} OnePairMore(pairs: seq<Pair>, threshold: real, categories: seq<string>)
    requires pairs != [] && Distinct(categories)
    ensures var (rest, p) := (pairs[..|pairs| - 1], pairs[|pairs| - 1]);
      && SizeIn(pairs, categories) == SizeIn(rest, categories) + (if p.transformation in categories then 1 else 0)
      && DetectedIn(pairs, threshold, categories) == DetectedIn(rest, threshold, categories)
           + (if p.transformation in categories && p.score >= threshold then 1 else 0)
  {
    if categories != [] {
      var n := |categories| - 1;
      var rest, p := pairs[..|pairs| - 1], pairs[|pairs| - 1];
      assert categories == categories[..n] + [categories[n]];
      assert categories[n] !in categories[..n];
      OnePairMore(pairs, threshold, categories[..n]);
      DetectedOneMore(ScoresIn(rest, categories[n]), p.score, threshold);
    }
  }

  /** The categories partition the pairs: sizes and detections per category add up to those overall. */
  lemma {:induction false} CategoriesAddUp(pairs: seq<Pair>, threshold: real, categories: seq<string>)
    requires Distinct(categories)
    requires forall i :: 0 <= i < |pairs| ==> pairs[i].transformation in categories
    ensures SizeIn(pairs, categories) == |pairs|
    ensures DetectedIn(pairs, threshold, categories) == Detected(ScoresOf(pairs), threshold)
  {
    if pairs == [] {
      NothingInNoPairs(threshold, categories);
    } else {
      var rest, p := pairs[..|pairs| - 1], pairs[|pairs| - 1];
      CategoriesAddUp(rest, threshold, categories);
      OnePairMore(pairs, threshold, categories);
      assert ScoresOf(pairs) == ScoresOf(rest) + [p.score];
      DetectedOneMore(ScoresOf(rest), p.score, threshold);
    }
  }

  /** The share of `count` items that a rate of `bound` stands for. */
  function Share(count: nat, bound: real): real {
    count as real * bound
  }

  function WeightedRates(pairs: seq<Pair>, threshold: real, categories: seq<string>): real {
    if categories == [] then 0.0
    else
      var n := |categories| - 1;
      var scores := ScoresIn(pairs, categories[n]);
      WeightedRates(pairs, threshold, categories[..n]) + Share(|scores|, Rate(scores, threshold))
  }

  lemma SizeTimesRate(scores: seq<real>, threshold: real)
    ensures Share(|scores|, Rate(scores, threshold)) == Detected(scores, threshold) as real
  {
    if scores == [] {
      assert Detected(scores, threshold) == 0;
    }
  }

  lemma {:induction false} WeightedRatesAreDetections(pairs: seq<Pair>, threshold: real, categories: seq<string>)
    ensures WeightedRates(pairs, threshold, categories) == DetectedIn(pairs, threshold, categories) as real
  {
    if categories != [] {
      var n := |categories| - 1;
      WeightedRatesAreDetections(pairs, threshold, categories[..n]);
      SizeTimesRate(ScoresIn(pairs, categories[n]), threshold);
    }
  }

  /** The overall detection rate is the mean of the category rates weighted by category size. */
  lemma OverallRateIsWeightedMean(pairs: seq<Pair>, threshold: real, categories: seq<string>)
    requires pairs != [] && Distinct(categories)
    requires forall i :: 0 <= i < |pairs| ==> pairs[i].transformation in categories
    ensures Rate(ScoresOf(pairs), threshold) == WeightedRates(pairs, threshold, categories) / |pairs| as real
    ensures SizeIn(pairs, categories) == |pairs|
  {
    CategoriesAddUp(pairs, threshold, categories);
    WeightedRatesAreDetections(pairs, threshold, categories);
  }

  lemma ShareAdds(m: nat, k: nat, bound: real)
    ensures Share(m + k, bound) == Share(m, bound) + Share(k, bound)
  {
  }

  lemma RateAboveBound(hits: nat, count: nat, bound: real)
    requires Quotient(hits, count, 0.0) > bound && hits <= count
    ensures if count > 0 then hits as real > Share(count, bound) else hits as real == Share(count, bound)
  {
    if count > 0 {
      assert hits as real == count as real * (hits as real / count as real);
      Scaled(count, hits as real / count as real, bound);
    }
  }

  lemma Scaled(count: nat, rate: real, bound: real)
    requires rate > bound && count > 0
    ensures count as real * rate > count as real * bound
  {
  }

  lemma DetectedAtMostAll(scores: seq<real>, threshold: real)
    ensures Detected(scores, threshold) <= |scores|
  {
    DetectedOneMore(scores, 0.0, threshold);
  }

  lemma {:induction false} AllRatesAbove(pairs: seq<Pair>, threshold: real, categories: seq<string>, bound: real)
    requires forall c :: c in categories ==> Rate(ScoresIn(pairs, c), threshold) > bound
    ensures var (hits, size) := (DetectedIn(pairs, threshold, categories), SizeIn(pairs, categories));
      if size > 0 then hits as real > Share(size, bound) else hits as real == Share(size, bound)
  {
    if categories != [] {
      var n := |categories| - 1;
      var scores := ScoresIn(pairs, categories[n]);
      assert categories[n] in categories;
      AllRatesAbove(pairs, threshold, categories[..n], bound);
      DetectedAtMostAll(scores, threshold);
      RateAboveBound(Detected(scores, threshold), |scores|, bound);
      ShareAdds(SizeIn(pairs, categories[..n]), |scores|, bound);
    }
  }

  lemma RateIsOwnShare(hits: nat, count: nat)
    requires count > 0
    ensures Share(count, Quotient(hits, count, 0.0)) == hits as real
  {
  }

  /** Some category is detected no better than the whole. */
  lemma WorstCategory(pairs: seq<Pair>, threshold: real, categories: seq<string>) returns (c: string)
    requires pairs != [] && Distinct(categories)
    requires forall i :: 0 <= i < |pairs| ==> pairs[i].transformation in categories
    ensures c in categories && Rate(ScoresIn(pairs, c), threshold) <= Rate(ScoresOf(pairs), threshold)
  {
    var overall := Rate(ScoresOf(pairs), threshold);
    if forall d :: d in categories ==> Rate(ScoresIn(pairs, d), threshold) > overall {
      CategoriesAddUp(pairs, threshold, categories);
      AllRatesAbove(pairs, threshold, categories, overall);
      RateIsOwnShare(Detected(ScoresOf(pairs), threshold), |pairs|);
      assert false;
    }
    c :| c in categories && Rate(ScoresIn(pairs, c), threshold) <= overall;
  }

  // ---------------------------------------------------------------- degradation and the gate

  datatype Entry = Entry(category: string, detectionRate: real, degradation: real, size: nat)

  function Degradation(scores: seq<real>, threshold: real, baseline: real): real {
    Round4(baseline - Round4(Rate(scores, threshold)))
  }

  function EntryOf(groups: Groups, threshold: real, baseline: real, c: string): Entry
    requires c in groups
  {
    Entry(c, Round4(Rate(groups[c], threshold)), Degradation(groups[c], threshold, baseline), |groups[c]|)
  }

  function EntriesOf(groups: Groups, categories: seq<string>, threshold: real, baseline: real): (entries: seq<Entry>)
    requires forall c :: c in categories ==> c in groups
    ensures |entries| == |categories|
    ensures forall i :: 0 <= i < |categories| ==>
      categories[i] in groups && entries[i] == EntryOf(groups, threshold, baseline, categories[i])
  {
    if categories == [] then []
    else
      [EntryOf(groups, threshold, baseline, categories[0])] + EntriesOf(groups, categories[1..], threshold, baseline)
  }

  function ByDegradation(): Entry -> real {
    (e: Entry) => e.degradation
  }

  function Degrading(x: real): Entry -> bool {
    (e: Entry) => e.degradation == x
  }

  /** The given categories, sorted by degradation, worst first; ties keep their order. */
  method IdentifyWorstCategories(groups: Groups, categories: seq<string>, threshold: real, baseline: real)
    returns (worst: seq<Entry>)
    requires forall c :: c in categories <==> c in groups
    ensures Descending(worst, ByDegradation())
    ensures multiset(worst) == multiset(EntriesOf(groups, categories, threshold, baseline))
    ensures Lists(worst, groups, threshold, baseline)
    ensures forall x ::
      Filter(worst, Degrading(x)) == Filter(EntriesOf(groups, categories, threshold, baseline), Degrading(x))
  {
    var degradations := [];
    for i := 0 to |categories|
      invariant |degradations| == i
      invariant forall j :: 0 <= j < i ==>
        categories[j] in groups && degradations[j] == EntryOf(groups, threshold, baseline, categories[j])
    {
      assert categories[i] in categories;
      degradations := degradations + [EntryOf(groups, threshold, baseline, categories[i])];
    }
    worst := SortDescending(degradations, ByDegradation());
    SortIsDescending(degradations, ByDegradation());
    SortKeepsElements(degradations, ByDegradation());
    assert degradations == EntriesOf(groups, categories, threshold, baseline);
    EntriesListAll(groups, categories, threshold, baseline, worst);
    forall x
      ensures Filter(worst, Degrading(x)) == Filter(EntriesOf(groups, categories, threshold, baseline), Degrading(x))
    {
      SortIsStable(degradations, ByDegradation(), x, Degrading(x));
    }
  }

  lemma EntriesListAll(groups: Groups, categories: seq<string>, threshold: real, baseline: real, worst: seq<Entry>)
    requires forall c :: c in categories <==> c in groups
    requires multiset(worst) == multiset(EntriesOf(groups, categories, threshold, baseline))
    ensures Lists(worst, groups, threshold, baseline)
  {
    var entries := EntriesOf(groups, categories, threshold, baseline);
    forall c | c in groups
      ensures EntryOf(groups, threshold, baseline, c) == EntryFor(groups, threshold, baseline, c)
    {
      EntryIsAsReported(groups, threshold, baseline, c);
    }
    forall e ensures e in worst <==> exists c :: c in groups && e == EntryFor(groups, threshold, baseline, c) {
      assert e in worst <==> e in multiset(worst);
      assert e in entries <==> e in multiset(entries);
      if c :| c in groups && e == EntryFor(groups, threshold, baseline, c) {
        var j :| 0 <= j < |categories| && categories[j] == c;
        assert entries[j] == e;
      }
    }
  }

  // ---------------------------------------------------------------- what is reported

  /** The share of the scores at or above the threshold; 0 for none. */
  ghost function DetectedShare(scores: seq<real>, threshold: real): real {
    if scores == [] then 0.0
    else |set i: nat | i < |scores| && scores[i] >= threshold| as real / |scores| as real
  }

  lemma RateIsDetectedShare(scores: seq<real>, threshold: real)
    ensures Rate(scores, threshold) == DetectedShare(scores, threshold)
  {
    CountsAreCardinalities(scores, Ones(|scores|), threshold);
    assert Marked(scores, Ones(|scores|), threshold, true, 1) == set i: nat | i < |scores| && scores[i] >= threshold;
  }

  /** The rate is rounded before it is taken from the baseline, and the difference again. */
  ghost function EntryFor(groups: Groups, threshold: real, baseline: real, c: string): Entry
    requires c in groups
  {
    var rate := Round4(DetectedShare(groups[c], threshold));
    Entry(c, rate, Round4(baseline - rate), |groups[c]|)
  }

  lemma EntryIsAsReported(groups: Groups, threshold: real, baseline: real, c: string)
    requires c in groups
    ensures EntryOf(groups, threshold, baseline, c) == EntryFor(groups, threshold, baseline, c)
  {
    RateIsDetectedShare(groups[c], threshold);
  }

  /** The entries of the categories and no others. */
  ghost predicate Lists(worst: seq<Entry>, groups: Groups, threshold: real, baseline: real) {
    forall e :: e in worst <==> exists c :: c in groups && e == EntryFor(groups, threshold, baseline, c)
  }

  /** Exit code 1 iff some listed category degrades beyond the limit. */
  function CiRegressionCheck(worst: seq<Entry>, limit: real): int {
    if exists i :: 0 <= i < |worst| && worst[i].degradation > limit then 1 else 0
  }

  /** A lower rate degrades at least as much, rounding included. */
  lemma LowerRateDegradesMore(scores: seq<real>, others: seq<real>, threshold: real, baseline: real)
    requires Rate(scores, threshold) <= Rate(others, threshold)
    ensures Degradation(scores, threshold, baseline) >= Degradation(others, threshold, baseline)
  {
    RoundingIsMonotone(Rate(scores, threshold), Rate(others, threshold));
    RoundingIsMonotone(baseline - Round4(Rate(others, threshold)), baseline - Round4(Rate(scores, threshold)));
  }

  ghost predicate SomeCategoryDegrades(groups: Groups, threshold: real, baseline: real, limit: real) {
    exists c :: c in groups && EntryFor(groups, threshold, baseline, c).degradation > limit
  }

  /** The gate fails exactly when some category's detected share, rounded, falls short of the baseline by more than the
      limit, rounded again. */
  lemma GateFailsIff(groups: Groups, threshold: real, baseline: real, limit: real, worst: seq<Entry>)
    requires Lists(worst, groups, threshold, baseline)
    ensures CiRegressionCheck(worst, limit) == if SomeCategoryDegrades(groups, threshold, baseline, limit) then 1 else 0
  {
    if c :| c in groups && EntryFor(groups, threshold, baseline, c).degradation > limit {
      TrippedBy(worst, EntryFor(groups, threshold, baseline, c), limit);
    }
    if i :| 0 <= i < |worst| && worst[i].degradation > limit {
      assert worst[i] in worst;
    }
  }

  lemma TrippedBy(worst: seq<Entry>, e: Entry, limit: real)
    requires e in worst && e.degradation > limit
    ensures CiRegressionCheck(worst, limit) == 1
  {
  }

  /** When detection over all pairs degrades beyond the limit the gate fails, rounding included, exactly when there are
      pairs at all: with none the overall rate is 0 and yet no category is there to trip the gate. */
  lemma GateCatchesOverallRegression(pairs: seq<Pair>, categories: seq<string>, threshold: real, baseline: real,
      limit: real, groups: Groups, worst: seq<Entry>)
    requires Distinct(categories) && forall c :: c in categories <==> c in Categories(pairs)
    requires groups.Keys == Categories(pairs) && forall c :: c in groups ==> groups[c] == ScoresIn(pairs, c)
    requires Lists(worst, groups, threshold, baseline)
    requires Degradation(ScoresOf(pairs), threshold, baseline) > limit
    ensures CiRegressionCheck(worst, limit) == 1 <==> pairs != []
  {
    if pairs != [] {
      assert forall i :: 0 <= i < |pairs| ==> pairs[i].transformation in Categories(pairs);
      var c := WorstCategory(pairs, threshold, categories);
      LowerRateDegradesMore(ScoresIn(pairs, c), ScoresOf(pairs), threshold, baseline);
      EntryIsAsReported(groups, threshold, baseline, c);
      TrippedBy(worst, EntryOf(groups, threshold, baseline, c), limit);
    } else {
      assert Categories(pairs) == {};
      assert forall i :: 0 <= i < |worst| ==> worst[i] in worst;
    }
  }

  /** An empty benchmark: detection is reported as 0, all of a baseline of 1 is lost, and the gate passes. */
  lemma EmptyBenchmarkPasses(threshold: real, limit: real)
    requires limit < 1.0
    ensures Degradation(ScoresOf([]), threshold, 1.0) > limit
    ensures Lists([], map[], threshold, 1.0) && CiRegressionCheck([], limit) == 0
  {
    assert Rate(ScoresOf([]), threshold) == 0.0;
    assert Round4(0.0) == 0.0 && Round4(1.0) == 1.0;
  }
}
