/** Rounding to decimal places as the reports do it. */
module Rounding {

  /** The nearest integer, halves going to the even one. */
  function RoundHalfEven(x: real): int {
    var f := x.Floor;
    if x - f as real < 0.5 then f else if x - f as real > 0.5 then f + 1 else if f % 2 == 0 then f else f + 1
  }

  function Round3(x: real): real {
    RoundHalfEven(x * 1000.0) as real / 1000.0
  }

  function Round4(x: real): real {
    RoundHalfEven(x * 10000.0) as real / 10000.0
  }

  /** No integer is nearer to x; of two equally near ones it is the even one. */
  lemma RoundsToNearest(x: real)
    ensures var r := RoundHalfEven(x);
      -0.5 <= r as real - x <= 0.5 && (r as real - x == 0.5 || r as real - x == -0.5 ==> r % 2 == 0)
  {
  }

  /** Rounding to four places is rounding to the nearest multiple of 0.0001, likewise to three. */
  lemma RoundedIsNear(x: real)
    ensures Round4(x) * 10000.0 == RoundHalfEven(x * 10000.0) as real && -0.00005 <= Round4(x) - x <= 0.00005
    ensures Round3(x) * 1000.0 == RoundHalfEven(x * 1000.0) as real && -0.0005 <= Round3(x) - x <= 0.0005
  {
    RoundsToNearest(x * 10000.0);
    RoundsToNearest(x * 1000.0);
  }

  lemma RoundingIsMonotone(x: real, y: real)
    requires x <= y
    ensures Round4(x) <= Round4(y)
  {
    assert (x * 10000.0).Floor <= (y * 10000.0).Floor;
    assert RoundHalfEven(x * 10000.0) <= RoundHalfEven(y * 10000.0);
  }
}

/** Confusion counts at a threshold, their metrics, and the sweep for the best F1. */
module DetectionMetrics {
  import opened Sequences
  import opened Rounding

  datatype Counts = Counts(tp: nat, fp: nat, fn: nat, tn: nat)

  datatype Metrics = Metrics(threshold: real, precision: real, recall: real, f1: real, accuracy: real, counts: Counts)

  /** Scores at or above the threshold are predicted positive; a label that is neither 0 nor 1 is counted nowhere. */
  function CountsAt(scores: seq<real>, labels: seq<int>, threshold: real): Counts
    requires |scores| == |labels|
  {
    if scores == [] then Counts(0, 0, 0, 0)
    else
      var n := |scores| - 1;
      var c := CountsAt(scores[..n], labels[..n], threshold);
      if scores[n] >= threshold then
        if labels[n] == 1 then c.(tp := c.tp + 1) else if labels[n] == 0 then c.(fp := c.fp + 1) else c
      else
        if labels[n] == 1 then c.(fn := c.fn + 1) else if labels[n] == 0 then c.(tn := c.tn + 1) else c
  }

  function Quotient(a: nat, b: nat, otherwise: real): real {
    if b > 0 then a as real / b as real else otherwise
  }

  function HarmonicMean(p: real, r: real): real {
    if p + r > 0.0 then 2.0 * p * r / (p + r) else 0.0
  }

  function MetricsOf(threshold: real, c: Counts): Metrics {
    var precision := Quotient(c.tp, c.tp + c.fp, 1.0);
    var recall := Quotient(c.tp, c.tp + c.fn, 0.0);
    Metrics(threshold, precision, recall, HarmonicMean(precision, recall),
            Quotient(c.tp + c.tn, c.tp + c.fp + c.fn + c.tn, 0.0), c)
  }

  function MetricsAt(scores: seq<real>, labels: seq<int>, threshold: real): Metrics
    requires |scores| == |labels|
  {
    MetricsOf(threshold, CountsAt(scores, labels, threshold))
  }

  function F1At(scores: seq<real>, labels: seq<int>, threshold: real): real
    requires |scores| == |labels|
  {
    MetricsAt(scores, labels, threshold).f1
  }

  // ---------------------------------------------------------------- what is counted

  /** The positions on one side of the threshold that carry the label. */
  ghost function Marked(scores: seq<real>, labels: seq<int>, threshold: real, above: bool, mark: int): set<nat>
    requires |scores| == |labels|
  {
    set i: nat | i < |scores| && (scores[i] >= threshold <==> above) && labels[i] == mark
  }

  lemma MarkedGrows(scores: seq<real>, labels: seq<int>, threshold: real, above: bool, mark: int)
    requires |scores| == |labels| > 0
    ensures var n := |scores| - 1;
      |Marked(scores, labels, threshold, above, mark)|
        == |Marked(scores[..n], labels[..n], threshold, above, mark)|
           + if (scores[n] >= threshold <==> above) && labels[n] == mark then 1 else 0
  {
    var n := |scores| - 1;
    assert Marked(scores, labels, threshold, above, mark)
      == Marked(scores[..n], labels[..n], threshold, above, mark)
         + if (scores[n] >= threshold <==> above) && labels[n] == mark then {n} else {};
  }

  /** Positives are the scores at or above the threshold; they are true with label 1 and false with label 0, the others
      the other way round. */
  lemma {:induction false} CountsAreCardinalities(scores: seq<real>, labels: seq<int>, threshold: real)
    requires |scores| == |labels|
    ensures CountsAt(scores, labels, threshold).tp == |Marked(scores, labels, threshold, true, 1)|
    ensures CountsAt(scores, labels, threshold).fp == |Marked(scores, labels, threshold, true, 0)|
    ensures CountsAt(scores, labels, threshold).fn == |Marked(scores, labels, threshold, false, 1)|
    ensures CountsAt(scores, labels, threshold).tn == |Marked(scores, labels, threshold, false, 0)|
  {
    if scores != [] {
      var n := |scores| - 1;
      CountsAreCardinalities(scores[..n], labels[..n], threshold);
      MarkedGrows(scores, labels, threshold, true, 1);
      MarkedGrows(scores, labels, threshold, true, 0);
      MarkedGrows(scores, labels, threshold, false, 1);
      MarkedGrows(scores, labels, threshold, false, 0);
    }
  }

  // ---------------------------------------------------------------- counts and the threshold

  /** As the threshold rises true and false positives never grow and the negatives never shrink; each positive lost
      is a negative gained. */
  lemma {:induction false} RaisingTheThreshold(scores: seq<real>, labels: seq<int>, low: real, high: real)
    requires |scores| == |labels| && low <= high
    ensures var (l, h) := (CountsAt(scores, labels, low), CountsAt(scores, labels, high));
      && h.tp <= l.tp && h.fp <= l.fp && l.fn <= h.fn && l.tn <= h.tn
      && l.tp + l.fn == h.tp + h.fn && l.fp + l.tn == h.fp + h.tn
  {
    if scores != [] {
      var n := |scores| - 1;
      RaisingTheThreshold(scores[..n], labels[..n], low, high);
    }
  }

  /** Between two consecutive scores nothing changes. */
  lemma {:induction false} CountsConstantBetweenScores(scores: seq<real>, labels: seq<int>, low: real, high: real)
    requires |scores| == |labels| && low <= high
    requires forall i :: 0 <= i < |scores| ==> !(low <= scores[i] < high)
    ensures CountsAt(scores, labels, low) == CountsAt(scores, labels, high)
  {
    if scores != [] {
      var n := |scores| - 1;
      CountsConstantBetweenScores(scores[..n], labels[..n], low, high);
    }
  }

  lemma {:induction false} NothingAboveAllScores(scores: seq<real>, labels: seq<int>, threshold: real)
    requires |scores| == |labels| && forall i :: 0 <= i < |scores| ==> scores[i] < threshold
    ensures CountsAt(scores, labels, threshold).tp == 0 == CountsAt(scores, labels, threshold).fp
  {
    if scores != [] {
      var n := |scores| - 1;
      NothingAboveAllScores(scores[..n], labels[..n], threshold);
    }
  }

  // ---------------------------------------------------------------- F1

  lemma ProductOverSum(a: real, b: real, c: real)
    requires a > 0.0 && b > 0.0 && c > 0.0
    ensures HarmonicMean(a / b, a / c) == 2.0 * a / (b + c)
  {
    var p, r := a / b, a / c;
    var x := HarmonicMean(p, r);
    assert p > 0.0 && r > 0.0;
    assert p * b == a && r * c == a;
    assert x * (p + r) == 2.0 * p * r;
    var bc := b * c;
    assert (p + r) * bc == a * (b + c) by {
      assert p * bc == (p * b) * c;
      assert r * bc == (r * c) * b;
    }
    assert (2.0 * p * r) * bc == 2.0 * a * a by {
      assert (2.0 * p * r) * bc == 2.0 * (p * b) * (r * c);
    }
    assert x * (a * (b + c)) == 2.0 * a * a by {
      assert x * ((p + r) * bc) == (x * (p + r)) * bc;
    }
    assert a * (x * (b + c)) == a * (2.0 * a);
    assert x * (b + c) == 2.0 * a;
  }

  /** F1 is 2tp / (2tp + fp + fn), and 0 where that is 0/0; the special cases of precision and recall never show. */
  lemma F1IsCountQuotient(threshold: real, c: Counts)
    ensures MetricsOf(threshold, c).f1 == Quotient(2 * c.tp, 2 * c.tp + c.fp + c.fn, 0.0)
    ensures 0.0 <= MetricsOf(threshold, c).f1 <= 1.0
  {
    if c.tp > 0 {
      ProductOverSum(c.tp as real, (c.tp + c.fp) as real, (c.tp + c.fn) as real);
      QuotientAtMostOne(2 * c.tp, 2 * c.tp + c.fp + c.fn);
    } else {
      assert Quotient(0, c.fn, 0.0) == 0.0;
    }
  }

  lemma QuotientAtMostOne(a: nat, b: nat)
    requires a <= b && b > 0
    ensures 0.0 <= a as real / b as real <= 1.0
  {
  }

  lemma {:induction false} LeastScoreFrom(scores: seq<real>, threshold: real) returns (i: nat)
    requires exists j :: 0 <= j < |scores| && scores[j] >= threshold
    ensures i < |scores| && scores[i] >= threshold
    ensures forall j :: 0 <= j < |scores| ==> !(threshold <= scores[j] < scores[i])
  {
    i :| 0 <= i < |scores| && scores[i] >= threshold;
    var k := 0;
    while k < |scores|
      invariant 0 <= k <= |scores| && i < |scores| && scores[i] >= threshold
      invariant forall j :: 0 <= j < k ==> !(threshold <= scores[j] < scores[i])
    {
      if threshold <= scores[k] < scores[i] { i := k; }
      k := k + 1;
    }
  }

  /** Every threshold is matched by one of the scores. */
  lemma SomeScoreDoesAsWell(scores: seq<real>, labels: seq<int>, threshold: real) returns (i: nat)
    requires |scores| == |labels| > 0
    ensures i < |scores| && F1At(scores, labels, scores[i]) >= F1At(scores, labels, threshold)
  {
    if exists j :: 0 <= j < |scores| && scores[j] >= threshold {
      i := LeastScoreFrom(scores, threshold);
      CountsConstantBetweenScores(scores, labels, threshold, scores[i]);
    } else {
      i := 0;
      NothingAboveAllScores(scores, labels, threshold);
      F1IsCountQuotient(threshold, CountsAt(scores, labels, threshold));
      F1IsCountQuotient(scores[0], CountsAt(scores, labels, scores[0]));
    }
  }

  ghost predicate BestScore(scores: seq<real>, labels: seq<int>, i: nat)
    requires |scores| == |labels|
  {
    i < |scores| && forall j :: 0 <= j < |scores| ==> F1At(scores, labels, scores[j]) <= F1At(scores, labels, scores[i])
  }

  lemma BestScoreExists(scores: seq<real>, labels: seq<int>) returns (i: nat)
    requires |scores| == |labels| > 0
    ensures BestScore(scores, labels, i)
  {
    i := 0;
    var k := 0;
    while k < |scores|
      invariant 0 <= k <= |scores| && i < |scores|
      invariant forall j :: 0 <= j < k ==> F1At(scores, labels, scores[j]) <= F1At(scores, labels, scores[i])
    {
      if F1At(scores, labels, scores[k]) > F1At(scores, labels, scores[i]) { i := k; }
      k := k + 1;
    }
  }

  ghost predicate BeatsAllThresholds(scores: seq<real>, labels: seq<int>, score: real)
    requires |scores| == |labels|
  {
    forall t :: F1At(scores, labels, t) <= F1At(scores, labels, score)
  }

  /** The best F1 over all real thresholds is attained at one of the scores. */
  lemma BestThresholdIsAScore(scores: seq<real>, labels: seq<int>)
    requires |scores| == |labels| > 0
    ensures exists i: nat :: BestScore(scores, labels, i) && BeatsAllThresholds(scores, labels, scores[i])
  {
    var i := BestScoreExists(scores, labels);
    forall t ensures F1At(scores, labels, t) <= F1At(scores, labels, scores[i]) {
      var j := SomeScoreDoesAsWell(scores, labels, t);
    }
  }

  // ---------------------------------------------------------------- the sweep

  function Ceiling(x: real): int {
    -((-x).Floor)
  }

  /** How many grid points start, start + step, ... lie before stop. */
  function GridSize(start: real, stop: real, step: real): nat
    requires step != 0.0
  {
    var n := Ceiling((stop - start) / step);
    if n > 0 then n else 0
  }

  function GridPoint(start: real, step: real, k: nat): real {
    start + k as real * step
  }

  ghost predicate BeforeStop(start: real, stop: real, step: real, k: nat) {
    if step > 0.0 then start + k as real * step < stop else start + k as real * step > stop
  }

  /** Exactly the grid points on the near side of stop are counted, for a rising and for a falling grid. */
  lemma GridStopsBeforeStop(start: real, stop: real, step: real, k: nat)
    requires step != 0.0
    ensures k < GridSize(start, stop, step) <==> BeforeStop(start, stop, step, k)
  {
    var q := (stop - start) / step;
    assert q * step == stop - start;
    assert k < GridSize(start, stop, step) <==> k as real < q;
    if step > 0.0 { ScaledOrder(k as real, q, step); } else { ScaledOrder(k as real, q, -step); }
  }

  lemma ScaledOrder(x: real, y: real, factor: real)
    requires factor > 0.0
    ensures x < y <==> x * factor < y * factor
  {
    if x >= y { assert x * factor >= y * factor; }
  }

  /** The row reported for a threshold: rounded, but for the counts. */
  function RowAt(scores: seq<real>, labels: seq<int>, threshold: real): Metrics
    requires |scores| == |labels|
  {
    var m := MetricsAt(scores, labels, threshold);
    Metrics(Round3(m.threshold), Round4(m.precision), Round4(m.recall), Round4(m.f1), Round4(m.accuracy), m.counts)
  }

  /** What a row must report: the counts, and rounded to four places precision, recall, F1 and accuracy as quotients of
      counts, with their values for 0/0. */
  ghost predicate Reports(scores: seq<real>, labels: seq<int>, threshold: real, row: Metrics)
    requires |scores| == |labels|
  {
    var (tp, fp) := (|Marked(scores, labels, threshold, true, 1)|, |Marked(scores, labels, threshold, true, 0)|);
    var (fn, tn) := (|Marked(scores, labels, threshold, false, 1)|, |Marked(scores, labels, threshold, false, 0)|);
    && row.threshold == Round3(threshold) && row.counts == Counts(tp, fp, fn, tn)
    && row.precision == Round4(if tp + fp == 0 then 1.0 else tp as real / (tp + fp) as real)
    && row.recall == Round4(if tp + fn == 0 then 0.0 else tp as real / (tp + fn) as real)
    && row.f1 == Round4(if tp == 0 then 0.0 else (2 * tp) as real / (2 * tp + fp + fn) as real)
    && row.accuracy
       == Round4(if tp + fp + fn + tn == 0 then 0.0 else (tp + tn) as real / (tp + fp + fn + tn) as real)
  }

  lemma RowReports(scores: seq<real>, labels: seq<int>, threshold: real)
    requires |scores| == |labels|
    ensures Reports(scores, labels, threshold, RowAt(scores, labels, threshold))
  {
    CountsAreCardinalities(scores, labels, threshold);
    F1IsCountQuotient(threshold, CountsAt(scores, labels, threshold));
    F1WithoutHits(CountsAt(scores, labels, threshold));
  }

  lemma F1WithoutHits(c: Counts)
    ensures Quotient(2 * c.tp, 2 * c.tp + c.fp + c.fn, 0.0)
         == if c.tp == 0 then 0.0 else (2 * c.tp) as real / (2 * c.tp + c.fp + c.fn) as real
  {
  }

  /** One row per grid point before the stop, on a rising or a falling grid. */
  method SweepThresholds(scores: seq<real>, labels: seq<int>, start: real, stop: real, step: real)
    returns (rows: Option<seq<Metrics>>)
    requires |scores| == |labels|
    ensures rows.None? <==> step == 0.0
    ensures rows.Some? ==> |rows.value| == GridSize(start, stop, step)
    ensures rows.Some? ==> forall k: nat :: k < |rows.value| <==> BeforeStop(start, stop, step, k)
    ensures rows.Some? ==> forall k :: 0 <= k < |rows.value| ==>
      rows.value[k] == RowAt(scores, labels, GridPoint(start, step, k))
      && Reports(scores, labels, start + k as real * step, rows.value[k])
  {
    if step == 0.0 {
      return None;
    }
    var table := [];
    for k := 0 to GridSize(start, stop, step)
      invariant |table| == k
      invariant forall j :: 0 <= j < k ==> table[j] == RowAt(scores, labels, GridPoint(start, step, j))
    {
      table := table + [RowAt(scores, labels, GridPoint(start, step, k))];
    }
    forall k: nat ensures k < |table| <==> BeforeStop(start, stop, step, k) {
      GridStopsBeforeStop(start, stop, step, k);
    }
    forall k | 0 <= k < |table| ensures Reports(scores, labels, start + k as real * step, table[k]) {
      RowReports(scores, labels, GridPoint(start, step, k));
    }
    return Some(table);
  }

  /** The first row of largest reported F1. */
  method BestRow(rows: seq<Metrics>) returns (best: Option<nat>)
    ensures best.None? <==> rows == []
    ensures best.Some? ==> best.value < |rows|
    ensures best.Some? ==> forall k :: 0 <= k < |rows| ==> rows[k].f1 <= rows[best.value].f1
    ensures best.Some? ==> forall k :: 0 <= k < best.value ==> rows[k].f1 < rows[best.value].f1
  {
    if rows == [] {
      return None;
    }
    var at := 0;
    for k := 1 to |rows|
      invariant at < k
      invariant forall j :: 0 <= j < k ==> rows[j].f1 <= rows[at].f1
      invariant forall j :: 0 <= j < at ==> rows[j].f1 < rows[at].f1
    {
      if rows[k].f1 > rows[at].f1 {
        at := k;
      }
    }
    return Some(at);
  }

  /** The best row of a sweep, chosen by its rounded F1, never beats the best score, and matches it in the report as
      soon as one grid point lies above the next lower score and not above that best score. */
  lemma SweepAgainstBestScore(scores: seq<real>, labels: seq<int>, grid: seq<real>, best: nat, i: nat)
    requires |scores| == |labels| && BestScore(scores, labels, i) && best < |grid|
    requires forall k :: 0 <= k < |grid| ==> RowAt(scores, labels, grid[k]).f1 <= RowAt(scores, labels, grid[best]).f1
    ensures F1At(scores, labels, grid[best]) <= F1At(scores, labels, scores[i])
    ensures RowAt(scores, labels, grid[best]).f1 <= Round4(F1At(scores, labels, scores[i]))
    ensures (exists k :: 0 <= k < |grid| && HitsGap(scores, scores[i], grid[k]))
      ==> RowAt(scores, labels, grid[best]).f1 == Round4(F1At(scores, labels, scores[i]))
  {
    var j := SomeScoreDoesAsWell(scores, labels, grid[best]);
    RoundingIsMonotone(F1At(scores, labels, grid[best]), F1At(scores, labels, scores[i]));
    if k :| 0 <= k < |grid| && HitsGap(scores, scores[i], grid[k]) {
      CountsConstantBetweenScores(scores, labels, grid[k], scores[i]);
      SameCountsSameF1(scores, labels, grid[k], scores[i]);
    }
  }

  lemma SameCountsSameF1(scores: seq<real>, labels: seq<int>, s: real, t: real)
    requires |scores| == |labels| && CountsAt(scores, labels, s) == CountsAt(scores, labels, t)
    ensures F1At(scores, labels, s) == F1At(scores, labels, t)
    ensures RowAt(scores, labels, s).f1 == Round4(F1At(scores, labels, t))
  {
  }

  /** No score separates the threshold from the score above it. */
  ghost predicate HitsGap(scores: seq<real>, score: real, threshold: real) {
    threshold <= score && forall i :: 0 <= i < |scores| ==> !(threshold <= scores[i] < score)
  }
}
