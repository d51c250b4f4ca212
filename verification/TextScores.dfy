/** Scores of the AI-text detector over the sentences of a text. */
module ConsistencyScores {
  import opened Sequences

  // ---------------------------------------------------------------- sentiment

  ghost predicate Sentiments(xs: seq<int>) {
    forall x :: x in xs ==> -1 <= x <= 1
  }

  function Total(xs: seq<int>): int {
    if xs == [] then 0 else Total(xs[..|xs| - 1]) + xs[|xs| - 1]
  }

  function Squares(xs: seq<int>): int {
    if xs == [] then 0 else Squares(xs[..|xs| - 1]) + xs[|xs| - 1] * xs[|xs| - 1]
  }

  /** The sum of squared deviations from m. */
  function Deviations(xs: seq<int>, m: real): real {
    if xs == [] then 0.0
    else
      var d := xs[|xs| - 1] as real - m;
      Deviations(xs[..|xs| - 1], m) + d * d
  }

  function Mean(xs: seq<int>): real
    requires xs != []
  {
    Total(xs) as real / |xs| as real
  }

  /** The sample variance. */
  function Variance(xs: seq<int>): real
    requires |xs| >= 2
  {
    Deviations(xs, Mean(xs)) / (|xs| - 1) as real
  }

  function SentimentConsistency(xs: seq<int>): real {
    if |xs| < 2 then 1.0
    else
      var half := Variance(xs) / 2.0;
      1.0 - if half < 1.0 then half else 1.0
  }

  lemma {:induction false} DeviationsExpand(xs: seq<int>, m: real)
    ensures Deviations(xs, m) == Squares(xs) as real - 2.0 * m * Total(xs) as real + |xs| as real * (m * m)
  {
    if xs != [] {
      var n := |xs| - 1;
      DeviationsExpand(xs[..n], m);
      SquareOf(xs[n]);
      OneMoreDeviation(Squares(xs[..n]) as real, Total(xs[..n]) as real, n as real, m, xs[n] as real);
    }
  }

  lemma SquareOf(x: int)
    ensures (x * x) as real == x as real * x as real
  {
  }

  lemma OneMoreDeviation(q: real, t: real, n: real, m: real, x: real)
    ensures q - 2.0 * m * t + n * (m * m) + (x - m) * (x - m) == q + x * x - 2.0 * m * (t + x) + (n + 1.0) * (m * m)
  {
    assert (x - m) * (x - m) == x * x - 2.0 * m * x + m * m;
    assert 2.0 * m * (t + x) == 2.0 * m * t + 2.0 * m * x;
  }

  lemma SentimentsPrefix(xs: seq<int>)
    requires Sentiments(xs) && xs != []
    ensures Sentiments(xs[..|xs| - 1]) && 0 <= xs[|xs| - 1] * xs[|xs| - 1] <= 1
  {
    var rest := xs[..|xs| - 1];
    assert xs[|xs| - 1] in xs;
    forall x | x in rest ensures -1 <= x <= 1 {
      assert x in xs;
    }
  }

  lemma {:induction false} SquaresCount(xs: seq<int>)
    requires Sentiments(xs)
    ensures 0 <= Squares(xs) <= |xs|
  {
    if xs != [] {
      SentimentsPrefix(xs);
      SquaresCount(xs[..|xs| - 1]);
    }
  }

  lemma MeanTimesSize(xs: seq<int>)
    requires xs != []
    ensures |xs| as real * Mean(xs) == Total(xs) as real
  {
    QuotientTimes(Total(xs) as real, |xs| as real);
  }

  /** At the mean the deviations add up to the squares minus n times the squared mean. */
  lemma DeviationsAtMean(xs: seq<int>) returns (mm: real)
    requires xs != []
    ensures Deviations(xs, Mean(xs)) == Squares(xs) as real - |xs| as real * mm
    ensures mm >= 0.0
  {
    MeanTimesSize(xs);
    mm := DeviationsAt(xs, Mean(xs));
  }

  lemma DeviationsAt(xs: seq<int>, m: real) returns (mm: real)
    requires |xs| as real * m == Total(xs) as real
    ensures Deviations(xs, m) == Squares(xs) as real - |xs| as real * mm
    ensures mm >= 0.0
  {
    mm := m * m;
    DeviationsExpand(xs, m);
    ExpandedAtMean(|xs| as real, m, Total(xs) as real, Squares(xs) as real);
  }

  lemma QuotientTimes(t: real, n: real)
    requires n > 0.0
    ensures n * (t / n) == t
  {
  }

  lemma ExpandedAtMean(n: real, m: real, t: real, q: real)
    requires n * m == t
    ensures q - 2.0 * m * t + n * (m * m) == q - n * (m * m)
    ensures m * m >= 0.0
  {
    assert m * (n * m) == n * (m * m);
  }

  lemma {:induction false} DeviationsNotNegative(xs: seq<int>, m: real)
    ensures Deviations(xs, m) >= 0.0
  {
    if xs != [] {
      var d := xs[|xs| - 1] as real - m;
      DeviationsNotNegative(xs[..|xs| - 1], m);
      assert d * d >= 0.0;
    }
  }

  lemma RatioBounds(d: real, n: nat)
    requires n >= 2 && 0.0 <= d <= n as real
    ensures 0.0 <= d / (n - 1) as real <= n as real / (n - 1) as real <= 2.0
    ensures d / (n - 1) as real == 2.0 ==> n == 2 && d == 2.0
  {
    var k := (n - 1) as real;
    QuotientAtMost(d, n as real, k);
    QuotientAtMost(0.0, d, k);
    QuotientAtMost(n as real, 2.0 * k, k);
    QuotientTimes(2.0, k);
    assert 0.0 / k == 0.0;
    assert 2.0 * k / k == 2.0;
    if d / k == 2.0 { QuotientTimes(d, k); }
  }

  lemma QuotientAtMost(a: real, b: real, k: real)
    requires k > 0.0 && a <= b
    ensures a / k <= b / k
  {
    QuotientTimes(a, k);
    QuotientTimes(b, k);
    CancelFactor(a / k, b / k, k);
  }

  lemma ShareBounds(x: real, n: real)
    requires 0.0 <= x <= n && n > 0.0
    ensures 0.0 <= x / n <= 1.0
    ensures x / n == 1.0 <==> x == n
  {
    QuotientTimes(x, n);
    CancelFactor(0.0, x / n, n);
    CancelFactor(x / n, 1.0, n);
  }

  lemma CancelFactor(a: real, b: real, k: real)
    requires k > 0.0 && a * k <= b * k
    ensures a <= b
  {
    assert (a - b) * k <= 0.0;
  }

  /** The sample variance of n sentiments is at most n/(n-1), so at most 2: the clamp never acts and the score is in
      [0, 1]. */
  lemma VarianceIsBounded(xs: seq<int>)
    requires Sentiments(xs) && |xs| >= 2
    ensures 0.0 <= Variance(xs) <= |xs| as real / (|xs| - 1) as real <= 2.0
    ensures SentimentConsistency(xs) == 1.0 - Variance(xs) / 2.0
    ensures 0.0 <= SentimentConsistency(xs) <= 1.0
  {
    DeviationsNotNegative(xs, Mean(xs));
    DeviationsAtMost(xs);
    RatioBounds(Deviations(xs, Mean(xs)), |xs|);
  }

  lemma DeviationsAtMost(xs: seq<int>)
    requires Sentiments(xs) && xs != []
    ensures Deviations(xs, Mean(xs)) <= Squares(xs) as real <= |xs| as real
  {
    SquaresCount(xs);
    var mm := DeviationsAtMean(xs);
    assert |xs| as real * mm >= 0.0;
  }

  /** The score is 0 exactly for two sentences of opposite sentiment. */
  lemma ZeroConsistencyIff(xs: seq<int>)
    requires Sentiments(xs)
    ensures SentimentConsistency(xs) == 0.0 <==> xs == [1, -1] || xs == [-1, 1]
  {
    if |xs| >= 2 {
      VarianceIsBounded(xs);
      DeviationsNotNegative(xs, Mean(xs));
      DeviationsAtMost(xs);
      RatioBounds(Deviations(xs, Mean(xs)), |xs|);
      if |xs| == 2 { PairVariance(xs); }
    }
  }

  ghost predicate AllAre(xs: seq<int>, m: real) {
    forall i :: 0 <= i < |xs| ==> xs[i] as real == m
  }

  lemma {:induction false} NoDeviationIff(xs: seq<int>, m: real)
    ensures Deviations(xs, m) == 0.0 <==> AllAre(xs, m)
  {
    if xs != [] {
      var n := |xs| - 1;
      NoDeviationIff(xs[..n], m);
      DeviationsNotNegative(xs[..n], m);
      SquareIsPositive(xs[n] as real - m, (xs[n] as real - m) * (xs[n] as real - m));
      assert AllAre(xs, m) <==> AllAre(xs[..n], m) && xs[n] as real == m;
    }
  }

  lemma SquareIsPositive(d: real, q: real)
    requires q == d * d
    ensures q >= 0.0
    ensures d != 0.0 ==> q > 0.0
  {
    if d > 0.0 { PositiveProduct(d, d, q); } else if d < 0.0 { NegativeProduct(d, d, q); }
  }

  lemma PositiveProduct(x: real, y: real, q: real)
    requires x > 0.0 && y > 0.0 && q == x * y
    ensures q > 0.0
  {
  }

  lemma NegativeProduct(x: real, y: real, q: real)
    requires x < 0.0 && y < 0.0 && q == x * y
    ensures q > 0.0
  {
  }

  lemma {:induction false} TotalOfSame(xs: seq<int>, x: int)
    requires forall i :: 0 <= i < |xs| ==> xs[i] == x
    ensures Total(xs) == |xs| * x
  {
    if xs != [] { TotalOfSame(xs[..|xs| - 1], x); }
  }

  lemma MeanOfSame(xs: seq<int>)
    requires xs != [] && forall i :: 0 <= i < |xs| ==> xs[i] == xs[0]
    ensures Mean(xs) == xs[0] as real
  {
    TotalOfSame(xs, xs[0]);
    QuotientOfProduct(|xs|, xs[0]);
  }

  lemma QuotientOfProduct(n: nat, x: int)
    requires n > 0
    ensures (n * x) as real / n as real == x as real
  {
    assert (n * x) as real == n as real * x as real;
  }

  ghost predicate AllTheSame(xs: seq<int>) {
    forall i :: 0 <= i < |xs| ==> xs[i] == xs[0]
  }

  lemma NoVarianceIff(xs: seq<int>)
    requires |xs| >= 2
    ensures Variance(xs) == 0.0 <==> AllTheSame(xs)
  {
    var m := Mean(xs);
    VarianceTimes(xs);
    NoDeviationIff(xs, m);
    if AllTheSame(xs) { MeanOfSame(xs); }
  }

  /** The score is 1 exactly when all sentences have the same sentiment, as one or none have. */
  lemma FullConsistencyIff(xs: seq<int>)
    ensures SentimentConsistency(xs) == 1.0 <==> AllTheSame(xs)
  {
    if |xs| >= 2 {
      NoVarianceIff(xs);
      VarianceNotNegative(xs);
    }
  }

  lemma VarianceNotNegative(xs: seq<int>)
    requires |xs| >= 2
    ensures Variance(xs) >= 0.0
  {
    DeviationsNotNegative(xs, Mean(xs));
    QuotientAtMost(0.0, Deviations(xs, Mean(xs)), (|xs| - 1) as real);
  }

  lemma AroundTheMiddle(a: real, b: real, m: real)
    requires 2.0 * m == a + b
    ensures (a - m) * (a - m) + (b - m) * (b - m) == (a - b) * (a - b) / 2.0
  {
    var h := (a - b) / 2.0;
    assert a - m == h && b - m == -h;
  }

  lemma PairVariance(xs: seq<int>)
    requires Sentiments(xs) && |xs| == 2
    ensures Variance(xs) == 2.0 <==> xs == [1, -1] || xs == [-1, 1]
  {
    var a, b := xs[0], xs[1];
    assert a in xs && b in xs;
    assert xs == [a, b] && xs[..1] == [a] && [a][..0] == [];
    assert Total(xs[..1]) == a && Total(xs) == a + b;
    var m := Mean(xs);
    MeanTimesSize(xs);
    assert Deviations(xs[..1], m) == (a as real - m) * (a as real - m);
    AroundTheMiddle(a as real, b as real, m);
    assert Variance(xs) == (a - b) as real * (a - b) as real / 2.0;
    if a == -1 { } else if a == 0 { } else { }
  }

  /** The sample variance, times n - 1, is the sum of squared deviations from the mean. */
  lemma VarianceTimes(xs: seq<int>)
    requires |xs| >= 2
    ensures (|xs| - 1) as real * Variance(xs) == Deviations(xs, Mean(xs))
  {
    QuotientTimes(Deviations(xs, Mean(xs)), (|xs| - 1) as real);
  }

  /** That sum, times n, is n times the sum of the squares less the square of the sum. */
  lemma DeviationsTimes(xs: seq<int>, m: real)
    requires |xs| as real * m == Total(xs) as real
    ensures |xs| as real * Deviations(xs, m)
         == |xs| as real * Squares(xs) as real - Total(xs) as real * Total(xs) as real
  {
    DeviationsExpand(xs, m);
    ClearedDeviations(|xs| as real, m, Total(xs) as real, Squares(xs) as real, Deviations(xs, m));
  }

  lemma ClearedDeviations(n: real, m: real, t: real, q: real, d: real)
    requires n * m == t && d == q - 2.0 * m * t + n * (m * m)
    ensures n * d == n * q - t * t
  {
    ExpandedAtMean(n, m, t, q);
    assert n * (q - n * (m * m)) == n * q - (n * m) * (n * m);
  }

  // ---------------------------------------------------------------- coherence

  function Overlap(a: set<string>, b: set<string>): real {
    if |a + b| > 0 then |a * b| as real / |a + b| as real else 0.0
  }

  function TotalOverlap(sentences: seq<set<string>>): real {
    if |sentences| < 2 then 0.0
    else TotalOverlap(sentences[..|sentences| - 1]) + Overlap(sentences[|sentences| - 2], sentences[|sentences| - 1])
  }

  function Coherence(sentences: seq<set<string>>): real {
    if |sentences| < 2 then 1.0 else TotalOverlap(sentences) / (|sentences| - 1) as real
  }

  method ComputeSemanticCoherence(sentences: seq<set<string>>) returns (score: real)
    ensures score == Coherence(sentences)
  {
    if |sentences| < 2 {
      return 1.0;
    }
    var total := 0.0;
    for i := 0 to |sentences| - 1
      invariant total == TotalOverlap(sentences[..i + 1])
    {
      assert sentences[..i + 2][..i + 1] == sentences[..i + 1];
      total := total + Overlap(sentences[i], sentences[i + 1]);
    }
    assert sentences[..|sentences|] == sentences;
    return total / (|sentences| - 1) as real;
  }

  lemma OverlapIsShare(a: set<string>, b: set<string>)
    ensures 0.0 <= Overlap(a, b) <= 1.0
    ensures Overlap(a, b) == Overlap(b, a)
    ensures Overlap(a, b) == 1.0 <==> a == b && a != {}
  {
    assert a * b == b * a && a + b == b + a;
    SubsetSize(a * b, a + b);
    assert a * b == a + b <==> a == b;
    if |a + b| > 0 {
      ShareBounds(|a * b| as real, |a + b| as real);
    } else {
      assert a + b == {};
    }
  }

  /** The overlap of two sets, times the size of their union, is the size of their intersection. */
  lemma OverlapTimesUnion(a: set<string>, b: set<string>)
    ensures Overlap(a, b) * |a + b| as real == |a * b| as real
  {
    if |a + b| > 0 {
      QuotientTimes(|a * b| as real, |a + b| as real);
    } else {
      assert a * b <= a + b;
    }
  }

  /** A coherence of n sentences, times n - 1, is the sum of the overlaps of neighbours. */
  ghost predicate Averages(n: nat, mean: real, sum: real) {
    n as real * mean == sum
  }

  lemma CoherenceAverages(sentences: seq<set<string>>)
    requires |sentences| >= 2
    ensures Averages(|sentences| - 1, Coherence(sentences), TotalOverlap(sentences))
  {
    QuotientAverages(TotalOverlap(sentences), |sentences| - 1);
  }

  lemma QuotientAverages(sum: real, n: nat)
    requires n > 0
    ensures Averages(n, sum / n as real, sum)
  {
  }

  /** One more sentence adds its overlap with the last one to the sum that coherence averages. */
  lemma CoherenceGrows(sentences: seq<set<string>>, next: set<string>)
    requires |sentences| >= 1
    ensures var (n, all) := (|sentences|, sentences + [next]);
      && Averages(n, Coherence(all), TotalOverlap(all))
      && TotalOverlap(all) == TotalOverlap(sentences) + Overlap(sentences[n - 1], next)
      && (if n == 1 then TotalOverlap(sentences) == 0.0
          else Averages(n - 1, Coherence(sentences), TotalOverlap(sentences)))
  {
    var all := sentences + [next];
    assert all[..|all| - 1] == sentences;
    CoherenceAverages(all);
    if |sentences| > 1 { CoherenceAverages(sentences); }
  }

  ghost predicate AllAlike(sentences: seq<set<string>>) {
    forall i :: 0 <= i < |sentences| - 1 ==> sentences[i] == sentences[i + 1] && sentences[i] != {}
  }

  lemma {:induction false} TotalOverlapBounds(sentences: seq<set<string>>)
    requires |sentences| >= 1
    ensures 0.0 <= TotalOverlap(sentences) <= (|sentences| - 1) as real
    ensures TotalOverlap(sentences) == (|sentences| - 1) as real <==> AllAlike(sentences)
  {
    var n := |sentences| - 1;
    if n >= 1 {
      TotalOverlapBounds(sentences[..n]);
      OverlapIsShare(sentences[n - 1], sentences[n]);
      assert AllAlike(sentences) <==>
        AllAlike(sentences[..n]) && sentences[n - 1] == sentences[n] && sentences[n - 1] != {} by {
        if AllAlike(sentences) { assert sentences[n - 1] == sentences[n - 1 + 1]; }
      }
    }
  }

  /** Coherence lies in [0, 1] and is 1 exactly when the sentences all have one and the same non-empty word set. */
  lemma CoherenceBounds(sentences: seq<set<string>>)
    ensures 0.0 <= Coherence(sentences) <= 1.0
    ensures |sentences| >= 2 ==> (Coherence(sentences) == 1.0 <==> AllAlike(sentences))
    ensures |sentences| < 2 ==> Coherence(sentences) == 1.0
  {
    if |sentences| >= 2 {
      TotalOverlapBounds(sentences);
      ShareBounds(TotalOverlap(sentences), (|sentences| - 1) as real);
    }
  }
}

/** The weighted similarity of two texts. */
module ParaphraseSimilarity {
  import opened Sequences
  import opened ConsistencyScores

  /** A text as the metrics see it: its processed tokens, its sentences' word counts and its stemmed words. */
  datatype Text = Text(tokens: set<string>, sentences: seq<nat>, stems: set<string>)

  function Jaccard(a: set<string>, b: set<string>): real {
    if a == {} || b == {} then 0.0 else Overlap(a, b)
  }

  function Words(sentences: seq<nat>): nat {
    if sentences == [] then 0 else Words(sentences[..|sentences| - 1]) + sentences[|sentences| - 1]
  }

  /** The words of a text are those of its sentences together, however it is cut. */
  lemma {:induction false} WordsAdd(s: seq<nat>, t: seq<nat>, n: nat)
    ensures Words(s + t) == Words(s) + Words(t) && Words([n]) == n
  {
    assert [n][..0] == [];
    if t == [] {
      assert s + t == s;
    } else {
      assert (s + t)[..|s + t| - 1] == s + t[..|t| - 1];
      WordsAdd(s, t[..|t| - 1], n);
    }
  }

  function MinOverMax(x: real, y: real): real {
    var low, high := if x <= y then x else y, if x >= y then x else y;
    if high > 0.0 then low / high else 0.0
  }

  function Structural(a: seq<nat>, b: seq<nat>): real {
    if a == [] || b == [] then 0.0
    else
      var lengthRatio := MinOverMax(Words(a) as real / |a| as real, Words(b) as real / |b| as real);
      (lengthRatio + MinOverMax(|a| as real, |b| as real)) / 2.0
  }

  /** Total length of the words of a set. */
  ghost function Letters(words: set<string>): nat {
    if words == {} then 0
    else
      var w :| w in words;
      |w| + Letters(words - {w})
  }

  /** The weights are those of the code; words are non-empty. */
  ghost function Semantic(a: set<string>, b: set<string>): real {
    var common := a * b;
    if a == {} || b == {} || common == {} || Letters(a + b) == 0 then 0.0
    else
      assert a + b != {};
      var s := 0.6 * (|common| as real / |a + b| as real) + 0.4 * (Letters(common) as real / Letters(a + b) as real);
      if s < 1.0 then s else 1.0
  }

  ghost function Overall(tfidf: real, a: Text, b: Text): real {
    tfidf * 0.35 + Jaccard(a.tokens, b.tokens) * 0.15 + Jaccard(a.tokens, b.tokens) * 0.20
      + Structural(a.sentences, b.sentences) * 0.15 + Semantic(a.stems, b.stems) * 0.15
  }

  lemma {:induction false} LettersSplit(words: set<string>, w: string)
    requires w in words
    ensures Letters(words) == |w| + Letters(words - {w})
    decreases |words|
  {
    var v :| v in words && Letters(words) == |v| + Letters(words - {v});
    if v != w {
      LettersSplit(words - {v}, w);
      LettersSplit(words - {w}, v);
      assert words - {v} - {w} == words - {w} - {v};
    }
  }

  lemma {:induction false} FewerLetters(a: set<string>, b: set<string>)
    requires a <= b
    ensures Letters(a) <= Letters(b)
    decreases |b|
  {
    if w :| w in b && w !in a {
      LettersSplit(b, w);
      FewerLetters(a, b - {w});
    } else {
      assert a == b;
    }
  }

  lemma JaccardBounds(a: set<string>, b: set<string>)
    ensures Jaccard(a, b) == Jaccard(b, a) && 0.0 <= Jaccard(a, b) <= 1.0
    ensures Jaccard(a, b) == 1.0 <==> a == b && a != {}
  {
    OverlapIsShare(a, b);
  }

  lemma ShareOf(x: nat, y: nat)
    requires x <= y && y > 0
    ensures 0.0 <= x as real / y as real <= 1.0
  {
    ShareBounds(x as real, y as real);
  }

  lemma SemanticBounds(a: set<string>, b: set<string>)
    ensures Semantic(a, b) == Semantic(b, a) && 0.0 <= Semantic(a, b) <= 1.0
  {
    assert a * b == b * a && a + b == b + a;
    if a != {} && b != {} && a * b != {} && Letters(a + b) > 0 {
      assert a + b != {};
      SubsetSize(a * b, a + b);
      FewerLetters(a * b, a + b);
      ShareOf(|a * b|, |a + b|);
      ShareOf(Letters(a * b), Letters(a + b));
    }
  }

  lemma MinOverMaxBounds(x: real, y: real)
    requires x >= 0.0 && y >= 0.0
    ensures MinOverMax(x, y) == MinOverMax(y, x) && 0.0 <= MinOverMax(x, y) <= 1.0
  {
    var low, high := if x <= y then x else y, if x >= y then x else y;
    if high > 0.0 {
      ShareBounds(low, high);
    }
  }

  lemma StructuralBounds(a: seq<nat>, b: seq<nat>)
    ensures Structural(a, b) == Structural(b, a) && 0.0 <= Structural(a, b) <= 1.0
  {
    if a != [] && b != [] {
      AverageNotNegative(Words(a), |a|);
      AverageNotNegative(Words(b), |b|);
      MinOverMaxBounds(Words(a) as real / |a| as real, Words(b) as real / |b| as real);
      MinOverMaxBounds(|a| as real, |b| as real);
    }
  }

  /** The structure is the same exactly for equally many sentences with equally many words in all, if any. */
  lemma StructuralIsOneIff(a: seq<nat>, b: seq<nat>)
    ensures Structural(a, b) == 1.0 <==> |a| == |b| && Words(a) == Words(b) > 0
  {
    if a != [] && b != [] {
      var x, y := Words(a) as real / |a| as real, Words(b) as real / |b| as real;
      AverageNotNegative(Words(a), |a|);
      AverageNotNegative(Words(b), |b|);
      MinOverMaxIsOneIff(x, y);
      MinOverMaxIsOneIff(|a| as real, |b| as real);
      MinOverMaxBounds(x, y);
      MinOverMaxBounds(|a| as real, |b| as real);
      SameAverageIff(Words(a), Words(b), |a|);
    }
  }

  lemma SameAverageIff(x: nat, y: nat, n: nat)
    requires n > 0
    ensures x as real / n as real == y as real / n as real <==> x == y
    ensures x as real / n as real > 0.0 <==> x > 0
  {
    QuotientTimes(x as real, n as real);
    QuotientTimes(y as real, n as real);
  }

  lemma MinOverMaxIsOneIff(x: real, y: real)
    requires x >= 0.0 && y >= 0.0
    ensures MinOverMax(x, y) == 1.0 <==> x == y > 0.0
  {
    var low, high := if x <= y then x else y, if x >= y then x else y;
    if high > 0.0 { ShareBounds(low, high); }
  }

  /** The stems score 1 exactly when they are the same and not all empty. */
  lemma SemanticIsOneIff(a: set<string>, b: set<string>)
    ensures Semantic(a, b) == 1.0 <==> a == b && Letters(a) > 0
  {
    if a == b {
      assert a * b == a && a + b == a;
      if Letters(a) > 0 {
        ShareBounds(|a| as real, |a| as real);
        ShareBounds(Letters(a) as real, Letters(a) as real);
      }
    } else {
      DifferentStemsScoreLess(a, b);
    }
  }

  lemma DifferentStemsScoreLess(a: set<string>, b: set<string>)
    requires a != b
    ensures Semantic(a, b) < 1.0
  {
    if a + b != {} && Letters(a + b) > 0 {
      DifferentSetsShareLess(a, b);
      FewerLetters(a * b, a + b);
      ShareOf(Letters(a * b), Letters(a + b));
      WeightedBelowOne(|a * b| as real / |a + b| as real, Letters(a * b) as real / Letters(a + b) as real);
    }
  }

  lemma WeightedBelowOne(x: real, y: real)
    requires 0.0 <= x < 1.0 && 0.0 <= y <= 1.0
    ensures 0.6 * x + 0.4 * y < 1.0
  {
  }

  lemma DifferentSetsShareLess(a: set<string>, b: set<string>)
    requires a != b && a + b != {}
    ensures 0.0 <= |a * b| as real / |a + b| as real < 1.0
  {
    SubsetSize(a * b, a + b);
    ShareBounds(|a * b| as real, |a + b| as real);
  }

  lemma AverageNotNegative(x: nat, n: nat)
    requires n > 0
    ensures x as real / n as real >= 0.0
  {
  }

  // ---------------------------------------------------------------- what each score is

  lemma JaccardTimesUnion(a: set<string>, b: set<string>)
    ensures Jaccard(a, b) * |a + b| as real == |a * b| as real
  {
    OverlapTimesUnion(a, b);
    if a == {} || b == {} { assert a * b == {}; }
  }

  /** The stems score 0.6 times the share of common stems and 0.4 times the share of common letters; the cap at 1 never
      acts. */
  lemma SemanticIsWeighted(a: set<string>, b: set<string>)
    ensures Letters(a + b) > 0 ==>
      WeighsShares(|a * b| as real, |a + b| as real, Letters(a * b) as real, Letters(a + b) as real, Semantic(a, b))
    ensures Letters(a + b) == 0 ==> Semantic(a, b) == 0.0
  {
    if Letters(a + b) > 0 {
      assert a + b != {};
      if a * b == {} {
        NoShares(|a + b| as real, Letters(a + b) as real);
      } else {
        SubsetSize(a * b, a + b);
        FewerLetters(a * b, a + b);
        TwoWeightedShares(|a * b| as real, |a + b| as real, Letters(a * b) as real, Letters(a + b) as real);
      }
    }
  }

  /** r is 0.6 c/u + 0.4 x/y, cleared of fractions. */
  ghost predicate WeighsShares(c: real, u: real, x: real, y: real, r: real) {
    10.0 * r * u * y == 6.0 * c * y + 4.0 * x * u
  }

  lemma NoShares(u: real, y: real)
    ensures WeighsShares(0.0, u, 0.0, y, 0.0)
  {
  }

  lemma TwoWeightedShares(c: real, u: real, x: real, y: real)
    requires 0.0 <= c <= u && 0.0 <= x <= y && u > 0.0 && y > 0.0
    ensures 0.6 * (c / u) + 0.4 * (x / y) <= 1.0
    ensures WeighsShares(c, u, x, y, 0.6 * (c / u) + 0.4 * (x / y))
  {
    ShareBounds(c, u);
    ShareBounds(x, y);
    var p, q := c / u, x / y;
    assert p * u == c && q * y == x;
    assert 10.0 * (0.6 * p + 0.4 * q) * u * y == 6.0 * (p * u) * y + 4.0 * (q * y) * u;
  }

  lemma MinOverMaxTimes(x: real, y: real)
    requires x >= 0.0 && y >= 0.0
    ensures MinOverMax(x, y) * (if x >= y then x else y) == if x <= y then x else y
  {
    var low, high := if x <= y then x else y, if x >= y then x else y;
    if high > 0.0 { QuotientTimes(low, high); }
  }

  /** Twice the structure is the smaller over the larger average sentence length, and of the sentence counts. */
  lemma StructuralIsMean(a: seq<nat>, b: seq<nat>, x: real, y: real)
    requires a != [] && b != []
    requires IsAverage(x, Words(a), |a|) && IsAverage(y, Words(b), |b|)
    ensures 2.0 * Structural(a, b) == MinOverMax(x, y) + MinOverMax(|a| as real, |b| as real)
  {
    AverageIsQuotient(x, Words(a), |a|);
    AverageIsQuotient(y, Words(b), |b|);
    assert Structural(a, b) == (MinOverMax(x, y) + MinOverMax(|a| as real, |b| as real)) / 2.0;
  }

  ghost predicate IsAverage(x: real, total: nat, n: nat) {
    x * n as real == total as real
  }

  lemma AverageIsQuotient(x: real, total: nat, n: nat)
    requires n > 0 && IsAverage(x, total, n)
    ensures total as real / n as real == x
  {
  }

  /** A component moves the total by its weight times its own move: TF-IDF by 0.35, the token sets by 0.35, the
      structure and the stems by 0.15 each. */
  lemma OverallMoves(tfidf: real, other: real, a: Text, b: Text, c: Text)
    ensures Overall(other, a, b) - Overall(tfidf, a, b) == 0.35 * (other - tfidf)
    ensures Overall(tfidf, a.(tokens := c.tokens), b) - Overall(tfidf, a, b)
      == 0.35 * (Jaccard(c.tokens, b.tokens) - Jaccard(a.tokens, b.tokens))
    ensures Overall(tfidf, a.(sentences := c.sentences), b) - Overall(tfidf, a, b)
      == 0.15 * (Structural(c.sentences, b.sentences) - Structural(a.sentences, b.sentences))
    ensures Overall(tfidf, a.(stems := c.stems), b) - Overall(tfidf, a, b)
      == 0.15 * (Semantic(c.stems, b.stems) - Semantic(a.stems, b.stems))
  {
  }

  /** For a TF-IDF similarity in [0, 1] the overall similarity is symmetric, lies in [0, 1], and is 1 exactly when
      TF-IDF is, the two texts have the same non-empty set of tokens, the same stems, and equally many sentences and
      words. */
  lemma OverallSimilarity(tfidf: real, a: Text, b: Text)
    requires 0.0 <= tfidf <= 1.0
    ensures Overall(tfidf, a, b) == Overall(tfidf, b, a)
    ensures 0.0 <= Overall(tfidf, a, b) <= 1.0
    ensures Overall(tfidf, a, b) == 1.0 <==>
      tfidf == 1.0 && a.tokens == b.tokens && a.tokens != {}
      && |a.sentences| == |b.sentences| && Words(a.sentences) == Words(b.sentences) > 0
      && a.stems == b.stems && Letters(a.stems) > 0
  {
    StructuralIsOneIff(a.sentences, b.sentences);
    SemanticIsOneIff(a.stems, b.stems);
    JaccardBounds(a.tokens, b.tokens);
    StructuralBounds(a.sentences, b.sentences);
    SemanticBounds(a.stems, b.stems);
  }
}
