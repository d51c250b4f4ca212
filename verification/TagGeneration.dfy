/** Scoring candidate tags, keeping the best, and the memo of earlier answers. */
module TagGeneration {
  import opened Sequences
  import opened Sorting

  type Scored = (string, real)

  function Capped(x: real): real {
    if x < 1.0 then x else 1.0
  }

  /** Keyword candidates above the floor, at twice their score, capped at 1. */
  function KeywordCandidates(keywords: seq<Scored>): seq<Scored> {
    if keywords == [] then []
    else
      var before, k := KeywordCandidates(keywords[..|keywords| - 1]), keywords[|keywords| - 1];
      if k.1 > 0.01 && |k.0| > 2 then before + [(k.0, Capped(k.1 * 2.0))] else before
  }

  function TopicCandidates(topics: seq<Scored>): seq<Scored> {
    seq(|topics|, i requires 0 <= i < |topics| => (topics[i].0, Capped(topics[i].1)))
  }

  function Candidates(keywords: seq<Scored>, topics: seq<Scored>): seq<Scored> {
    KeywordCandidates(keywords) + TopicCandidates(topics)
  }

  /** The topics with their keyword lists. */
  type CommonWords = seq<(string, seq<string>)>

  /** What the text analysis works with: the lower-cased words of a text that are no stop words, in order, the topics,
      and whether a keyword occurs in a text. */
  datatype Analysis = Analysis(
    words: string -> seq<string>,
    commonWords: CommonWords,
    mentions: (string, string) -> bool)

  // ---------------------------------------------------------------- keywords

  function Share(words: seq<string>, w: string): real {
    if words == [] then 0.0 else multiset(words)[w] as real / |words| as real
  }

  /** How often the topics list a word. */
  function Listed(banks: CommonWords, w: string): nat {
    if banks == [] then 0 else Listed(banks[..|banks| - 1], w) + multiset(banks[|banks| - 1].1)[w]
  }

  function Boost(n: nat): real {
    if n == 0 then 1.0 else Boost(n - 1) * 1.5
  }

  /** Each word once, in order of appearance, by its share of the words, half as much again for every topic listing
      it. */
  function ScoreWords(words: seq<string>, banks: CommonWords): seq<Scored> {
    var order := FirstOccurrences(words);
    seq(|order|, i requires 0 <= i < |order| => (order[i], Score(words, banks, order[i])))
  }

  function Score(words: seq<string>, banks: CommonWords, w: string): real {
    Raised(Share(words, w), Listed(banks, w))
  }

  function Keywords(analysis: Analysis, content: string): seq<Scored> {
    ScoreWords(analysis.words(content), analysis.commonWords)
  }

  /** The words so far, each once in order of appearance, and how often each occurred. */
  ghost predicate Tallied(words: seq<string>, order: seq<string>, freq: map<string, nat>) {
    && order == FirstOccurrences(words)
    && (forall w :: w in freq <==> w in words)
    && (forall w :: w in freq ==> freq[w] == multiset(words)[w])
  }

  lemma TallyOne(words: seq<string>, w: string, order: seq<string>, freq: map<string, nat>)
    requires Tallied(words, order, freq)
    ensures w in freq ==> Tallied(words + [w], order, freq[w := freq[w] + 1])
    ensures w !in freq ==> Tallied(words + [w], order + [w], freq[w := 1])
  {
    var more := words + [w];
    assert more[..|words|] == words && more[|words|] == w;
    assert w in words <==> w in multiset(words);
  }

  method CountWords(words: seq<string>) returns (order: seq<string>, freq: map<string, nat>)
    ensures Tallied(words, order, freq)
  {
    order, freq := [], map[];
    for i := 0 to |words|
      invariant Tallied(words[..i], order, freq)
    {
      assert words[..i + 1] == words[..i] + [words[i]];
      TallyOne(words[..i], words[i], order, freq);
      if words[i] in freq {
        freq := freq[words[i] := freq[words[i]] + 1];
      } else {
        order := order + [words[i]];
        freq := freq[words[i] := 1];
      }
    }
    assert words[..|words|] == words;
  }

  /** A score after n raises. */
  function Raised(score: real, n: nat): real {
    score * Boost(n)
  }

  lemma RaisedOnce(score: real, n: nat)
    ensures Raised(score, n) * 1.5 == Raised(score, n + 1)
  {
    Associative(score, Boost(n), 1.5);
  }

  lemma RaisedTwice(score: real, m: nat, n: nat)
    ensures Raised(Raised(score, m), n) == Raised(score, m + n)
  {
    BoostAdds(m, n);
    Associative(score, Boost(m), Boost(n));
  }

  lemma Associative(x: real, y: real, z: real)
    ensures x * y * z == x * (y * z)
  {
  }

  lemma {:induction false} BoostAdds(m: nat, n: nat)
    ensures Boost(m + n) == Boost(m) * Boost(n)
  {
    if n > 0 {
      BoostAdds(m, n - 1);
      Associative(Boost(m), Boost(n - 1), 1.5);
    }
  }

  /** Every score was raised as often as the word is listed. */
  ghost predicate RaisedBy(scores: map<string, real>, listed: seq<string>, r: map<string, real>) {
    r.Keys == scores.Keys && forall w :: w in r ==> r[w] == Raised(scores[w], multiset(listed)[w])
  }

  lemma RaiseOne(scores: map<string, real>, listed: seq<string>, r: map<string, real>, w: string)
    requires RaisedBy(scores, listed, r)
    ensures w in r ==> RaisedBy(scores, listed + [w], r[w := r[w] * 1.5])
    ensures w !in r ==> RaisedBy(scores, listed + [w], r)
  {
    if w in r { RaisedOnce(scores[w], multiset(listed)[w]); }
  }

  method BoostListed(scores: map<string, real>, listed: seq<string>) returns (r: map<string, real>)
    ensures RaisedBy(scores, listed, r)
  {
    r := scores;
    for i := 0 to |listed|
      invariant RaisedBy(scores, listed[..i], r)
    {
      assert listed[..i + 1] == listed[..i] + [listed[i]];
      RaiseOne(scores, listed[..i], r, listed[i]);
      if listed[i] in r {
        r := r[listed[i] := r[listed[i]] * 1.5];
      }
    }
    assert listed[..|listed|] == listed;
  }

  ghost predicate RaisedByAll(scores: map<string, real>, banks: CommonWords, r: map<string, real>) {
    r.Keys == scores.Keys && forall w :: w in r ==> r[w] == Raised(scores[w], Listed(banks, w))
  }

  lemma RaiseBank(scores: map<string, real>, banks: CommonWords, i: nat, r: map<string, real>, more: map<string, real>)
    requires i < |banks| && RaisedByAll(scores, banks[..i], r) && RaisedBy(r, banks[i].1, more)
    ensures RaisedByAll(scores, banks[..i + 1], more)
  {
    assert banks[..i + 1][..i] == banks[..i];
    forall w | w in more ensures more[w] == Raised(scores[w], Listed(banks[..i + 1], w)) {
      RaisedTwice(scores[w], Listed(banks[..i], w), multiset(banks[i].1)[w]);
    }
  }

  method BoostAll(scores: map<string, real>, banks: CommonWords) returns (r: map<string, real>)
    ensures RaisedByAll(scores, banks, r)
  {
    r := scores;
    for i := 0 to |banks|
      invariant RaisedByAll(scores, banks[..i], r)
    {
      var more := BoostListed(r, banks[i].1);
      RaiseBank(scores, banks, i, r, more);
      r := more;
    }
    assert banks[..|banks|] == banks;
  }

  /** The shares of the words counted. */
  function Shares(freq: map<string, nat>, total: nat): map<string, real>
    requires total > 0
  {
    map w | w in freq :: freq[w] as real / total as real
  }

  lemma SharesAre(words: seq<string>, order: seq<string>, freq: map<string, nat>)
    requires Tallied(words, order, freq)
    ensures var shares := Shares(freq, if words == [] then 1 else |words|);
      forall w :: w in words ==> w in shares && shares[w] == Share(words, w)
  {
  }

  method ExtractKeywords(analysis: Analysis, content: string) returns (keywords: seq<Scored>)
    ensures keywords == Keywords(analysis, content)
  {
    var words := analysis.words(content);
    var order, freq := CountWords(words);
    var shares := Shares(freq, if words == [] then 1 else |words|);
    SharesAre(words, order, freq);
    var scores := BoostAll(shares, analysis.commonWords);
    assert forall w :: w in words ==> w in scores && scores[w] == Score(words, analysis.commonWords, w);
    keywords := ListScores(words, order, scores);
    assert keywords == ScoreWords(words, analysis.commonWords);
  }

  method ListScores(words: seq<string>, order: seq<string>, scores: map<string, real>) returns (keywords: seq<Scored>)
    requires order == FirstOccurrences(words) && forall w :: w in words ==> w in scores
    ensures |keywords| == |order|
    ensures forall i :: 0 <= i < |order| ==> order[i] in words && keywords[i] == (order[i], scores[order[i]])
  {
    keywords := [];
    for i := 0 to |order|
      invariant |keywords| == i
      invariant forall j :: 0 <= j < i ==> order[j] in words && keywords[j] == (order[j], scores[order[j]])
    {
      assert order[i] in order;
      keywords := keywords + [(order[i], scores[order[i]])];
    }
  }

  /** All the words the topics list, one after the other. */
  function Flattened(banks: CommonWords): seq<string> {
    if banks == [] then [] else Flattened(banks[..|banks| - 1]) + banks[|banks| - 1].1
  }

  lemma {:induction false} ListedCounts(banks: CommonWords, w: string)
    ensures Listed(banks, w) == multiset(Flattened(banks))[w]
  {
    if banks != [] { ListedCounts(banks[..|banks| - 1], w); }
  }

  /** Each word of the text is a keyword once; its score times the number of words is its count, half as much again for
      every time the topics list it. */
  lemma KeywordsAre(analysis: Analysis, content: string, k: Scored)
    requires k in Keywords(analysis, content)
    ensures var words := analysis.words(content);
      && k.0 in words
      && IsScore(k.1, multiset(words)[k.0], |words|, multiset(Flattened(analysis.commonWords))[k.0])
  {
    var words := analysis.words(content);
    var order := FirstOccurrences(words);
    var i :| 0 <= i < |order| && k == (order[i], Score(words, analysis.commonWords, order[i]));
    assert order[i] in order;
    ListedCounts(analysis.commonWords, k.0);
    ScoreOfShare(multiset(words)[k.0], |words|, Listed(analysis.commonWords, k.0));
  }

  ghost predicate IsScore(score: real, count: nat, total: nat, listed: nat) {
    score * total as real == count as real * Boost(listed)
  }

  lemma ScoreOfShare(count: nat, total: nat, listed: nat)
    requires total > 0
    ensures IsScore(Raised(count as real / total as real, listed), count, total, listed)
  {
    var share := count as real / total as real;
    assert share * total as real == count as real;
    assert share * Boost(listed) * total as real == share * total as real * Boost(listed);
  }

  lemma BoostIsHalfMore(n: nat)
    ensures Boost(0) == 1.0 && Boost(n + 1) == Boost(n) + Boost(n) / 2.0
  {
  }

  // ---------------------------------------------------------------- topics

  function Matches(analysis: Analysis, content: string, words: seq<string>): (n: nat)
    ensures n <= |words|
  {
    if words == [] then 0
    else
      Matches(analysis, content, words[..|words| - 1])
      + if analysis.mentions(content, words[|words| - 1]) then 1 else 0
  }

  /** Topics with a keyword in the text, each scored by the share of its keywords found. */
  function TopicsAmong(analysis: Analysis, content: string, banks: CommonWords): seq<Scored> {
    if banks == [] then []
    else
      var before, bank := TopicsAmong(analysis, content, banks[..|banks| - 1]), banks[|banks| - 1];
      var n := Matches(analysis, content, bank.1);
      if n > 0 then before + [(bank.0, n as real / |bank.1| as real)] else before
  }

  function Topics(analysis: Analysis, content: string): seq<Scored> {
    TopicsAmong(analysis, content, analysis.commonWords)
  }

  function CandidatesFor(analysis: Analysis, content: string): seq<Scored> {
    Candidates(Keywords(analysis, content), Topics(analysis, content))
  }

  method DetectTopics(analysis: Analysis, content: string) returns (topics: seq<Scored>)
    ensures topics == Topics(analysis, content)
  {
    var banks := analysis.commonWords;
    topics := [];
    for i := 0 to |banks|
      invariant topics == TopicsAmong(analysis, content, banks[..i])
    {
      assert banks[..i + 1][..i] == banks[..i];
      var matches := CountMatches(analysis, content, banks[i].1);
      if matches > 0 {
        topics := topics + [(banks[i].0, matches as real / |banks[i].1| as real)];
      }
    }
    assert banks[..|banks|] == banks;
  }

  method CountMatches(analysis: Analysis, content: string, words: seq<string>) returns (matches: nat)
    ensures matches == Matches(analysis, content, words)
  {
    matches := 0;
    for i := 0 to |words|
      invariant matches == Matches(analysis, content, words[..i])
    {
      assert words[..i + 1][..i] == words[..i];
      if analysis.mentions(content, words[i]) {
        matches := matches + 1;
      }
    }
    assert words[..|words|] == words;
  }

  lemma Fraction(n: nat, m: nat)
    requires 0 < n <= m
    ensures 0.0 < n as real / m as real <= 1.0
  {
  }

  /** The positions of the keywords that the text mentions. */
  ghost function Mentioned(analysis: Analysis, content: string, words: seq<string>): set<nat> {
    set k: nat | k < |words| && analysis.mentions(content, words[k])
  }

  lemma {:induction false} MatchesCount(analysis: Analysis, content: string, words: seq<string>)
    ensures Matches(analysis, content, words) == |Mentioned(analysis, content, words)|
  {
    if words != [] {
      var n := |words| - 1;
      MatchesCount(analysis, content, words[..n]);
      assert Mentioned(analysis, content, words)
        == Mentioned(analysis, content, words[..n]) + if analysis.mentions(content, words[n]) then {n} else {};
    }
  }

  /** A topic's score, times the number of its keywords, is the number of those found; it is above 0. */
  ghost predicate IsTopic(analysis: Analysis, content: string, bank: (string, seq<string>), t: Scored) {
    t.0 == bank.0 && t.1 > 0.0 && t.1 * |bank.1| as real == |Mentioned(analysis, content, bank.1)| as real
  }

  /** The topics detected are those with a keyword in the text, scored so. */
  lemma {:induction false} TopicsAre(analysis: Analysis, content: string, banks: CommonWords)
    ensures forall t :: t in TopicsAmong(analysis, content, banks) ==>
      exists bank :: bank in banks && IsTopic(analysis, content, bank, t)
    ensures forall bank :: bank in banks && Mentioned(analysis, content, bank.1) != {} ==>
      exists t :: t in TopicsAmong(analysis, content, banks) && IsTopic(analysis, content, bank, t)
  {
    if banks != [] {
      var rest, bank := banks[..|banks| - 1], banks[|banks| - 1];
      assert banks == rest + [bank];
      TopicsAre(analysis, content, rest);
      MatchesCount(analysis, content, bank.1);
      if Matches(analysis, content, bank.1) > 0 {
        var n := Matches(analysis, content, bank.1);
        var t := (bank.0, n as real / |bank.1| as real);
        Fraction(n, |bank.1|);
        assert t.1 * |bank.1| as real == n as real;
        assert IsTopic(analysis, content, bank, t);
        assert t in TopicsAmong(analysis, content, banks);
      }
    }
  }

  /** A detected topic scores above 0 and at most 1. */
  lemma {:induction false} TopicScores(analysis: Analysis, content: string, banks: CommonWords)
    ensures forall t :: t in TopicsAmong(analysis, content, banks) ==> 0.0 < t.1 <= 1.0
  {
    if banks != [] {
      TopicScores(analysis, content, banks[..|banks| - 1]);
      var words := banks[|banks| - 1].1;
      if Matches(analysis, content, words) > 0 { Fraction(Matches(analysis, content, words), |words|); }
    }
  }

  /** Position of a tag in an insertion-ordered table. */
  function IndexOf(table: seq<Scored>, tag: string): (i: nat)
    ensures i <= |table|
    ensures i < |table| ==> table[i].0 == tag
    ensures forall j :: 0 <= j < i ==> table[j].0 != tag
  {
    if table == [] || table[0].0 == tag then 0 else 1 + IndexOf(table[1..], tag)
  }

  /** Enter a candidate: a new tag goes last, a known one keeps its place and takes the larger score. */
  function Entered(table: seq<Scored>, c: Scored): seq<Scored> {
    var i := IndexOf(table, c.0);
    if i == |table| then table + [c] else if c.1 > table[i].1 then table[i := c] else table
  }

  function Unique(cs: seq<Scored>): seq<Scored> {
    if cs == [] then [] else Entered(Unique(cs[..|cs| - 1]), cs[|cs| - 1])
  }

  lemma UniqueStep(cs: seq<Scored>, i: nat)
    requires i < |cs|
    ensures Unique(cs[..i + 1]) == Entered(Unique(cs[..i]), cs[i])
  {
    assert cs[..i + 1][..i] == cs[..i];
  }

  ghost predicate DistinctTags(table: seq<Scored>) {
    forall i, j :: 0 <= i < j < |table| ==> table[i].0 != table[j].0
  }

  /** The score is that of some candidate of the tag and none of its candidates scores more. */
  ghost predicate IsBest(cs: seq<Scored>, t: Scored) {
    t in cs && forall c :: c in cs && c.0 == t.0 ==> c.1 <= t.1
  }

  /** The table holds each tag of cs once, with the largest of its scores. */
  ghost predicate HoldsTheBest(cs: seq<Scored>, table: seq<Scored>) {
    && DistinctTags(table)
    && (forall t :: t in table ==> IsBest(cs, t))
    && (forall c :: c in cs ==> IndexOf(table, c.0) < |table|)
  }

  lemma EnteredStaysBest(cs: seq<Scored>, table: seq<Scored>, c: Scored)
    requires HoldsTheBest(cs, table)
    ensures forall t :: t in Entered(table, c) ==> IsBest(cs + [c], t)
  {
    var now, i := Entered(table, c), IndexOf(table, c.0);
    forall t | t in now ensures IsBest(cs + [c], t) {
      var k :| 0 <= k < |now| && now[k] == t;
      if k != i { assert t == table[k] && t in table && t.0 != c.0; }
      else if i < |table| { assert table[i] in table && (t == c || t == table[i]); }
      else {
        forall d | d in cs ensures d.0 != c.0 { assert table[IndexOf(table, d.0)].0 == d.0; }
      }
    }
  }

  lemma EnteredHoldsAll(cs: seq<Scored>, table: seq<Scored>, c: Scored)
    requires HoldsTheBest(cs, table)
    ensures DistinctTags(Entered(table, c))
    ensures forall d :: d in cs + [c] ==> IndexOf(Entered(table, c), d.0) < |Entered(table, c)|
  {
    var now, i := Entered(table, c), IndexOf(table, c.0);
    forall d | d in cs + [c] ensures IndexOf(now, d.0) < |now| {
      var k := if d.0 == c.0 then i else IndexOf(table, d.0);
      assert k < |now| && now[k].0 == d.0;
    }
  }

  lemma {:induction false} UniqueKeepsTheBest(cs: seq<Scored>)
    ensures HoldsTheBest(cs, Unique(cs))
  {
    if cs != [] {
      var rest, c := cs[..|cs| - 1], cs[|cs| - 1];
      assert cs == rest + [c];
      UniqueKeepsTheBest(rest);
      EnteredStaysBest(rest, Unique(rest), c);
      EnteredHoldsAll(rest, Unique(rest), c);
    }
  }

  method ListCandidates(keywords: seq<Scored>, topics: seq<Scored>) returns (tags: seq<Scored>)
    ensures tags == Candidates(keywords, topics)
  {
    tags := [];
    for i := 0 to |keywords|
      invariant tags == KeywordCandidates(keywords[..i])
    {
      assert keywords[..i + 1][..i] == keywords[..i];
      if keywords[i].1 > 0.01 && |keywords[i].0| > 2 {
        tags := tags + [(keywords[i].0, Capped(keywords[i].1 * 2.0))];
      }
    }
    assert keywords[..|keywords|] == keywords;
    for i := 0 to |topics|
      invariant tags == KeywordCandidates(keywords) + TopicCandidates(topics[..i])
    {
      assert TopicCandidates(topics[..i + 1]) == TopicCandidates(topics[..i]) + [(topics[i].0, Capped(topics[i].1))];
      tags := tags + [(topics[i].0, Capped(topics[i].1))];
    }
    assert topics[..|topics|] == topics;
  }

  method ScoreTags(keywords: seq<Scored>, topics: seq<Scored>) returns (table: seq<Scored>)
    ensures table == Unique(Candidates(keywords, topics))
  {
    var tags := ListCandidates(keywords, topics);
    table := [];
    for i := 0 to |tags|
      invariant table == Unique(tags[..i])
    {
      UniqueStep(tags, i);
      var at := IndexOf(table, tags[i].0);
      if at == |table| {
        table := table + [tags[i]];
      } else if tags[i].1 > table[at].1 {
        table := table[at := tags[i]];
      }
    }
    assert tags[..|tags|] == tags;
  }

  // ---------------------------------------------------------------- the answer

  function ByScore(): Scored -> real {
    (t: Scored) => t.1
  }

  /** The slice [:n]; a negative n drops that many from the end. */
  function Upto<T>(s: seq<T>, n: int): seq<T> {
    s[..SliceEnd(|s|, n)]
  }

  function SliceEnd(length: nat, n: int): (r: nat)
    ensures r <= length
  {
    if n >= 0 then (if n < length then n else length) else (if length + n > 0 then length + n else 0)
  }

  function Ranking(analysis: Analysis, content: string): seq<Scored> {
    SortDescending(Unique(CandidatesFor(analysis, content)), ByScore())
  }

  function FreshAnswer(analysis: Analysis, content: string, maxTags: int): seq<Scored> {
    Upto(Ranking(analysis, content), maxTags)
  }

  lemma SortKeepsDistinctTags(table: seq<Scored>)
    requires DistinctTags(table)
    ensures DistinctTags(SortDescending(table, ByScore()))
  {
    var sorted := SortDescending(table, ByScore());
    forall i, j | 0 <= i < j < |sorted| ensures sorted[i].0 != sorted[j].0 {
      if sorted[i].0 == sorted[j].0 {
        SortKeepsElements(table, ByScore());
        assert sorted[i] in sorted && sorted[j] in sorted;
        SameTagSameEntry(table, sorted[i], sorted[j]);
        TwiceInSequence(sorted, i, j);
        DistinctTagsOnce(table, sorted[i]);
        assert false;
      }
    }
  }

  lemma SameTagSameEntry(table: seq<Scored>, a: Scored, b: Scored)
    requires DistinctTags(table) && a in table && b in table && a.0 == b.0
    ensures a == b
  {
  }

  lemma TwiceInSequence(s: seq<Scored>, i: nat, j: nat)
    requires i < j < |s| && s[i] == s[j]
    ensures multiset(s)[s[i]] >= 2
  {
    assert s == s[..j] + [s[j]] + s[j + 1..];
    assert s[i] == s[..j][i];
    assert s[i] in s[..j];
    assert multiset(s[..j])[s[i]] >= 1;
  }

  lemma {:induction false} DistinctTagsOnce(table: seq<Scored>, t: Scored)
    requires DistinctTags(table)
    ensures multiset(table)[t] <= 1
  {
    if table != [] {
      var rest, last := table[..|table| - 1], table[|table| - 1];
      assert table == rest + [last];
      DistinctTagsOnce(rest, t);
      if t == last { assert t !in rest; assert t !in multiset(rest); }
    }
  }

  /** The candidates: each keyword of three letters or more that scores above 0.01, at twice its score, and each topic
      at its own, but none above 1. */
  lemma {:induction false} KeywordCandidatesAre(keywords: seq<Scored>, c: Scored)
    ensures c in KeywordCandidates(keywords) <==>
      exists k :: k in keywords && k.0 == c.0 && |k.0| >= 3 && k.1 > 0.01
        && c.1 == if k.1 >= 0.5 then 1.0 else k.1 + k.1
  {
    if keywords != [] {
      var rest, last := keywords[..|keywords| - 1], keywords[|keywords| - 1];
      assert keywords == rest + [last];
      KeywordCandidatesAre(rest, c);
    }
  }

  lemma CandidatesAre(keywords: seq<Scored>, topics: seq<Scored>, c: Scored)
    ensures c in Candidates(keywords, topics) <==>
      || (exists k :: k in keywords && k.0 == c.0 && |k.0| >= 3 && k.1 > 0.01
            && c.1 == if k.1 >= 0.5 then 1.0 else k.1 + k.1)
      || (exists t :: t in topics && t.0 == c.0 && c.1 == if t.1 >= 1.0 then 1.0 else t.1)
  {
    KeywordCandidatesAre(keywords, c);
    if t :| t in topics && t.0 == c.0 && c.1 == if t.1 >= 1.0 then 1.0 else t.1 {
      var i :| 0 <= i < |topics| && topics[i] == t;
      assert TopicCandidates(topics)[i] == c;
    }
    if c in TopicCandidates(topics) {
      var i :| 0 <= i < |topics| && TopicCandidates(topics)[i] == c;
      assert topics[i] in topics;
    }
  }

  lemma {:induction false} KeywordScores(keywords: seq<Scored>)
    ensures forall c :: c in KeywordCandidates(keywords) ==> 0.0 < c.1 <= 1.0
  {
    if keywords != [] { KeywordScores(keywords[..|keywords| - 1]); }
  }

  lemma CandidateScores(keywords: seq<Scored>, topics: seq<Scored>)
    requires forall t :: t in topics ==> 0.0 < t.1 <= 1.0
    ensures forall c :: c in Candidates(keywords, topics) ==> 0.0 < c.1 <= 1.0
  {
    KeywordScores(keywords);
    forall c | c in TopicCandidates(topics) ensures 0.0 < c.1 <= 1.0 {
      var i :| 0 <= i < |topics| && TopicCandidates(topics)[i] == c;
      assert topics[i] in topics;
    }
  }

  lemma UptoKeepsOrder(ranking: seq<Scored>, n: nat)
    requires DistinctTags(ranking) && Descending(ranking, ByScore())
    ensures |Upto(ranking, n)| <= n && DistinctTags(Upto(ranking, n)) && Descending(Upto(ranking, n), ByScore())
    ensures forall t :: t in Upto(ranking, n) ==> t in ranking
  {
  }

  /** An answer has distinct tags in falling order, at most as many as asked, each with the best of its candidate
      scores, which lies in (0, 1]. */
  lemma AnswerIsBestOfCandidates(analysis: Analysis, content: string, maxTags: nat)
    ensures var r := FreshAnswer(analysis, content, maxTags);
      && |r| <= maxTags && DistinctTags(r) && Descending(r, ByScore())
      && (forall t :: t in r ==> IsBest(CandidatesFor(analysis, content), t) && 0.0 < t.1 <= 1.0)
  {
    RankingIsTable(analysis, content);
    UptoKeepsOrder(Ranking(analysis, content), maxTags);
    TopicScores(analysis, content, analysis.commonWords);
    CandidateScores(Keywords(analysis, content), Topics(analysis, content));
  }

  lemma RankingIsTable(analysis: Analysis, content: string)
    ensures var (cs, ranking) := (CandidatesFor(analysis, content), Ranking(analysis, content));
      && DistinctTags(ranking) && Descending(ranking, ByScore())
      && (forall t :: t in ranking <==> t in Unique(cs))
      && (forall t :: t in ranking ==> IsBest(cs, t))
      && (forall c :: c in cs ==> IndexOf(Unique(cs), c.0) < |Unique(cs)|)
  {
    var cs := CandidatesFor(analysis, content);
    UniqueKeepsTheBest(cs);
    SortIsDescending(Unique(cs), ByScore());
    SortKeepsElements(Unique(cs), ByScore());
    SortKeepsDistinctTags(Unique(cs));
  }

  /** No candidate tag that is left out scores better than one that is in. */
  lemma NothingBetterIsLeftOut(analysis: Analysis, content: string, maxTags: nat, t: Scored, u: Scored)
    requires t in FreshAnswer(analysis, content, maxTags)
    requires u in CandidatesFor(analysis, content)
    requires forall v :: v in FreshAnswer(analysis, content, maxTags) ==> v.0 != u.0
    ensures u.1 <= t.1
  {
    var cs := CandidatesFor(analysis, content);
    RankingIsTable(analysis, content);
    LeftOutIsNoBetter(cs, Unique(cs), Ranking(analysis, content), FreshAnswer(analysis, content, maxTags), t, u);
  }

  lemma LeftOutIsNoBetter(cs: seq<Scored>, table: seq<Scored>, ranking: seq<Scored>, r: seq<Scored>, t: Scored,
      u: Scored)
    requires Descending(ranking, ByScore()) && r <= ranking
    requires forall x :: x in ranking <==> x in table
    requires forall x :: x in table ==> IsBest(cs, x)
    requires IndexOf(table, u.0) < |table|
    requires t in r && u in cs && forall v :: v in r ==> v.0 != u.0
    ensures u.1 <= t.1
  {
    var best := table[IndexOf(table, u.0)];
    assert best in table && best in ranking;
    var i :| 0 <= i < |r| && r[i] == t;
    var j :| 0 <= j < |ranking| && ranking[j] == best;
    assert forall k :: 0 <= k < |r| ==> r[k] in r && r[k] == ranking[k];
    assert j >= |r|;
    assert ByScore()(ranking[i]) >= ByScore()(ranking[j]);
  }

  // ---------------------------------------------------------------- the memo

  ghost function TagNames(cs: seq<Scored>): set<string> {
    set c | c in cs :: c.0
  }

  lemma {:induction false} OneEntryPerName(table: seq<Scored>)
    requires DistinctTags(table)
    ensures |TagNames(table)| == |table|
  {
    if table != [] {
      var rest, last := table[..|table| - 1], table[|table| - 1];
      assert table == rest + [last];
      OneEntryPerName(rest);
      assert TagNames(table) == TagNames(rest) + {last.0};
      assert last.0 !in TagNames(rest);
    }
  }

  /** A ranking is as long as the text has candidate tags of different names. */
  lemma RankingLength(analysis: Analysis, content: string)
    ensures |Ranking(analysis, content)| == |TagNames(CandidatesFor(analysis, content))|
  {
    var cs := CandidatesFor(analysis, content);
    var table := Unique(cs);
    UniqueKeepsTheBest(cs);
    OneEntryPerName(table);
    forall n ensures n in TagNames(table) <==> n in TagNames(cs) {
      if n in TagNames(table) {
        var t :| t in table && t.0 == n;
        assert IsBest(cs, t);
      }
      if n in TagNames(cs) {
        var c :| c in cs && c.0 == n;
        assert table[IndexOf(table, c.0)] in table;
      }
    }
    assert TagNames(table) == TagNames(cs);
  }

  /** An answer is the beginning of the ranking, and as long as asked for while there are candidate tags; a negative
      limit leaves out as many at the end. */
  lemma AnswerLength(analysis: Analysis, content: string, maxTags: int)
    ensures var (k, r) := (|TagNames(CandidatesFor(analysis, content))|, FreshAnswer(analysis, content, maxTags));
      && r <= Ranking(analysis, content)
      && (0 <= maxTags <= k ==> |r| == maxTags) && (maxTags >= k ==> |r| == k)
      && (-k <= maxTags < 0 ==> |r| == k + maxTags) && (maxTags < -k ==> r == [])
  {
    RankingLength(analysis, content);
  }

  function Names(table: seq<Scored>): seq<string> {
    seq(|table|, i requires 0 <= i < |table| => table[i].0)
  }

  /** The table lists the tags in the order in which they first come up among the candidates. */
  lemma {:induction false} TagsInOrder(cs: seq<Scored>)
    ensures Names(Unique(cs)) == FirstOccurrences(Names(cs))
  {
    if cs != [] {
      var rest, c := cs[..|cs| - 1], cs[|cs| - 1];
      TagsInOrder(rest);
      assert Names(cs)[..|cs| - 1] == Names(rest) && Names(cs)[|cs| - 1] == c.0;
      NamesAfterEntry(Unique(rest), c);
    }
  }

  lemma NamesAfterEntry(table: seq<Scored>, c: Scored)
    ensures Names(Entered(table, c)) == if c.0 in Names(table) then Names(table) else Names(table) + [c.0]
  {
    var i := IndexOf(table, c.0);
    assert i < |table| ==> Names(table)[i] == c.0;
  }

  function Scoring(x: real): Scored -> bool {
    (t: Scored) => t.1 == x
  }

  /** Tags of the same score stand in the ranking in the order of the table. */
  lemma TiesKeepTheirOrder(analysis: Analysis, content: string, x: real)
    ensures Filter(Ranking(analysis, content), Scoring(x))
      == Filter(Unique(CandidatesFor(analysis, content)), Scoring(x))
  {
    SortIsStable(Unique(CandidatesFor(analysis, content)), ByScore(), x, Scoring(x));
  }

  /** Two limits show the same part of k tags; for limits that are not negative, when they are equal or neither is
      below k. */
  predicate ShowAlike(k: nat, m: int, n: int) {
    SliceEnd(k, m) == SliceEnd(k, n)
  }

  /** The memo ignores the limit: an answer computed under one limit is right under another exactly when the limits show
      the same part of as many tags as the text has candidate tags of different names. */
  lemma StaleIff(analysis: Analysis, content: string, remembered: int, asked: int)
    ensures var k := |TagNames(CandidatesFor(analysis, content))|;
      && (FreshAnswer(analysis, content, remembered) == FreshAnswer(analysis, content, asked) <==>
        ShowAlike(k, remembered, asked))
      && (remembered >= 0 && asked >= 0 ==>
        (ShowAlike(k, remembered, asked) <==> remembered == asked || (remembered >= k && asked >= k)))
  {
    RankingLength(analysis, content);
    var k := |Ranking(analysis, content)|;
    assert |FreshAnswer(analysis, content, remembered)| == SliceEnd(k, remembered);
    assert |FreshAnswer(analysis, content, asked)| == SliceEnd(k, asked);
  }

  type Memo = map<string, seq<Scored>>

  /** Every remembered answer is right under this limit. */
  ghost predicate RemembersFor(memo: Memo, analysis: Analysis, maxTags: int) {
    forall c :: c in memo ==> memo[c] == FreshAnswer(analysis, c, maxTags)
  }

  datatype Call = Call(content: string, maxTags: int)

  /** One call: the memo afterwards and the answer. */
  function Answer(analysis: Analysis, memo: Memo, call: Call): (Memo, seq<Scored>) {
    if call.content == "" then (memo, [])
    else if call.content in memo then (memo, memo[call.content])
    else
      var computed := FreshAnswer(analysis, call.content, call.maxTags);
      (memo[call.content := computed], computed)
  }

  function MemoAfter(analysis: Analysis, calls: seq<Call>): Memo {
    if calls == [] then map[]
    else Answer(analysis, MemoAfter(analysis, calls[..|calls| - 1]), calls[|calls| - 1]).0
  }

  function AnswerAt(analysis: Analysis, calls: seq<Call>, i: nat): seq<Scored>
    requires i < |calls|
  {
    Answer(analysis, MemoAfter(analysis, calls[..i]), calls[i]).1
  }

  /** The first of the calls that asks for the content. */
  function FirstCall(calls: seq<Call>, content: string): (i: nat)
    ensures i <= |calls|
    ensures i < |calls| ==> calls[i].content == content
    ensures forall j :: 0 <= j < i ==> calls[j].content != content
  {
    if calls == [] || calls[0].content == content then 0 else 1 + FirstCall(calls[1..], content)
  }

  lemma AnswerRemembers(analysis: Analysis, memo: Memo, call: Call, content: string)
    requires content != ""
    ensures var after := Answer(analysis, memo, call).0;
      && (content in after <==> content in memo || call.content == content)
      && (content in memo ==> after[content] == memo[content])
      && (content !in memo && call.content == content ==>
        after[content] == FreshAnswer(analysis, content, call.maxTags))
  {
  }

  /** The memo holds, for each text asked for so far, the answer under the limit of the first call for it. */
  lemma {:induction false} MemoHoldsFirst(analysis: Analysis, calls: seq<Call>, content: string)
    requires content != ""
    ensures content in MemoAfter(analysis, calls) <==> FirstCall(calls, content) < |calls|
    ensures content in MemoAfter(analysis, calls) ==>
      MemoAfter(analysis, calls)[content] == FreshAnswer(analysis, content, calls[FirstCall(calls, content)].maxTags)
  {
    if calls != [] {
      var rest := calls[..|calls| - 1];
      MemoHoldsFirst(analysis, rest, content);
      FirstCallGrows(calls, content);
      AnswerRemembers(analysis, MemoAfter(analysis, rest), calls[|calls| - 1], content);
    }
  }

  lemma FirstCallGrows(calls: seq<Call>, content: string)
    requires calls != []
    ensures var (n, before) := (|calls| - 1, FirstCall(calls[..|calls| - 1], content));
      FirstCall(calls, content) == if before < n then before else if calls[n].content == content then n else n + 1
  {
    var n, before, now := |calls| - 1, FirstCall(calls[..|calls| - 1], content), FirstCall(calls, content);
    assert forall j :: 0 <= j < n ==> calls[..n][j] == calls[j];
  }

  lemma FirstCallWithin(calls: seq<Call>, i: nat)
    requires i < |calls|
    ensures FirstCall(calls, calls[i].content) <= i
    ensures FirstCall(calls[..i], calls[i].content) < i ==>
      FirstCall(calls[..i], calls[i].content) == FirstCall(calls, calls[i].content)
    ensures FirstCall(calls[..i], calls[i].content) == i ==> FirstCall(calls, calls[i].content) == i
  {
    assert forall j :: 0 <= j < i ==> calls[..i][j] == calls[j];
  }

  /** In every run each answer is the one computed under the limit of the first call for that text, so it is the right
      one exactly when the two limits show alike. */
  lemma EveryAnswerIsTheFirst(analysis: Analysis, calls: seq<Call>, i: nat)
    requires i < |calls| && calls[i].content != ""
    ensures var (content, first) := (calls[i].content, calls[FirstCall(calls, calls[i].content)].maxTags);
      && AnswerAt(analysis, calls, i) == FreshAnswer(analysis, content, first)
      && (AnswerAt(analysis, calls, i) == FreshAnswer(analysis, content, calls[i].maxTags) <==>
            ShowAlike(|TagNames(CandidatesFor(analysis, content))|, first, calls[i].maxTags))
  {
    var content := calls[i].content;
    MemoHoldsFirst(analysis, calls[..i], content);
    FirstCallWithin(calls, i);
    StaleIff(analysis, content, calls[FirstCall(calls, content)].maxTags, calls[i].maxTags);
  }

  /** A text asked for some tags and then for more: the second answer is wrong exactly when there are more candidate
      tags than were asked for first. */
  lemma SecondAnswerIsStaleIff(analysis: Analysis, content: string, few: nat, more: nat)
    requires content != "" && few < more
    ensures var calls := [Call(content, few), Call(content, more)];
      AnswerAt(analysis, calls, 1) != FreshAnswer(analysis, content, more) <==>
        |TagNames(CandidatesFor(analysis, content))| > few
  {
    EveryAnswerIsTheFirst(analysis, [Call(content, few), Call(content, more)], 1);
  }

  lemma {:induction false} BoostAtLeastOne(n: nat)
    ensures Boost(n) >= 1.0
  {
    if n > 0 { BoostAtLeastOne(n - 1); }
  }

  lemma {:induction false} KeptKeyword(keywords: seq<Scored>, k: Scored)
    requires k in keywords && k.1 > 0.01 && |k.0| > 2
    ensures (k.0, Capped(k.1 * 2.0)) in KeywordCandidates(keywords)
  {
    var rest, last := keywords[..|keywords| - 1], keywords[|keywords| - 1];
    assert keywords == rest + [last];
    if k in rest { KeptKeyword(rest, k); }
  }

  lemma ShareAboveFloor(count: nat, total: nat, boost: real)
    requires 0 < count && 0 < total < 100 && boost >= 1.0
    ensures count as real / total as real * boost > 0.01
  {
    var share := count as real / total as real;
    assert share * total as real == count as real;
    assert share > 0.01;
    assert share * boost >= share;
  }

  lemma ScoreAboveFloor(words: seq<string>, banks: CommonWords, w: string)
    requires w in words && |words| < 100
    ensures Score(words, banks, w) > 0.01
  {
    var count, boost := multiset(words)[w], Boost(Listed(banks, w));
    assert w in multiset(words) && count > 0;
    BoostAtLeastOne(Listed(banks, w));
    ShareAboveFloor(count, |words|, boost);
    assert Share(words, w) == count as real / |words| as real;
    assert Score(words, banks, w) == Share(words, w) * boost;
  }

  /** A word of a text of less than a hundred words is one of its candidate tags. */
  lemma WordIsTag(analysis: Analysis, content: string, w: string)
    requires w in analysis.words(content) && |w| > 2 && |analysis.words(content)| < 100
    ensures w in TagNames(CandidatesFor(analysis, content))
  {
    var words, keywords := analysis.words(content), Keywords(analysis, content);
    var order := FirstOccurrences(words);
    var i :| 0 <= i < |order| && order[i] == w;
    ScoreAboveFloor(words, analysis.commonWords, w);
    assert keywords[i].0 == w && keywords[i] in keywords;
    KeptKeyword(keywords, keywords[i]);
    assert (w, Capped(keywords[i].1 * 2.0)) in CandidatesFor(analysis, content);
  }

  /** Two different words of a short text make several candidate tags. */
  lemma TwoWordsAreTwoTags(analysis: Analysis, content: string, a: string, b: string)
    requires a in analysis.words(content) && b in analysis.words(content) && |analysis.words(content)| < 100
    requires |a| > 2 && |b| > 2 && a != b
    ensures |TagNames(CandidatesFor(analysis, content))| >= 2
  {
    WordIsTag(analysis, content, a);
    WordIsTag(analysis, content, b);
    SubsetSize({a, b}, TagNames(CandidatesFor(analysis, content)));
  }

  class TagGenerator {
    const analysis: Analysis
    var tagCache: Memo

    constructor (analysis: Analysis)
      ensures this.analysis == analysis && tagCache == map[]
    {
      this.analysis := analysis;
      tagCache := map[];
    }

    /** Answers from the memo when it can; under one limit throughout the answer is always the computed one. */
    method GenerateTags(content: string, maxTags: int) returns (tags: seq<Scored>)
      modifies this
      ensures content == "" ==> tags == [] && tagCache == old(tagCache)
      ensures (tagCache, tags) == Answer(analysis, old(tagCache), Call(content, maxTags))
      ensures old(RemembersFor(tagCache, analysis, maxTags)) ==> RemembersFor(tagCache, analysis, maxTags)
      ensures old(RemembersFor(tagCache, analysis, maxTags)) && content != "" ==>
        tags == FreshAnswer(analysis, content, maxTags)
    {
      if content == "" {
        return [];
      }
      if content in tagCache {
        return tagCache[content];
      }
      var topics := DetectTopics(analysis, content);
      var keywords := ExtractKeywords(analysis, content);
      var scored := ScoreTags(keywords, topics);
      tags := Upto(SortDescending(scored, ByScore()), maxTags);
      tagCache := tagCache[content := tags];
    }
  }
}
