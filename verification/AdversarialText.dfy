/** Whitespace tokens, compression by dropping stop words, and bounded synonym substitution. */
module AdversarialText {
  import opened Sequences

  type SpaceTest = char -> bool

  // ---------------------------------------------------------------- tokens

  function VisibleLength(s: string, space: SpaceTest): (n: nat)
    ensures n <= |s|
  {
    if s == "" || space(s[0]) then 0 else 1 + VisibleLength(s[1..], space)
  }

  /** Maximal runs of visible characters. */
  function Tokenize(s: string, space: SpaceTest): seq<string>
    decreases |s|
  {
    if s == "" then []
    else if space(s[0]) then Tokenize(s[1..], space)
    else
      var n := VisibleLength(s, space);
      [s[..n]] + Tokenize(s[n..], space)
  }

  function Detokenize(ts: seq<string>): string {
    if ts == [] then "" else if |ts| == 1 then ts[0] else ts[0] + " " + Detokenize(ts[1..])
  }

  ghost predicate IsWord(t: string, space: SpaceTest) {
    t != "" && forall i :: 0 <= i < |t| ==> !space(t[i])
  }

  ghost predicate AllWords(ts: seq<string>, space: SpaceTest) {
    forall t :: t in ts ==> IsWord(t, space)
  }

  lemma {:induction false} VisibleUpTo(t: string, rest: string, space: SpaceTest)
    requires forall i :: 0 <= i < |t| ==> !space(t[i])
    requires rest == "" || space(rest[0])
    ensures VisibleLength(t + rest, space) == |t|
  {
    if t != "" {
      assert (t + rest)[1..] == t[1..] + rest;
      VisibleUpTo(t[1..], rest, space);
    } else {
      assert t + rest == rest;
    }
  }

  lemma {:induction false} VisiblePrefix(s: string, space: SpaceTest)
    ensures forall i :: 0 <= i < VisibleLength(s, space) ==> !space(s[i])
  {
    if s != "" { VisiblePrefix(s[1..], space); }
  }

  lemma {:induction false} TokenizeYieldsWords(s: string, space: SpaceTest)
    ensures AllWords(Tokenize(s, space), space)
    decreases |s|
  {
    if s != "" {
      if space(s[0]) {
        TokenizeYieldsWords(s[1..], space);
      } else {
        VisiblePrefix(s, space);
        TokenizeYieldsWords(s[VisibleLength(s, space)..], space);
      }
    }
  }

  lemma {:induction false} TokenizeOfJoined(ts: seq<string>, space: SpaceTest)
    requires space(' ') && AllWords(ts, space)
    ensures Tokenize(Detokenize(ts), space) == ts
  {
    if ts != [] {
      var t := ts[0];
      assert t in ts;
      var rest := if |ts| == 1 then "" else " " + Detokenize(ts[1..]);
      var s := Detokenize(ts);
      assert s == t + rest;
      VisibleUpTo(t, rest, space);
      assert s[..|t|] == t && s[|t|..] == rest;
      if |ts| > 1 {
        TokenizeOfJoined(ts[1..], space);
        assert rest[1..] == Detokenize(ts[1..]);
      }
    }
  }

  lemma {:induction false} VisibleBefore(a: string, c: char, b: string, space: SpaceTest)
    requires space(c)
    ensures VisibleLength(a + [c] + b, space) == VisibleLength(a, space)
  {
    if a != "" && !space(a[0]) {
      assert (a + [c] + b)[1..] == a[1..] + [c] + b;
      VisibleBefore(a[1..], c, b, space);
    }
  }

  /** A space, whichever it is, cuts the tokens in two; and a text without spaces is one token. */
  lemma {:induction false} TokenizeCuts(a: string, c: char, b: string, space: SpaceTest)
    requires space(c)
    ensures Tokenize(a + [c] + b, space) == Tokenize(a, space) + Tokenize(b, space)
    ensures IsWord(a, space) ==> Tokenize(a, space) == [a]
    decreases |a|
  {
    var s := a + [c] + b;
    if a == "" {
      assert s[1..] == b;
    } else if space(a[0]) {
      assert s[1..] == a[1..] + [c] + b;
      TokenizeCuts(a[1..], c, b, space);
    } else {
      var n := VisibleLength(a, space);
      VisibleBefore(a, c, b, space);
      assert s[..n] == a[..n] && s[n..] == a[n..] + [c] + b;
      TokenizeCuts(a[n..], c, b, space);
      assert [a[..n]] + (Tokenize(a[n..], space) + Tokenize(b, space)) == [a[..n]] + Tokenize(a[n..], space)
        + Tokenize(b, space);
      if IsWord(a, space) {
        VisibleUpTo(a, "", space);
        assert a + "" == a && a[..|a|] == a && a[|a|..] == "";
      }
    }
  }

  /** Tokenising undoes joining with blanks exactly on lists of non-empty words without spaces. */
  lemma TokenizeUndoesDetokenizeIff(ts: seq<string>, space: SpaceTest)
    requires space(' ')
    ensures Tokenize(Detokenize(ts), space) == ts <==> AllWords(ts, space)
  {
    TokenizeYieldsWords(Detokenize(ts), space);
    if AllWords(ts, space) { TokenizeOfJoined(ts, space); }
  }

  // ---------------------------------------------------------------- compression

  /** The increasing positions `at` pick the list `part` out of `whole`. */
  ghost predicate PicksOut(part: seq<string>, whole: seq<string>, at: seq<nat>) {
    && |at| == |part|
    && (forall i :: 0 <= i < |at| ==> at[i] < |whole| && part[i] == whole[at[i]])
    && (forall i, j :: 0 <= i < j < |at| ==> at[i] < at[j])
  }

  ghost predicate Subsequence(part: seq<string>, whole: seq<string>) {
    exists at :: PicksOut(part, whole, at)
  }

  /** The tokens kept: every token that is no stop word, and a stop word when its draw falls under the kept fraction.
      Only stop words use up a draw. */
  function Kept(tokens: seq<string>, stop: string -> bool, fraction: real, draws: nat -> real): (seq<string>, nat) {
    if tokens == [] then ([], 0)
    else
      var n := |tokens| - 1;
      var (before, used) := Kept(tokens[..n], stop, fraction, draws);
      if !stop(tokens[n]) then (before + [tokens[n]], used)
      else (if draws(used) < fraction then before + [tokens[n]] else before, used + 1)
  }

  function KeepFraction(factor: real): real {
    var capped := if factor < 1.0 then factor else 1.0;
    if capped > 0.1 then capped else 0.1
  }

  function Shortened(tokens: seq<string>, fraction: real): (r: seq<string>)
    requires tokens != [] && 0.1 <= fraction <= 1.0
    ensures r <= tokens && r != []
  {
    var n := (|tokens| as real * fraction).Floor;
    assert |tokens| as real * fraction <= |tokens| as real;
    tokens[..if n > 1 then n else 1]
  }

  function CompressedTokens(tokens: seq<string>, stop: string -> bool, factor: real, draws: nat -> real): seq<string> {
    if |tokens| <= 5 then tokens
    else
      var kept := Kept(tokens, stop, KeepFraction(factor), draws).0;
      if kept == [] then Shortened(tokens, KeepFraction(factor)) else kept
  }

  method TransformCompression(text: string, space: SpaceTest, stop: string -> bool, factor: real, draws: nat -> real)
    returns (r: string)
    ensures |Tokenize(text, space)| <= 5 ==> r == text
    ensures |Tokenize(text, space)| > 5 ==>
      r == Detokenize(CompressedTokens(Tokenize(text, space), stop, factor, draws))
  {
    var tokens := Tokenize(text, space);
    if |tokens| <= 5 {
      return text;
    }
    var keepFraction := KeepFraction(factor);
    var result, used := [], 0;
    for i := 0 to |tokens|
      invariant (result, used) == Kept(tokens[..i], stop, keepFraction, draws)
    {
      assert tokens[..i + 1][..i] == tokens[..i];
      var token := tokens[i];
      if stop(token) {
        if draws(used) < keepFraction {
          result := result + [token];
        }
        used := used + 1;
      } else {
        result := result + [token];
      }
    }
    assert tokens[..|tokens|] == tokens;
    if result == [] {
      return Detokenize(Shortened(tokens, keepFraction));
    }
    return Detokenize(result);
  }

  /** How many stop words come before position i. */
  ghost function StopsBefore(tokens: seq<string>, stop: string -> bool, i: nat): nat
    requires i <= |tokens|
  {
    |set k: nat | k < i && stop(tokens[k])|
  }

  /** A token stays unless it is a stop word, the m-th of the text, whose m-th draw reaches the fraction. */
  ghost predicate Stays(tokens: seq<string>, stop: string -> bool, fraction: real, draws: nat -> real, i: nat)
    requires i < |tokens|
  {
    stop(tokens[i]) ==> draws(StopsBefore(tokens, stop, i)) < fraction
  }

  lemma StopsBeforeNext(tokens: seq<string>, stop: string -> bool, i: nat)
    requires i < |tokens|
    ensures StopsBefore(tokens, stop, i + 1) == StopsBefore(tokens, stop, i) + if stop(tokens[i]) then 1 else 0
  {
    assert (set k: nat | k < i + 1 && stop(tokens[k]))
      == (set k: nat | k < i && stop(tokens[k])) + if stop(tokens[i]) then {i} else {};
  }

  /** The increasing positions `at` are those of the first n tokens that stay, and `part` lists their tokens. */
  ghost predicate PicksStaying(part: seq<string>, tokens: seq<string>, n: nat, stop: string -> bool, fraction: real,
      draws: nat -> real, at: seq<nat>)
    requires n <= |tokens|
  {
    PicksOut(part, tokens, at) && forall i :: i in at <==> 0 <= i < n && Stays(tokens, stop, fraction, draws, i)
  }

  ghost predicate KeepsStaying(part: seq<string>, tokens: seq<string>, n: nat, stop: string -> bool, fraction: real,
      draws: nat -> real)
    requires n <= |tokens|
  {
    exists at :: PicksStaying(part, tokens, n, stop, fraction, draws, at)
  }

  lemma {:induction false} KeptAreStaying(tokens: seq<string>, n: nat, stop: string -> bool, fraction: real,
      draws: nat -> real)
    requires n <= |tokens|
    ensures KeepsStaying(Kept(tokens[..n], stop, fraction, draws).0, tokens, n, stop, fraction, draws)
    ensures Kept(tokens[..n], stop, fraction, draws).1 == StopsBefore(tokens, stop, n)
  {
    if n == 0 {
      assert PicksStaying([], tokens, 0, stop, fraction, draws, []);
    } else {
      var i := n - 1;
      KeptAreStaying(tokens, i, stop, fraction, draws);
      StopsBeforeNext(tokens, stop, i);
      assert tokens[..n][..i] == tokens[..i];
      var before := Kept(tokens[..i], stop, fraction, draws).0;
      var at :| PicksStaying(before, tokens, i, stop, fraction, draws, at);
      OneMorePosition(before, tokens, i, stop, fraction, draws, at);
    }
  }

  lemma OneMorePosition(before: seq<string>, tokens: seq<string>, i: nat, stop: string -> bool, fraction: real,
      draws: nat -> real, at: seq<nat>)
    requires i < |tokens| && PicksStaying(before, tokens, i, stop, fraction, draws, at)
    ensures Stays(tokens, stop, fraction, draws, i) ==>
      KeepsStaying(before + [tokens[i]], tokens, i + 1, stop, fraction, draws)
    ensures !Stays(tokens, stop, fraction, draws, i) ==> KeepsStaying(before, tokens, i + 1, stop, fraction, draws)
  {
    forall j | 0 <= j < |at| ensures at[j] < i { assert at[j] in at; }
    if Stays(tokens, stop, fraction, draws, i) {
      assert forall k :: k in at + [i] <==> k in at || k == i;
      assert PicksStaying(before + [tokens[i]], tokens, i + 1, stop, fraction, draws, at + [i]);
    } else {
      assert PicksStaying(before, tokens, i + 1, stop, fraction, draws, at);
    }
  }

  lemma KeptPicksOut(tokens: seq<string>, stop: string -> bool, fraction: real, draws: nat -> real)
    ensures Subsequence(Kept(tokens, stop, fraction, draws).0, tokens)
    ensures KeepsStaying(Kept(tokens, stop, fraction, draws).0, tokens, |tokens|, stop, fraction, draws)
  {
    assert tokens[..|tokens|] == tokens;
    KeptAreStaying(tokens, |tokens|, stop, fraction, draws);
  }

  ghost predicate SomeStay(tokens: seq<string>, stop: string -> bool, fraction: real, draws: nat -> real) {
    exists i :: 0 <= i < |tokens| && Stays(tokens, stop, fraction, draws, i)
  }

  /** A longer text keeps exactly the tokens that stay under the factor, limited to [0.1, 1]; when none does, its first
      tokens: as many as that share of the text, rounded down, and at least one. */
  lemma CompressionKeeps(tokens: seq<string>, stop: string -> bool, factor: real, draws: nat -> real)
    requires |tokens| > 5
    ensures var fraction := if factor < 0.1 then 0.1 else if factor > 1.0 then 1.0 else factor;
      var r := CompressedTokens(tokens, stop, factor, draws);
      if SomeStay(tokens, stop, fraction, draws) then KeepsStaying(r, tokens, |tokens|, stop, fraction, draws)
      else r <= tokens && IsShareOf(|r|, |tokens|, fraction)
  {
    var fraction := KeepFraction(factor);
    KeptPicksOut(tokens, stop, fraction, draws);
    SomeStayIffKept(tokens, Kept(tokens, stop, fraction, draws).0, stop, fraction, draws);
    ShortenedLength(tokens, fraction);
  }

  lemma SomeStayIffKept(tokens: seq<string>, kept: seq<string>, stop: string -> bool, fraction: real,
      draws: nat -> real)
    requires KeepsStaying(kept, tokens, |tokens|, stop, fraction, draws)
    ensures SomeStay(tokens, stop, fraction, draws) <==> kept != []
  {
    var at :| PicksStaying(kept, tokens, |tokens|, stop, fraction, draws, at);
    assert kept != [] ==> at[0] in at;
  }

  lemma ShortenedLength(tokens: seq<string>, fraction: real)
    requires tokens != [] && 0.1 <= fraction <= 1.0
    ensures IsShareOf(|Shortened(tokens, fraction)|, |tokens|, fraction)
  {
    assert |tokens| as real * fraction <= |tokens| as real;
  }

  /** k is the larger of 1 and the share of n, rounded down. */
  ghost predicate IsShareOf(k: nat, n: nat, share: real) {
    if n as real * share < 2.0 then k == 1 else k as real <= n as real * share < (k + 1) as real
  }

  ghost predicate KeepsContent(kept: seq<string>, tokens: seq<string>, stop: string -> bool) {
    forall t :: !stop(t) ==> multiset(kept)[t] == multiset(tokens)[t]
  }

  lemma {:induction false} KeptKeepsContent(tokens: seq<string>, stop: string -> bool, fraction: real,
      draws: nat -> real)
    ensures KeepsContent(Kept(tokens, stop, fraction, draws).0, tokens, stop)
  {
    if tokens != [] {
      var n := |tokens| - 1;
      assert tokens == tokens[..n] + [tokens[n]];
      KeptKeepsContent(tokens[..n], stop, fraction, draws);
    }
  }

  lemma ContentOfNothing(tokens: seq<string>, stop: string -> bool)
    requires KeepsContent([], tokens, stop)
    ensures forall t :: t in tokens ==> stop(t)
  {
  }

  lemma PrefixPicksOut(tokens: seq<string>, n: nat)
    requires n <= |tokens|
    ensures Subsequence(tokens[..n], tokens)
  {
    var at := seq(n, i => i);
    assert PicksOut(tokens[..n], tokens, at);
  }

  lemma SubsequenceWords(part: seq<string>, whole: seq<string>, space: SpaceTest)
    requires Subsequence(part, whole) && AllWords(whole, space)
    ensures AllWords(part, space)
  {
  }

  /** With only stop words any prefix will do. */
  lemma PrefixOfStopWords(tokens: seq<string>, kept: seq<string>, short: seq<string>, stop: string -> bool)
    requires kept == [] && KeepsContent(kept, tokens, stop) && short <= tokens
    ensures Subsequence(short, tokens) && KeepsContent(short, tokens, stop)
  {
    PrefixPicksOut(tokens, |short|);
    assert short == tokens[..|short|];
    ContentOfNothing(tokens, stop);
    AllStopWords(tokens, short, stop);
  }

  lemma WholeIsSubsequence(tokens: seq<string>)
    ensures Subsequence(tokens, tokens)
  {
    assert tokens[..|tokens|] == tokens;
    PrefixPicksOut(tokens, |tokens|);
  }

  /** Compression takes a subsequence that keeps every occurrence of every token that is no stop word, and is empty only
      when there was nothing to compress. */
  lemma CompressedIsSubsequence(tokens: seq<string>, stop: string -> bool, factor: real, draws: nat -> real)
    ensures Subsequence(CompressedTokens(tokens, stop, factor, draws), tokens)
    ensures KeepsContent(CompressedTokens(tokens, stop, factor, draws), tokens, stop)
    ensures CompressedTokens(tokens, stop, factor, draws) == [] <==> tokens == []
  {
    if |tokens| <= 5 {
      WholeIsSubsequence(tokens);
    } else {
      var fraction := KeepFraction(factor);
      var kept := Kept(tokens, stop, fraction, draws).0;
      KeptPicksOut(tokens, stop, fraction, draws);
      KeptKeepsContent(tokens, stop, fraction, draws);
      if kept == [] {
        PrefixOfStopWords(tokens, kept, Shortened(tokens, fraction), stop);
      }
    }
  }

  /** Compressed text, read back, is the compressed token list. */
  lemma CompressionReadsBack(text: string, space: SpaceTest, stop: string -> bool, factor: real, draws: nat -> real)
    requires space(' ')
    ensures var kept := CompressedTokens(Tokenize(text, space), stop, factor, draws);
      Tokenize(Detokenize(kept), space) == kept
  {
    var tokens := Tokenize(text, space);
    var kept := CompressedTokens(tokens, stop, factor, draws);
    TokenizeYieldsWords(text, space);
    CompressedIsSubsequence(tokens, stop, factor, draws);
    SubsequenceWords(kept, tokens, space);
    TokenizeUndoesDetokenizeIff(kept, space);
  }

  lemma AllStopWords(tokens: seq<string>, kept: seq<string>, stop: string -> bool)
    requires forall t :: t in tokens ==> stop(t)
    requires kept <= tokens
    ensures KeepsContent(kept, tokens, stop)
  {
  }

  /** Joining puts one blank between any two tokens: the text is as long as the tokens together and one for each gap. */
  lemma {:induction false} JoinedLength(ts: seq<string>)
    requires ts != []
    ensures |Detokenize(ts)| == TotalLength(ts) + |ts| - 1
  {
    if |ts| > 1 { JoinedLength(ts[1..]); }
  }

  function TotalLength(ts: seq<string>): nat {
    if ts == [] then 0 else |ts[0]| + TotalLength(ts[1..])
  }

  // ---------------------------------------------------------------- synonym substitution

  const TRAILING := ".,;:!?"

  /** The text without the trailing characters that are among the marks. */
  function StripEnd(t: string, marks: string): (r: string)
    ensures r <= t
  {
    if t == "" || t[|t| - 1] !in marks then t else StripEnd(t[..|t| - 1], marks)
  }

  /** The word without its trailing punctuation. */
  function Stem(t: string): (r: string)
    ensures r <= t
  {
    StripEnd(t, TRAILING)
  }

  /** The synonym banks, and what lower-casing makes of the character at a position of a text. */
  datatype Banks = Banks(bank: map<string, seq<string>>, image: (string, nat) -> string)

  function LowerUpTo(banks: Banks, t: string, n: nat): string
    requires n <= |t|
  {
    if n == 0 then "" else LowerUpTo(banks, t, n - 1) + banks.image(t, n - 1)
  }

  function Lower(banks: Banks, t: string): string {
    LowerUpTo(banks, t, |t|)
  }

  /** A character that no key of the banks holds. */
  ghost predicate Foreign(banks: Banks, c: char) {
    forall k :: k in banks.bank ==> c !in k
  }

  /** Lower-casing gives one character for one, or brings in a mark that no key holds: the keys are plain ASCII, and the
      only character whose lower-case form is longer is the dotted capital I, which leaves a combining dot behind. */
  ghost predicate OneForOne(banks: Banks) {
    forall t: string, i: nat :: i < |t| ==>
      |banks.image(t, i)| == 1 || exists c :: c in banks.image(t, i) && Foreign(banks, c)
  }

  lemma {:induction false} LowerIsOneForOne(banks: Banks, t: string, n: nat)
    requires OneForOne(banks) && n <= |t|
    ensures |LowerUpTo(banks, t, n)| == n || exists c :: c in LowerUpTo(banks, t, n) && Foreign(banks, c)
  {
    if n > 0 {
      LowerIsOneForOne(banks, t, n - 1);
      var before, image := LowerUpTo(banks, t, n - 1), banks.image(t, n - 1);
      if c :| c in before && Foreign(banks, c) {
        assert c in before + image;
      } else if c :| c in image && Foreign(banks, c) {
        assert c in before + image;
      }
    }
  }

  /** What lower-cases to a key has the length of the key. */
  lemma KeysKeepLength(banks: Banks, t: string)
    requires OneForOne(banks) && Lower(banks, t) in banks.bank
    ensures |Lower(banks, t)| == |t|
  {
    LowerIsOneForOne(banks, t, |t|);
  }

  predicate IsEligible(banks: Banks, t: string) {
    Stem(Lower(banks, t)) in banks.bank
  }

  function Key(banks: Banks, t: string): string {
    Lower(banks, Stem(t))
  }

  function Eligible(banks: Banks, tokens: seq<string>): (r: seq<nat>)
    ensures forall i :: i in r ==> i < |tokens|
    ensures forall i :: 0 <= i < |tokens| ==> (i in r <==> IsEligible(banks, tokens[i]))
    ensures Distinct(r)
  {
    if tokens == [] then []
    else
      var n := |tokens| - 1;
      var before := Eligible(banks, tokens[..n]);
      assert n !in before;
      if IsEligible(banks, tokens[n]) then before + [n] else before
  }

  /** How many positions may change: at least one, at most the share of the eligible ones. */
  function Quota(eligible: nat, ratio: real): nat {
    var n := Truncate(eligible as real * ratio);
    if n > 1 then n else 1
  }

  /** Truncation toward zero. */
  function Truncate(x: real): int {
    if x >= 0.0 then x.Floor else -((-x).Floor)
  }

  /** A draw without repetition of as many eligible positions as the quota allows. */
  ghost predicate Sampled(eligible: seq<nat>, ratio: real, indices: seq<nat>) {
    && Distinct(indices)
    && (forall i :: i in indices ==> i in eligible)
    && |indices| == if Quota(|eligible|, ratio) < |eligible| then Quota(|eligible|, ratio) else |eligible|
  }

  function Suffix(t: string, n: nat): string {
    if n <= |t| then t[n..] else ""
  }

  predicate CanPick(banks: Banks, t: string, pick: nat) {
    Key(banks, t) in banks.bank ==> pick < |banks.bank[Key(banks, t)]|
  }

  /** A synonym for the stem with what follows it, cut off by the length of the lower-cased stem. */
  function Replaced(banks: Banks, t: string, pick: nat): string
    requires CanPick(banks, t, pick)
  {
    var key := Key(banks, t);
    if key in banks.bank then banks.bank[key][pick] + Suffix(t, |key|) else t
  }

  ghost predicate CanPickAll(banks: Banks, tokens: seq<string>, indices: seq<nat>, picks: seq<nat>) {
    && |picks| == |indices|
    && (forall j :: 0 <= j < |indices| ==> indices[j] < |tokens| && CanPick(banks, tokens[indices[j]], picks[j]))
  }

  /** The first j sampled positions are overwritten and no other. */
  ghost predicate Substituted(tokens: seq<string>, banks: Banks, indices: seq<nat>, picks: seq<nat>, j: nat,
      result: seq<string>)
    requires CanPickAll(banks, tokens, indices, picks) && j <= |indices|
  {
    && |result| == |tokens|
    && (forall i :: 0 <= i < |tokens| && i !in indices[..j] ==> result[i] == tokens[i])
    && (forall k :: 0 <= k < j ==> result[indices[k]] == Replaced(banks, tokens[indices[k]], picks[k]))
  }

  lemma SubstituteOne(tokens: seq<string>, banks: Banks, indices: seq<nat>, picks: seq<nat>, j: nat,
      result: seq<string>)
    requires CanPickAll(banks, tokens, indices, picks) && Distinct(indices) && j < |indices|
    requires Substituted(tokens, banks, indices, picks, j, result)
    ensures Substituted(tokens, banks, indices, picks, j + 1,
      result[indices[j] := Replaced(banks, tokens[indices[j]], picks[j])])
  {
  }

  /** Overwrites the sampled positions one by one and leaves every other token alone. */
  method SubstituteSynonyms(tokens: seq<string>, banks: Banks, ratio: real, indices: seq<nat>, picks: seq<nat>)
    returns (result: seq<string>)
    requires Sampled(Eligible(banks, tokens), ratio, indices) && CanPickAll(banks, tokens, indices, picks)
    ensures |result| == |tokens|
    ensures forall i :: 0 <= i < |tokens| && i !in indices ==> result[i] == tokens[i]
    ensures forall j :: 0 <= j < |indices| ==> result[indices[j]] == Replaced(banks, tokens[indices[j]], picks[j])
  {
    result := tokens;
    for j := 0 to |indices|
      invariant Substituted(tokens, banks, indices, picks, j, result)
    {
      SubstituteOne(tokens, banks, indices, picks, j, result);
      result := result[indices[j] := Replaced(banks, tokens[indices[j]], picks[j])];
    }
    assert indices[..|indices|] == indices;
  }

  lemma {:induction false} StripCutsMarks(t: string, marks: string)
    ensures t == StripEnd(t, marks) + t[|StripEnd(t, marks)|..]
    ensures forall c :: c in t[|StripEnd(t, marks)|..] ==> c in marks
    ensures StripEnd(t, marks) != "" ==> StripEnd(t, marks)[|StripEnd(t, marks)| - 1] !in marks
  {
    if t != "" && t[|t| - 1] in marks {
      var rest, n := t[..|t| - 1], |StripEnd(t, marks)|;
      StripCutsMarks(rest, marks);
      assert t[n..] == rest[n..] + [t[|t| - 1]];
    }
  }

  ghost predicate IsTrailing(tail: string) {
    forall c :: c in tail ==> c in TRAILING
  }

  /** What follows the stem: the longest run of marks at the end. */
  function Punctuation(t: string): string {
    t[|Stem(t)|..]
  }

  lemma PunctuationIsTrailing(t: string)
    ensures t == Stem(t) + Punctuation(t) && IsTrailing(Punctuation(t))
    ensures Stem(t) != "" ==> Stem(t)[|Stem(t)| - 1] !in TRAILING
  {
    StripCutsMarks(t, TRAILING);
  }

  /** A token is eligible exactly when it is, lower-cased, a bank key with any number of marks behind it. */
  lemma EligibleIff(banks: Banks, t: string)
    ensures IsEligible(banks, t) <==>
      exists n :: 0 <= n <= |Lower(banks, t)| && Lower(banks, t)[..n] in banks.bank
        && IsTrailing(Lower(banks, t)[n..]) && (n > 0 ==> Lower(banks, t)[n - 1] !in TRAILING)
  {
    var s := Lower(banks, t);
    StripCutsMarks(s, TRAILING);
    var m := |Stem(s)|;
    assert s[..m] == Stem(s) && IsTrailing(s[m..]);
    MarksFrom(s, m);
    forall n | 0 <= n <= |s| && IsTrailing(s[n..]) && (n > 0 ==> s[n - 1] !in TRAILING) ensures n == m {
      MarksFrom(s, n);
    }
  }

  lemma MarksFrom(s: string, n: nat)
    requires n <= |s| && IsTrailing(s[n..])
    ensures forall i :: n <= i < |s| ==> s[i] in TRAILING
  {
    forall i | n <= i < |s| ensures s[i] in TRAILING {
      assert s[i] == s[n..][i - n] && s[n..][i - n] in s[n..];
    }
  }

  /** Every token replaced by a synonym keeps exactly its trailing punctuation behind it; any other stays as it is. */
  lemma ReplacedKeepsPunctuation(banks: Banks, t: string, pick: nat)
    requires OneForOne(banks) && CanPick(banks, t, pick)
    ensures Replaced(banks, t, pick) ==
      if Key(banks, t) in banks.bank then banks.bank[Key(banks, t)][pick] + Punctuation(t) else t
    ensures t == Stem(t) + Punctuation(t) && IsTrailing(Punctuation(t))
    ensures Stem(t) != "" ==> Stem(t)[|Stem(t)| - 1] !in TRAILING
  {
    PunctuationIsTrailing(t);
    if Key(banks, t) in banks.bank { KeysKeepLength(banks, Stem(t)); }
  }

  /** The positions at which two lists of the same length differ. */
  ghost function Changes(before: seq<string>, after: seq<string>): set<nat>
    requires |before| == |after|
  {
    set i: nat | i < |before| && before[i] != after[i]
  }

  /** k of n: all of them, or the larger of 1 and the share the ratio allows, rounded down. */
  ghost predicate WithinQuota(k: nat, n: nat, ratio: real) {
    && k <= n && (k <= 1 || k as real <= n as real * ratio)
    && (k == n || (if ratio >= 0.0 then IsShareOf(k, n, ratio) else k == 1))
  }

  lemma SampleIsWithinQuota(eligible: seq<nat>, ratio: real, indices: seq<nat>)
    requires Sampled(eligible, ratio, indices)
    ensures WithinQuota(|indices|, |eligible|, ratio)
  {
    QuotaIsShare(|eligible|, ratio);
  }

  lemma QuotaIsShare(eligible: nat, ratio: real)
    ensures Quota(eligible, ratio) == 1 || Quota(eligible, ratio) as real <= eligible as real * ratio
    ensures if ratio >= 0.0 then IsShareOf(Quota(eligible, ratio), eligible, ratio) else Quota(eligible, ratio) == 1
  {
    ProductSign(eligible as real, ratio);
  }

  lemma ProductSign(n: real, ratio: real)
    requires n >= 0.0
    ensures if ratio >= 0.0 then n * ratio >= 0.0 else n * ratio <= 0.0
  {
  }

  /** Only eligible positions change, at most as many as are sampled. */
  lemma SubstitutionIsBounded(tokens: seq<string>, result: seq<string>, banks: Banks, ratio: real, indices: seq<nat>)
    requires |result| == |tokens| && Sampled(Eligible(banks, tokens), ratio, indices)
    requires forall i :: 0 <= i < |tokens| && i !in indices ==> result[i] == tokens[i]
    ensures |Changes(tokens, result)| <= |indices| && WithinQuota(|indices|, |Eligible(banks, tokens)|, ratio)
    ensures Changes(tokens, result) <= Elements(Eligible(banks, tokens))
  {
    DistinctSize(indices);
    SubsetSize(Changes(tokens, result), Elements(indices));
    SampleIsWithinQuota(Eligible(banks, tokens), ratio, indices);
  }
}
