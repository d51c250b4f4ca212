/** The word and punctuation lexer of the corpus generator and the printer that rebuilds a sentence from tokens. */
module SyntheticCorpus {

  datatype CharClass = Word | Space | Other

  /** How the regular expressions class characters: \w, \s, or neither. */
  type Classifier = char -> CharClass

  predicate BlankIsSpace(cls: Classifier) {
    cls(' ') == Space
  }

  function WordLength(s: string, cls: Classifier): (n: nat)
    ensures n <= |s|
  {
    if s == "" || cls(s[0]) != Word then 0 else 1 + WordLength(s[1..], cls)
  }

  /** Maximal runs of word characters, and every other visible character by itself. */
  function Lex(s: string, cls: Classifier): seq<string>
    decreases |s|
  {
    if s == "" then []
    else match cls(s[0])
      case Space => Lex(s[1..], cls)
      case Other => [[s[0]]] + Lex(s[1..], cls)
      case Word =>
        var n := WordLength(s, cls);
        [s[..n]] + Lex(s[n..], cls)
  }

  /** A token that takes no blank before it: one character that is neither word nor space (the pattern's end also
      matches before a final newline). */
  predicate Attaches(t: string, cls: Classifier) {
    t != "" && cls(t[0]) == Other && (|t| == 1 || t[1..] == "\n")
  }

  function Print(ts: seq<string>, cls: Classifier): string {
    if ts == [] then ""
    else if |ts| == 1 then ts[0]
    else
      var n := |ts| - 1;
      Print(ts[..n], cls) + if Attaches(ts[n], cls) then ts[n] else " " + ts[n]
  }

  method Reconstruct(ts: seq<string>, cls: Classifier) returns (r: string)
    ensures r == Print(ts, cls)
  {
    r := "";
    for i := 0 to |ts|
      invariant r == Print(ts[..i], cls)
    {
      assert ts[..i + 1][..i] == ts[..i];
      if i == 0 {
        r := r + ts[i];
      } else if Attaches(ts[i], cls) {
        r := r + ts[i];
      } else {
        r := r + (" " + ts[i]);
      }
    }
    assert ts[..|ts|] == ts;
  }

  // ---------------------------------------------------------------- lexing what was printed

  lemma {:induction false} WordLengthBefore(a: string, c: char, b: string, cls: Classifier)
    requires cls(c) != Word
    ensures WordLength(a + [c] + b, cls) == WordLength(a, cls)
  {
    if a != "" && cls(a[0]) == Word {
      assert (a + [c] + b)[1..] == a[1..] + [c] + b;
      WordLengthBefore(a[1..], c, b, cls);
    }
  }

  /** A character that is no word character cuts the lexing in two. */
  lemma {:induction false} LexCuts(a: string, c: char, b: string, cls: Classifier)
    requires cls(c) != Word
    ensures Lex(a + [c] + b, cls) == Lex(a, cls) + Lex([c] + b, cls)
    decreases |a|
  {
    var s := a + [c] + b;
    if a == "" {
      assert s == [c] + b;
    } else if cls(a[0]) == Word {
      var n := WordLength(a, cls);
      WordLengthBefore(a, c, b, cls);
      assert n > 0;
      assert s[..n] == a[..n] && s[n..] == a[n..] + [c] + b;
      LexCuts(a[n..], c, b, cls);
      assert [a[..n]] + (Lex(a[n..], cls) + Lex([c] + b, cls)) == [a[..n]] + Lex(a[n..], cls) + Lex([c] + b, cls);
    } else {
      assert s[1..] == a[1..] + [c] + b;
      LexCuts(a[1..], c, b, cls);
    }
  }

  function LexEach(ts: seq<string>, cls: Classifier): seq<string> {
    if ts == [] then [] else LexEach(ts[..|ts| - 1], cls) + Lex(ts[|ts| - 1], cls)
  }

  /** Lexing a printed list gives the lexemes of its items, one item after the other, whatever the items are. */
  lemma {:induction false} LexOfPrint(ts: seq<string>, cls: Classifier)
    requires BlankIsSpace(cls)
    ensures Lex(Print(ts, cls), cls) == LexEach(ts, cls)
  {
    if |ts| == 1 {
      assert LexEach(ts[..0], cls) == [];
    } else if |ts| > 1 {
      var n := |ts| - 1;
      var before, t := Print(ts[..n], cls), ts[n];
      LexOfPrint(ts[..n], cls);
      if Attaches(t, cls) {
        assert before + t == before + [t[0]] + t[1..];
        LexCuts(before, t[0], t[1..], cls);
        assert [t[0]] + t[1..] == t;
      } else {
        assert before + (" " + t) == before + [' '] + t;
        LexCuts(before, ' ', t, cls);
        assert ([' '] + t)[1..] == t;
      }
    }
  }

  // ---------------------------------------------------------------- tokens

  ghost predicate IsToken(t: string, cls: Classifier) {
    || (t != "" && forall i :: 0 <= i < |t| ==> cls(t[i]) == Word)
    || (|t| == 1 && cls(t[0]) == Other)
  }

  lemma {:induction false} WordPrefix(s: string, cls: Classifier)
    ensures forall i :: 0 <= i < WordLength(s, cls) ==> cls(s[i]) == Word
    ensures (forall i :: 0 <= i < |s| ==> cls(s[i]) == Word) ==> WordLength(s, cls) == |s|
  {
    if s != "" { WordPrefix(s[1..], cls); }
  }

  /** The lexer yields tokens only. */
  lemma {:induction false} LexYieldsTokens(s: string, cls: Classifier)
    ensures forall t :: t in Lex(s, cls) ==> IsToken(t, cls)
    decreases |s|
  {
    if s != "" {
      if cls(s[0]) == Word {
        WordPrefix(s, cls);
        LexYieldsTokens(s[WordLength(s, cls)..], cls);
      } else {
        LexYieldsTokens(s[1..], cls);
      }
    }
  }

  lemma TokenLexesToItself(t: string, cls: Classifier)
    requires IsToken(t, cls)
    ensures Lex(t, cls) == [t]
  {
    if cls(t[0]) == Word {
      WordPrefix(t, cls);
      assert t[..|t|] == t && t[|t|..] == "";
    } else {
      assert t[1..] == "" && [t[0]] == t;
    }
  }

  lemma {:induction false} TokensLexToThemselves(ts: seq<string>, cls: Classifier)
    requires forall t :: t in ts ==> IsToken(t, cls)
    ensures LexEach(ts, cls) == ts
  {
    if ts != [] {
      TokensLexToThemselves(ts[..|ts| - 1], cls);
      TokenLexesToItself(ts[|ts| - 1], cls);
    }
  }

  /** Printing and lexing undo each other exactly on lists of tokens. */
  lemma RoundTripIffTokens(ts: seq<string>, cls: Classifier)
    requires BlankIsSpace(cls)
    ensures Lex(Print(ts, cls), cls) == ts <==> forall t :: t in ts ==> IsToken(t, cls)
  {
    LexOfPrint(ts, cls);
    LexYieldsTokens(Print(ts, cls), cls);
    if forall t :: t in ts ==> IsToken(t, cls) { TokensLexToThemselves(ts, cls); }
  }

  /** Rebuilding a sentence settles it: what was rebuilt lexes the same and rebuilds to itself. */
  lemma RebuildIsIdempotent(s: string, cls: Classifier)
    requires BlankIsSpace(cls)
    ensures Lex(Print(Lex(s, cls), cls), cls) == Lex(s, cls)
    ensures Print(Lex(Print(Lex(s, cls), cls), cls), cls) == Print(Lex(s, cls), cls)
  {
    LexYieldsTokens(s, cls);
    RoundTripIffTokens(Lex(s, cls), cls);
  }

  // ---------------------------------------------------------------- spacing

  ghost function Blanks(s: string): set<nat> {
    set p: nat | p < |s| && s[p] == ' '
  }

  /** The positions of the word tokens after the first token. */
  ghost function LaterWords(ts: seq<string>, cls: Classifier): set<nat> {
    set k: nat | 0 < k < |ts| && ts[k] != "" && cls(ts[k][0]) == Word
  }

  /** Every blank has a word character right after it. */
  ghost predicate BlanksLeadWords(s: string, cls: Classifier) {
    forall p :: 0 <= p < |s| && s[p] == ' ' ==> p + 1 < |s| && cls(s[p + 1]) == Word
  }

  /** The printed text of a token list has one blank right before each word after the first token, and no other: none
      before punctuation, none twice, none at an end. */
  lemma {:induction false} BlanksStandBeforeWords(ts: seq<string>, cls: Classifier)
    requires BlankIsSpace(cls) && forall t :: t in ts ==> IsToken(t, cls)
    ensures BlanksLeadWords(Print(ts, cls), cls)
    ensures |Blanks(Print(ts, cls))| == |LaterWords(ts, cls)|
  {
    if |ts| == 1 {
      TokenHasNoBlank(ts[0], cls);
      assert LaterWords(ts, cls) == {} && Blanks(ts[0]) == {};
    } else if |ts| > 1 {
      var n := |ts| - 1;
      var before, t := Print(ts[..n], cls), ts[n];
      assert t in ts;
      BlanksStandBeforeWords(ts[..n], cls);
      TokenHasNoBlank(t, cls);
      LaterWordsGrow(ts, cls);
      if cls(t[0]) == Word { WordJoins(before, t, cls); } else { MarkJoins(before, t, cls); }
    } else {
      assert LaterWords(ts, cls) == {} && Blanks("") == {};
    }
  }

  lemma LaterWordsGrow(ts: seq<string>, cls: Classifier)
    requires |ts| > 1
    ensures var (n, t) := (|ts| - 1, ts[|ts| - 1]);
      |LaterWords(ts, cls)| == |LaterWords(ts[..n], cls)| + if t != "" && cls(t[0]) == Word then 1 else 0
  {
    var n := |ts| - 1;
    assert LaterWords(ts, cls) == LaterWords(ts[..n], cls) + if ts[n] != "" && cls(ts[n][0]) == Word then {n} else {};
  }

  lemma TokenHasNoBlank(t: string, cls: Classifier)
    requires BlankIsSpace(cls) && IsToken(t, cls)
    ensures ' ' !in t
  {
  }

  lemma WordJoins(before: string, t: string, cls: Classifier)
    requires BlanksLeadWords(before, cls) && ' ' !in t && t != "" && cls(t[0]) == Word
    ensures BlanksLeadWords(before + (" " + t), cls) && |Blanks(before + (" " + t))| == |Blanks(before)| + 1
  {
    assert Blanks(before + (" " + t)) == Blanks(before) + {|before|};
  }

  lemma MarkJoins(before: string, t: string, cls: Classifier)
    requires BlanksLeadWords(before, cls) && ' ' !in t
    ensures BlanksLeadWords(before + t, cls) && |Blanks(before + t)| == |Blanks(before)|
  {
    assert Blanks(before + t) == Blanks(before);
  }

  // ---------------------------------------------------------------- synonyms in one sentence

  /** The dictionary with the case functions of the language, all of them given. */
  datatype Lexicon = Lexicon(synonyms: map<string, seq<string>>, lower: string -> string,
      recase: (string, string) -> string)

  /** The draws made at one token: whether the roll falls under the ratio, and which synonym is picked. */
  datatype Draw = Draw(hit: bool, pick: nat)

  predicate CanDraw(lex: Lexicon, token: string, draw: Draw) {
    lex.lower(token) in lex.synonyms && draw.hit ==> draw.pick < |lex.synonyms[lex.lower(token)]|
  }

  predicate Drawn(lex: Lexicon, tokens: seq<string>, draws: seq<Draw>) {
    |draws| == |tokens| && forall i :: 0 <= i < |tokens| ==> CanDraw(lex, tokens[i], draws[i])
  }

  function Substituted(lex: Lexicon, token: string, draw: Draw): string
    requires CanDraw(lex, token, draw)
  {
    var key := lex.lower(token);
    if key in lex.synonyms && draw.hit then lex.recase(token, lex.synonyms[key][draw.pick]) else token
  }

  function SubstitutedAll(lex: Lexicon, tokens: seq<string>, draws: seq<Draw>): seq<string>
    requires Drawn(lex, tokens, draws)
  {
    seq(|tokens|, i requires 0 <= i < |tokens| => Substituted(lex, tokens[i], draws[i]))
  }

  /** A draw that hits a known word puts the drawn synonym, in the word's case, in its place; all else stays. */
  lemma SubstitutedIsDrawn(lex: Lexicon, tokens: seq<string>, draws: seq<Draw>, i: nat)
    requires Drawn(lex, tokens, draws) && i < |tokens|
    ensures var r := SubstitutedAll(lex, tokens, draws);
      && |r| == |tokens|
      && (Hits(lex, tokens, draws, i) ==>
           r[i] == lex.recase(tokens[i], lex.synonyms[lex.lower(tokens[i])][draws[i].pick]))
      && (!Hits(lex, tokens, draws, i) ==> r[i] == tokens[i])
  {
  }

  ghost predicate Hits(lex: Lexicon, tokens: seq<string>, draws: seq<Draw>, i: nat)
    requires |draws| == |tokens| && i < |tokens|
  {
    draws[i].hit && lex.lower(tokens[i]) in lex.synonyms
  }

  method ReplaceInSentence(sentence: string, cls: Classifier, lex: Lexicon, draws: seq<Draw>) returns (r: string)
    requires Drawn(lex, Lex(sentence, cls), draws)
    ensures r == Print(SubstitutedAll(lex, Lex(sentence, cls), draws), cls)
  {
    var tokens := Lex(sentence, cls);
    var newTokens := [];
    for i := 0 to |tokens|
      invariant |newTokens| == i
      invariant forall j :: 0 <= j < i ==> newTokens[j] == Substituted(lex, tokens[j], draws[j])
    {
      newTokens := newTokens + [Substituted(lex, tokens[i], draws[i])];
    }
    assert newTokens == SubstitutedAll(lex, tokens, draws);
    r := Reconstruct(newTokens, cls);
  }

  /** Reading a mutated sentence back: the lexemes of each token or of the synonym put in its place, in order. So it has
      the substituted tokens back one for one exactly when every synonym used is itself one token; a hyphenated
      synonym comes apart. */
  lemma MutatedSentenceReadsBack(sentence: string, cls: Classifier, lex: Lexicon, draws: seq<Draw>)
    requires BlankIsSpace(cls) && Drawn(lex, Lex(sentence, cls), draws)
    ensures var ts := SubstitutedAll(lex, Lex(sentence, cls), draws);
      && Lex(Print(ts, cls), cls) == LexEach(ts, cls)
      && (Lex(Print(ts, cls), cls) == ts <==>
           forall i :: 0 <= i < |ts| && Hits(lex, Lex(sentence, cls), draws, i) ==> IsToken(ts[i], cls))
  {
    var original := Lex(sentence, cls);
    var ts := SubstitutedAll(lex, original, draws);
    LexOfPrint(ts, cls);
    RoundTripIffTokens(ts, cls);
    LexYieldsTokens(sentence, cls);
    forall i | 0 <= i < |ts| && !Hits(lex, original, draws, i) ensures IsToken(ts[i], cls) {
      SubstitutedIsDrawn(lex, original, draws, i);
      assert original[i] in original;
    }
    if forall i :: 0 <= i < |ts| && Hits(lex, original, draws, i) ==> IsToken(ts[i], cls) {
      forall t | t in ts ensures IsToken(t, cls) {
        var i :| 0 <= i < |ts| && ts[i] == t;
      }
    }
    if Lex(Print(ts, cls), cls) == ts {
      forall i | 0 <= i < |ts| ensures IsToken(ts[i], cls) { assert ts[i] in ts; }
    }
  }
}
