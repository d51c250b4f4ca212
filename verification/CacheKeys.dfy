/** Splitting and joining text at a separator. */
module Strings {

  /** The parts of a text with x put before it: x starts a new part or joins the first. */
  function Push(x: char, c: char, parts: seq<string>): (r: seq<string>)
    requires |parts| > 0
    ensures |r| > 0
  {
    if x == c then [""] + parts else [[x] + parts[0]] + parts[1..]
  }

  function SplitOn(s: string, c: char): (r: seq<string>)
    ensures |r| > 0
  {
    if s == "" then [""] else Push(s[0], c, SplitOn(s[1..], c))
  }

  lemma PushAppend(x: char, c: char, p: seq<string>, q: seq<string>)
    requires |p| > 0
    ensures Push(x, c, p + q) == Push(x, c, p) + q
  {
    assert (p + q)[0] == p[0] && (p + q)[1..] == p[1..] + q;
  }

  function Join(parts: seq<string>, sep: string): string {
    if parts == [] then "" else if |parts| == 1 then parts[0] else parts[0] + sep + Join(parts[1..], sep)
  }

  lemma {:induction false} SplitWhole(s: string, c: char)
    requires c !in s
    ensures SplitOn(s, c) == [s]
  {
    if s != "" {
      SplitWhole(s[1..], c);
      assert s[0] in s && s == [s[0]] + s[1..];
    }
  }

  /** A separator cuts the split in two. */
  lemma {:induction false} SplitAtSeparator(a: string, c: char, b: string)
    ensures SplitOn(a + [c] + b, c) == SplitOn(a, c) + SplitOn(b, c)
  {
    if a == "" {
      assert a + [c] + b == [c] + b;
      assert ([c] + b)[1..] == b;
    } else {
      assert (a + [c] + b)[1..] == a[1..] + [c] + b;
      SplitAtSeparator(a[1..], c, b);
      PushAppend(a[0], c, SplitOn(a[1..], c), SplitOn(b, c));
    }
  }

  lemma SplitAtDoubled(a: string, c: char, b: string)
    ensures SplitOn(a + [c] + ([c] + b), c) == SplitOn(a, c) + [""] + SplitOn(b, c)
  {
    SplitAtSeparator(a, c, [c] + b);
    assert ([c] + b)[1..] == b;
  }

  /** Splitting undoes joining when no part contains the separator. */
  lemma {:induction false} SplitUndoesJoin(parts: seq<string>, c: char)
    requires parts != [] && forall p :: p in parts ==> c !in p
    ensures SplitOn(Join(parts, [c]), c) == parts
  {
    assert parts[0] in parts;
    SplitWhole(parts[0], c);
    if |parts| > 1 {
      SplitUndoesJoin(parts[1..], c);
      SplitAtSeparator(parts[0], c, Join(parts[1..], [c]));
    }
  }

  lemma {:induction false} SplitPartsAreFree(s: string, c: char)
    ensures forall p :: p in SplitOn(s, c) ==> c !in p
    ensures forall p, x :: p in SplitOn(s, c) && x in p ==> x in s
  {
    if s != "" { SplitPartsAreFree(s[1..], c); }
  }

  lemma {:induction false} JoinCharacters(parts: seq<string>, sep: string)
    ensures forall x :: x in Join(parts, sep) ==> x in sep || exists p :: p in parts && x in p
  {
    if |parts| > 1 {
      JoinCharacters(parts[1..], sep);
      assert forall p :: p in parts[1..] ==> p in parts;
    } else if |parts| == 1 {
      assert parts[0] in parts;
    }
  }
}

/** Names of cache entries: a namespace, the application version and path-normalised parts, joined by colons. */
module CacheKeys {
  import opened Sequences
  import opened Strings

  const APP_VERSION := "1.0.0"

  datatype Namespace = Session | Faiss | Analysis | LoginAttempts | Uploads {
    function Name(): string {
      match this
      case Session => "spd:v1:session"
      case Faiss => "spd:v1:faiss"
      case Analysis => "spd:v1:analysis"
      case LoginAttempts => "spd:v1:login_attempts"
      case Uploads => "spd:v1:uploads"
    }
  }

  // ---------------------------------------------------------------- path normalisation

  function WithSlashes(s: string): string {
    seq(|s|, i requires 0 <= i < |s| => if s[i] == '\\' then '/' else s[i])
  }

  /** The root of a POSIX path and the rest; exactly two leading slashes are a root of their own. */
  function SplitRoot(t: string): (string, string) {
    if t == "" || t[0] != '/' then ("", t)
    else if |t| >= 2 && t[1] == '/' && !(|t| >= 3 && t[2] == '/') then ("//", t[2..])
    else ("/", t[1..])
  }

  predicate RealSegment(p: string) {
    p != "" && p != "."
  }

  function Segments(rel: string): seq<string> {
    Filter(SplitOn(rel, '/'), RealSegment)
  }

  /** One spelling per path: forward slashes, no empty or "." segments; "" stays "". */
  function Normalize(p: string): string {
    if p == "" then ""
    else
      var (root, rel) := SplitRoot(WithSlashes(p));
      var r := root + Join(Segments(rel), "/");
      if r == "" then "." else r
  }

  ghost predicate PlainSegments(segs: seq<string>) {
    forall p :: p in segs ==> RealSegment(p) && '/' !in p && '\\' !in p
  }

  lemma SegmentsArePlain(p: string)
    ensures PlainSegments(Segments(SplitRoot(WithSlashes(p)).1))
  {
    var rel := SplitRoot(WithSlashes(p)).1;
    SplitPartsAreFree(rel, '/');
    assert '\\' !in WithSlashes(p);
    assert '\\' !in rel;
  }

  lemma JoinedSegments(segs: seq<string>)
    requires PlainSegments(segs)
    ensures Segments(Join(segs, "/")) == segs
    ensures '\\' !in Join(segs, "/")
    ensures Join(segs, "/") != "" ==> Join(segs, "/")[0] != '/'
    ensures Join(segs, "/") == "" <==> segs == []
  {
    JoinCharacters(segs, "/");
    if segs == [] {
      assert SplitOn("", '/') == [""];
    } else {
      assert segs[0] in segs;
      SplitUndoesJoin(segs, '/');
      FilterKeepsAll(segs, RealSegment);
    }
  }

  lemma SlashesUnchanged(s: string)
    requires '\\' !in s
    ensures WithSlashes(s) == s
  {
  }

  lemma RootedIsNormal(root: string, segs: seq<string>)
    requires PlainSegments(segs) && (root == "" || root == "/" || root == "//") && root + Join(segs, "/") != ""
    ensures Normalize(root + Join(segs, "/")) == root + Join(segs, "/")
  {
    var joined := Join(segs, "/");
    var r := root + joined;
    JoinedSegments(segs);
    SlashesUnchanged(r);
    if root == "" {
      assert r == joined;
    } else if root == "/" {
      assert r[1..] == joined;
    } else {
      assert r[2..] == joined;
    }
    assert SplitRoot(r) == (root, joined);
  }

  lemma DotIsNormal()
    ensures Normalize(".") == "."
  {
  }

  /** Normalising twice is normalising once, so every normalised name is its own only spelling. */
  lemma NormalizeIsIdempotent(p: string)
    ensures Normalize(Normalize(p)) == Normalize(p)
    ensures Normalize(p) == "" <==> p == ""
  {
    if p != "" {
      var (root, rel) := SplitRoot(WithSlashes(p));
      SegmentsArePlain(p);
      if root + Join(Segments(rel), "/") == "" {
        DotIsNormal();
      } else {
        RootedIsNormal(root, Segments(rel));
      }
    }
  }

  /** How many slashes a path starts with. */
  function LeadingSlashes(s: string): (n: nat)
    ensures n <= |s|
  {
    if s == "" || s[0] != '/' then 0 else 1 + LeadingSlashes(s[1..])
  }

  lemma PartsBehindSlash(s: string)
    ensures Segments("/" + s) == Segments(s)
  {
    SplitAtSeparator("", '/', s);
    assert "" + ['/'] + s == "/" + s;
    FilterDrops([], "", SplitOn(s, '/'), RealSegment);
    assert [] + [""] + SplitOn(s, '/') == [""] + SplitOn(s, '/') && [] + SplitOn(s, '/') == SplitOn(s, '/');
  }

  lemma PartsBehindTwo(s: string)
    ensures Segments("//" + s) == Segments(s)
  {
    assert "//" + s == "/" + ("/" + s);
    PartsBehindSlash(s);
    PartsBehindSlash("/" + s);
  }

  lemma SplitRootAgain(t: string)
    ensures var (root, rel) := SplitRoot(t);
      t == root + rel && Segments(t) == Segments(rel) && (root == "" || root == "/" || root == "//")
  {
    var (root, rel) := SplitRoot(t);
    if root == "/" {
      assert t == "/" + rel;
      PartsBehindSlash(rel);
    } else if root == "//" {
      assert t == "//" + rel;
      PartsBehindTwo(rel);
    }
  }

  lemma RootLength(t: string)
    ensures |SplitRoot(t).0| == if LeadingSlashes(t) <= 2 then LeadingSlashes(t) else 1
  {
    if |t| >= 2 && t[0] == '/' {
      assert t[1..][1..] == t[2..];
      assert LeadingSlashes(t) == 1 + LeadingSlashes(t[1..]);
      assert LeadingSlashes(t[2..]) > 0 <==> |t| >= 3 && t[2] == '/';
    }
  }

  lemma LeadingOf(root: string, s: string)
    requires root == "" || root == "/" || root == "//"
    requires s != "" ==> s[0] != '/'
    ensures LeadingSlashes(root + s) == |root|
  {
    assert root == "//" ==> (root + s)[1..] == "/" + s && ("/" + s)[1..] == s;
    assert root == "/" ==> (root + s)[1..] == s;
    assert root == "" ==> root + s == s;
  }

  lemma RootedSegments(root: string, segs: seq<string>)
    requires PlainSegments(segs) && (root == "" || root == "/" || root == "//")
    ensures Segments(root + Join(segs, "/")) == segs
    ensures LeadingSlashes(root + Join(segs, "/")) == |root|
    ensures '\\' !in root + Join(segs, "/")
  {
    var joined := Join(segs, "/");
    JoinedSegments(segs);
    LeadingOf(root, joined);
    PartsBehindSlash(joined);
    PartsBehindTwo(joined);
    assert root == "" ==> root + joined == joined;
  }

  /** What normalising keeps: the segments that are neither empty nor ".", in order, and the root, where more than two
      slashes count as one. What it leaves is exactly that, "." for nothing at all. */
  lemma NormalizeKeeps(p: string)
    requires p != ""
    ensures var (t, n) := (WithSlashes(p), Normalize(p));
      && '\\' !in n && Segments(n) == Segments(t)
      && LeadingSlashes(n) == (if LeadingSlashes(t) <= 2 then LeadingSlashes(t) else 1)
      && (n == "." <==> LeadingSlashes(t) == 0 && Segments(t) == [])
      && (n != "." ==> n[LeadingSlashes(n)..] == Join(Segments(t), "/"))
  {
    var t := WithSlashes(p);
    var (root, rel) := SplitRoot(t);
    var segs := Segments(rel);
    SplitRootAgain(t);
    RootLength(t);
    SegmentsArePlain(p);
    RootedSegments(root, segs);
    JoinedSegments(segs);
    DotHasNoSegments();
    assert (root + Join(segs, "/"))[|root|..] == Join(segs, "/");
  }

  lemma DotHasNoSegments()
    ensures Segments(".") == [] && LeadingSlashes(".") == 0
  {
    SplitWhole(".", '/');
    assert ["."][..0] == [];
  }

  /** A doubled slash inside a relative path does not change what it names. */
  lemma DoubledSlash(a: string, b: string)
    requires a != "" && a[0] != '/' && '\\' !in a && '\\' !in b
    ensures Normalize(a + "//" + b) == Normalize(a + "/" + b)
  {
    var x, y := a + "//" + b, a + "/" + b;
    SlashesUnchanged(x);
    SlashesUnchanged(y);
    assert SplitRoot(x) == ("", x) && SplitRoot(y) == ("", y);
    EmptySegmentDrops(a, b);
    assert x == a + ['/'] + (['/'] + b) && y == a + ['/'] + b;
  }

  lemma EmptySegmentDrops(a: string, b: string)
    ensures Segments(a + ['/'] + (['/'] + b)) == Segments(a + ['/'] + b)
  {
    SplitAtDoubled(a, '/', b);
    SplitAtSeparator(a, '/', b);
    FilterDrops(SplitOn(a, '/'), "", SplitOn(b, '/'), RealSegment);
  }

  // ---------------------------------------------------------------- building keys

  function Piece(p: string): string {
    if Normalize(p) == "" then "" else ":" + Normalize(p)
  }

  function Pieces(parts: seq<string>): string {
    if parts == [] then "" else Piece(parts[0]) + Pieces(parts[1..])
  }

  function NormalizedParts(parts: seq<string>): seq<string> {
    if parts == [] then []
    else if Normalize(parts[0]) == "" then NormalizedParts(parts[1..])
    else [Normalize(parts[0])] + NormalizedParts(parts[1..])
  }

  function BuildKey(ns: Namespace, parts: seq<string>): string {
    Join([ns.Name(), APP_VERSION] + NormalizedParts(parts), ":")
  }

  function Prefixed(parts: seq<string>): string {
    if parts == [] then "" else ":" + parts[0] + Prefixed(parts[1..])
  }

  lemma {:induction false} JoinIsPrefixed(head: string, parts: seq<string>)
    ensures Join([head] + parts, ":") == head + Prefixed(parts)
    decreases |parts|
  {
    if parts != [] {
      assert ([head] + parts)[1..] == [parts[0]] + parts[1..];
      JoinIsPrefixed(parts[0], parts[1..]);
    }
  }

  lemma {:induction false} PrefixedIsPieces(parts: seq<string>)
    ensures Prefixed(NormalizedParts(parts)) == Pieces(parts)
  {
    if parts != [] { PrefixedIsPieces(parts[1..]); }
  }

  lemma JoinTwoHeads(head: string, second: string, parts: seq<string>)
    ensures Join([head, second] + parts, ":") == head + (":" + second) + Prefixed(parts)
  {
    assert [head, second] + parts == [head] + ([second] + parts);
    JoinIsPrefixed(head, [second] + parts);
    assert ([second] + parts)[1..] == parts;
    assert head + (":" + second + Prefixed(parts)) == head + (":" + second) + Prefixed(parts);
  }

  /** A key is its namespace, the version and one ":name" per non-empty part. */
  lemma KeyShape(ns: Namespace, parts: seq<string>)
    ensures BuildKey(ns, parts) == ns.Name() + (":" + APP_VERSION) + Pieces(parts)
  {
    JoinTwoHeads(ns.Name(), APP_VERSION, NormalizedParts(parts));
    PrefixedIsPieces(parts);
  }

  function Initial(ns: Namespace): char {
    match ns
    case Session => 's'
    case Faiss => 'f'
    case Analysis => 'a'
    case LoginAttempts => 'l'
    case Uploads => 'u'
  }

  lemma NameInitial(ns: Namespace)
    ensures |ns.Name()| > 7 && ns.Name()[7] == Initial(ns)
    ensures "spd:v1:" <= ns.Name()
  {
  }

  /** Keys of different namespaces differ, and within one the pieces decide. */
  lemma KeysEqualIff(ns1: Namespace, parts1: seq<string>, ns2: Namespace, parts2: seq<string>)
    ensures BuildKey(ns1, parts1) == BuildKey(ns2, parts2) <==> ns1 == ns2 && Pieces(parts1) == Pieces(parts2)
  {
    KeyShape(ns1, parts1);
    KeyShape(ns2, parts2);
    NameInitial(ns1);
    NameInitial(ns2);
    SameHead(ns1.Name(), ":" + APP_VERSION, Pieces(parts1), ns2.Name(), Pieces(parts2));
  }

  lemma SameHead(name1: string, version: string, tail1: string, name2: string, tail2: string)
    requires |name1| > 7 && |name2| > 7
    ensures name1 + version + tail1 == name2 + version + tail2 ==> name1[7] == name2[7]
    ensures name1 == name2 ==> (name1 + version + tail1 == name2 + version + tail2 <==> tail1 == tail2)
  {
    var k1, k2 := name1 + version + tail1, name2 + version + tail2;
    assert k1[7] == name1[7] && k2[7] == name2[7];
    if name1 == name2 {
      assert k1[|name1 + version|..] == tail1;
      assert k2[|name1 + version|..] == tail2;
    }
  }

  lemma KeyIsVersioned(ns: Namespace, parts: seq<string>)
    ensures "spd:v1:" <= BuildKey(ns, parts)
  {
    KeyShape(ns, parts);
    NameInitial(ns);
  }
}
