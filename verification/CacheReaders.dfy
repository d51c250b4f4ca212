/** How many times a character occurs, and cutting texts at it. */
module Occurrences {
  import opened Sequences
  import opened Strings

  function Count(s: string, c: char): nat {
    if s == "" then 0 else (if s[0] == c then 1 else 0) + Count(s[1..], c)
  }

  function CountAll(parts: seq<string>, c: char): nat {
    if parts == [] then 0 else Count(parts[0], c) + CountAll(parts[1..], c)
  }

  lemma {:induction false} CountAppend(s: string, t: string, c: char)
    ensures Count(s + t, c) == Count(s, c) + Count(t, c)
  {
    if s == "" {
      assert s + t == t;
    } else {
      assert (s + t)[1..] == s[1..] + t;
      CountAppend(s[1..], t, c);
    }
  }

  lemma {:induction false} CountAllAppend(p: seq<string>, q: seq<string>, c: char)
    ensures CountAll(p + q, c) == CountAll(p, c) + CountAll(q, c)
  {
    if p == [] {
      assert p + q == q;
    } else {
      assert (p + q)[1..] == p[1..] + q;
      CountAllAppend(p[1..], q, c);
    }
  }

  lemma {:induction false} CountSplit(s: string, sep: char, c: char)
    requires sep != c
    ensures CountAll(SplitOn(s, sep), c) == Count(s, c)
  {
    if s == "" {
      assert [""][1..] == [];
    } else {
      var r := SplitOn(s[1..], sep);
      CountSplit(s[1..], sep, c);
      if s[0] == sep {
        assert ([""] + r)[1..] == r;
      } else {
        CountAppend([s[0]], r[0], c);
        assert Push(s[0], sep, r)[1..] == r[1..];
        assert [s[0]][1..] == "";
      }
    }
  }

  lemma {:induction false} CountJoin(parts: seq<string>, sep: string, c: char)
    requires Count(sep, c) == 0
    ensures Count(Join(parts, sep), c) == CountAll(parts, c)
  {
    if |parts| == 1 {
      assert parts[1..] == [];
    } else if |parts| > 1 {
      CountJoin(parts[1..], sep, c);
      CountAppend(parts[0], sep, c);
      CountAppend(parts[0] + sep, Join(parts[1..], sep), c);
    }
  }

  /** Dropping parts without the character drops no occurrence. */
  lemma {:induction false} CountFilter(parts: seq<string>, keep: string -> bool, c: char)
    requires forall p :: p in parts && !keep(p) ==> Count(p, c) == 0
    ensures CountAll(Filter(parts, keep), c) == CountAll(parts, c)
  {
    if parts != [] {
      var rest, last := parts[..|parts| - 1], parts[|parts| - 1];
      assert parts == rest + [last];
      CountFilter(rest, keep, c);
      CountAllAppend(rest, [last], c);
      CountAllAppend(Filter(rest, keep), [last], c);
      assert [last][1..] == [];
    }
  }

  lemma FirstAndRest(x: string, w: string)
    requires x != ""
    ensures (x + w)[0] == x[0] && (x + w)[1..] == x[1..] + w
  {
  }

  /** Two texts cut at the character after equally many of its occurrences agree only when both halves do. */
  lemma {:induction false} CutAtSame(x: string, u: string, y: string, v: string, c: char)
    requires Count(x, c) == Count(y, c) && x + ([c] + u) == y + ([c] + v)
    ensures x == y && u == v
    decreases |x|
  {
    if x != "" { FirstAndRest(x, [c] + u); }
    if y != "" { FirstAndRest(y, [c] + v); }
    if x != "" && y != "" {
      CutAtSame(x[1..], u, y[1..], v, c);
    } else if x == "" {
      CutEmpty(u, y, v, c);
    } else {
      CutEmpty(v, x, u, c);
    }
  }

  lemma CutEmpty(u: string, y: string, v: string, c: char)
    requires Count(y, c) == 0 && "" + ([c] + u) == y + ([c] + v)
    ensures y == "" && u == v
  {
    assert "" + ([c] + u) == [c] + u;
    if y != "" {
      FirstAndRest(y, [c] + v);
    } else {
      assert ([c] + u)[1..] == u && (y + ([c] + v))[1..] == v;
    }
  }
}

/** What path normalisation does to a text with a colon in it: it works on the two sides of the colon by themselves. */
module NameSeams {
  import opened Sequences
  import opened Strings
  import opened CacheKeys
  import opened Occurrences

  /** Normalised up to the last segment, which is left as it is. */
  function Head(x: string): string {
    var (root, rel) := SplitRoot(WithSlashes(x));
    root + Join(HeadSegments(rel), "/")
  }

  function HeadSegments(rel: string): seq<string> {
    var raw := SplitOn(rel, '/');
    Filter(raw[..|raw| - 1], RealSegment) + [raw[|raw| - 1]]
  }

  /** Normalised from the first segment on, which is left as it is. */
  function Tail(y: string): string {
    Join(TailSegments(WithSlashes(y)), "/")
  }

  function TailSegments(rel: string): seq<string> {
    var raw := SplitOn(rel, '/');
    [raw[0]] + Filter(raw[1..], RealSegment)
  }

  lemma {:induction false} SplitAround(a: string, c: char, m: char, b: string)
    requires m != c
    ensures var (p, q) := (SplitOn(a, c), SplitOn(b, c));
      SplitOn(a + ([m] + b), c) == p[..|p| - 1] + [p[|p| - 1] + ([m] + q[0])] + q[1..]
  {
    var p, q := SplitOn(a, c), SplitOn(b, c);
    if a == "" {
      assert a + ([m] + b) == [m] + b && ([m] + b)[1..] == b;
      assert "" + ([m] + q[0]) == [m] + q[0];
    } else {
      SplitAround(a[1..], c, m, b);
      assert (a + ([m] + b))[1..] == a[1..] + ([m] + b);
      var r := SplitOn(a[1..], c);
      PushAround(a[0], c, r, [m] + q[0], q[1..]);
    }
  }

  lemma PushAround(x: char, c: char, r: seq<string>, mid: string, rest: seq<string>)
    requires |r| > 0
    ensures var p := Push(x, c, r);
      Push(x, c, r[..|r| - 1] + [r[|r| - 1] + mid] + rest) == p[..|p| - 1] + [p[|p| - 1] + mid] + rest
  {
    if |r| == 1 && x != c {
      assert [x] + (r[0] + mid) == ([x] + r[0]) + mid;
    }
  }

  lemma {:induction false} JoinAround(f: seq<string>, p: string, m: string, q: string, g: seq<string>, sep: string)
    ensures Join(f + [p + (m + q)] + g, sep) == Join(f + [p], sep) + (m + Join([q] + g, sep))
  {
    if f != [] {
      assert (f + [p + (m + q)] + g)[1..] == f[1..] + [p + (m + q)] + g;
      assert (f + [p])[1..] == f[1..] + [p];
      JoinAround(f[1..], p, m, q, g, sep);
    } else if g != [] {
      assert (f + [p + (m + q)] + g)[1..] == g && ([q] + g)[1..] == g;
    }
  }

  lemma SplitRootAtColon(x: string, y: string)
    ensures SplitRoot(x + (":" + y)) == (SplitRoot(x).0, SplitRoot(x).1 + (":" + y))
  {
    var t := x + (":" + y);
    if x == "" || x[0] != '/' {
    } else if |x| >= 2 && x[1] == '/' && !(|x| >= 3 && x[2] == '/') {
      assert t[2..] == x[2..] + (":" + y);
    } else {
      assert t[1..] == x[1..] + (":" + y);
    }
  }

  lemma SlashesAroundColon(x: string, y: string)
    ensures WithSlashes(x + (":" + y)) == WithSlashes(x) + (":" + WithSlashes(y))
  {
  }

  lemma SegmentsAround(a: string, b: string)
    ensures Join(Segments(a + (":" + b)), "/") == Join(HeadSegments(a), "/") + (":" + Join(TailSegments(b), "/"))
  {
    var p, q := SplitOn(a, '/'), SplitOn(b, '/');
    var front, mid := p[..|p| - 1], p[|p| - 1] + (":" + q[0]);
    SplitAround(a, '/', ':', b);
    assert mid[|p[|p| - 1]|] == ':';
    FilterAppend(front + [mid], q[1..], RealSegment);
    FilterOneMore(front, mid, RealSegment);
    JoinAround(Filter(front, RealSegment), p[|p| - 1], ":", q[0], Filter(q[1..], RealSegment), "/");
  }

  lemma FilterOneMore(s: seq<string>, x: string, keep: string -> bool)
    requires keep(x)
    ensures Filter(s + [x], keep) == Filter(s, keep) + [x]
  {
    assert (s + [x])[..|s|] == s;
  }

  /** Both sides of a colon are normalised by themselves, but for the segments that meet there. */
  lemma NormalAroundColon(x: string, y: string)
    ensures Normalize(x + (":" + y)) == Head(x) + (":" + Tail(y))
  {
    var t := WithSlashes(x + (":" + y));
    var root, rel := SplitRoot(WithSlashes(x)).0, SplitRoot(WithSlashes(x)).1;
    SlashesAroundColon(x, y);
    SplitRootAtColon(WithSlashes(x), WithSlashes(y));
    SegmentsAround(rel, WithSlashes(y));
    var joined := Join(Segments(rel + (":" + WithSlashes(y))), "/");
    assert root + joined == Head(x) + (":" + Tail(y));
    assert joined != "";
  }

  // ---------------------------------------------------------------- colons survive

  lemma {:induction false} CountMapped(s: string)
    ensures Count(WithSlashes(s), ':') == Count(s, ':')
  {
    if s != "" {
      assert WithSlashes(s)[1..] == WithSlashes(s[1..]);
      CountMapped(s[1..]);
    }
  }

  lemma CountRoot(t: string)
    ensures Count(t, ':') == Count(SplitRoot(t).1, ':') && Count(SplitRoot(t).0, ':') == 0
  {
    var (root, rel) := SplitRoot(t);
    assert t == root + rel;
    CountAppend(root, rel, ':');
    assert Count("/", ':') == 0 && Count("//", ':') == 0 by { assert "//"[1..] == "/" && "/"[1..] == ""; }
  }

  lemma NoColonInSlash()
    ensures Count("/", ':') == 0
  {
    assert "/"[1..] == "";
  }

  lemma DroppedHaveNoColon(parts: seq<string>)
    ensures CountAll(Filter(parts, RealSegment), ':') == CountAll(parts, ':')
  {
    assert Count(".", ':') == 0 by { assert "."[1..] == ""; }
    CountFilter(parts, RealSegment, ':');
  }

  /** Normalising a text, or either side of a colon, keeps the number of colons. */
  lemma ColonsKept(x: string)
    ensures Count(Head(x), ':') == Count(x, ':')
    ensures Count(Tail(x), ':') == Count(x, ':')
  {
    CountMapped(x);
    NoColonInSlash();
    HeadColons(x);
    var raw := SplitOn(WithSlashes(x), '/');
    CountSplit(WithSlashes(x), '/', ':');
    DroppedHaveNoColon(raw[1..]);
    assert ([raw[0]] + Filter(raw[1..], RealSegment))[1..] == Filter(raw[1..], RealSegment);
    CountJoin(TailSegments(WithSlashes(x)), "/", ':');
  }

  lemma HeadColons(x: string)
    ensures Count(Head(x), ':') == Count(WithSlashes(x), ':')
  {
    var (root, rel) := SplitRoot(WithSlashes(x));
    var raw := SplitOn(rel, '/');
    CountRoot(WithSlashes(x));
    CountSplit(rel, '/', ':');
    assert raw == raw[..|raw| - 1] + [raw[|raw| - 1]];
    CountAllAppend(raw[..|raw| - 1], [raw[|raw| - 1]], ':');
    DroppedHaveNoColon(raw[..|raw| - 1]);
    CountAllAppend(Filter(raw[..|raw| - 1], RealSegment), [raw[|raw| - 1]], ':');
    NoColonInSlash();
    CountJoin(HeadSegments(rel), "/", ':');
    CountAppend(root, Join(HeadSegments(rel), "/"), ':');
  }

  lemma NormalColons(x: string)
    ensures Count(Normalize(x), ':') == Count(x, ':')
  {
    CountMapped(x);
    NoColonInSlash();
    var (root, rel) := SplitRoot(WithSlashes(x));
    CountRoot(WithSlashes(x));
    CountSplit(rel, '/', ':');
    DroppedHaveNoColon(SplitOn(rel, '/'));
    CountJoin(Segments(rel), "/", ':');
    CountAppend(root, Join(Segments(rel), "/"), ':');
    assert Count(".", ':') == 0 by { assert "."[1..] == ""; }
  }
}

/** The cache's readers after a migration: which legacy entries they find. */
module CacheReaders {
  import opened Sequences
  import opened Strings
  import opened CacheKeys
  import opened LegacyKeys
  import opened MigrationProtocol
  import opened RedisMigration
  import opened Occurrences
  import opened NameSeams

  // ---------------------------------------------------------------- the readers

  function Lookup(store: Store, key: string): Option<Blob> {
    if key in store then Some(store[key]) else None
  }

  function GetSessionState(store: Store, id: string, field: string): Option<Blob> {
    Lookup(store, BuildKey(Session, [id, field]))
  }

  function GetFaissIndex(store: Store, name: string): Option<Blob> {
    Lookup(store, BuildKey(Faiss, ["index", name]))
  }

  function GetAnalysisResults(store: Store, name: string): Option<Blob> {
    Lookup(store, BuildKey(Analysis, [name]))
  }

  /** Counters are read through a decoder; a missing one reads 0. */
  function GetLoginAttempts(store: Store, decode: Blob -> int, id: string): int {
    match Lookup(store, BuildKey(LoginAttempts, [id])) case None => 0 case Some(v) => decode(v)
  }

  function GetUploadCount(store: Store, decode: Blob -> int, user: string): int {
    match Lookup(store, BuildKey(Uploads, [user])) case None => 0 case Some(v) => decode(v)
  }

  /** A live migration, by a scan that covers the store, of entries of which no two collide. */
  ghost predicate Migrated(store: Store, scan: seq<Scanned>, after: Store) {
    && Covers(MapLegacyKey, store, scan) && CollisionFree(MapLegacyKey, store)
    && after == Run(MapLegacyKey, store, scan, false).0
  }

  lemma FoundUnderImage(store: Store, scan: seq<Scanned>, after: Store, e: LegacyKeys.Legacy)
    requires Migrated(store, scan, after) && e.Text() in store
    ensures Lookup(after, e.Image()) == Some(store[e.Text()])
  {
    LegacyPlanSettles();
    CollisionFreeRunRelabels(MapLegacyKey, store, scan);
    TextClassified(e);
    assert Target(MapLegacyKey, e.Text()) == e.Image();
  }

  /** Counters, indexes and results are found under the very identifier their legacy key carried. */
  lemma ReadersFindEntries(store: Store, scan: seq<Scanned>, after: Store, decode: Blob -> int, id: string)
    requires Migrated(store, scan, after)
    ensures Login(id).Text() in store ==> GetLoginAttempts(after, decode, id) == decode(store[Login(id).Text()])
    ensures Upload(id).Text() in store ==> GetUploadCount(after, decode, id) == decode(store[Upload(id).Text()])
    ensures SimilarityOf(id).Text() in store ==> GetAnalysisResults(after, id) == Some(store[SimilarityOf(id).Text()])
    ensures AnalysisOf(id).Text() in store ==> GetAnalysisResults(after, id) == Some(store[AnalysisOf(id).Text()])
    ensures Index(id).Text() in store ==> GetFaissIndex(after, id) == Some(store[Index(id).Text()])
    ensures DefaultIndex.Text() in store ==> GetFaissIndex(after, "corpus_index") == Some(store[DefaultIndex.Text()])
  {
    forall e | e in {Login(id), Upload(id), SimilarityOf(id), AnalysisOf(id), Index(id), DefaultIndex}
      && e.Text() in store
      ensures Lookup(after, e.Image()) == Some(store[e.Text()])
    {
      FoundUnderImage(store, scan, after, e);
    }
  }

  /** A counter that nothing was migrated to reads 0. */
  lemma MissingCountersReadZero(store: Store, scan: seq<Scanned>, after: Store, decode: Blob -> int, id: string)
    requires Migrated(store, scan, after)
    ensures (forall k :: k in store ==> Target(MapLegacyKey, k) != Login(id).Image()) ==>
      GetLoginAttempts(after, decode, id) == 0
    ensures (forall k :: k in store ==> Target(MapLegacyKey, k) != Upload(id).Image()) ==>
      GetUploadCount(after, decode, id) == 0
  {
    if Login(id).Image() in after { EntriesComeFrom(store, scan, after, Login(id).Image()); }
    if Upload(id).Image() in after { EntriesComeFrom(store, scan, after, Upload(id).Image()); }
  }

  // ---------------------------------------------------------------- sessions

  predicate AllColons(s: string) {
    forall c :: c in s ==> c == ':'
  }

  /** The migration cuts "id:field" at the first colon. The session reader still asks for the entry's new name when the
      identifier has no colon; otherwise normalisation must not notice either of the two colons: the identifier's part
      before its first colon and the field are left alike by it with and without a neighbour, and the part between keeps
      both ends. */
  predicate ReadsBack(id: string, field: string) {
    var parts := SplitOnce(id);
    if |parts| == 1 then true
    else if field == "" then AllColons(id)
    else
      && parts[0] != "" && Head(parts[0]) == Normalize(parts[0])
      && Tail(parts[1]) == Head(parts[1])
      && Tail(field) == Normalize(field)
  }

  lemma TwoPiecesOf(x: string, y: string)
    ensures Pieces([x, y]) == Piece(x) + Piece(y)
  {
    assert [x, y][1..] == [y];
    SinglePiece(y);
  }

  lemma {:induction false} CutWithin(id: string, field: string)
    requires |SplitOnce(id)| == 2
    ensures var (a, b) := (SplitOnce(id)[0], SplitOnce(id)[1]);
      id == a + (":" + b) && SplitOnce(id + (":" + field)) == [a, b + (":" + field)]
  {
    if id[0] == ':' {
      assert id == "" + (":" + id[1..]);
      assert (id + (":" + field))[1..] == id[1..] + (":" + field);
    } else {
      CutWithin(id[1..], field);
      assert (id + (":" + field))[1..] == id[1..] + (":" + field);
      assert id == [id[0]] + id[1..];
    }
  }

  /** A text that the first colon does not cut has none. */
  lemma UncutIsColonFree(id: string)
    requires |SplitOnce(id)| == 1
    ensures ':' !in id
  {
    SplitOnceJoins(id);
  }

  lemma SeamPiece(x: string, y: string)
    ensures Piece(x + (":" + y)) == ":" + (Head(x) + (":" + Tail(y)))
  {
    NormalAroundColon(x, y);
  }

  lemma EmptyHeadAndTail()
    ensures Head("") == "" && Tail("") == "" && Piece("") == ""
  {
    assert [""][..0] == [] && [""][1..] == [];
  }

  /** What is left once the parts before the first colon are known to agree. */
  lemma MiddleAgreesIff(b: string, field: string)
    ensures Tail(b) + Piece(field) == Head(b) + (":" + Tail(field)) <==>
      field != "" && Tail(b) == Head(b) && Tail(field) == Normalize(field)
  {
    ColonsKept(b);
    PieceIsSpelled(field);
    if field == "" {
      EmptyHeadAndTail();
      CountAppend(Head(b), ":" + "", ':');
      assert ":" + "" == ":" && ":"[1..] == "";
      assert Tail(b) + "" == Tail(b);
    } else if Tail(b) + (":" + Normalize(field)) == Head(b) + (":" + Tail(field)) {
      CutAtSame(Tail(b), Normalize(field), Head(b), Tail(field), ':');
    }
  }

  lemma {:induction false} NamedCutAgreesIff(a: string, b: string, field: string)
    requires a != "" && ':' !in a
    ensures Piece(a + (":" + b)) + Piece(field) == Piece(a) + Piece(b + (":" + field)) <==>
      Head(a) == Normalize(a) && field != "" && Tail(b) == Head(b) && Tail(field) == Normalize(field)
  {
    SeamPiece(a, b);
    SeamPiece(b, field);
    PieceIsSpelled(a);
    ColonFreeNormal(a);
    ColonFreeHead(a);
    MiddleAgreesIff(b, field);
    AgreeAfterHead(Head(a), Tail(b), Piece(field), Normalize(a), Head(b) + (":" + Tail(field)));
  }

  lemma AgreeAfterHead(h: string, t: string, p: string, n: string, m: string)
    requires ':' !in h && ':' !in n
    ensures ":" + (h + (":" + t)) + p == ":" + n + (":" + m) <==> h == n && t + p == m
  {
    assert ":" + (h + (":" + t)) + p == ":" + (h + (":" + (t + p)));
    assert ":" + n + (":" + m) == ":" + (n + (":" + m));
    Cancel(":", h + (":" + (t + p)), n + (":" + m));
    CutAtColon(h, ":" + (t + p), n, ":" + m);
    Cancel(":", t + p, m);
  }

  lemma ColonFreeHead(a: string)
    requires ':' !in a
    ensures ':' !in Head(a)
  {
    var (root, rel) := SplitRoot(WithSlashes(a));
    SplitPartsAreFree(rel, '/');
    var raw := SplitOn(rel, '/');
    assert raw[|raw| - 1] in raw;
    assert forall p :: p in HeadSegments(rel) ==> p in raw;
    JoinCharacters(HeadSegments(rel), "/");
  }

  /** With nothing before the identifier's first colon the reader looks elsewhere, but for an empty field under an
      identifier of colons. */
  lemma EmptyCutAgreesIff(b: string, field: string)
    ensures Piece("" + (":" + b)) + Piece(field) == Piece("") + Piece(b + (":" + field)) <==>
      field == "" && AllColons(b)
  {
    EmptyHeadAndTail();
    SeamPiece("", b);
    SeamPiece(b, field);
    PieceIsSpelled(field);
    if field == "" {
      ColonShiftIff(b);
      EmptySides(Tail(b), Head(b));
    } else {
      OneColonTooMany(b, field);
    }
  }

  lemma EmptySides(t: string, h: string)
    ensures ":" + ("" + (":" + t)) + "" == "" + (":" + (h + (":" + ""))) <==> ":" + t == h + ":"
  {
    assert ":" + ("" + (":" + t)) + "" == ":" + (":" + t);
    assert "" + (":" + (h + (":" + ""))) == ":" + (h + ":");
    Cancel(":", ":" + t, h + ":");
  }

  lemma OneColonTooMany(b: string, field: string)
    requires field != ""
    ensures ":" + ("" + (":" + Tail(b))) + (":" + Normalize(field)) != "" + (":" + (Head(b) + (":" + Tail(field))))
  {
    ColonsKept(b);
    ColonsKept(field);
    NormalColons(field);
    CountsDiffer(Tail(b), Head(b), Normalize(field), Tail(field));
  }

  lemma CountsDiffer(t: string, h: string, n: string, m: string)
    requires Count(t, ':') == Count(h, ':') && Count(n, ':') == Count(m, ':')
    ensures ":" + ("" + (":" + t)) + (":" + n) != "" + (":" + (h + (":" + m)))
  {
    var left, right := ":" + ("" + (":" + t)), h + (":" + m);
    assert "" + (":" + t) == ":" + t && "" + (":" + right) == ":" + right;
    CountColonFirst(":" + t);
    CountColonFirst(t);
    CountColonFirst(right);
    CountAppend(left, ":" + n, ':');
    CountAppend(h, ":" + m, ':');
    CountColonFirst(n);
    CountColonFirst(m);
  }

  lemma CountColonFirst(s: string)
    ensures Count(":" + s, ':') == 1 + Count(s, ':')
  {
    assert (":" + s)[1..] == s;
  }

  lemma CutPiecesAgreeIff(id: string, field: string, a: string, b: string)
    requires SplitOnce(id) == [a, b] && id == a + (":" + b)
    ensures Piece(id) + Piece(field) == Piece(a) + Piece(b + (":" + field)) <==> ReadsBack(id, field)
  {
    if a == "" {
      EmptyCutAgreesIff(b, field);
      ColonThenAll(b);
    } else {
      NamedCutAgreesIff(a, b, field);
      NotAllColons(a, ":" + b);
    }
  }

  lemma ColonThenAll(b: string)
    ensures AllColons("" + (":" + b)) <==> AllColons(b)
  {
    assert forall c :: c in b ==> c in "" + (":" + b);
  }

  lemma NotAllColons(a: string, rest: string)
    requires a != "" && ':' !in a
    ensures !AllColons(a + rest)
  {
    assert a[0] in a && (a + rest)[0] == a[0];
    assert a[0] in a + rest;
  }

  lemma SessionPiecesAgreeIff(id: string, field: string)
    ensures Pieces([id, field]) == Pieces(SplitOnce(id + (":" + field))) <==> ReadsBack(id, field)
  {
    if |SplitOnce(id)| == 1 {
      UncutIsColonFree(id);
      SessionKeyParts(id, field);
      assert id + ":" + field == id + (":" + field);
    } else {
      CutWithin(id, field);
      CutSessionAgreesIff(id, field, SplitOnce(id)[0], SplitOnce(id)[1]);
    }
  }

  lemma CutSessionAgreesIff(id: string, field: string, a: string, b: string)
    requires SplitOnce(id) == [a, b] && id == a + (":" + b)
    ensures Pieces([id, field]) == Pieces([a, b + (":" + field)]) <==> ReadsBack(id, field)
  {
    TwoPiecesOf(id, field);
    TwoPiecesOf(a, b + (":" + field));
    CutPiecesAgreeIff(id, field, a, b);
  }

  /** The session reader asks for the new name of "session:id:field" exactly when the two read back. */
  lemma SessionReaderAsksIff(id: string, field: string)
    ensures BuildKey(Session, [id, field]) == BuildKey(Session, SplitOnce(id + (":" + field))) <==> ReadsBack(id, field)
  {
    SessionPiecesAgreeIff(id, field);
    KeysEqualIff(Session, [id, field], Session, SplitOnce(id + (":" + field)));
  }

  /** Every entry of the migrated store was put there under its key's new name, or kept under its own. */
  lemma EntriesComeFrom(store: Store, scan: seq<Scanned>, after: Store, name: string)
    requires Migrated(store, scan, after) && name in after
    ensures exists k :: k in store && Target(MapLegacyKey, k) == name && after[name] == store[k]
  {
    LegacyPlanSettles();
    CollisionFreeRunRelabels(MapLegacyKey, store, scan);
    var k :| k in store && Target(MapLegacyKey, k) == name;
    assert after[name] == store[k];
  }

  ghost predicate FoundElsewhere(store: Store, key: string, name: string, found: Option<Blob>) {
    exists k :: k in store && k != key && Target(MapLegacyKey, k) == name && found == Some(store[k])
  }

  /** After a collision-free migration the session reader finds the value of "session:id:field" exactly when the two
      read back; otherwise it finds nothing, or the value of another entry. */
  lemma SessionReaderFindsIff(store: Store, scan: seq<Scanned>, after: Store, id: string, field: string)
    requires Migrated(store, scan, after) && SessionEntry(id + (":" + field)).Text() in store
    ensures var (key, found) := (SessionEntry(id + (":" + field)).Text(), GetSessionState(after, id, field));
      if ReadsBack(id, field) then found == Some(store[key])
      else found == None || FoundElsewhere(store, key, BuildKey(Session, [id, field]), found)
  {
    var e, name := SessionEntry(id + (":" + field)), BuildKey(Session, [id, field]);
    SessionReaderAsksIff(id, field);
    SessionImage(e.rest);
    if ReadsBack(id, field) {
      FoundUnderImage(store, scan, after, e);
    } else if name in after {
      EntriesComeFrom(store, scan, after, name);
      NamedElsewhere(store, e, name, after[name]);
    }
  }

  lemma SessionImage(rest: string)
    ensures SessionEntry(rest).Image() == BuildKey(Session, SplitOnce(rest))
  {
  }

  lemma NamedElsewhere(store: Store, e: LegacyKeys.Legacy, name: string, value: Blob)
    requires e.Image() != name
    requires exists k :: k in store && Target(MapLegacyKey, k) == name && value == store[k]
    ensures FoundElsewhere(store, e.Text(), name, Some(value))
  {
    var k :| k in store && Target(MapLegacyKey, k) == name && value == store[k];
    TextClassified(e);
    assert Target(MapLegacyKey, e.Text()) == e.Image();
  }

  /** An identifier with a "./" after its first colon is never read back, whatever the field. */
  lemma DottedSessionIsLost(a: string, b: string, field: string)
    requires Word(a) && ':' !in a && Word(b)
    ensures !ReadsBack(a + (":" + ("./" + b)), field)
  {
    var rest := "./" + b;
    SessionKeyParts(a, rest);
    assert a + ":" + rest == a + (":" + rest);
    NotAllColons(a, ":" + rest);
    DotSegmentShows(b);
  }

  lemma DotSplit(b: string)
    requires Word(b)
    ensures WithSlashes("./" + b) == "./" + b && SplitOn("./" + b, '/') == [".", b]
    ensures Filter([".", b], RealSegment) == [b] && SplitRoot("./" + b) == ("", "./" + b)
  {
    SlashesUnchanged("./" + b);
    assert "./" + b == "." + ['/'] + b;
    SplitWhole(".", '/');
    SplitWhole(b, '/');
    SplitAtSeparator(".", '/', b);
    assert [".", b] == ["."] + [b];
    FilterAppend(["."], [b], RealSegment);
    FilterSingle(".");
    FilterSingle(b);
  }

  lemma DotSegmentShows(b: string)
    requires Word(b)
    ensures Tail("./" + b) == "./" + b && Head("./" + b) == b
  {
    DotSplit(b);
    DottedTail(b);
    DottedHead(b);
  }

  lemma DottedTail(b: string)
    requires Word(b)
    ensures Join(["."] + Filter([".", b][1..], RealSegment), "/") == "./" + b
  {
    FilterSingle(b);
    assert [".", b][1..] == [b] && ["."] + [b] == [".", b];
    assert Join([".", b], "/") == "." + "/" + b;
  }

  lemma DottedHead(b: string)
    ensures Join(Filter([".", b][..1], RealSegment) + [b], "/") == b
  {
    FilterSingle(".");
    assert [".", b][..1] == ["."] && [] + [b] == [b];
  }

  /** The one entry of such a store is gone for its reader. */
  lemma MigrationLosesSession(a: string, b: string, field: string, value: Blob, scan: seq<Scanned>, after: Store)
    requires Word(a) && ':' !in a && Word(b)
    requires Migrated(map[SessionEntry(a + (":" + ("./" + b)) + (":" + field)).Text() := value], scan, after)
    ensures GetSessionState(after, a + (":" + ("./" + b)), field) == None
  {
    DottedSessionIsLost(a, b, field);
    var id := a + (":" + ("./" + b));
    SessionReaderFindsIff(map[SessionEntry(id + (":" + field)).Text() := value], scan, after, id, field);
  }

  /** A store with one legacy key, migrated by a scan that yields it. */
  lemma OneKeyMigrates(e: LegacyKeys.Legacy, value: Blob)
    ensures Migrated(map[e.Text() := value], [Scanned(e.Text(), false)], map[e.Image() := value])
  {
    TextClassified(e);
    ImageIsModern(e.Text());
    OneKeyRun(MapLegacyKey, e.Text(), value);
  }

  // ---------------------------------------------------------------- documents

  lemma DocNamesAgreeIff(w: string, id: string)
    requires Word(w)
    ensures Pieces([w + (":" + id)]) == Pieces([w, id]) <==> id != "" && Tail(id) == Normalize(id)
  {
    OneAgainstTwo(w + (":" + id), w, id);
    NormalAroundColon(w, id);
    WordHead(w);
    PieceIsSpelled(id);
    Cancel(w, ":" + Tail(id), Piece(id));
    Cancel(":", Tail(id), Normalize(id));
  }

  /** A document's entry, moved below "doc", is what the results reader asks for under "doc:id" exactly when
      normalisation leaves the identifier alike after the colon. */
  lemma DocReaderAsksIff(id: string)
    ensures BuildKey(Analysis, ["doc" + (":" + id)]) == BuildKey(Analysis, ["doc", id]) <==>
      id != "" && Tail(id) == Normalize(id)
  {
    DocIsPlain();
    DocNamesAgreeIff("doc", id);
    KeysEqualIff(Analysis, ["doc" + (":" + id)], Analysis, ["doc", id]);
  }

  lemma DocReaderFindsIff(store: Store, scan: seq<Scanned>, after: Store, id: string)
    requires Migrated(store, scan, after) && Doc(id).Text() in store
    ensures var (key, name) := (Doc(id).Text(), "doc" + (":" + id));
      var found := GetAnalysisResults(after, name);
      if id != "" && Tail(id) == Normalize(id) then found == Some(store[key])
      else found == None || FoundElsewhere(store, key, BuildKey(Analysis, [name]), found)
  {
    var name := BuildKey(Analysis, ["doc" + (":" + id)]);
    DocReaderAsksIff(id);
    DocImage(id);
    if name == Doc(id).Image() {
      FoundUnderImage(store, scan, after, Doc(id));
    } else if name in after {
      EntriesComeFrom(store, scan, after, name);
      NamedElsewhere(store, Doc(id), name, after[name]);
    }
  }

  /** A document "./b" is not found under "doc:./b" after its migration. */
  lemma DottedDocIsLost(b: string, value: Blob, scan: seq<Scanned>, after: Store)
    requires Word(b) && Migrated(map[Doc("./" + b).Text() := value], scan, after)
    ensures GetAnalysisResults(after, "doc" + (":" + ("./" + b))) == None
  {
    DotSegmentShows(b);
    DotNormalises(b);
    DocReaderFindsIff(map[Doc("./" + b).Text() := value], scan, after, "./" + b);
  }

  lemma DotNormalises(b: string)
    requires Word(b)
    ensures Normalize("./" + b) == b
  {
    DotSplit(b);
    assert Segments("./" + b) == [b];
    assert "" + Join([b], "/") == b;
  }

  lemma DocImage(id: string)
    ensures Doc(id).Image() == BuildKey(Analysis, ["doc", id])
  {
  }

  lemma WordHead(w: string)
    requires Word(w)
    ensures Head(w) == w
  {
    SlashesUnchanged(w);
    SplitWhole(w, '/');
    assert [w][..0] == [];
  }

  // ---------------------------------------------------------------- an empty field

  lemma {:induction false} ShiftedIsColons(t: string)
    requires ":" + t == t + ":"
    ensures AllColons(t)
  {
    if t != "" {
      assert t[0] == (t + ":")[0] == (":" + t)[0];
      assert t == ":" + t[1..];
      assert (":" + t)[1..] == t && (t + ":")[1..] == t[1..] + ":";
      ShiftedIsColons(t[1..]);
    }
  }

  lemma ColonsShift(b: string)
    requires AllColons(b)
    ensures Tail(b) == b == Head(b) && ":" + b == b + ":"
  {
    assert '\\' !in b && '/' !in b;
    SlashesUnchanged(b);
    SplitWhole(b, '/');
    assert [b][..0] == [] && [b][1..] == [];
    forall k | 0 <= k < |b| + 1 ensures (":" + b)[k] == (b + ":")[k] {
      assert k < |b| ==> b[k] in b;
      assert k > 0 ==> b[k - 1] in b;
    }
  }

  function Length(parts: seq<string>): nat {
    if parts == [] then 0 else |parts[0]| + Length(parts[1..])
  }

  lemma {:induction false} LengthAppend(p: seq<string>, q: seq<string>)
    ensures Length(p + q) == Length(p) + Length(q)
  {
    if p == [] {
      assert p + q == q;
    } else {
      assert (p + q)[1..] == p[1..] + q;
      LengthAppend(p[1..], q);
    }
  }

  lemma {:induction false} JoinLength(parts: seq<string>)
    requires parts != []
    ensures |Join(parts, "/")| == Length(parts) + |parts| - 1
  {
    if |parts| > 1 {
      JoinLength(parts[1..]);
    } else {
      assert parts[1..] == [];
    }
  }

  lemma {:induction false} DotNeverShifts(j: string)
    ensures ":./" + j != j + "/.:"
    decreases |j|
  {
    var s, t := ":./" + j, j + "/.:";
    assert s[0] == ':' && s[1] == '.' && s[2] == '/' && t[|j|] == '/' && t[|j| + 1] == '.';
    if |j| >= 3 && j[..3] == ":./" {
      assert j == ":./" + j[3..];
      assert s[3..] == j && t[3..] == j[3..] + "/.:";
      DotNeverShifts(j[3..]);
    } else if |j| >= 3 {
      assert s[..3] == ":./" && t[..3] == j[..3];
    } else if |j| == 2 {
      assert s[3] == j[0] && t[0] == j[0];
    }
  }

  lemma {:induction false} NeverEmptyFirst(s: string, c: char)
    requires s != "" && s[0] != c
    ensures SplitOn(s, c)[0] != ""
  {
  }

  lemma RootShows(b: string)
    requires WithSlashes(b) != "" && WithSlashes(b)[0] == '/'
    ensures Head(b) != "" && Head(b)[0] == '/'
  {
  }

  lemma JoinedShowsSeparator(parts: seq<string>)
    requires |parts| >= 2
    ensures '/' in Join(parts, "/")
  {
    assert Join(parts, "/")[|parts[0]|] == '/';
  }

  /** Each form drops an unreal segment at its far end only. */
  lemma TailForm(raw: seq<string>, mid: seq<string>)
    requires |raw| >= 2 && mid == raw[1..|raw| - 1]
    ensures [raw[0]] + Filter(raw[1..], RealSegment) == [raw[0]] + Filter(mid, RealSegment) + Kept(raw[|raw| - 1])
  {
    var l := raw[|raw| - 1];
    assert raw[1..] == mid + [l];
    FilterAppend(mid, [l], RealSegment);
    FilterSingle(l);
    assert [raw[0]] + (Filter(mid, RealSegment) + Kept(l)) == [raw[0]] + Filter(mid, RealSegment) + Kept(l);
  }

  lemma HeadForm(raw: seq<string>, mid: seq<string>)
    requires |raw| >= 2 && mid == raw[1..|raw| - 1]
    ensures Filter(raw[..|raw| - 1], RealSegment) == Kept(raw[0]) + Filter(mid, RealSegment)
  {
    assert raw[..|raw| - 1] == [raw[0]] + mid;
    FilterAppend([raw[0]], mid, RealSegment);
    FilterSingle(raw[0]);
  }

  function Kept(x: string): seq<string> {
    if RealSegment(x) then [x] else []
  }

  lemma FilterSingle(x: string)
    ensures Filter([x], RealSegment) == Kept(x)
  {
    assert [x][..0] == [];
  }

  lemma FormsNeverShift(q: string, f: seq<string>, l: string)
    requires q != ""
    ensures ":" + Join([q] + f + Kept(l), "/") != Join(Kept(q) + f + [l], "/") + ":"
  {
    var ts, hs := [q] + f + Kept(l), Kept(q) + f + [l];
    LengthAppend([q] + f, Kept(l));
    LengthAppend([q], f);
    LengthAppend(Kept(q) + f, [l]);
    LengthAppend(Kept(q), f);
    SingleLength(q);
    SingleLength(l);
    JoinLength(ts);
    JoinLength(hs);
    if RealSegment(q) && RealSegment(l) {
      assert ts == hs;
      if ":" + Join(ts, "/") == Join(ts, "/") + ":" {
        ShiftedIsColons(Join(ts, "/"));
        JoinedShowsSeparator(ts);
      }
    } else if q == "." && l == "." {
      DottedNeverShifts(f);
    }
  }

  lemma SingleLength(x: string)
    ensures Length([x]) == |x| && Length([]) == 0
  {
    assert [x][1..] == [];
  }

  lemma DottedNeverShifts(f: seq<string>)
    ensures ":" + Join(["."] + f + [], "/") != Join([] + f + ["."], "/") + ":"
  {
    assert ["."] + f + [] == ["."] + f && [] + f + ["."] == f + ["."];
    if f == [] {
      assert ["."] + f == ["."] && f + ["."] == ["."];
      assert (":" + ".")[0] == ':' && ("." + ":")[0] == '.';
    } else {
      assert (["."] + f)[1..] == f;
      JoinLast(f, ".");
      DotNeverShifts(Join(f, "/"));
      assert ":" + ("." + "/" + Join(f, "/")) == ":./" + Join(f, "/");
      assert Join(f, "/") + "/" + "." + ":" == Join(f, "/") + "/.:";
    }
  }

  lemma {:induction false} JoinLast(f: seq<string>, x: string)
    requires f != []
    ensures Join(f + [x], "/") == Join(f, "/") + "/" + x
  {
    assert (f + [x])[1..] == f[1..] + [x];
    if |f| > 1 {
      JoinLast(f[1..], x);
    } else {
      assert f[1..] + [x] == [x];
    }
  }

  lemma SeveralSegmentsNeverShift(b: string)
    requires WithSlashes(b) != "" && WithSlashes(b)[0] != '/' && |SplitOn(WithSlashes(b), '/')| >= 2
    ensures ":" + Tail(b) != Head(b) + ":"
  {
    var raw := SplitOn(WithSlashes(b), '/');
    var mid := raw[1..|raw| - 1];
    NeverEmptyFirst(WithSlashes(b), '/');
    TailForm(raw, mid);
    HeadForm(raw, mid);
    FormsNeverShift(raw[0], Filter(mid, RealSegment), raw[|raw| - 1]);
    RelativeHead(b);
  }

  lemma RelativeHead(b: string)
    requires WithSlashes(b) != "" && WithSlashes(b)[0] != '/'
    ensures Head(b) == Join(HeadSegments(WithSlashes(b)), "/")
  {
  }

  lemma RootedNeverShifts(b: string)
    requires WithSlashes(b) != "" && WithSlashes(b)[0] == '/'
    ensures ":" + Tail(b) != Head(b) + ":"
  {
    RootShows(b);
    assert (Head(b) + ":")[0] == '/' && (":" + Tail(b))[0] == ':';
  }

  lemma OnlyColonsShift(b: string)
    requires ":" + Tail(b) == Head(b) + ":"
    ensures AllColons(b)
  {
    if b != "" {
      if WithSlashes(b)[0] == '/' {
        RootedNeverShifts(b);
      } else if |SplitOn(WithSlashes(b), '/')| >= 2 {
        SeveralSegmentsNeverShift(b);
      } else {
        OneSegment(b);
        ShiftedIsColons(WithSlashes(b));
        ColonsBelowSlashes(b);
      }
    }
  }

  lemma ColonsBelowSlashes(b: string)
    requires AllColons(WithSlashes(b))
    ensures AllColons(b)
  {
    forall c | c in b ensures c == ':' {
      var i :| 0 <= i < |b| && b[i] == c;
      assert WithSlashes(b)[i] in WithSlashes(b);
    }
  }

  lemma OneSegment(b: string)
    requires SplitRoot(WithSlashes(b)).0 == "" && |SplitOn(WithSlashes(b), '/')| == 1
    ensures Tail(b) == WithSlashes(b) == Head(b)
  {
    JoinUndoesSplit(WithSlashes(b), '/');
    var raw := SplitOn(WithSlashes(b), '/');
    assert raw[..0] == [] && raw[1..] == [] && [raw[0]] == raw;
  }

  lemma {:induction false} JoinUndoesSplit(s: string, c: char)
    requires |SplitOn(s, c)| == 1
    ensures SplitOn(s, c)[0] == s
  {
    if s != "" {
      JoinUndoesSplit(s[1..], c);
      assert s == [s[0]] + s[1..];
    }
  }

  lemma ColonShiftIff(b: string)
    ensures ":" + Tail(b) == Head(b) + ":" <==> AllColons(b)
  {
    if AllColons(b) { ColonsShift(b); }
    if ":" + Tail(b) == Head(b) + ":" { OnlyColonsShift(b); }
  }
}
