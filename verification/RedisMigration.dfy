/** Where legacy cache keys go in the versioned namespace, and which of them meet there. */
module LegacyKeys {
  import opened Sequences
  import opened Strings
  import opened CacheKeys

  // ---------------------------------------------------------------- where a legacy key goes

  /** A legacy key, taken apart at its prefix. */
  datatype Legacy =
    | Login(id: string) | Upload(user: string) | SimilarityOf(id: string) | AnalysisOf(id: string) | Doc(id: string)
    | DefaultIndex | Index(id: string) | SessionEntry(rest: string)
  {
    function Text(): string {
      match this
      case Login(id) => "login_attempts:" + id
      case Upload(user) => "upload_count:" + user
      case SimilarityOf(id) => "similarity:" + id
      case AnalysisOf(id) => "analysis:" + id
      case Doc(id) => "doc:" + id
      case DefaultIndex => "faiss_index"
      case Index(id) => "faiss_index:" + id
      case SessionEntry(rest) => "session:" + rest
    }

    function Space(): Namespace {
      match this
      case Login(_) => LoginAttempts
      case Upload(_) => Uploads
      case SimilarityOf(_) => Analysis
      case AnalysisOf(_) => Analysis
      case Doc(_) => Analysis
      case DefaultIndex => Faiss
      case Index(_) => Faiss
      case SessionEntry(_) => Session
    }

    function Parts(): seq<string> {
      match this
      case Login(id) => [id]
      case Upload(user) => [user]
      case SimilarityOf(id) => [id]
      case AnalysisOf(id) => [id]
      case Doc(id) => ["doc", id]
      case DefaultIndex => ["index", "corpus_index"]
      case Index(id) => ["index", id]
      case SessionEntry(rest) => SplitOnce(rest)
    }

    function Image(): string {
      BuildKey(Space(), Parts())
    }
  }

  /** Split at the first colon only. */
  function SplitOnce(s: string): (r: seq<string>)
    ensures 1 <= |r| <= 2 && ':' !in r[0]
  {
    if s == "" then [""]
    else if s[0] == ':' then ["", s[1..]]
    else
      var r := SplitOnce(s[1..]);
      [[s[0]] + r[0]] + r[1..]
  }

  function Classify(key: string): Option<Legacy> {
    if "spd:v1:" <= key then None
    else if "login_attempts:" <= key then Some(Login(key[|"login_attempts:"|..]))
    else if "upload_count:" <= key then Some(Upload(key[|"upload_count:"|..]))
    else if "similarity:" <= key then Some(SimilarityOf(key[|"similarity:"|..]))
    else if "analysis:" <= key then Some(AnalysisOf(key[|"analysis:"|..]))
    else if "doc:" <= key then Some(Doc(key[|"doc:"|..]))
    else if key == "faiss_index" then Some(DefaultIndex)
    else if "faiss_index:" <= key then Some(Index(key[|"faiss_index:"|..]))
    else if "session:" <= key then Some(SessionEntry(key[|"session:"|..]))
    else None
  }

  function MapLegacyKey(key: string): Option<string> {
    match Classify(key)
    case None => None
    case Some(entry) => Some(entry.Image())
  }

  lemma ClassifiedText(key: string)
    ensures Classify(key).Some? ==> Classify(key).value.Text() == key
  {
    if Classify(key).Some? {
      match Classify(key).value
      case Login(_) => Reattached("login_attempts:", key);
      case Upload(_) => Reattached("upload_count:", key);
      case SimilarityOf(_) => Reattached("similarity:", key);
      case AnalysisOf(_) => Reattached("analysis:", key);
      case Doc(_) => Reattached("doc:", key);
      case DefaultIndex =>
      case Index(_) => Reattached("faiss_index:", key);
      case SessionEntry(_) => Reattached("session:", key);
    }
  }

  /** Every entry is what its own text is classified as, whatever identifier it carries. */
  lemma TextClassified(e: Legacy)
    ensures Classify(e.Text()) == Some(e)
  {
    if e.Login? || e.Upload? {
      CounterTextClassified(e);
    } else if e.Space() == Analysis {
      ResultTextClassified(e);
    } else {
      OtherTextClassified(e);
    }
  }

  lemma CounterTextClassified(e: Legacy)
    requires e.Login? || e.Upload?
    ensures Classify(e.Text()) == Some(e)
  {
    match e
    case Login(id) => Detached("login_attempts:", id); assert e.Text()[0] == 'l';
    case Upload(user) => Detached("upload_count:", user); assert e.Text()[0] == 'u';
  }

  lemma ResultTextClassified(e: Legacy)
    requires e.Space() == Analysis
    ensures Classify(e.Text()) == Some(e)
  {
    match e
    case SimilarityOf(id) => Detached("similarity:", id); assert e.Text()[0] == 's' && e.Text()[1] == 'i';
    case AnalysisOf(id) => Detached("analysis:", id); assert e.Text()[0] == 'a';
    case Doc(id) => Detached("doc:", id); assert e.Text()[0] == 'd';
  }

  lemma OtherTextClassified(e: Legacy)
    requires e.Space() == Faiss || e.Space() == Session
    ensures Classify(e.Text()) == Some(e)
  {
    match e
    case DefaultIndex => assert e.Text()[0] == 'f';
    case Index(id) => Detached("faiss_index:", id); assert e.Text()[0] == 'f' && |e.Text()| > |"faiss_index"|;
    case SessionEntry(rest) => Detached("session:", rest); assert e.Text()[0] == 's' && e.Text()[1] == 'e';
  }

  /** A key is classified as an entry exactly when it is that entry's text. */
  lemma ClassifiedIff(key: string, e: Legacy)
    ensures Classify(key) == Some(e) <==> key == e.Text()
  {
    ClassifiedText(key);
    TextClassified(e);
  }

  lemma Detached(prefix: string, rest: string)
    ensures prefix <= prefix + rest && (prefix + rest)[|prefix|..] == rest
  {
  }

  lemma Reattached(prefix: string, key: string)
    requires prefix <= key
    ensures prefix + key[|prefix|..] == key
  {
  }

  /** An image is in the versioned namespace, hence no legacy key and never renamed again. */
  lemma ImageIsModern(key: string)
    requires MapLegacyKey(key).Some?
    ensures "spd:v1:" <= MapLegacyKey(key).value
    ensures MapLegacyKey(MapLegacyKey(key).value) == None
    ensures MapLegacyKey(key).value != key
  {
    var entry := Classify(key).value;
    KeyIsVersioned(entry.Space(), entry.Parts());
  }

  // ---------------------------------------------------------------- collisions

  function DocName(id: string): string {
    "doc" + Piece(id)
  }

  /** When two legacy entries are sent to the same key. */
  predicate Collide(a: Legacy, b: Legacy) {
    match a
    case Login(x) => b.Login? && Normalize(x) == Normalize(b.id)
    case Upload(x) => b.Upload? && Normalize(x) == Normalize(b.user)
    case SimilarityOf(x) => CollidesWithResult(x, b)
    case AnalysisOf(x) => CollidesWithResult(x, b)
    case Doc(x) => CollidesWithDoc(x, b)
    case DefaultIndex => b.DefaultIndex? || (b.Index? && Normalize(b.id) == "corpus_index")
    case Index(x) => (b.DefaultIndex? && Normalize(x) == "corpus_index")
      || (b.Index? && Normalize(x) == Normalize(b.id))
    case SessionEntry(x) => b.SessionEntry? && SessionsMeet(x, b.rest)
  }

  function SessionId(rest: string): string {
    SplitOnce(rest)[0]
  }

  /** The field of a session key; a key without one is like a key whose field is empty. */
  function SessionField(rest: string): string {
    if |SplitOnce(rest)| == 2 then SplitOnce(rest)[1] else ""
  }

  /** Identifier and field agree, or one identifier is empty and its field spells out identifier and field of the
      other. */
  predicate SessionsMeet(x: string, y: string) {
    || (Normalize(SessionId(x)) == Normalize(SessionId(y)) && Normalize(SessionField(x)) == Normalize(SessionField(y)))
    || SpellsOut(x, y)
    || SpellsOut(y, x)
  }

  predicate SpellsOut(x: string, y: string) {
    SessionId(x) == "" && SessionId(y) != ""
      && Normalize(SessionField(x)) == Normalize(SessionId(y)) + Piece(SessionField(y))
  }

  predicate CollidesWithResult(id: string, b: Legacy) {
    || ((b.SimilarityOf? || b.AnalysisOf?) && Normalize(id) == Normalize(b.id))
    || (b.Doc? && Normalize(id) == DocName(b.id))
  }

  predicate CollidesWithDoc(id: string, b: Legacy) {
    || (b.Doc? && Normalize(id) == Normalize(b.id))
    || ((b.SimilarityOf? || b.AnalysisOf?) && Normalize(b.id) == DocName(id))
  }

  lemma OnePart(x: string, y: string)
    ensures Pieces([x]) == Pieces([y]) <==> Normalize(x) == Normalize(y)
  {
    SinglePiece(x);
    SinglePiece(y);
    SamePiece(x, y);
  }

  lemma SinglePiece(x: string)
    ensures Pieces([x]) == Piece(x)
  {
    assert [x][1..] == [];
    assert Pieces([x]) == Piece(x) + "";
  }

  lemma PieceIsName(x: string)
    ensures Piece(x) == "" <==> Normalize(x) == ""
    ensures Piece(x) != "" ==> Piece(x)[0] == ':' && Piece(x)[1..] == Normalize(x)
  {
  }

  lemma PlainWordIsNormal(w: string)
    requires RealSegment(w) && '/' !in w && '\\' !in w
    ensures Normalize(w) == w && Piece(w) == ":" + w
  {
    assert Join([w], "/") == w;
    assert "" + w == w;
    RootedIsNormal("", [w]);
  }

  lemma Cancel(head: string, x: string, y: string)
    ensures head + x == head + y <==> x == y
  {
    assert (head + x)[|head|..] == x && (head + y)[|head|..] == y;
  }

  lemma TwoPieces(w: string, x: string)
    requires RealSegment(w) && '/' !in w && '\\' !in w
    ensures Pieces([w, x]) == (":" + w) + Piece(x)
  {
    PlainWordIsNormal(w);
    assert [w, x][1..] == [x];
    SinglePiece(x);
  }

  lemma SamePiece(x: string, y: string)
    ensures Piece(x) == Piece(y) <==> Normalize(x) == Normalize(y)
  {
    PieceIsName(x);
    PieceIsName(y);
  }

  /** After a fixed first word the second part decides. */
  lemma TwoParts(w: string, x: string, y: string)
    requires RealSegment(w) && '/' !in w && '\\' !in w
    ensures Pieces([w, x]) == Pieces([w, y]) <==> Normalize(x) == Normalize(y)
  {
    TwoPieces(w, x);
    TwoPieces(w, y);
    Cancel(":" + w, Piece(x), Piece(y));
    SamePiece(x, y);
  }

  lemma ColonThenName(piece: string, name: string, w: string, rest: string)
    requires if name == "" then piece == "" else piece == ":" + name
    requires w != ""
    ensures piece == (":" + w) + rest <==> name == w + rest
  {
    assert (":" + w) + rest == ":" + (w + rest);
    Cancel(":", name, w + rest);
  }

  /** One part equals two when it spells them out. */
  lemma OneAgainstTwo(y: string, w: string, x: string)
    requires RealSegment(w) && '/' !in w && '\\' !in w
    ensures Pieces([y]) == Pieces([w, x]) <==> Normalize(y) == w + Piece(x)
  {
    TwoPieces(w, x);
    SinglePiece(y);
    ColonThenName(Piece(y), Normalize(y), w, Piece(x));
  }

  lemma {:induction false} ColonFreeNormal(x: string)
    requires ':' !in x
    ensures ':' !in Normalize(x)
  {
    var (root, rel) := SplitRoot(WithSlashes(x));
    SplitPartsAreFree(rel, '/');
    JoinCharacters(Segments(rel), "/");
  }

  lemma LongerCutHoldsColon(x: string, u: string, y: string, v: string)
    requires (u == "" || u[0] == ':') && x + u == y + v && |x| < |y|
    ensures ':' in y
  {
    assert (x + u)[|x|] == ':' && (y + v)[|x|] == y[|x|];
  }

  /** A text up to its first colon is determined by the whole. */
  lemma CutAtColon(x: string, u: string, y: string, v: string)
    requires ':' !in x && ':' !in y && (u == "" || u[0] == ':') && (v == "" || v[0] == ':')
    ensures x + u == y + v <==> x == y && u == v
  {
    if x + u == y + v {
      if |x| < |y| { LongerCutHoldsColon(x, u, y, v); }
      if |y| < |x| { LongerCutHoldsColon(y, v, x, u); }
      assert (x + u)[..|x|] == x && (y + v)[..|x|] == y;
      Cancel(x, u, v);
    }
  }

  lemma SessionPieces(rest: string)
    ensures Pieces(SplitOnce(rest)) == Piece(SessionId(rest)) + Piece(SessionField(rest))
  {
    var parts := SplitOnce(rest);
    if |parts| == 2 {
      assert parts == [parts[0], parts[1]] && [parts[0], parts[1]][1..] == [parts[1]];
      SinglePiece(parts[1]);
    } else {
      assert parts == [parts[0]];
      SinglePiece(parts[0]);
    }
  }

  /** A name as a piece of a key; an empty name leaves no trace. */
  function Spelled(name: string): string {
    if name == "" then "" else ":" + name
  }

  /** Two pairs of names, the first ones free of colons, are spelled alike exactly in these cases. */
  lemma NamesMeet(i: string, f: string, j: string, g: string)
    requires ':' !in i && ':' !in j
    ensures Spelled(i) + Spelled(f) == Spelled(j) + Spelled(g) <==>
      || (i == j && f == g)
      || (i == "" && j != "" && f == j + Spelled(g))
      || (j == "" && i != "" && g == i + Spelled(f))
  {
    if i == "" {
      ColonThenRest(f, j, g);
    } else if j == "" {
      ColonThenRest(g, i, f);
    } else {
      CutAtColon(i, Spelled(f), j, Spelled(g));
      HeadedEqual(":", i, Spelled(f), j, Spelled(g));
      SameSpelling(f, g);
    }
  }

  lemma SameSpelling(f: string, g: string)
    ensures Spelled(f) == Spelled(g) <==> f == g
  {
    Cancel(":", f, g);
  }

  lemma ColonThenRest(f: string, j: string, g: string)
    ensures j != "" ==> ("" + Spelled(f) == Spelled(j) + Spelled(g) <==> f == j + Spelled(g))
    ensures j == "" ==> ("" + Spelled(f) == Spelled(j) + Spelled(g) <==> f == g)
  {
    assert "" + Spelled(f) == Spelled(f);
    if j != "" {
      ColonThenName(Spelled(f), f, j, Spelled(g));
    } else {
      assert "" + Spelled(g) == Spelled(g);
      SameSpelling(f, g);
    }
  }

  lemma PieceIsSpelled(x: string)
    ensures Piece(x) == Spelled(Normalize(x))
    ensures Normalize(x) == "" <==> x == ""
  {
    NormalizeIsIdempotent(x);
  }

  lemma TwoNamesMeet(i: string, f: string, j: string, g: string)
    requires ':' !in i && ':' !in j
    ensures Piece(i) + Piece(f) == Piece(j) + Piece(g) <==>
      || (Normalize(i) == Normalize(j) && Normalize(f) == Normalize(g))
      || (i == "" && j != "" && Normalize(f) == Normalize(j) + Piece(g))
      || (j == "" && i != "" && Normalize(g) == Normalize(i) + Piece(f))
  {
    PieceIsSpelled(i);
    PieceIsSpelled(j);
    PieceIsSpelled(f);
    PieceIsSpelled(g);
    ColonFreeNormal(i);
    ColonFreeNormal(j);
    NamesMeet(Normalize(i), Normalize(f), Normalize(j), Normalize(g));
  }

  lemma HeadedEqual(head: string, x: string, u: string, y: string, v: string)
    ensures (head + x) + u == (head + y) + v <==> x + u == y + v
  {
    assert (head + x) + u == head + (x + u) && (head + y) + v == head + (y + v);
    Cancel(head, x + u, y + v);
  }

  lemma SessionCollisions(x: string, y: string)
    ensures Pieces(SplitOnce(x)) == Pieces(SplitOnce(y)) <==> SessionsMeet(x, y)
  {
    SessionPieces(x);
    SessionPieces(y);
    TwoNamesMeet(SessionId(x), SessionField(x), SessionId(y), SessionField(y));
  }

  predicate Word(w: string) {
    RealSegment(w) && '/' !in w && '\\' !in w
  }

  /** A session without an identifier collides: its field spells out another session's identifier and field. */
  lemma EmptySessionIdCollides(id: string, field: string)
    requires Word(id) && Word(field) && ':' !in id
    ensures SessionEntry(":" + (id + ":" + field)).Image() == SessionEntry(id + ":" + field).Image()
  {
    FieldSpellsOut(id, field, id + ":" + field);
    MeetingSessionsShareAKey(":" + (id + ":" + field), id + ":" + field);
  }

  lemma MeetingSessionsShareAKey(x: string, y: string)
    requires SessionsMeet(x, y)
    ensures SessionEntry(x).Image() == SessionEntry(y).Image()
  {
    ImagesMeetIff(SessionEntry(x), SessionEntry(y));
  }

  lemma FieldSpellsOut(id: string, field: string, both: string)
    requires Word(id) && Word(field) && ':' !in id && both == id + ":" + field
    ensures SessionsMeet(":" + both, both)
  {
    SplitAtFirst(both);
    SessionKeyParts(id, field);
    WordIsNormal(id);
    WordIsNormal(field);
    assert Word(both);
    WordIsNormal(both);
    assert both == id + (":" + field);
    assert SpellsOut(":" + both, both);
  }

  lemma WordIsNormal(w: string)
    requires Word(w)
    ensures w != "" && Normalize(w) == w && Piece(w) == ":" + w
  {
    PlainWordIsNormal(w);
  }

  lemma SplitAtFirst(s: string)
    ensures SplitOnce(":" + s) == ["", s]
  {
    assert (":" + s)[1..] == s;
  }

  /** An identifier without a colon and a field name come back apart. */
  lemma {:induction false} SessionKeyParts(id: string, field: string)
    requires ':' !in id
    ensures SplitOnce(id + ":" + field) == [id, field]
  {
    if id != "" {
      assert (id + ":" + field)[1..] == id[1..] + ":" + field;
      assert id[0] in id && id == [id[0]] + id[1..];
      SessionKeyParts(id[1..], field);
    } else {
      assert id + ":" + field == [':'] + field;
    }
  }

  lemma ImagesMeetIff(a: Legacy, b: Legacy)
    ensures a.Image() == b.Image() <==> Collide(a, b)
  {
    KeysEqualIff(a.Space(), a.Parts(), b.Space(), b.Parts());
    if a.Space() == b.Space() {
      SamePiecesIffCollide(a, b);
    }
  }

  /** Two legacy keys are given one new name exactly in these cases. */
  lemma CollisionsAreExactly(a: Legacy, b: Legacy)
    ensures MapLegacyKey(a.Text()) == MapLegacyKey(b.Text()) <==> Collide(a, b)
  {
    TextClassified(a);
    TextClassified(b);
    ImagesMeetIff(a, b);
  }

  lemma SamePiecesIffCollide(a: Legacy, b: Legacy)
    requires a.Space() == b.Space()
    ensures Pieces(a.Parts()) == Pieces(b.Parts()) <==> Collide(a, b)
  {
    if a.Space() == Analysis {
      if a.Doc? { DocCollisions(a.id, b); } else { ResultCollisions(a.id, b); }
    } else if a.Space() == Faiss {
      IndexCollisions(a, b);
    } else if a.Login? {
      OnePart(a.id, b.id);
    } else if a.Upload? {
      OnePart(a.user, b.user);
    } else {
      SessionCollisions(a.rest, b.rest);
    }
  }

  lemma DocIsPlain()
    ensures RealSegment("doc") && '/' !in "doc" && '\\' !in "doc"
  {
  }

  lemma DocCollisions(x: string, b: Legacy)
    requires b.Space() == Analysis
    ensures Pieces(["doc", x]) == Pieces(b.Parts()) <==> CollidesWithDoc(x, b)
  {
    DocIsPlain();
    if b.Doc? { TwoParts("doc", x, b.id); } else { OneAgainstTwo(b.id, "doc", x); }
  }

  lemma ResultCollisions(x: string, b: Legacy)
    requires b.Space() == Analysis
    ensures Pieces([x]) == Pieces(b.Parts()) <==> CollidesWithResult(x, b)
  {
    if b.Doc? { OneAgainstTwo(x, "doc", b.id); } else { OnePart(x, b.id); }
  }

  function IndexName(b: Legacy): string
    requires b.Space() == Faiss
  {
    if b.Index? then b.id else "corpus_index"
  }

  lemma IndexCollisions(a: Legacy, b: Legacy)
    requires a.Space() == Faiss && b.Space() == Faiss
    ensures Pieces(a.Parts()) == Pieces(b.Parts()) <==> Collide(a, b)
  {
    PlainWordIsNormal("corpus_index");
    IndexParts(a);
    IndexParts(b);
    TwoParts("index", IndexName(a), IndexName(b));
  }

  lemma IndexParts(a: Legacy)
    requires a.Space() == Faiss
    ensures a.Parts() == ["index", IndexName(a)]
  {
  }

  /** Identifiers that are already in their one normalised spelling. */
  predicate Plain(id: string) {
    id != "" && Normalize(id) == id
  }

  predicate PlainEntry(a: Legacy) {
    match a
    case DefaultIndex => true
    case Upload(user) => Plain(user)
    case SessionEntry(rest) => forall p :: p in SplitOnce(rest) ==> Plain(p)
    case _ => Plain(a.id)
  }

  /** Different entries with plainly spelled identifiers collide only across prefixes, in three families. */
  predicate CrossFamily(a: Legacy, b: Legacy) {
    || (a.SimilarityOf? && b.AnalysisOf? && a.id == b.id)
    || (a.Doc? && (b.AnalysisOf? || b.SimilarityOf?) && b.id == "doc:" + a.id)
    || (a.DefaultIndex? && b.Index? && b.id == "corpus_index")
  }

  lemma {:induction false} SplitOnceJoins(s: string)
    ensures |SplitOnce(s)| == 1 ==> SplitOnce(s)[0] == s
    ensures |SplitOnce(s)| == 2 ==> SplitOnce(s)[0] + ":" + SplitOnce(s)[1] == s
  {
    if s != "" && s[0] != ':' {
      SplitOnceJoins(s[1..]);
      assert s == [s[0]] + s[1..];
    } else if s != "" {
      assert s == [s[0]] + s[1..];
    }
  }

  lemma PlainSession(rest: string)
    requires PlainEntry(SessionEntry(rest))
    ensures Pieces(SplitOnce(rest)) == ":" + rest
  {
    SplitOnceJoins(rest);
    PlainParts(SplitOnce(rest), rest);
  }

  lemma PlainParts(parts: seq<string>, whole: string)
    requires 1 <= |parts| <= 2 && forall p :: p in parts ==> Plain(p)
    requires whole == if |parts| == 1 then parts[0] else parts[0] + ":" + parts[1]
    ensures Pieces(parts) == ":" + whole
  {
    assert parts[0] in parts;
    if |parts| == 2 {
      assert parts[1] in parts && parts == [parts[0], parts[1]];
      TwoPlainPieces(parts[0], parts[1]);
      Regroup(":", parts[0], parts[1]);
    } else {
      assert parts == [parts[0]];
      OnePlainPiece(parts[0]);
    }
  }

  lemma OnePlainPiece(x: string)
    requires Plain(x)
    ensures Pieces([x]) == ":" + x
  {
    SinglePiece(x);
  }

  lemma TwoPlainPieces(x: string, y: string)
    requires Plain(x) && Plain(y)
    ensures Pieces([x, y]) == ":" + x + (":" + y)
  {
    OnePlainPiece(y);
    assert [x, y][1..] == [y];
  }

  lemma Regroup(sep: string, x: string, y: string)
    ensures sep + x + (sep + y) == sep + (x + sep + y)
  {
  }

  /** What follows prefix and version in the new name of a plainly spelled entry. */
  ghost function PlainTail(a: Legacy): string {
    match a
    case Upload(user) => user
    case Doc(id) => "doc:" + id
    case DefaultIndex => "index:" + "corpus_index"
    case Index(id) => "index:" + id
    case SessionEntry(rest) => rest
    case _ => a.id
  }

  /** The new name, spelled out up to that. */
  ghost function NewName(a: Legacy, tail: string): string {
    match a
    case Login(_) => "spd:v1:login_attempts:1.0.0:" + tail
    case Upload(_) => "spd:v1:uploads:1.0.0:" + tail
    case SimilarityOf(_) => "spd:v1:analysis:1.0.0:" + tail
    case AnalysisOf(_) => "spd:v1:analysis:1.0.0:" + tail
    case Doc(_) => "spd:v1:analysis:1.0.0:" + tail
    case DefaultIndex => "spd:v1:faiss:1.0.0:" + tail
    case Index(_) => "spd:v1:faiss:1.0.0:" + tail
    case SessionEntry(_) => "spd:v1:session:1.0.0:" + tail
  }

  lemma NewNameIs(a: Legacy, tail: string)
    ensures NewName(a, tail) == NamespaceText(a.Space()) + tail
  {
  }

  /** A plainly spelled entry is sent to exactly that name. */
  lemma PlainImagesAre(a: Legacy)
    requires PlainEntry(a)
    ensures MapLegacyKey(a.Text()) == Some(NewName(a, PlainTail(a)))
  {
    TextClassified(a);
    PlainImageIs(a, PlainTail(a));
  }

  lemma PlainImageIs(a: Legacy, tail: string)
    requires PlainEntry(a) && tail == PlainTail(a)
    ensures a.Image() == NewName(a, tail)
  {
    KeyShape(a.Space(), a.Parts());
    PlainPieces(a);
    Headed(a.Space(), tail);
    NewNameIs(a, tail);
  }

  lemma PlainPieces(a: Legacy)
    requires PlainEntry(a)
    ensures Pieces(a.Parts()) == ":" + PlainTail(a)
  {
    if a.SessionEntry? {
      PlainSession(a.rest);
    } else if a.Doc? {
      DocIsPlain();
      NamedPieces("doc", a.id);
      PlainDocName(a.id);
    } else if a.Space() == Faiss {
      PlainIndexPieces(a);
    } else {
      OnePlainPiece(PlainTail(a));
    }
  }

  lemma PlainIndexPieces(a: Legacy)
    requires PlainEntry(a) && a.Space() == Faiss
    ensures Pieces(a.Parts()) == ":" + PlainTail(a)
  {
    IndexParts(a);
    if a.DefaultIndex? { CorpusIndexIsPlain(); }
    IndexPieces(IndexName(a));
  }

  lemma CorpusIndexIsPlain()
    ensures Plain("corpus_index")
  {
    PlainWordIsNormal("corpus_index");
  }

  lemma IndexIsPlain()
    ensures RealSegment("index") && '/' !in "index" && '\\' !in "index"
  {
  }

  lemma IndexPieces(name: string)
    requires Plain(name)
    ensures Pieces(["index", name]) == ":" + ("index:" + name)
  {
    IndexIsPlain();
    NamedPieces("index", name);
    assert "index" + (":" + name) == "index:" + name;
  }

  lemma NamedPieces(word: string, id: string)
    requires RealSegment(word) && '/' !in word && '\\' !in word && Plain(id)
    ensures Pieces([word, id]) == ":" + (word + (":" + id))
  {
    PlainWordIsNormal(word);
    OnePlainPiece(id);
    assert [word, id][1..] == [id];
    assert ":" + word + (":" + id) == ":" + (word + (":" + id));
  }

  lemma Headed(ns: Namespace, tail: string)
    ensures ns.Name() + (":" + APP_VERSION) + (":" + tail) == NamespaceText(ns) + tail
  {
    NamespaceTexts(ns);
    assert ns.Name() + (":" + APP_VERSION) + (":" + tail) == ns.Name() + (":" + APP_VERSION) + ":" + tail;
  }

  ghost function NamespaceText(ns: Namespace): string {
    match ns
    case Session => "spd:v1:session:1.0.0:"
    case Faiss => "spd:v1:faiss:1.0.0:"
    case Analysis => "spd:v1:analysis:1.0.0:"
    case LoginAttempts => "spd:v1:login_attempts:1.0.0:"
    case Uploads => "spd:v1:uploads:1.0.0:"
  }

  lemma NamespaceTexts(ns: Namespace)
    ensures ns.Name() + (":" + APP_VERSION) + ":" == NamespaceText(ns)
  {
  }

  lemma PlainCollisions(a: Legacy, b: Legacy)
    requires PlainEntry(a) && PlainEntry(b) && a != b
    ensures MapLegacyKey(a.Text()) == MapLegacyKey(b.Text()) <==> CrossFamily(a, b) || CrossFamily(b, a)
  {
    CollisionsAreExactly(a, b);
    PlainCollide(a, b);
  }

  lemma PlainCollide(a: Legacy, b: Legacy)
    requires PlainEntry(a) && PlainEntry(b) && a != b
    ensures Collide(a, b) <==> CrossFamily(a, b) || CrossFamily(b, a)
  {
    if a.Space() != b.Space() {
      ApartInSpace(a, b);
    } else if a.SessionEntry? {
      PlainSessionsDiffer(a.rest, b.rest);
    } else if a.Space() == Analysis {
      PlainResults(a, b);
    } else if a.Space() == Faiss {
      PlainIndexes(a, b);
    } else {
      PlainCounters(a, b);
    }
  }

  lemma ApartInSpace(a: Legacy, b: Legacy)
    requires a.Space() != b.Space()
    ensures !Collide(a, b) && !CrossFamily(a, b) && !CrossFamily(b, a)
  {
    if a.Space() == Analysis {
      assert !b.SimilarityOf? && !b.AnalysisOf? && !b.Doc?;
    } else if a.Space() == Faiss {
      assert !b.DefaultIndex? && !b.Index?;
    }
  }

  lemma PlainCounters(a: Legacy, b: Legacy)
    requires PlainEntry(a) && PlainEntry(b) && a != b && a.Space() == b.Space() && (a.Login? || a.Upload?)
    ensures !Collide(a, b) && !CrossFamily(a, b) && !CrossFamily(b, a)
  {
  }

  lemma PlainSessionsDiffer(x: string, y: string)
    requires PlainEntry(SessionEntry(x)) && PlainEntry(SessionEntry(y)) && x != y
    ensures !SessionsMeet(x, y)
  {
    SessionCollisions(x, y);
    PlainSession(x);
    PlainSession(y);
    Cancel(":", x, y);
  }

  lemma PlainResults(a: Legacy, b: Legacy)
    requires PlainEntry(a) && PlainEntry(b) && a != b && a.Space() == Analysis && b.Space() == Analysis
    ensures Collide(a, b) <==> CrossFamily(a, b) || CrossFamily(b, a)
  {
    if a.Doc? { PlainDocName(a.id); }
    if b.Doc? { PlainDocName(b.id); }
  }

  lemma PlainIndexes(a: Legacy, b: Legacy)
    requires PlainEntry(a) && PlainEntry(b) && a != b && a.Space() == Faiss && b.Space() == Faiss
    ensures Collide(a, b) <==> CrossFamily(a, b) || CrossFamily(b, a)
  {
  }

  lemma PlainDocName(id: string)
    requires Plain(id)
    ensures DocName(id) == "doc:" + id
  {
    assert "doc" + (":" + id) == "doc:" + id;
  }

  /** With unnormalised spellings even one prefix collides with itself: a doubled slash makes another key of the same
      entry. */
  lemma SpellingsCollide(a: string, b: string)
    requires a != "" && a[0] != '/' && '\\' !in a && '\\' !in b
    ensures AnalysisOf(a + "//" + b).Text() != AnalysisOf(a + "/" + b).Text()
    ensures MapLegacyKey(AnalysisOf(a + "//" + b).Text()) == MapLegacyKey(AnalysisOf(a + "/" + b).Text())
  {
    DoubledSlash(a, b);
    CollisionsAreExactly(AnalysisOf(a + "//" + b), AnalysisOf(a + "/" + b));
  }
}

/** The migration script: a client object over the key store and the loop that renames what a scan yields. */
module RedisMigration {
  import opened LegacyKeys
  import opened MigrationProtocol

  lemma LegacyPlanSettles()
    ensures Settles(MapLegacyKey)
  {
    forall key | MigrationProtocol.Legacy(MapLegacyKey, key)
      ensures !MigrationProtocol.Legacy(MapLegacyKey, Target(MapLegacyKey, key))
    {
      ImageIsModern(key);
    }
  }

  /** The script's run over a client, live or dry. */
  method MigrateRedisKeys(client: RedisClient, scan: seq<Scanned>, dryRun: bool) returns (stats: Stats)
    modifies client
    ensures (client.store, stats) == Run(MapLegacyKey, old(client.store), scan, dryRun)
  {
    stats := MigrateKeys(client, MapLegacyKey, scan, dryRun);
  }

  /** Two keys meet under one name exactly when both are legacy keys whose entries collide. */
  lemma MeetingIsColliding(a: string, b: string)
    ensures Meet(MapLegacyKey, a, b)
       <==> Classify(a).Some? && Classify(b).Some? && a != b && Collide(Classify(a).value, Classify(b).value)
  {
    if Classify(a).Some? && Classify(b).Some? {
      ImagesMeetIff(Classify(a).value, Classify(b).value);
    }
  }
}
