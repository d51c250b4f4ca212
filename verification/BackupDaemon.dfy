/** Counting active sessions from the keys of the shared cache. */
module SessionActivity {
  import opened Sequences
  import opened Strings
  import opened CacheKeys
  import opened LegacyKeys

  const WINDOW := 900.0
  const FIELD := "last_interaction"

  /** The cache as the counter sees it; None for a listing that raises. */
  datatype CacheView = CacheView(
    available: bool,
    scanned: Option<seq<string>>,
    fallback: Option<seq<string>>,
    lastInteraction: map<string, real>)

  /** The key under which a session's last interaction is stored and looked up. */
  function SessionKey(sessionId: string): string {
    BuildKey(Session, [sessionId, FIELD])
  }

  predicate Recent(view: CacheView, now: real, sessionId: string) {
    SessionKey(sessionId) in view.lastInteraction && now - view.lastInteraction[SessionKey(sessionId)] <= WINDOW
  }

  /** A listed key counts when the session named by its fourth piece was active within the window. */
  predicate Counts(view: CacheView, now: real, key: string) {
    var parts := SplitOn(key, ':');
    |parts| >= 4 && Recent(view, now, parts[3])
  }

  function IsInteractionKey(key: string): bool {
    "spd:v1:session:" <= key && |key| >= |":last_interaction"|
      && key[|key| - |":last_interaction"|..] == ":last_interaction"
  }

  function MergedKeys(keys: seq<string>, extra: seq<string>): seq<string> {
    if extra == [] then keys
    else
      var before, k := MergedKeys(keys, extra[..|extra| - 1]), extra[|extra| - 1];
      if IsInteractionKey(k) && k !in before then before + [k] else before
  }

  function ListedKeys(view: CacheView): seq<string> {
    var keys := if view.available && view.scanned.Some? then view.scanned.value else [];
    MergedKeys(keys, if view.fallback.Some? then view.fallback.value else [])
  }

  predicate ScanFailed(view: CacheView) {
    view.available && view.scanned.None?
  }

  /** No listing is left to count from. */
  predicate Unknown(view: CacheView) {
    || (view.fallback.None? && (!view.available || ScanFailed(view)))
    || (ScanFailed(view) && ListedKeys(view) == [])
  }

  function CountOf(view: CacheView, now: real, keys: seq<string>): nat {
    if keys == [] then 0
    else CountOf(view, now, keys[..|keys| - 1]) + if Counts(view, now, keys[|keys| - 1]) then 1 else 0
  }

  function ActiveSessions(view: CacheView, now: real): int {
    if Unknown(view) then -1 else CountOf(view, now, ListedKeys(view))
  }

  method GetActiveSessionsCount(view: CacheView, now: real) returns (count: int)
    ensures count == ActiveSessions(view, now)
  {
    var keys := [];
    var scanFailed := false;
    if view.available {
      if view.scanned.Some? { keys := view.scanned.value; } else { scanFailed := true; }
    }
    if view.fallback.Some? {
      ghost var scanned := keys;
      var extra := view.fallback.value;
      for i := 0 to |extra|
        invariant keys == MergedKeys(scanned, extra[..i])
      {
        assert extra[..i + 1][..i] == extra[..i];
        if IsInteractionKey(extra[i]) && extra[i] !in keys {
          keys := keys + [extra[i]];
        }
      }
      assert extra[..|extra|] == extra;
    } else if !view.available || scanFailed {
      return -1;
    }
    if scanFailed && keys == [] {
      return -1;
    }
    count := 0;
    for i := 0 to |keys|
      invariant count == CountOf(view, now, keys[..i])
    {
      assert keys[..i + 1][..i] == keys[..i];
      var parts := SplitOn(keys[i], ':');
      if |parts| >= 4 {
        var key := SessionKey(parts[3]);
        if key in view.lastInteraction && now - view.lastInteraction[key] <= WINDOW {
          count := count + 1;
        }
      }
    }
    assert keys[..|keys|] == keys;
  }

  // ---------------------------------------------------------------- whom the counter sees

  lemma FourthPiece(a: string, b: string, c: string, v: string, tail: string)
    requires ':' !in a && ':' !in b && ':' !in c && ':' !in v
    ensures var r := SplitOn(a + [':'] + (b + [':'] + (c + [':'] + (v + [':'] + tail))), ':');
      |r| >= 5 && r[3] == v
  {
    SplitWhole(a, ':');
    SplitWhole(b, ':');
    SplitWhole(c, ':');
    SplitWhole(v, ':');
    SplitAtSeparator(v, ':', tail);
    SplitAtSeparator(c, ':', v + [':'] + tail);
    SplitAtSeparator(b, ':', c + [':'] + (v + [':'] + tail));
    SplitAtSeparator(a, ':', b + [':'] + (c + [':'] + (v + [':'] + tail)));
  }

  lemma SessionName()
    ensures Session.Name() == "spd" + [':'] + ("v1" + [':'] + "session")
    ensures ':' !in "spd" && ':' !in "v1" && ':' !in "session" && ':' !in APP_VERSION
  {
  }

  lemma TwoPartShape(ns: Namespace, x: string, w: string)
    requires RealSegment(w) && '/' !in w && '\\' !in w
    ensures BuildKey(ns, [x, w]) == ns.Name() + (":" + APP_VERSION) + (Piece(x) + (":" + w))
  {
    KeyShape(ns, [x, w]);
    PlainWordIsNormal(w);
    assert [x, w][1..] == [w];
    assert Pieces([w]) == Piece(w) + "";
  }

  /** "spd:v1:session:<version>:<id>:last_interaction", the identifier normalised and left out when empty. */
  lemma SessionKeyShape(sessionId: string)
    ensures SessionKey(sessionId) == Session.Name() + (":" + APP_VERSION) + (Piece(sessionId) + (":" + FIELD))
  {
    TwoPartShape(Session, sessionId, FIELD);
  }

  lemma Regroup(a: string, b: string, c: string, v: string, tail: string)
    requires tail != "" && tail[0] == ':'
    ensures (a + [':'] + (b + [':'] + c)) + (":" + v) + tail
      == a + [':'] + (b + [':'] + (c + [':'] + (v + [':'] + tail[1..])))
  {
  }

  /** The fourth piece of every stored session key is the application version, whatever the session is called. */
  lemma FourthPieceIsVersion(sessionId: string)
    ensures |SplitOn(SessionKey(sessionId), ':')| >= 4
    ensures SplitOn(SessionKey(sessionId), ':')[3] == APP_VERSION
  {
    SessionKeyShape(sessionId);
    SessionName();
    var tail := Piece(sessionId) + (":" + FIELD);
    assert tail[0] == ':';
    Regroup("spd", "v1", "session", APP_VERSION, tail);
    FourthPiece("spd", "v1", "session", APP_VERSION, tail[1..]);
  }

  ghost predicate IsSessionKey(key: string) {
    exists id :: key == SessionKey(id)
  }

  lemma StoredKeyCounts(view: CacheView, now: real, key: string)
    requires IsSessionKey(key)
    ensures Counts(view, now, key) <==> Recent(view, now, APP_VERSION)
  {
    var id :| key == SessionKey(id);
    FourthPieceIsVersion(id);
  }

  /** A listing that holds only keys the session cache writes. */
  ghost predicate WrittenBySessionCache(keys: seq<string>) {
    forall k :: k in keys ==> IsSessionKey(k)
  }

  /** Over such keys the count ignores the sessions they belong to: all keys count if a session happens to carry the
      version string as its identifier and is active, and none otherwise. */
  lemma {:induction false} CountIgnoresSessions(view: CacheView, now: real, keys: seq<string>)
    requires WrittenBySessionCache(keys)
    ensures CountOf(view, now, keys) == if Recent(view, now, APP_VERSION) then |keys| else 0
  {
    if keys != [] {
      StoredKeyCounts(view, now, keys[|keys| - 1]);
      CountIgnoresSessions(view, now, keys[..|keys| - 1]);
    }
  }

  ghost predicate SomeoneActive(view: CacheView, now: real) {
    exists id :: Recent(view, now, id)
  }

  /** Every stored last interaction is listed. */
  ghost predicate ListsAll(view: CacheView) {
    forall k :: k in view.lastInteraction ==> k in ListedKeys(view)
  }

  /** The counter reports activity exactly when the session named like the application version is active; so it is right
      about "no session is active" exactly when nobody is active or that session is. */
  lemma CounterIsRightIff(view: CacheView, now: real)
    requires !Unknown(view) && WrittenBySessionCache(ListedKeys(view)) && ListsAll(view)
    ensures ActiveSessions(view, now) > 0 <==> Recent(view, now, APP_VERSION)
    ensures (ActiveSessions(view, now) == 0 <==> !SomeoneActive(view, now))
       <==> (SomeoneActive(view, now) ==> Recent(view, now, APP_VERSION))
  {
    CountIgnoresSessions(view, now, ListedKeys(view));
  }

  /** The count of the application's second daemon: no listing at all without a connection, and 0 where the first count
      reports a failure. */
  function LenientActiveSessions(view: CacheView, now: real): nat {
    CountOf(view, now, if view.available then ListedKeys(view) else [])
  }

  /** Some listed key counts. */
  ghost predicate SomeListedActive(view: CacheView, now: real) {
    exists k :: k in ListedKeys(view) && Counts(view, now, k)
  }

  /** The text of an interaction key: the prefix and the ending the listing asks for, with or without room between. */
  ghost predicate NamesInteraction(key: string) {
    |key| >= 17 && key[..15] == "spd:v1:session:" && key[|key| - 17..] == ":last_interaction"
  }

  /** The keys of the scan stay as they came; of the fallback the interaction keys that are new join, each once. */
  lemma {:induction false} MergedKeysAre(keys: seq<string>, extra: seq<string>)
    ensures keys <= MergedKeys(keys, extra)
    ensures forall k :: k in MergedKeys(keys, extra) <==> k in keys || (k in extra && NamesInteraction(k))
    ensures forall k :: k in keys ==> multiset(MergedKeys(keys, extra))[k] == multiset(keys)[k]
    ensures forall k :: k !in keys ==> multiset(MergedKeys(keys, extra))[k] <= 1
  {
    if extra != [] {
      var rest, last := extra[..|extra| - 1], extra[|extra| - 1];
      assert extra == rest + [last];
      MergedKeysAre(keys, rest);
      assert IsInteractionKey(last) <==> NamesInteraction(last);
      assert last in MergedKeys(keys, rest) <==> last in multiset(MergedKeys(keys, rest));
    }
  }

  /** What is listed: all of a scan that worked, and the interaction keys of the fallback, each once. */
  lemma ListedKeysAre(view: CacheView, key: string)
    ensures key in ListedKeys(view) <==>
      || (view.available && view.scanned.Some? && key in view.scanned.value)
      || (view.fallback.Some? && key in view.fallback.value && NamesInteraction(key))
    ensures (view.available && view.scanned.Some? ==> key !in view.scanned.value) ==>
      multiset(ListedKeys(view))[key] <= 1
  {
    MergedKeysAre(if view.available && view.scanned.Some? then view.scanned.value else [],
      if view.fallback.Some? then view.fallback.value else []);
  }

  /** Every key the session cache writes is recognised. */
  lemma StoredKeysAreListed(sessionId: string)
    ensures NamesInteraction(SessionKey(sessionId))
  {
    SessionKeyShape(sessionId);
    SessionWords();
    EndsWith(SessionKey(sessionId), Session.Name(), ":" + APP_VERSION, Piece(sessionId), ":" + FIELD);
  }

  lemma SessionWords()
    ensures Session.Name() + ":" == "spd:v1:session:" && ":" + FIELD == ":last_interaction"
    ensures |Session.Name() + ":"| == 15 && |":" + FIELD| == 17
  {
  }

  lemma EndsWith(key: string, name: string, version: string, piece: string, field: string)
    requires version != "" && version[0] == ':' && key == name + version + (piece + field)
    requires |name + ":"| == 15 && |field| == 17
    ensures |key| >= 17 && key[..15] == name + ":" && key[|key| - 17..] == field
  {
  }

  lemma {:induction false} CountIsPositiveIff(view: CacheView, now: real, keys: seq<string>)
    ensures CountOf(view, now, keys) > 0 <==> exists k :: k in keys && Counts(view, now, k)
  {
    if keys != [] {
      var rest, last := keys[..|keys| - 1], keys[|keys| - 1];
      assert keys == rest + [last];
      CountIsPositiveIff(view, now, rest);
    }
  }

  /** Where the first count finds nobody, so does the second. The second alone finds nobody exactly when the first
      cannot tell, or when the cache is offline and a session listed in its fallback is active. */
  lemma LenientCountMissesMore(view: CacheView, now: real)
    ensures ActiveSessions(view, now) == 0 <==> !Unknown(view) && !SomeListedActive(view, now)
    ensures LenientActiveSessions(view, now) == 0 <==> !view.available || !SomeListedActive(view, now)
    ensures LenientActiveSessions(view, now) == 0 && ActiveSessions(view, now) != 0
       <==> Unknown(view) || (!view.available && SomeListedActive(view, now))
  {
    CountIsPositiveIff(view, now, ListedKeys(view));
    assert CountOf(view, now, []) == 0;
    if Unknown(view) && view.available {
      assert ListedKeys(view) == [];
    }
  }

  /** The count fails exactly when a scan fails or is impossible and the fallback fails too, or a scan fails and the
      fallback names no interaction. */
  lemma CountFailsIff(view: CacheView, now: real)
    ensures ActiveSessions(view, now) < 0 <==>
      || (view.fallback == None && !(view.available && view.scanned.Some?))
      || (view.available && view.scanned == None
          && forall k :: view.fallback.Some? && k in view.fallback.value ==> !NamesInteraction(k))
  {
    var keys := if view.available && view.scanned.Some? then view.scanned.value else [];
    var extra := if view.fallback.Some? then view.fallback.value else [];
    MergedKeysAre(keys, extra);
    assert ListedKeys(view) != [] ==> ListedKeys(view)[0] in ListedKeys(view);
  }

  /** Over the keys the session cache writes, some listed key counts exactly when there are any and the session named
      like the application version is active. */
  lemma ListedActiveIsVersion(view: CacheView, now: real)
    requires WrittenBySessionCache(ListedKeys(view))
    ensures SomeListedActive(view, now) <==> ListedKeys(view) != [] && Recent(view, now, APP_VERSION)
  {
    CountIsPositiveIff(view, now, ListedKeys(view));
    CountIgnoresSessions(view, now, ListedKeys(view));
  }

  /** Any session but one named like the version: active this very second, listed, and yet the count is 0. */
  lemma ActiveSessionUnnoticed(id: string, now: real)
    requires Plain(id) && id != APP_VERSION
    ensures var view := CacheView(true, Some([SessionKey(id)]), Some([]), map[SessionKey(id) := now]);
      Recent(view, now, id) && SomeoneActive(view, now) && ActiveSessions(view, now) == 0
  {
    var view := CacheView(true, Some([SessionKey(id)]), Some([]), map[SessionKey(id) := now]);
    assert ListedKeys(view) == [SessionKey(id)];
    CountIgnoresSessions(view, now, ListedKeys(view));
    VersionIsPlain();
    SameSessionIff(id, APP_VERSION);
    assert Recent(view, now, id);
  }

  lemma VersionIsPlain()
    ensures Plain(APP_VERSION)
  {
    PlainWordIsNormal(APP_VERSION);
  }

  /** Two sessions share a key exactly when their identifiers have one normalised spelling. */
  lemma SameSessionIff(x: string, y: string)
    ensures SessionKey(x) == SessionKey(y) <==> Normalize(x) == Normalize(y)
  {
    SessionKeyShape(x);
    SessionKeyShape(y);
    var head := Session.Name() + (":" + APP_VERSION);
    Cancel(head, Piece(x) + (":" + FIELD), Piece(y) + (":" + FIELD));
    CancelEnd(Piece(x), Piece(y), ":" + FIELD);
    SamePiece(x, y);
  }

  lemma CancelEnd(x: string, y: string, tail: string)
    ensures x + tail == y + tail ==> x == y
  {
    if x + tail == y + tail {
      assert |x| == |y|;
      assert (x + tail)[..|x|] == x && (y + tail)[..|y|] == y;
    }
  }
}

/** The daemon that backs the database up after a quiet period, and the writes of other threads it polls. */
module BackupDaemon {
  import opened Sequences
  import opened CacheKeys
  import opened LegacyKeys
  import opened SessionActivity

  /** A cached timestamp: absent, unreadable (malformed or not finite), or a number. */
  datatype CacheValue = Missing | Unreadable | Stamp(time: real)

  predicate Usable(v: CacheValue) {
    v.Stamp? && v.time >= 0.0
  }

  function BackupTimestamp(v: CacheValue, default: real): real {
    if Usable(v) then v.time else default
  }

  /** The last activity and the last interaction per session key in the shared cache, and what the daemon knows. */
  datatype State = State(
    activity: CacheValue, recorded: CacheValue, lastBackup: real, started: real, sessions: map<string, real>)

  /** What a polling iteration can list of the cache. */
  datatype Look = Look(available: bool, scanned: Option<seq<string>>, fallback: Option<seq<string>>)

  function View(s: State, look: Look): CacheView {
    CacheView(look.available, look.scanned, look.fallback, s.sessions)
  }

  /** What happens between two looks at the cache: an activity write, a session's interaction, stored under the
      session's key, session entries that are cleared or expire, a corruption or eviction of the cached timestamp, or
      one polling iteration of the daemon, which counts the sessions at a time of its own. */
  datatype Event =
    | Activity(at: real)
    | Touch(at: real, key: string)
    | Forget(at: real, keys: set<string>)
    | Corruption(at: real, left: CacheValue)
    | Tick(at: real, timeoutMinutes: nat, look: Look, counted: real, snapshotFails: bool)
  {
    function Timeout(): real
      requires Tick?
    {
      (timeoutMinutes * 60) as real
    }
  }

  function Counted(s: State, e: Event): int
    requires e.Tick?
  {
    ActiveSessions(View(s, e.look), e.counted)
  }

  /** The part of the guard that looks at clocks only. */
  predicate WaitIsOver(s: State, e: Event)
    requires e.Tick?
  {
    var activity := BackupTimestamp(s.activity, e.at);
    e.at - activity >= e.Timeout() && activity > s.lastBackup && !(e.at - s.started < e.Timeout())
  }

  predicate Due(s: State, e: Event)
    requires e.Tick?
  {
    Counted(s, e) == 0 && WaitIsOver(s, e)
  }

  predicate BacksUp(s: State, e: Event) {
    e.Tick? && Due(s, e) && !e.snapshotFails
  }

  function Step(s: State, e: Event): State {
    match e
    case Activity(at) => s.(activity := Stamp(at))
    case Touch(at, key) => s.(sessions := s.sessions[key := at])
    case Forget(_, keys) => s.(sessions := s.sessions - keys)
    case Corruption(_, left) => s.(activity := left)
    case Tick(at, _, _, _, _) =>
      var seen := BackupTimestamp(s.activity, at);
      var repaired := if seen == at && s.activity != Stamp(at) then s.(activity := Stamp(at)) else s;
      if BacksUp(s, e) then repaired.(lastBackup := at, recorded := Stamp(at)) else repaired
  }

  function Start(activity: CacheValue, recorded: CacheValue, sessions: map<string, real>, started: real,
      later: real): State {
    var seeded := if activity.Missing? then Stamp(later) else activity;
    State(seeded, recorded, BackupTimestamp(recorded, 0.0), started, sessions)
  }

  function Run(s: State, es: seq<Event>): State {
    if es == [] then s else Step(Run(s, es[..|es| - 1]), es[|es| - 1])
  }

  /** The clock never runs backwards, sessions are counted after the clock was read, timeouts are at least a minute
      and a corruption leaves no usable timestamp. */
  ghost predicate Timed(s: State, es: seq<Event>) {
    && s.started >= 0.0
    && (forall i :: 0 <= i < |es| ==> es[i].at >= s.started)
    && (forall i, j :: 0 <= i < j < |es| ==> es[i].at <= es[j].at)
    && (forall i :: 0 <= i < |es| && es[i].Tick? ==> es[i].timeoutMinutes >= 1 && es[i].counted >= es[i].at)
    && (forall i :: 0 <= i < |es| && es[i].Corruption? ==> !Usable(es[i].left))
  }

  /** The i-th event is a polling iteration that writes a backup. */
  ghost predicate BackupAt(s: State, es: seq<Event>, i: nat)
    requires i < |es|
  {
    BacksUp(Run(s, es[..i]), es[i])
  }

  // ---------------------------------------------------------------- every backup is safe

  lemma TimedPrefix(s: State, es: seq<Event>, n: nat)
    requires Timed(s, es) && n <= |es|
    ensures Timed(s, es[..n])
  {
  }

  lemma StepRemembers(s: State, e: Event, t: real)
    requires e.at >= t && (e.Corruption? ==> !Usable(e.left))
    requires Usable(s.activity) ==> s.activity.time >= t
    ensures Usable(Step(s, e).activity) ==> Step(s, e).activity.time >= t
  {
  }

  /** A usable cached timestamp is at least as late as every activity write so far. */
  lemma {:induction false} CacheRemembersActivity(s: State, es: seq<Event>, k: nat)
    requires Timed(s, es) && k < |es| && es[k].Activity?
    ensures Usable(Run(s, es).activity) ==> Run(s, es).activity.time >= es[k].at
  {
    var n := |es| - 1;
    TimedPrefix(s, es, n);
    if k < n {
      CacheRemembersActivity(s, es[..n], k);
      StepRemembers(Run(s, es[..n]), es[n], es[k].at);
    }
  }

  lemma {:induction false} StartedIsFixed(s: State, es: seq<Event>)
    ensures Run(s, es).started == s.started
  {
    if es != [] { StartedIsFixed(s, es[..|es| - 1]); }
  }

  /** Every backup is taken with no session counted in the cache as it is then, a full timeout after the daemon
      started and a full timeout after every earlier activity write. */
  lemma BackupIsSafe(s: State, es: seq<Event>, i: nat)
    requires Timed(s, es) && i < |es| && BackupAt(s, es, i)
    ensures es[i].Tick? && Counted(Run(s, es[..i]), es[i]) == 0
    ensures es[i].at - s.started >= es[i].Timeout()
    ensures forall k :: 0 <= k < i && es[k].Activity? ==> es[i].at - es[k].at >= es[i].Timeout()
  {
    var before := Run(s, es[..i]);
    StartedIsFixed(s, es[..i]);
    TimedPrefix(s, es, i);
    assert es[i].Timeout() > 0.0;
    assert Usable(before.activity);
    forall k | 0 <= k < i && es[k].Activity? ensures es[i].at - es[k].at >= es[i].Timeout() {
      assert es[..i][k] == es[k];
      CacheRemembersActivity(s, es[..i], k);
    }
  }

  // ---------------------------------------------------------------- consecutive backups

  lemma RunSplits(s: State, es: seq<Event>, i: nat)
    requires i < |es|
    ensures Run(s, es[..i + 1]) == Step(Run(s, es[..i]), es[i])
  {
    assert es[..i + 1][..i] == es[..i];
  }

  /** The time of the last backup only moves forward. */
  lemma {:induction false} LastBackupGrows(s: State, es: seq<Event>, i: nat, j: nat)
    requires Timed(s, es) && i < j <= |es| && BackupAt(s, es, i)
    ensures Run(s, es[..j]).lastBackup >= es[i].at
    decreases j
  {
    RunSplits(s, es, j - 1);
    if i < j - 1 { LastBackupGrows(s, es, i, j - 1); }
  }

  /** While nobody writes the cached timestamp, a usable one stays as it is. */
  lemma {:induction false} OthersKeepActivity(s: State, es: seq<Event>, i: nat, j: nat)
    requires i <= j <= |es| && Usable(Run(s, es[..i]).activity)
    requires forall k :: i <= k < j ==> !es[k].Activity? && !es[k].Corruption?
    ensures Run(s, es[..j]).activity == Run(s, es[..i]).activity
    decreases j
  {
    if i < j {
      RunSplits(s, es, j - 1);
      OthersKeepActivity(s, es, i, j - 1);
    }
  }

  /** Two backups are more than a timeout apart, and between them somebody wrote the activity timestamp (or it was
      corrupted, which the daemon treats as activity). */
  lemma BackupsNeedActivityBetween(s: State, es: seq<Event>, i: nat, j: nat)
    requires Timed(s, es) && i < j < |es| && BackupAt(s, es, i) && BackupAt(s, es, j)
    ensures es[j].at - es[i].at > es[j].Timeout()
    ensures exists k :: i < k < j && (es[k].Activity? || es[k].Corruption?)
  {
    LastBackupGrows(s, es, i, j);
    assert es[j].Timeout() > 0.0 && es[i].Timeout() > 0.0;
    assert Usable(Run(s, es[..j]).activity) && Usable(Run(s, es[..i]).activity);
    if forall k :: i < k < j ==> !es[k].Activity? && !es[k].Corruption? {
      OthersKeepActivity(s, es, i, j);
      assert false;
    }
  }

  // ---------------------------------------------------------------- a quiet period

  function Backups(s: State, es: seq<Event>): nat {
    if es == [] then 0
    else Backups(s, es[..|es| - 1]) + if BacksUp(Run(s, es[..|es| - 1]), es[|es| - 1]) then 1 else 0
  }

  /** A polling iteration that finds the waiting time over, nobody counted, and the snapshot possible. */
  predicate Ready(s: State, e: Event)
    requires s.activity.Stamp? && e.Tick?
  {
    Counted(s, e) == 0 && !e.snapshotFails && e.at - s.activity.time >= e.Timeout() && e.at - s.started >= e.Timeout()
  }

  ghost predicate SomeReady(s: State, es: seq<Event>)
    requires s.activity.Stamp? && forall i :: 0 <= i < |es| ==> es[i].Tick?
  {
    exists i :: 0 <= i < |es| && Ready(s, es[i])
  }

  /** A polling iteration that finds a usable timestamp leaves all but the record of backups alone. */
  lemma TickOnUsable(s: State, e: Event)
    requires e.Tick? && Usable(s.activity)
    ensures Step(s, e) == if BacksUp(s, e) then s.(lastBackup := e.at, recorded := Stamp(e.at)) else s
  {
  }

  lemma ReadyMeansBackup(s: State, t: State, e: Event)
    requires e.Tick? && Usable(s.activity) && t.activity == s.activity && t.started == s.started
      && t.sessions == s.sessions
    ensures BacksUp(t, e) <==> Ready(s, e) && s.activity.time > t.lastBackup
  {
    assert View(t, e.look) == View(s, e.look);
  }

  /** After activity that is not backed up yet, a period of mere polling takes exactly one backup if any iteration in it
      is ready, and none otherwise, however many iterations are. */
  lemma {:induction false} QuietPeriodBacksUpOnce(s: State, es: seq<Event>)
    requires Timed(s, es) && Usable(s.activity) && s.activity.time > s.lastBackup
    requires forall i :: 0 <= i < |es| ==> es[i].Tick?
    ensures Run(s, es).activity == s.activity && Run(s, es).started == s.started && Run(s, es).sessions == s.sessions
    ensures Backups(s, es) == if SomeReady(s, es) then 1 else 0
    ensures if SomeReady(s, es) then Run(s, es).lastBackup >= s.activity.time else Run(s, es).lastBackup == s.lastBackup
  {
    if es != [] {
      var n := |es| - 1;
      TimedPrefix(s, es, n);
      QuietPeriodBacksUpOnce(s, es[..n]);
      OneMoreReady(s, es);
      TickOnUsable(Run(s, es[..n]), es[n]);
      ReadyMeansBackup(s, Run(s, es[..n]), es[n]);
      assert es[n].Timeout() > 0.0;
    }
  }

  lemma OneMoreReady(s: State, es: seq<Event>)
    requires s.activity.Stamp? && es != [] && forall i :: 0 <= i < |es| ==> es[i].Tick?
    ensures SomeReady(s, es) <==> SomeReady(s, es[..|es| - 1]) || Ready(s, es[|es| - 1])
  {
  }

  // ---------------------------------------------------------------- after a restart

  /** While the only activity known is not newer than the last backup, nothing is backed up, and the record stays. */
  lemma {:induction false} NothingNewNothingBackedUp(s: State, es: seq<Event>)
    requires Timed(s, es) && Usable(s.activity) && s.activity.time <= s.lastBackup
    requires forall k :: 0 <= k < |es| ==> !es[k].Activity? && !es[k].Corruption?
    ensures Run(s, es).activity == s.activity && Run(s, es).lastBackup == s.lastBackup && Backups(s, es) == 0
  {
    if es != [] {
      TimedPrefix(s, es, |es| - 1);
      NothingNewNothingBackedUp(s, es[..|es| - 1]);
      assert es[|es| - 1].Tick? ==> es[|es| - 1].Timeout() > 0.0;
    }
  }

  /** The daemon starts from the recorded backup time, from 0 when none is usable, and only a missing activity timestamp
      is written. */
  lemma StartReadsTheRecord(activity: CacheValue, recorded: CacheValue, sessions: map<string, real>, started: real,
      later: real)
    ensures var s := Start(activity, recorded, sessions, started, later);
      && s.lastBackup == (if recorded.Stamp? && recorded.time >= 0.0 then recorded.time else 0.0)
      && s.activity == (if activity == Missing then Stamp(later) else activity)
      && s.recorded == recorded && s.sessions == sessions && s.started == started
  {
  }

  /** A restart forgets nothing: a daemon started over a recorded backup and a recorded activity takes, while it merely
      polls, one backup if the activity is newer than the backup and some iteration is ready, and none otherwise. */
  lemma RestartBacksUpOnlyNews(activity: real, recorded: real, sessions: map<string, real>, started: real, later: real,
      es: seq<Event>)
    requires activity >= 0.0 && recorded >= 0.0
    requires Timed(Start(Stamp(activity), Stamp(recorded), sessions, started, later), es)
    requires forall i :: 0 <= i < |es| ==> es[i].Tick?
    ensures var s := Start(Stamp(activity), Stamp(recorded), sessions, started, later);
      Backups(s, es) == if activity > recorded && SomeReady(s, es) then 1 else 0
  {
    var s := Start(Stamp(activity), Stamp(recorded), sessions, started, later);
    StartReadsTheRecord(Stamp(activity), Stamp(recorded), sessions, started, later);
    if activity > recorded { QuietPeriodBacksUpOnce(s, es); } else { NothingNewNothingBackedUp(s, es); }
  }

  /** A backup is recorded under its time, in the daemon and in the cache. */
  lemma BackupIsRecorded(s: State, es: seq<Event>, i: nat)
    requires i < |es| && BackupAt(s, es, i)
    ensures Run(s, es[..i + 1]).lastBackup == es[i].at && Run(s, es[..i + 1]).recorded == Stamp(es[i].at)
  {
    RunSplits(s, es, i);
  }

  lemma {:induction false} RecordIsKept(s: State, es: seq<Event>)
    requires Timed(s, es) && BackupTimestamp(s.recorded, 0.0) == s.lastBackup
    ensures BackupTimestamp(Run(s, es).recorded, 0.0) == Run(s, es).lastBackup
  {
    if es != [] {
      TimedPrefix(s, es, |es| - 1);
      RecordIsKept(s, es[..|es| - 1]);
    }
  }

  /** Whatever a daemon did, its successor starts from the same last backup, read back from the cache. */
  lemma SuccessorContinues(activity: CacheValue, recorded: CacheValue, sessions: map<string, real>, started: real,
      later: real, es: seq<Event>, restarted: real, seeded: real)
    requires Timed(Start(activity, recorded, sessions, started, later), es)
    ensures var t := Run(Start(activity, recorded, sessions, started, later), es);
      Start(t.activity, t.recorded, t.sessions, restarted, seeded).lastBackup == t.lastBackup
  {
    RecordIsKept(Start(activity, recorded, sessions, started, later), es);
  }

  // ---------------------------------------------------------------- after a corruption

  lemma {:induction false} RunFromSecond(s: State, es: seq<Event>)
    requires es != []
    ensures Run(s, es) == Run(Step(s, es[0]), es[1..])
    ensures Backups(s, es) == Backups(s, es[..1]) + Backups(Step(s, es[0]), es[1..])
  {
    var n := |es| - 1;
    if n == 0 {
      assert es[..0] == [] && es[1..] == [] && es[..1] == es;
    } else {
      RunFromSecond(s, es[..n]);
      assert es[..n][1..] == es[1..][..n - 1] && es[..n][..1] == es[..1];
    }
  }

  /** The first iteration that finds no usable timestamp writes its own time for it and backs nothing up. */
  lemma RepairingTick(s: State, e: Event)
    requires e.Tick? && e.timeoutMinutes >= 1 && e.at >= 0.0 && !Usable(s.activity)
    ensures Step(s, e) == s.(activity := Stamp(e.at)) && Backups(s, [e]) == 0
  {
    assert [e][..0] == [];
    assert e.Timeout() > 0.0;
  }

  /** After a lost timestamp mere polling still leads to a backup, a timeout after the iteration that repaired it. */
  lemma LostTimestampIsBackedUp(s: State, es: seq<Event>)
    requires Timed(s, es) && es != [] && !Usable(s.activity) && s.lastBackup < es[0].at
    requires forall i :: 0 <= i < |es| ==> es[i].Tick?
    ensures var repaired := s.(activity := Stamp(es[0].at));
      Backups(s, es) == if SomeReady(repaired, es[1..]) then 1 else 0
  {
    RunFromSecond(s, es);
    RepairingTick(s, es[0]);
    assert es[..1] == [es[0]];
    QuietPeriodBacksUpOnce(s.(activity := Stamp(es[0].at)), es[1..]);
  }

  // ---------------------------------------------------------------- sessions and backups

  /** The key's entry survives the events from k to i. */
  ghost predicate Kept(es: seq<Event>, k: nat, i: nat, key: string)
    requires i <= |es|
  {
    forall j :: k < j < i && es[j].Forget? ==> key !in es[j].keys
  }

  /** One of the first i events is an interaction of the session within the window that the cache still has. */
  ghost predicate TouchedWithin(es: seq<Event>, i: nat, key: string, now: real)
    requires i <= |es|
  {
    exists k :: 0 <= k < i && TouchAt(es, k, i, key, now)
  }

  ghost predicate TouchAt(es: seq<Event>, k: nat, i: nat, key: string, now: real)
    requires k < i <= |es|
  {
    es[k].Touch? && es[k].key == key && now - es[k].at <= 900.0 && Kept(es, k, i, key)
  }

  lemma TouchKept(es: seq<Event>, k: nat, n: nat, key: string, now: real)
    requires k < n < |es|
    ensures TouchAt(es, k, n + 1, key, now) <==> TouchAt(es, k, n, key, now) && !(es[n].Forget? && key in es[n].keys)
  {
  }

  lemma TouchedGrows(es: seq<Event>, n: nat, key: string, now: real)
    requires n < |es|
    ensures TouchedWithin(es, n + 1, key, now) <==>
      || TouchAt(es, n, n + 1, key, now)
      || (!(es[n].Forget? && key in es[n].keys) && TouchedWithin(es, n, key, now))
  {
    forall k | 0 <= k < n
      ensures TouchAt(es, k, n + 1, key, now) <==> TouchAt(es, k, n, key, now) && !(es[n].Forget? && key in es[n].keys)
    {
      TouchKept(es, k, n, key, now);
    }
    var m := n + 1;
    if TouchedWithin(es, m, key, now) {
      var k :| 0 <= k < m && TouchAt(es, k, m, key, now);
      assert k < n ==> TouchAt(es, k, n, key, now);
    }
    if TouchAt(es, n, m, key, now) { assert TouchedWithin(es, m, key, now); }
    if !(es[n].Forget? && key in es[n].keys) && TouchedWithin(es, n, key, now) {
      var k :| 0 <= k < n && TouchAt(es, k, n, key, now);
      assert TouchAt(es, k, m, key, now);
    }
  }

  /** The entry the cache held at the start is within the window and was never forgotten. */
  ghost predicate StartEntryWithin(s: State, es: seq<Event>, i: nat, key: string, now: real)
    requires i <= |es|
  {
    && key in s.sessions && now - s.sessions[key] <= 900.0
    && forall j :: 0 <= j < i && es[j].Forget? ==> key !in es[j].keys
  }

  ghost predicate SeenWithin(s: State, es: seq<Event>, i: nat, key: string, now: real)
    requires i <= |es|
  {
    TouchedWithin(es, i, key, now) || StartEntryWithin(s, es, i, key, now)
  }

  /** The cache may hold interactions already, but none from after the start. */
  ghost predicate PastEntries(s: State) {
    forall k :: k in s.sessions ==> s.sessions[k] <= s.started
  }

  /** An event after an interaction within the window is within it too. */
  lemma LaterIsNearer(s: State, es: seq<Event>, n: nat, key: string, now: real)
    requires Timed(s, es) && PastEntries(s) && n < |es|
    ensures SeenWithin(s, es, n, key, now) ==> now - es[n].at <= 900.0
  {
    if TouchedWithin(es, n, key, now) {
      var k :| 0 <= k < n && TouchAt(es, k, n, key, now);
      assert es[k].at <= es[n].at;
    }
  }

  lemma SeenGrows(s: State, es: seq<Event>, n: nat, key: string, now: real)
    requires n < |es|
    ensures SeenWithin(s, es, n + 1, key, now) <==>
      || TouchAt(es, n, n + 1, key, now)
      || (!(es[n].Forget? && key in es[n].keys) && SeenWithin(s, es, n, key, now))
  {
    TouchedGrows(es, n, key, now);
  }

  lemma StepSessions(s: State, e: Event)
    ensures Step(s, e).sessions ==
      if e.Touch? then s.sessions[e.key := e.at] else if e.Forget? then s.sessions - e.keys else s.sessions
  {
  }

  predicate Near(sessions: map<string, real>, key: string, now: real) {
    key in sessions && now - sessions[key] <= WINDOW
  }

  /** A session counts as recently active exactly when one of its interactions, or its entry from before the start, is
      within the window and still cached. */
  lemma {:induction false} NearIsSeen(s: State, es: seq<Event>, i: nat, key: string, now: real)
    requires Timed(s, es) && PastEntries(s) && i <= |es|
    ensures Near(Run(s, es[..i]).sessions, key, now) <==> SeenWithin(s, es, i, key, now)
    decreases i
  {
    if i > 0 {
      RunSplits(s, es, i - 1);
      NearIsSeen(s, es, i - 1, key, now);
      SeenGrows(s, es, i - 1, key, now);
      StepSessions(Run(s, es[..i - 1]), es[i - 1]);
      LaterIsNearer(s, es, i - 1, key, now);
    }
  }

  /** The look tells what is there: some listing came back, and it holds the stored session keys and nothing else. */
  ghost predicate LooksTrue(s: State, look: Look) {
    !Unknown(View(s, look)) && WrittenBySessionCache(ListedKeys(View(s, look))) && ListsAll(View(s, look))
  }

  /** With a true look the session test decides only over a session named like the application version: unless that one
      was active lately, a backup depends on the clocks alone, however many sessions are in use. */
  lemma SessionsDecideOnlyByVersionName(s: State, e: Event)
    requires e.Tick? && LooksTrue(s, e.look)
    ensures BacksUp(s, e) <==> !e.snapshotFails && WaitIsOver(s, e) && !Recent(View(s, e.look), e.counted, APP_VERSION)
  {
    CounterIsRightIff(View(s, e.look), e.counted);
  }

  /** A timeout has passed since the start and since an activity known and newer than the last backup. */
  ghost predicate ClocksAllow(s: State, now: State, e: Event)
    requires e.Tick?
  {
    && now.activity.Stamp? && now.activity.time >= 0.0 && now.activity.time > now.lastBackup
    && e.at >= now.activity.time + (60 * e.timeoutMinutes) as real
    && e.at >= s.started + (60 * e.timeoutMinutes) as real
  }

  lemma WaitIsOverIff(s: State, e: Event)
    requires e.Tick? && e.timeoutMinutes >= 1
    ensures WaitIsOver(s, e) <==> ClocksAllow(s, s, e)
  {
    assert e.Timeout() == (60 * e.timeoutMinutes) as real > 0.0;
  }

  /** In every run a polling iteration whose look is true takes a backup exactly when the clocks allow it and no session
      named like the application version was seen within the window. No other session ever holds a backup back. */
  lemma BackupIff(s: State, es: seq<Event>, i: nat)
    requires Timed(s, es) && PastEntries(s)
    requires i < |es| && es[i].Tick? && LooksTrue(Run(s, es[..i]), es[i].look)
    ensures BackupAt(s, es, i) <==>
      !es[i].snapshotFails && ClocksAllow(s, Run(s, es[..i]), es[i])
      && !SeenWithin(s, es, i, SessionKey(APP_VERSION), es[i].counted)
  {
    WaitIsOverIff(Run(s, es[..i]), es[i]);
    StartedIsFixed(s, es[..i]);
    SessionsDecideOnlyByVersionName(Run(s, es[..i]), es[i]);
    NearIsSeen(s, es, i, SessionKey(APP_VERSION), es[i].counted);
  }

  /** Every interaction of a session comes with an activity write at most `lag` before it, as in a page rerun. */
  ghost predicate Accompanied(es: seq<Event>, lag: real) {
    forall k :: 0 <= k < |es| && es[k].Touch? ==> ActivityNear(es, k, lag)
  }

  ghost predicate ActivityNear(es: seq<Event>, k: nat, lag: real)
    requires k < |es|
  {
    exists j :: 0 <= j < k && es[j].Activity? && es[k].at - es[j].at <= lag
  }

  /** What protects sessions is the timeout, not the count: a backup comes at least the timeout less the lag after every
      interaction of any session. */
  lemma BackupAfterInteractions(s: State, es: seq<Event>, lag: real, i: nat, k: nat)
    requires Timed(s, es) && Accompanied(es, lag) && i < |es| && BackupAt(s, es, i) && k < i && es[k].Touch?
    ensures es[i].counted - es[k].at >= es[i].Timeout() - lag
  {
    BackupIsSafe(s, es, i);
    assert ActivityNear(es, k, lag);
    var j :| 0 <= j < k && es[j].Activity? && es[k].at - es[j].at <= lag;
  }

  /** In a run whose interactions are accompanied, the i-th event is a backup under this timeout after the k-th, an
      interaction. */
  ghost predicate BackupAfterTouch(s: State, es: seq<Event>, lag: real, i: nat, k: nat, timeoutMinutes: nat) {
    && Timed(s, es) && Accompanied(es, lag) && k < i < |es| && es[k].Touch?
    && BackupAt(s, es, i) && es[i].timeoutMinutes == timeoutMinutes
  }

  /** No backup under this timeout is ever taken within 15 minutes of any session's interaction, when the activity write
      that comes with an interaction is at most `lag` before it. */
  ghost predicate Protects(timeoutMinutes: nat, lag: real) {
    forall s: State, es: seq<Event>, i: nat, k: nat ::
      BackupAfterTouch(s, es, lag, i, k, timeoutMinutes) ==> es[i].counted - es[k].at > 900.0
  }

  /** When a polling iteration comes one timeout after an activity write at time 1, and when the interaction that the
      write announces: `lag` later, or with the iteration itself. */
  function PollTime(timeoutMinutes: nat): real {
    1.0 + (timeoutMinutes * 60) as real
  }

  function TouchTime(timeoutMinutes: nat, lag: real): real {
    if 1.0 + lag <= PollTime(timeoutMinutes) then 1.0 + lag else PollTime(timeoutMinutes)
  }

  /** A page rerun of a session, and a polling iteration that lists the session's key. */
  function UnnoticedRun(id: string, timeoutMinutes: nat, lag: real): seq<Event> {
    var key, end := SessionKey(id), PollTime(timeoutMinutes);
    [Activity(1.0), Touch(TouchTime(timeoutMinutes, lag), key),
     Tick(end, timeoutMinutes, Look(true, Some([key]), Some([])), end, false)]
  }

  const IDLE := Start(Missing, Missing, map[], 0.0, 0.0)

  /** Whatever the timeout and the lag, that iteration takes a backup, however recent the interaction. */
  lemma BackupDuringSession(id: string, timeoutMinutes: nat, lag: real)
    requires Plain(id) && id != APP_VERSION && timeoutMinutes >= 1 && lag >= 0.0
    ensures var es := UnnoticedRun(id, timeoutMinutes, lag);
      Timed(IDLE, es) && Accompanied(es, lag) && BackupAt(IDLE, es, 2)
  {
    var es := UnnoticedRun(id, timeoutMinutes, lag);
    UnnoticedRunIsTimed(id, timeoutMinutes, lag);
    UnnoticedState(id, timeoutMinutes, lag);
    LookIsTrue(Run(IDLE, es[..2]), id);
    VersionIsPlain();
    SameSessionIff(id, APP_VERSION);
    assert !SeenWithin(IDLE, es, 2, SessionKey(APP_VERSION), es[2].counted);
    BackupIff(IDLE, es, 2);
  }

  lemma UnnoticedRunIsTimed(id: string, timeoutMinutes: nat, lag: real)
    requires timeoutMinutes >= 1 && lag >= 0.0
    ensures Timed(IDLE, UnnoticedRun(id, timeoutMinutes, lag))
      && Accompanied(UnnoticedRun(id, timeoutMinutes, lag), lag)
  {
    var es := UnnoticedRun(id, timeoutMinutes, lag);
    assert es[0].Activity? && ActivityNear(es, 1, lag);
  }

  lemma UnnoticedState(id: string, timeoutMinutes: nat, lag: real)
    ensures Run(IDLE, UnnoticedRun(id, timeoutMinutes, lag)[..2])
         == State(Stamp(1.0), Missing, 0.0, 0.0, map[SessionKey(id) := TouchTime(timeoutMinutes, lag)])
  {
    var two := UnnoticedRun(id, timeoutMinutes, lag)[..2];
    assert two == [Activity(1.0), Touch(TouchTime(timeoutMinutes, lag), SessionKey(id))];
    assert two[..1] == [Activity(1.0)] && [Activity(1.0)][..0] == [];
    assert Run(IDLE, [Activity(1.0)]) == IDLE.(activity := Stamp(1.0));
  }

  lemma LookIsTrue(s: State, id: string)
    requires s.sessions.Keys == {SessionKey(id)}
    ensures LooksTrue(s, Look(true, Some([SessionKey(id)]), Some([])))
  {
    assert ListedKeys(View(s, Look(true, Some([SessionKey(id)]), Some([])))) == [SessionKey(id)];
    assert IsSessionKey(SessionKey(id));
  }

  /** With every interaction announced by an activity write, backups spare active sessions exactly when the timeout
      exceeds the 15-minute window by more than the lag between the two. */
  lemma ProtectsIff(timeoutMinutes: nat, lag: real)
    requires timeoutMinutes >= 1 && lag >= 0.0
    ensures Protects(timeoutMinutes, lag) <==> (timeoutMinutes * 60) as real - lag > 900.0
  {
    if (timeoutMinutes * 60) as real - lag > 900.0 {
      forall s: State, es: seq<Event>, i: nat, k: nat | BackupAfterTouch(s, es, lag, i, k, timeoutMinutes)
        ensures es[i].counted - es[k].at > 900.0
      {
        BackupAfterInteractions(s, es, lag, i, k);
      }
    } else {
      var es := UnnoticedRun("user", timeoutMinutes, lag);
      PlainWordIsNormal("user");
      BackupDuringSession("user", timeoutMinutes, lag);
      assert BackupAfterTouch(IDLE, es, lag, 2, 1, timeoutMinutes) && es[2].counted - es[1].at <= 900.0;
    }
  }

  // ---------------------------------------------------------------- the second daemon

  /** The activity the application page's daemon sees: a missing one is taken to be now, an unreadable one raises or
      compares with nothing, any number counts. */
  function PageActivity(v: CacheValue, read: real): Option<real> {
    match v
    case Missing => Some(read)
    case Unreadable => None
    case Stamp(time) => Some(time)
  }

  /** The guard of that daemon: no startup phase, and the lenient count. */
  predicate LenientlyDue(s: State, e: Event, read: real)
    requires e.Tick?
  {
    && LenientActiveSessions(View(s, e.look), e.counted) == 0
    && PageWaitIsOver(s, e, read)
  }

  predicate PageWaitIsOver(s: State, e: Event, read: real)
    requires e.Tick?
  {
    var activity := PageActivity(s.activity, read);
    activity.Some? && e.at - activity.value >= e.Timeout() && activity.value > s.lastBackup
  }

  ghost predicate PageAloneMayBackUp(s: State, e: Event)
    requires e.Tick?
  {
    || Unknown(View(s, e.look))
    || (SomeListedActive(View(s, e.look), e.counted) && !e.look.available)
    || (!SomeListedActive(View(s, e.look), e.counted) && e.at - s.started < e.Timeout())
  }

  /** The record of the last backup is never negative. */
  lemma {:induction false} LastBackupNotNegative(s: State, es: seq<Event>)
    requires Timed(s, es) && s.lastBackup >= 0.0
    ensures Run(s, es).lastBackup >= 0.0
  {
    if es != [] {
      TimedPrefix(s, es, |es| - 1);
      LastBackupNotNegative(s, es[..|es| - 1]);
    }
  }

  /** Whenever the daemon may back up, so may the second one. The second one alone may exactly when its own wait is
      over and either the sessions cannot be listed; or a listed session is active while the cache is offline; or
      nobody listed is active, but the first daemon is in its startup phase. It reads the clock for a missing
      timestamp less than a timeout before it compares. */
  lemma SecondGuardIsWeaker(s: State, e: Event, read: real)
    requires e.Tick? && e.timeoutMinutes >= 1 && s.lastBackup >= 0.0 && e.at - read < e.Timeout()
    ensures Due(s, e) ==> LenientlyDue(s, e, read)
    ensures LenientlyDue(s, e, read) && !Due(s, e) <==>
      && s.activity.Stamp? && s.activity.time > s.lastBackup
      && e.at >= s.activity.time + (60 * e.timeoutMinutes) as real
      && PageAloneMayBackUp(s, e)
  {
    LenientCountMissesMore(View(s, e.look), e.counted);
    assert e.Timeout() > 0.0;
    assert PageWaitIsOver(s, e, read) ==> Usable(s.activity);
    assert e.Timeout() == (60 * e.timeoutMinutes) as real;
  }

  // ---------------------------------------------------------------- the objects

  /** The entries of the shared cache the daemon reads and writes. */
  class SharedCache {
    var activity: CacheValue
    var recorded: CacheValue
    var sessions: map<string, real>

    constructor (activity: CacheValue, recorded: CacheValue, sessions: map<string, real>)
      ensures this.activity == activity && this.recorded == recorded && this.sessions == sessions
    {
      this.activity := activity;
      this.recorded := recorded;
      this.sessions := sessions;
    }

    /** The state a daemon with this record and start time finds. */
    function StateFor(lastBackup: real, started: real): State
      reads this
    {
      State(activity, recorded, lastBackup, started, sessions)
    }

    /** What other threads do between two polls: the steps of the model, whichever daemon looks. */
    method UpdateGlobalActivity(now: real)
      modifies this
      ensures forall last, started :: StateFor(last, started) == Step(old(StateFor(last, started)), Activity(now))
    {
      activity := Stamp(now);
    }

    method TouchSession(id: string, now: real)
      modifies this
      ensures forall last, started ::
        StateFor(last, started) == Step(old(StateFor(last, started)), Touch(now, SessionKey(id)))
    {
      sessions := sessions[SessionKey(id) := now];
    }
  }

  class Daemon {
    const cache: SharedCache
    const started: real
    var lastBackup: real

    function Snapshot(): State
      reads this, cache
    {
      cache.StateFor(lastBackup, started)
    }

    constructor (cache: SharedCache, started: real, later: real)
      modifies cache
      ensures this.cache == cache && this.started == started
      ensures lastBackup ==
        if old(cache.recorded).Stamp? && old(cache.recorded).time >= 0.0 then old(cache.recorded).time else 0.0
      ensures cache.activity == if old(cache.activity) == Missing then Stamp(later) else old(cache.activity)
      ensures Snapshot() == Start(old(cache.activity), old(cache.recorded), old(cache.sessions), started, later)
    {
      this.cache := cache;
      this.started := started;
      lastBackup := BackupTimestamp(cache.recorded, 0.0);
      new;
      if cache.activity.Missing? {
        cache.activity := Stamp(later);
      }
    }

    /** One polling iteration; `backedUp` says whether a backup was written. */
    method Poll(now: real, timeoutMinutes: nat, look: Look, counted: real, snapshotFails: bool) returns (backedUp: bool)
      modifies this, cache
      ensures Snapshot() == Step(old(Snapshot()), Tick(now, timeoutMinutes, look, counted, snapshotFails))
      ensures backedUp == BacksUp(old(Snapshot()), Tick(now, timeoutMinutes, look, counted, snapshotFails))
    {
      var timeout := (timeoutMinutes * 60) as real;
      var isStartupPhase := now - started < timeout;
      var lastActivity := BackupTimestamp(cache.activity, now);
      if lastActivity == now && cache.activity != Stamp(now) {
        cache.activity := Stamp(now);
      }
      var idle := now - lastActivity;
      var activeSessions := GetActiveSessionsCount(View(Snapshot(), look), counted);
      if activeSessions < 0 {
        return false;
      }
      if activeSessions == 0 && idle >= timeout && lastActivity > lastBackup && !isStartupPhase {
        if snapshotFails {
          return false;
        }
        lastBackup := now;
        cache.recorded := Stamp(lastBackup);
        return true;
      }
      return false;
    }
  }
}
