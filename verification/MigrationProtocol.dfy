/** Running a renaming plan over a live key store, whatever order and repetitions the scan produces. */
module MigrationProtocol {
  import opened Sequences

  type Blob = seq<bv8>
  type Store = map<string, Blob>
  type Plan = string -> Option<string>

  /** A key the scan yields, and whether the connection fails during the rename it causes. */
  datatype Scanned = Scanned(key: string, fails: bool)

  datatype Stats = Stats(scanned: nat, migrated: nat, skipped: nat, errors: nat, renames: seq<(string, string)>)

  const NO_STATS := Stats(0, 0, 0, 0, [])

  predicate Legacy(plan: Plan, key: string) {
    plan(key).Some?
  }

  function Target(plan: Plan, key: string): string {
    if plan(key).Some? then plan(key).value else key
  }

  /** New names are not themselves to be renamed. */
  ghost predicate Settles(plan: Plan) {
    forall key :: Legacy(plan, key) ==> !Legacy(plan, Target(plan, key))
  }

  /** The store after one rename: the old name is gone and whatever sat under the new one is overwritten. */
  function Renamed(store: Store, key: string, name: string): Store
    requires key in store
  {
    (store - {key})[name := store[key]]
  }

  /** One scanned key: a rename fails when the key is gone or the connection breaks, and then changes nothing. */
  function Step(plan: Plan, store: Store, stats: Stats, item: Scanned, dryRun: bool): (Store, Stats) {
    var seen := stats.(scanned := stats.scanned + 1);
    var pair := (item.key, Target(plan, item.key));
    if !Legacy(plan, item.key) then (store, seen.(skipped := seen.skipped + 1))
    else if dryRun then (store, seen.(migrated := seen.migrated + 1, renames := seen.renames + [pair]))
    else if item.fails || item.key !in store then (store, seen.(errors := seen.errors + 1))
    else (Renamed(store, pair.0, pair.1), seen.(migrated := seen.migrated + 1, renames := seen.renames + [pair]))
  }

  function Run(plan: Plan, store: Store, scan: seq<Scanned>, dryRun: bool): (Store, Stats) {
    if scan == [] then (store, NO_STATS)
    else
      var (before, stats) := Run(plan, store, scan[..|scan| - 1], dryRun);
      Step(plan, before, stats, scan[|scan| - 1], dryRun)
  }

  lemma RunStep(plan: Plan, store: Store, scan: seq<Scanned>, i: nat, dryRun: bool)
    requires i < |scan|
    ensures var (before, stats) := Run(plan, store, scan[..i], dryRun);
      Run(plan, store, scan[..i + 1], dryRun) == Step(plan, before, stats, scan[i], dryRun)
  {
    assert scan[..i + 1][..i] == scan[..i];
  }

  /** Every scanned key is counted once, and the list of renames is as long as the count says. */
  lemma {:induction false} StatsAddUp(plan: Plan, store: Store, scan: seq<Scanned>, dryRun: bool)
    ensures var stats := Run(plan, store, scan, dryRun).1;
      && stats.scanned == |scan| == stats.migrated + stats.skipped + stats.errors
      && stats.migrated == |stats.renames|
  {
    if scan != [] { StatsAddUp(plan, store, scan[..|scan| - 1], dryRun); }
  }

  /** The yields that are no legacy keys. */
  ghost function ModernYields(plan: Plan, scan: seq<Scanned>): set<nat> {
    set i: nat | i < |scan| && plan(scan[i].key).None?
  }

  lemma {:induction false} SkippedAre(plan: Plan, store: Store, scan: seq<Scanned>, dryRun: bool)
    ensures Run(plan, store, scan, dryRun).1.skipped == |ModernYields(plan, scan)|
  {
    if scan != [] {
      var n := |scan| - 1;
      SkippedAre(plan, store, scan[..n], dryRun);
      assert ModernYields(plan, scan)
        == ModernYields(plan, scan[..n]) + if plan(scan[n].key).None? then {n} else {};
    }
  }

  // ---------------------------------------------------------------- what a live run does

  ghost function RenamedKeys(renames: seq<(string, string)>): set<string> {
    if renames == [] then {} else RenamedKeys(renames[..|renames| - 1]) + {renames[|renames| - 1].0}
  }

  ghost function Targets(plan: Plan, keys: set<string>): set<string> {
    set k | k in keys :: Target(plan, k)
  }

  /** The key renamed to `name` last, whose value therefore sits there. */
  ghost function LastSource(renames: seq<(string, string)>, name: string): Option<string> {
    if renames == [] then None
    else
      var (k, t) := renames[|renames| - 1];
      if t == name then Some(k) else LastSource(renames[..|renames| - 1], name)
  }

  /** Under `name` sits the value of the key renamed to it last. */
  ghost predicate HoldsLast(store: Store, after: Store, renames: seq<(string, string)>, name: string) {
    && LastSource(renames, name).Some?
    && LastSource(renames, name).value in RenamedKeys(renames)
    && LastSource(renames, name).value in store
    && name in after && after[name] == store[LastSource(renames, name).value]
  }

  /** The state of a live run: renamed legacy keys are gone, their new names are there, the rest is as it was. */
  ghost predicate LiveState(plan: Plan, store: Store, after: Store, renames: seq<(string, string)>) {
    var done := RenamedKeys(renames);
    && (forall k :: k in done ==> k in store && Legacy(plan, k))
    && |done| == |renames|
    && after.Keys == (store.Keys - done) + Targets(plan, done)
    && (forall k :: k in store && k !in done && k !in Targets(plan, done) ==> after[k] == store[k])
    && (forall t :: t in Targets(plan, done) ==> HoldsLast(store, after, renames, t))
  }

  lemma TargetsAdd(plan: Plan, keys: set<string>, key: string)
    ensures Targets(plan, keys + {key}) == Targets(plan, keys) + {Target(plan, key)}
  {
  }

  lemma TargetsAreModern(plan: Plan, keys: set<string>, key: string)
    requires Settles(plan) && Legacy(plan, key)
    requires forall k :: k in keys ==> Legacy(plan, k)
    ensures key !in Targets(plan, keys)
  {
  }

  /** A key that is in the store before its rename was there from the start, is not renamed yet, and is no new name. */
  lemma NotYetRenamed(plan: Plan, store: Store, before: Store, renames: seq<(string, string)>, key: string)
    requires Settles(plan) && LiveState(plan, store, before, renames)
    requires Legacy(plan, key) && key in before
    ensures key in store && key !in RenamedKeys(renames) && before[key] == store[key]
    ensures key !in Targets(plan, RenamedKeys(renames)) && key != Target(plan, key)
  {
    TargetsAreModern(plan, RenamedKeys(renames), key);
    TargetsAreModern(plan, {key}, key);
  }

  lemma RenameHoldsLast(plan: Plan, store: Store, before: Store, renames: seq<(string, string)>, key: string, t: string)
    requires Settles(plan) && LiveState(plan, store, before, renames)
    requires Legacy(plan, key) && key in before
    requires t == Target(plan, key) || t in Targets(plan, RenamedKeys(renames))
    ensures HoldsLast(store, Renamed(before, key, Target(plan, key)), renames + [(key, Target(plan, key))], t)
  {
    var more := renames + [(key, Target(plan, key))];
    assert more[..|more| - 1] == renames;
    NotYetRenamed(plan, store, before, renames, key);
    if t != Target(plan, key) { assert HoldsLast(store, before, renames, t); }
  }

  lemma RenameMovesOneKey(plan: Plan, store: Store, before: Store, done: set<string>, key: string)
    requires Legacy(plan, key) && key in before && key in store
    requires key !in Targets(plan, done) && key != Target(plan, key)
    requires before.Keys == (store.Keys - done) + Targets(plan, done)
    ensures Renamed(before, key, Target(plan, key)).Keys == (store.Keys - (done + {key})) + Targets(plan, done + {key})
  {
    TargetsAdd(plan, done, key);
  }

  /** A further rename keeps the shape of the live state. */
  lemma RenameKeepsLiveState(plan: Plan, store: Store, before: Store, renames: seq<(string, string)>, key: string)
    requires Settles(plan) && LiveState(plan, store, before, renames)
    requires Legacy(plan, key) && key in before
    ensures LiveState(plan, store, Renamed(before, key, Target(plan, key)), renames + [(key, Target(plan, key))])
  {
    var more, done := renames + [(key, Target(plan, key))], RenamedKeys(renames);
    assert more[..|more| - 1] == renames;
    assert RenamedKeys(more) == done + {key};
    NotYetRenamed(plan, store, before, renames, key);
    RenameMovesOneKey(plan, store, before, done, key);
    TargetsAdd(plan, done, key);
    forall t | t in Targets(plan, done + {key})
      ensures HoldsLast(store, Renamed(before, key, Target(plan, key)), more, t)
    {
      RenameHoldsLast(plan, store, before, renames, key, t);
    }
  }

  lemma {:induction false} LiveRun(plan: Plan, store: Store, scan: seq<Scanned>)
    requires Settles(plan)
    ensures var (after, stats) := Run(plan, store, scan, false); LiveState(plan, store, after, stats.renames)
  {
    if scan != [] {
      var (before, stats) := Run(plan, store, scan[..|scan| - 1], false);
      LiveRun(plan, store, scan[..|scan| - 1]);
      var item := scan[|scan| - 1];
      if Legacy(plan, item.key) && !item.fails && item.key in before {
        RenameKeepsLiveState(plan, store, before, stats.renames, item.key);
      }
    }
  }

  /** A scan that, as a full iteration promises, yields every key that is there to be renamed. */
  ghost predicate Lists(plan: Plan, store: Store, scan: seq<Scanned>) {
    forall k :: k in store && Legacy(plan, k) ==> Yields(scan, k)
  }

  ghost predicate Yields(scan: seq<Scanned>, key: string) {
    exists i :: 0 <= i < |scan| && scan[i].key == key
  }

  /** Each of these keys is yielded at least once while the connection works; in what order, how often and with how many
      failures besides does not matter. */
  ghost predicate Covers(plan: Plan, store: Store, scan: seq<Scanned>) {
    forall k :: k in store && Legacy(plan, k) ==> Gets(scan, k)
  }

  ghost predicate Gets(scan: seq<Scanned>, key: string) {
    exists i :: 0 <= i < |scan| && scan[i].key == key && !scan[i].fails
  }

  /** Over a connection that never breaks a full iteration covers the store, however often it repeats keys. */
  lemma UnbrokenScanCovers(plan: Plan, store: Store, scan: seq<Scanned>)
    requires Lists(plan, store, scan) && forall i :: 0 <= i < |scan| ==> !scan[i].fails
    ensures Covers(plan, store, scan)
  {
    forall k | k in store && Legacy(plan, k) ensures Gets(scan, k) {
      assert Yields(scan, k);
    }
  }

  /** Whatever was yielded and is still a legacy key of the store failed every time. */
  lemma {:induction false} SurvivorsFailed(plan: Plan, store: Store, scan: seq<Scanned>, key: string)
    requires Settles(plan)
    requires Legacy(plan, key) && key in Run(plan, store, scan, false).0
    ensures !Gets(scan, key)
    ensures Yields(scan, key) ==> Run(plan, store, scan, false).1.errors > 0
  {
    if scan != [] {
      var n := |scan| - 1;
      var before := Run(plan, store, scan[..n], false).0;
      assert key in before;
      SurvivorsFailed(plan, store, scan[..n], key);
      GetsLonger(scan, key);
      YieldsLonger(scan, key);
    }
  }

  lemma GetsLonger(scan: seq<Scanned>, key: string)
    requires scan != []
    ensures var last := scan[|scan| - 1];
      Gets(scan, key) <==> Gets(scan[..|scan| - 1], key) || (last.key == key && !last.fails)
  {
  }

  lemma YieldsLonger(scan: seq<Scanned>, key: string)
    requires scan != []
    ensures Yields(scan, key) <==> Yields(scan[..|scan| - 1], key) || scan[|scan| - 1].key == key
  {
  }

  /** A legacy key that the scan never gets to over a working connection stays. */
  lemma {:induction false} UnreachedStays(plan: Plan, store: Store, scan: seq<Scanned>, key: string)
    requires Settles(plan) && Legacy(plan, key) && key in store && !Gets(scan, key)
    ensures key in Run(plan, store, scan, false).0
  {
    if scan != [] {
      GetsLonger(scan, key);
      UnreachedStays(plan, store, scan[..|scan| - 1], key);
    }
  }

  /** A live run leaves no legacy key exactly when its scan covers the store. */
  lemma CompletesIff(plan: Plan, store: Store, scan: seq<Scanned>)
    requires Settles(plan)
    ensures (forall k :: k in Run(plan, store, scan, false).0 ==> !Legacy(plan, k)) <==> Covers(plan, store, scan)
  {
    var (after, stats) := Run(plan, store, scan, false);
    LiveRun(plan, store, scan);
    if Covers(plan, store, scan) {
      forall k | k in after ensures !Legacy(plan, k) {
        if Legacy(plan, k) {
          assert k in store;
          SurvivorsFailed(plan, store, scan, k);
        }
      }
    }
    if forall k :: k in after ==> !Legacy(plan, k) {
      forall k | k in store && Legacy(plan, k) ensures Gets(scan, k) {
        if !Gets(scan, k) { UnreachedStays(plan, store, scan, k); }
      }
    }
  }

  /** Such a run has renamed every legacy key, and a second run finds nothing to do. */
  lemma CoveringRunCompletes(plan: Plan, store: Store, scan: seq<Scanned>, again: seq<Scanned>)
    requires Settles(plan) && Covers(plan, store, scan)
    requires forall i :: 0 <= i < |again| ==> again[i].key in Run(plan, store, scan, false).0
    ensures var (after, stats) := Run(plan, store, scan, false);
      && (forall k :: k in after ==> !Legacy(plan, k))
      && RenamedKeys(stats.renames) == (set k | k in store && Legacy(plan, k))
      && Run(plan, after, again, false) == (after, Stats(|again|, 0, |again|, 0, []))
  {
    var (after, stats) := Run(plan, store, scan, false);
    LiveRun(plan, store, scan);
    CompletesIff(plan, store, scan);
    forall k | k in store && Legacy(plan, k) ensures k in RenamedKeys(stats.renames) {
      assert k !in after;
    }
    NothingToDo(plan, after, again);
  }

  lemma {:induction false} NothingToDo(plan: Plan, store: Store, scan: seq<Scanned>)
    requires forall i :: 0 <= i < |scan| ==> !Legacy(plan, scan[i].key)
    ensures Run(plan, store, scan, false) == (store, Stats(|scan|, 0, |scan|, 0, []))
  {
    if scan != [] { NothingToDo(plan, store, scan[..|scan| - 1]); }
  }

  // ---------------------------------------------------------------- when nothing is lost

  /** No two legacy keys of the store share a new name and no new name is taken already. */
  ghost predicate CollisionFree(plan: Plan, store: Store) {
    && (forall a, b :: a in store && b in store && Legacy(plan, a) && Legacy(plan, b) && a != b ==>
      Target(plan, a) != Target(plan, b))
    && (forall a :: a in store && Legacy(plan, a) ==> Target(plan, a) !in store)
  }

  lemma {:induction false} TargetsSize(plan: Plan, keys: set<string>)
    ensures |Targets(plan, keys)| <= |keys|
    ensures |Targets(plan, keys)| == |keys| <==>
      forall a, b :: a in keys && b in keys && a != b ==> Target(plan, a) != Target(plan, b)
  {
    if keys != {} {
      var k :| k in keys;
      var rest := keys - {k};
      TargetsSize(plan, rest);
      TargetsAdd(plan, rest, k);
      assert rest + {k} == keys;
      if Target(plan, k) in Targets(plan, rest) {
        assert Targets(plan, keys) == Targets(plan, rest);
        var b :| b in rest && Target(plan, b) == Target(plan, k);
      }
    }
  }

  /** The store keeps its size under a complete run exactly when it was collision-free; every overwritten
      entry is a value lost. */
  lemma NothingLostIffCollisionFree(plan: Plan, store: Store, scan: seq<Scanned>)
    requires Settles(plan) && Covers(plan, store, scan)
    ensures |Run(plan, store, scan, false).0| <= |store|
    ensures |Run(plan, store, scan, false).0| == |store| <==> CollisionFree(plan, store)
  {
    var (after, stats) := Run(plan, store, scan, false);
    LiveRun(plan, store, scan);
    CoveringRunCompletes(plan, store, scan, []);
    var legacy := RenamedKeys(stats.renames);
    TargetsSize(plan, legacy);
    UnionSize(store.Keys, legacy, Targets(plan, legacy));
    assert |after.Keys| == |after| && |store.Keys| == |store|;
    CollisionFreeOnSets(plan, store, legacy);
  }

  /** Exchanging a part of a set for another set grows by no more than the exchange does. */
  lemma UnionSize(all: set<string>, part: set<string>, other: set<string>)
    requires part <= all && |other| <= |part|
    ensures |(all - part) + other| <= |all|
    ensures |(all - part) + other| == |all| <==> |other| == |part| && other !! (all - part)
  {
  }

  lemma CollisionFreeOnSets(plan: Plan, store: Store, legacy: set<string>)
    requires legacy == set k | k in store && Legacy(plan, k)
    requires Settles(plan)
    ensures CollisionFree(plan, store) <==>
      (forall a, b :: a in legacy && b in legacy && a != b ==> Target(plan, a) != Target(plan, b))
      && Targets(plan, legacy) !! (store.Keys - legacy)
  {
    if Targets(plan, legacy) !! (store.Keys - legacy) {
      forall a | a in store && Legacy(plan, a) ensures Target(plan, a) !in store {
        assert Target(plan, a) in Targets(plan, legacy);
        assert Target(plan, a) !in legacy;
      }
    }
  }

  /** Two legacy keys with one new name. */
  ghost predicate Meet(plan: Plan, a: string, b: string) {
    a != b && Legacy(plan, a) && Legacy(plan, b) && Target(plan, a) == Target(plan, b)
  }

  ghost predicate Taken(plan: Plan, store: Store, key: string) {
    Legacy(plan, key) && Target(plan, key) in store
  }

  /** A complete run shrinks the store exactly when two of its legacy keys meet or a new name is taken already. */
  lemma ShrinksIff(plan: Plan, store: Store, scan: seq<Scanned>)
    requires Settles(plan) && Covers(plan, store, scan)
    ensures |Run(plan, store, scan, false).0| < |store| <==>
      || (exists a, b :: a in store && b in store && Meet(plan, a, b))
      || (exists a :: a in store && Taken(plan, store, a))
  {
    NothingLostIffCollisionFree(plan, store, scan);
    if (forall a, b :: a in store && b in store ==> !Meet(plan, a, b))
      && (forall a :: a in store ==> !Taken(plan, store, a)) {
      forall a, b | a in store && b in store && Legacy(plan, a) && Legacy(plan, b) && a != b
        ensures Target(plan, a) != Target(plan, b)
      {
        assert !Meet(plan, a, b);
      }
      assert forall a :: a in store && Legacy(plan, a) ==> Target(plan, a) in store ==> Taken(plan, store, a);
      assert CollisionFree(plan, store);
    }
  }

  ghost predicate Follow(plan: Plan, renames: seq<(string, string)>) {
    forall pair :: pair in renames ==> pair.1 == Target(plan, pair.0)
  }

  lemma {:induction false} LastSourceTarget(plan: Plan, renames: seq<(string, string)>, name: string)
    requires Follow(plan, renames)
    ensures LastSource(renames, name).Some? ==> Target(plan, LastSource(renames, name).value) == name
  {
    if renames != [] { LastSourceTarget(plan, renames[..|renames| - 1], name); }
  }

  lemma {:induction false} RenamesFollowPlan(plan: Plan, store: Store, scan: seq<Scanned>, dryRun: bool)
    ensures Follow(plan, Run(plan, store, scan, dryRun).1.renames)
  {
    if scan != [] { RenamesFollowPlan(plan, store, scan[..|scan| - 1], dryRun); }
  }

  /** Without collisions every value of a complete run ends under its key's new name and every other entry stays. */
  lemma CollisionFreeRunRelabels(plan: Plan, store: Store, scan: seq<Scanned>)
    requires Settles(plan) && Covers(plan, store, scan) && CollisionFree(plan, store)
    ensures Run(plan, store, scan, false).0.Keys == (set k | k in store :: Target(plan, k))
    ensures forall k :: k in store ==>
      Target(plan, k) in Run(plan, store, scan, false).0 && Run(plan, store, scan, false).0[Target(plan, k)] == store[k]
  {
    var (after, stats) := Run(plan, store, scan, false);
    LiveRun(plan, store, scan);
    CoveringRunCompletes(plan, store, scan, []);
    RenamesFollowPlan(plan, store, scan, false);
    var done := RenamedKeys(stats.renames);
    forall k | k in store ensures Target(plan, k) in after && after[Target(plan, k)] == store[k] {
      if Legacy(plan, k) {
        assert Target(plan, k) in Targets(plan, done);
        LastSourceTarget(plan, stats.renames, Target(plan, k));
        assert HoldsLast(store, after, stats.renames, Target(plan, k));
      } else {
        assert k !in Targets(plan, done);
      }
    }
    RelabelledKeys(plan, store, done);
  }

  lemma RelabelledKeys(plan: Plan, store: Store, legacy: set<string>)
    requires legacy == set k | k in store && Legacy(plan, k)
    ensures (store.Keys - legacy) + Targets(plan, legacy) == set k | k in store :: Target(plan, k)
  {
  }

  /** One legacy key, one scan that yields it. */
  lemma OneKeyRun(plan: Plan, key: string, value: Blob)
    requires Legacy(plan, key) && !Legacy(plan, Target(plan, key))
    ensures var (store, scan) := (map[key := value], [Scanned(key, false)]);
      && Covers(plan, store, scan) && CollisionFree(plan, store)
      && Run(plan, store, scan, false)
        == (map[Target(plan, key) := value], Stats(1, 1, 0, 0, [(key, Target(plan, key))]))
  {
    var store, scan := map[key := value], [Scanned(key, false)];
    assert scan[0].key == key && !scan[0].fails && Gets(scan, key);
    assert scan[..0] == [] && Run(plan, store, [], false) == (store, NO_STATS);
    assert Renamed(store, key, Target(plan, key)) == map[Target(plan, key) := value];
    assert NO_STATS.renames + [(key, Target(plan, key))] == [(key, Target(plan, key))];
  }

  // ---------------------------------------------------------------- the dry run

  /** A dry run touches nothing, and over the same scan lists the very renames an error-free live run performs. */
  lemma {:induction false} DryRunPredictsSameScan(plan: Plan, store: Store, scan: seq<Scanned>)
    ensures Run(plan, store, scan, true).0 == store
    ensures Run(plan, store, scan, true).1.errors == 0
    ensures Run(plan, store, scan, false).1.errors == 0 ==>
      Run(plan, store, scan, true).1 == Run(plan, store, scan, false).1
  {
    if scan != [] { DryRunPredictsSameScan(plan, store, scan[..|scan| - 1]); }
  }

  lemma {:induction false} DryRunListsScannedLegacyKeys(plan: Plan, store: Store, scan: seq<Scanned>, key: string)
    ensures key in RenamedKeys(Run(plan, store, scan, true).1.renames) <==> Legacy(plan, key) && Yields(scan, key)
  {
    if scan != [] {
      var rest, item := scan[..|scan| - 1], scan[|scan| - 1];
      var before := Run(plan, store, rest, true).1.renames;
      DryRunListsScannedLegacyKeys(plan, store, rest, key);
      YieldsLonger(scan, key);
      assert (before + [(item.key, Target(plan, item.key))])[..|before|] == before;
    }
  }

  /** Two scans that list the store, in whatever order and repetition, the live one getting to each key over a working
      connection: the dry run announces exactly the keys the live run renames. */
  lemma {:induction false} DryRunPredictsAnyScan(plan: Plan, store: Store, dry: seq<Scanned>, live: seq<Scanned>)
    requires Settles(plan) && Lists(plan, store, dry) && Covers(plan, store, live)
    requires forall i :: 0 <= i < |dry| ==> dry[i].key in store
    ensures RenamedKeys(Run(plan, store, dry, true).1.renames) == RenamedKeys(Run(plan, store, live, false).1.renames)
    ensures Run(plan, store, dry, true).1.migrated >= Run(plan, store, live, false).1.migrated
  {
    var announced, renamed := Run(plan, store, dry, true).1, Run(plan, store, live, false).1;
    CoveringRunCompletes(plan, store, live, []);
    forall k ensures k in RenamedKeys(announced.renames) <==> k in RenamedKeys(renamed.renames) {
      DryRunListsScannedLegacyKeys(plan, store, dry, k);
    }
    LiveRun(plan, store, live);
    StatsAddUp(plan, store, live, false);
    StatsAddUp(plan, store, dry, true);
    RenamedKeysSize(announced.renames);
  }

  // ---------------------------------------------------------------- errors

  /** The first legacy item of its key, of a key that is there, over a working connection. */
  ghost predicate Clean(plan: Plan, store: Store, scan: seq<Scanned>, i: nat)
    requires i < |scan|
  {
    Legacy(plan, scan[i].key) ==> !scan[i].fails && scan[i].key in store && !Yields(scan[..i], scan[i].key)
  }

  ghost predicate AllClean(plan: Plan, store: Store, scan: seq<Scanned>) {
    forall i :: 0 <= i < |scan| ==> Clean(plan, store, scan, i)
  }

  /** A live run counts no error exactly when the scan yields no legacy key twice, none that is not there, and none
      while the connection is broken. So a repeated key is an error although nothing is lost by it. */
  lemma {:induction false} NoErrorsIff(plan: Plan, store: Store, scan: seq<Scanned>)
    requires Settles(plan)
    ensures Run(plan, store, scan, false).1.errors == 0 <==> AllClean(plan, store, scan)
  {
    if scan != [] {
      var n := |scan| - 1;
      var (before, stats) := Run(plan, store, scan[..n], false);
      NoErrorsIff(plan, store, scan[..n]);
      AllCleanGrows(plan, store, scan);
      if stats.errors == 0 && Legacy(plan, scan[n].key) {
        StillThereIff(plan, store, scan[..n], scan[n].key);
      }
    }
  }

  lemma AllCleanGrows(plan: Plan, store: Store, scan: seq<Scanned>)
    requires scan != []
    ensures AllClean(plan, store, scan) <==>
      AllClean(plan, store, scan[..|scan| - 1]) && Clean(plan, store, scan, |scan| - 1)
  {
    var n := |scan| - 1;
    forall i | 0 <= i < n ensures Clean(plan, store, scan, i) <==> Clean(plan, store, scan[..n], i) {
      assert scan[..n][..i] == scan[..i];
    }
  }

  /** While no error was counted, a legacy key is still there exactly when it was there and has not been yielded. */
  lemma StillThereIff(plan: Plan, store: Store, scan: seq<Scanned>, key: string)
    requires Settles(plan) && Legacy(plan, key) && Run(plan, store, scan, false).1.errors == 0
    ensures key in Run(plan, store, scan, false).0 <==> key in store && !Yields(scan, key)
  {
    LiveRun(plan, store, scan);
    DryRunPredictsSameScan(plan, store, scan);
    DryRunListsScannedLegacyKeys(plan, store, scan, key);
    TargetsAreModern(plan, RenamedKeys(Run(plan, store, scan, false).1.renames), key);
  }

  lemma {:induction false} RenamedKeysSize(renames: seq<(string, string)>)
    ensures |RenamedKeys(renames)| <= |renames|
  {
    if renames != [] { RenamedKeysSize(renames[..|renames| - 1]); }
  }

  // ---------------------------------------------------------------- the client and the loop

  class RedisClient {
    var store: Store

    constructor (initial: Store)
      ensures store == initial
    {
      store := initial;
    }

    /** Overwrites the new name; fails, changing nothing, when the old name is missing or the connection breaks. */
    method Rename(key: string, name: string, fails: bool) returns (ok: bool)
      modifies this
      ensures ok <==> !fails && key in old(store)
      ensures store == if ok then Renamed(old(store), key, name) else old(store)
    {
      ok := !fails && key in store;
      if ok {
        store := Renamed(store, key, name);
      }
    }
  }

  /** Applies the plan to each key the scan yields. */
  method MigrateKeys(client: RedisClient, plan: Plan, scan: seq<Scanned>, dryRun: bool) returns (stats: Stats)
    modifies client
    ensures (client.store, stats) == Run(plan, old(client.store), scan, dryRun)
  {
    stats := NO_STATS;
    for i := 0 to |scan|
      invariant (client.store, stats) == Run(plan, old(client.store), scan[..i], dryRun)
    {
      RunStep(plan, old(client.store), scan, i, dryRun);
      var key := scan[i].key;
      var newKey := plan(key);
      stats := stats.(scanned := stats.scanned + 1);
      if newKey == None {
        stats := stats.(skipped := stats.skipped + 1);
      } else if dryRun {
        stats := stats.(migrated := stats.migrated + 1, renames := stats.renames + [(key, newKey.value)]);
      } else {
        var ok := client.Rename(key, newKey.value, scan[i].fails);
        if ok {
          stats := stats.(migrated := stats.migrated + 1, renames := stats.renames + [(key, newKey.value)]);
        } else {
          stats := stats.(errors := stats.errors + 1);
        }
      }
    }
    assert scan[..|scan|] == scan;
  }
}
