/** A strict total order on text, and ascending lists. */
module TextOrder {

  predicate Before(a: string, b: string) {
    if a == "" then b != ""
    else b != "" && (a[0] < b[0] || (a[0] == b[0] && Before(a[1..], b[1..])))
  }

  lemma {:induction false} BeforeIsStrict(a: string)
    ensures !Before(a, a)
  {
    if a != "" { BeforeIsStrict(a[1..]); }
  }

  lemma {:induction false} BeforeIsTransitive(a: string, b: string, c: string)
    requires Before(a, b) && Before(b, c)
    ensures Before(a, c)
  {
    if a != "" && a[0] == b[0] == c[0] { BeforeIsTransitive(a[1..], b[1..], c[1..]); }
  }

  lemma {:induction false} BeforeIsTotal(a: string, b: string)
    requires a != b
    ensures Before(a, b) || Before(b, a)
  {
    if a != "" && b != "" && a[0] == b[0] {
      assert a == [a[0]] + a[1..] && b == [b[0]] + b[1..];
      BeforeIsTotal(a[1..], b[1..]);
    }
  }

  /** The order of the first difference; a proper prefix comes first. */
  lemma {:induction false} BeforeIff(a: string, b: string)
    ensures Before(a, b) <==> exists k :: 0 <= k <= |a| && Differs(a, b, k)
  {
    if a == "" {
      if b != "" { assert Differs(a, b, 0); }
    } else if b != "" {
      BeforeIff(a[1..], b[1..]);
      if a[0] == b[0] {
        if k :| 0 <= k <= |a| && Differs(a, b, k) {
          assert k > 0 && a[..k][1..] == a[1..][..k - 1] && b[..k][1..] == b[1..][..k - 1];
          assert Differs(a[1..], b[1..], k - 1);
        }
        if k :| 0 <= k <= |a[1..]| && Differs(a[1..], b[1..], k) {
          assert a[..k + 1] == [a[0]] + a[1..][..k] && b[..k + 1] == [b[0]] + b[1..][..k];
          assert Differs(a, b, k + 1);
        }
      } else {
        assert forall k :: 0 < k <= |a| && k < |b| ==> a[..k][0] == a[0] && b[..k][0] == b[0];
        if a[0] < b[0] { assert Differs(a, b, 0); }
      }
    }
  }

  /** The texts agree up to position k, where the first ends or holds the smaller character. */
  ghost predicate Differs(a: string, b: string, k: nat)
    requires k <= |a|
  {
    k < |b| && a[..k] == b[..k] && (k == |a| || a[k] < b[k])
  }

  ghost predicate Ascending(s: seq<string>) {
    forall i, j :: 0 <= i < j < |s| ==> Before(s[i], s[j])
  }

  /** Inserts a name at its place; a name already there is not repeated. */
  function Placed(s: seq<string>, x: string): (r: seq<string>)
    ensures forall y :: y in r <==> y in s || y == x
  {
    if s == [] then [x]
    else if s[0] == x then s
    else if Before(x, s[0]) then [x] + s
    else [s[0]] + Placed(s[1..], x)
  }

  lemma {:induction false} PlacedKeepsAscending(s: seq<string>, x: string)
    requires Ascending(s)
    ensures Ascending(Placed(s, x))
  {
    if s != [] && s[0] != x {
      if Before(x, s[0]) {
        forall j | 0 < j < |s| ensures Before(x, s[j]) { BeforeIsTransitive(x, s[0], s[j]); }
      } else {
        PlacedKeepsAscending(s[1..], x);
        BeforeIsTotal(x, s[0]);
        var r := Placed(s[1..], x);
        forall j | 0 <= j < |r| ensures Before(s[0], r[j]) {
          assert r[j] in r;
        }
      }
    }
  }

  lemma RestIsOthers(s: seq<string>, x: string)
    requires s != [] && Ascending(s)
    ensures x in s[1..] <==> x in s && x != s[0]
  {
    BeforeIsStrict(s[0]);
    if x in s[1..] {
      var k :| 0 <= k < |s| - 1 && s[1..][k] == x;
      assert Before(s[0], s[k + 1]);
    }
  }

  /** An ascending list is determined by its elements. */
  lemma {:induction false} AscendingIsUnique(s: seq<string>, t: seq<string>)
    requires Ascending(s) && Ascending(t) && forall x :: x in s <==> x in t
    ensures s == t
  {
    assert s != [] <==> exists x :: x in s by { assert s != [] ==> s[0] in s; }
    assert t != [] <==> exists x :: x in t by { assert t != [] ==> t[0] in t; }
    if s != [] {
      FirstIsLeast(s, t);
      forall x ensures x in s[1..] <==> x in t[1..] {
        RestIsOthers(s, x);
        RestIsOthers(t, x);
      }
      AscendingIsUnique(s[1..], t[1..]);
    }
  }

  lemma FirstIsLeast(s: seq<string>, t: seq<string>)
    requires s != [] && t != [] && Ascending(s) && Ascending(t) && forall x :: x in s <==> x in t
    ensures s[0] == t[0]
  {
    assert s[0] in s && t[0] in t;
    var i :| 0 <= i < |t| && t[i] == s[0];
    var j :| 0 <= j < |s| && s[j] == t[0];
    if i > 0 && j > 0 {
      BeforeIsTransitive(s[0], s[j], t[i]);
      BeforeIsStrict(s[0]);
    }
  }
}

/** Deciding a dependency audit report against dated assessments, and the installed inventory it must cover. */
module DependencyAudit {
  import opened Sequences
  import opened TextOrder

  datatype Finding = Finding(id: string, aliases: seq<string>, fixVersions: seq<string>)

  datatype Dependency = Dependency(name: string, version: string, skipReason: string, vulns: seq<Finding>)

  /** An assessment; dates are day numbers and `source` the hashes of the files reviewed. */
  datatype Assessment = Assessment(
    package: string, version: string, vulnerability: string, status: string, reviewBy: int, source: map<string, string>)

  /** What the decision looks at: the day and the present source evidence of a package. */
  datatype Context = Context(today: int, evidence: string -> map<string, string>)

  predicate Applies(a: Assessment, d: Dependency, f: Finding, ctx: Context) {
    && a.package == d.name
    && a.version == d.version
    && (a.vulnerability == f.id || a.vulnerability in f.aliases)
    && a.status == "not_affected"
    && ctx.today <= a.reviewBy
    && f.fixVersions == []
    && a.source == ctx.evidence(a.package)
  }

  predicate Covered(assessments: seq<Assessment>, d: Dependency, f: Finding, ctx: Context) {
    exists a :: a in assessments && Applies(a, d, f, ctx)
  }

  /** What the report asks to be decided, in report order: one item per skipped dependency, one per finding
      otherwise. */
  datatype Item = Nothing | Skipped(name: string, reason: string) | Found(dependency: Dependency, finding: Finding)

  function FindingItems(d: Dependency, fs: seq<Finding>): seq<Item> {
    seq(|fs|, i requires 0 <= i < |fs| => Found(d, fs[i]))
  }

  function ItemsOf(d: Dependency): seq<Item> {
    if d.skipReason != "" then [Skipped(d.name, d.skipReason)] else FindingItems(d, d.vulns)
  }

  function Items(ds: seq<Dependency>): seq<Item> {
    if ds == [] then [] else Items(ds[..|ds| - 1]) + ItemsOf(ds[|ds| - 1])
  }

  predicate Reviewed(assessments: seq<Assessment>, ctx: Context, item: Item) {
    item.Found? && Covered(assessments, item.dependency, item.finding, ctx)
  }

  function ReviewedBy(assessments: seq<Assessment>, ctx: Context): Item -> bool {
    item => Reviewed(assessments, ctx, item)
  }

  function BlockedBy(assessments: seq<Assessment>, ctx: Context): Item -> bool {
    item => !Reviewed(assessments, ctx, item)
  }

  lemma ItemsStep(ds: seq<Dependency>, i: nat, keep: Item -> bool)
    requires i < |ds|
    ensures Filter(Items(ds[..i + 1]), keep) == Filter(Items(ds[..i]), keep) + Filter(ItemsOf(ds[i]), keep)
  {
    assert ds[..i + 1][..i] == ds[..i];
    FilterAppend(Items(ds[..i]), ItemsOf(ds[i]), keep);
  }

  lemma FindingsStep(d: Dependency, i: nat, keep: Item -> bool)
    requires i < |d.vulns|
    ensures Filter(FindingItems(d, d.vulns[..i + 1]), keep)
         == Filter(FindingItems(d, d.vulns[..i]), keep)
            + (if keep(Found(d, d.vulns[i])) then [Found(d, d.vulns[i])] else [])
  {
    var now := FindingItems(d, d.vulns[..i + 1]);
    assert now[..i] == FindingItems(d, d.vulns[..i]) && now[i] == Found(d, d.vulns[i]);
  }

  /** The two verdict lists; a report without dependencies blocks by itself. */
  method Evaluate(dependencies: Option<seq<Dependency>>, assessments: seq<Assessment>, ctx: Context)
    returns (blocked: seq<Item>, reviewed: seq<Item>)
    ensures dependencies.None? || dependencies.value == [] ==> blocked == [Nothing] && reviewed == []
    ensures dependencies.Some? && dependencies.value != [] ==>
      blocked == Filter(Items(dependencies.value), BlockedBy(assessments, ctx))
    ensures dependencies.Some? && dependencies.value != [] ==>
      reviewed == Filter(Items(dependencies.value), ReviewedBy(assessments, ctx))
  {
    if dependencies.None? || dependencies.value == [] {
      return [Nothing], [];
    }
    blocked, reviewed := EvaluateAll(dependencies.value, assessments, ctx);
  }

  method EvaluateAll(ds: seq<Dependency>, assessments: seq<Assessment>, ctx: Context)
    returns (blocked: seq<Item>, reviewed: seq<Item>)
    ensures blocked == Filter(Items(ds), BlockedBy(assessments, ctx))
    ensures reviewed == Filter(Items(ds), ReviewedBy(assessments, ctx))
  {
    blocked, reviewed := [], [];
    ghost var blocks, reviews := BlockedBy(assessments, ctx), ReviewedBy(assessments, ctx);
    for i := 0 to |ds|
      invariant blocked == Filter(Items(ds[..i]), blocks)
      invariant reviewed == Filter(Items(ds[..i]), reviews)
    {
      ItemsStep(ds, i, blocks);
      ItemsStep(ds, i, reviews);
      var b, r := EvaluateDependency(ds[i], assessments, ctx);
      blocked, reviewed := blocked + b, reviewed + r;
    }
    assert ds[..|ds|] == ds;
  }

  method EvaluateDependency(d: Dependency, assessments: seq<Assessment>, ctx: Context)
    returns (blocked: seq<Item>, reviewed: seq<Item>)
    ensures blocked == Filter(ItemsOf(d), BlockedBy(assessments, ctx))
    ensures reviewed == Filter(ItemsOf(d), ReviewedBy(assessments, ctx))
  {
    blocked, reviewed := [], [];
    if d.skipReason != "" {
      assert ItemsOf(d)[..0] == [];
      blocked := [Skipped(d.name, d.skipReason)];
      return;
    }
    for i := 0 to |d.vulns|
      invariant blocked == Filter(FindingItems(d, d.vulns[..i]), BlockedBy(assessments, ctx))
      invariant reviewed == Filter(FindingItems(d, d.vulns[..i]), ReviewedBy(assessments, ctx))
    {
      FindingsStep(d, i, BlockedBy(assessments, ctx));
      FindingsStep(d, i, ReviewedBy(assessments, ctx));
      var applicable := FindAssessment(d, d.vulns[i], assessments, ctx);
      if applicable {
        reviewed := reviewed + [Found(d, d.vulns[i])];
      } else {
        blocked := blocked + [Found(d, d.vulns[i])];
      }
    }
    assert d.vulns[..|d.vulns|] == d.vulns;
  }

  method FindAssessment(d: Dependency, f: Finding, assessments: seq<Assessment>, ctx: Context)
    returns (applicable: bool)
    ensures applicable <==> Covered(assessments, d, f, ctx)
  {
    for i := 0 to |assessments|
      invariant !Covered(assessments[..i], d, f, ctx)
    {
      assert assessments[..i + 1] == assessments[..i] + [assessments[i]];
      if Applies(assessments[i], d, f, ctx) {
        return true;
      }
    }
    assert assessments[..|assessments|] == assessments;
    return false;
  }

  /** Every item lands in exactly one list, as often as the report has it. */
  lemma VerdictsPartition(items: seq<Item>, assessments: seq<Assessment>, ctx: Context)
    ensures multiset(Filter(items, BlockedBy(assessments, ctx)))
      + multiset(Filter(items, ReviewedBy(assessments, ctx))) == multiset(items)
    ensures forall x :: x in Filter(items, BlockedBy(assessments, ctx)) ==>
      x !in Filter(items, ReviewedBy(assessments, ctx))
  {
    FilterSplits(items, BlockedBy(assessments, ctx), ReviewedBy(assessments, ctx));
  }

  /** A later day only moves findings to the blocked list, more assessments only move them to the reviewed one; a
      skipped dependency and a finding with a fix are blocked on any day under any assessments. */
  lemma VerdictsMoveOneWay(items: seq<Item>, fewer: seq<Assessment>, more: seq<Assessment>, early: Context,
      late: Context)
    requires early.today <= late.today && early.evidence == late.evidence
    requires forall a :: a in fewer ==> a in more
    ensures forall x :: x in Filter(items, BlockedBy(fewer, early)) ==> x in Filter(items, BlockedBy(fewer, late))
    ensures forall x :: x in Filter(items, ReviewedBy(fewer, early)) ==> x in Filter(items, ReviewedBy(more, early))
    ensures forall x :: x in items && (!x.Found? || x.finding.fixVersions != []) ==>
      x in Filter(items, BlockedBy(more, late))
  {
    forall x | Reviewed(fewer, late, x) ensures Reviewed(fewer, early, x) {
      var a :| a in fewer && Applies(a, x.dependency, x.finding, late);
      assert Applies(a, x.dependency, x.finding, early);
    }
    forall x | Reviewed(fewer, early, x) ensures Reviewed(more, early, x) {
      var a :| a in fewer && Applies(a, x.dependency, x.finding, early);
      assert a in more;
    }
  }

  /** What is to be decided: the skipped dependencies, and the findings of the others. */
  lemma {:induction false} ItemsAre(ds: seq<Dependency>, d: Dependency, f: Finding)
    ensures Found(d, f) in Items(ds) <==> d in ds && d.skipReason == "" && f in d.vulns
    ensures Skipped(d.name, d.skipReason) in Items(ds) <==>
      d.skipReason != "" && exists e :: e in ds && e.name == d.name && e.skipReason == d.skipReason
    ensures Nothing !in Items(ds)
  {
    if ds != [] {
      var rest, last := ds[..|ds| - 1], ds[|ds| - 1];
      assert ds == rest + [last];
      ItemsAre(rest, d, f);
      FindingItemsAre(last, d, f);
    }
  }

  lemma FindingItemsAre(last: Dependency, d: Dependency, f: Finding)
    ensures Found(d, f) in FindingItems(last, last.vulns) <==> d == last && f in d.vulns
    ensures forall x :: x in FindingItems(last, last.vulns) ==> x.Found?
  {
    var items := FindingItems(last, last.vulns);
    if d == last && f in d.vulns {
      var i :| 0 <= i < |d.vulns| && d.vulns[i] == f;
      assert items[i] == Found(d, f);
    }
  }

  /** A reported finding is let through exactly when it has no fix and some assessment names the package at its version
      and the finding or one of its aliases, says "not_affected", is not past its date and rests on the evidence of
      today; everything else in the report blocks. */
  lemma ReviewedIff(ds: seq<Dependency>, assessments: seq<Assessment>, ctx: Context, d: Dependency, f: Finding)
    ensures Found(d, f) in Filter(Items(ds), ReviewedBy(assessments, ctx)) <==>
      && d in ds && d.skipReason == "" && f in d.vulns && f.fixVersions == []
      && exists a :: a in assessments && a.package == d.name && a.version == d.version
           && a.vulnerability in [f.id] + f.aliases && a.status == "not_affected" && a.reviewBy >= ctx.today
           && a.source == ctx.evidence(d.name)
    ensures Found(d, f) in Filter(Items(ds), BlockedBy(assessments, ctx)) <==>
      && d in ds && d.skipReason == "" && f in d.vulns
      && Found(d, f) !in Filter(Items(ds), ReviewedBy(assessments, ctx))
    ensures forall x :: x in Items(ds) && !x.Found? ==> x in Filter(Items(ds), BlockedBy(assessments, ctx))
  {
    ItemsAre(ds, d, f);
    assert forall v :: v in [f.id] + f.aliases <==> v == f.id || v in f.aliases;
    assert Reviewed(assessments, ctx, Found(d, f)) <==> exists a :: a in assessments && Applies(a, d, f, ctx);
  }

  // ---------------------------------------------------------------- the installed inventory

  datatype Pin = Pin(name: string, installed: string, audited: string)

  /** Canonical names, and the public and the local part of a version, all of them given. */
  datatype Naming = Naming(canonical: string -> string, public: string -> string, local: string -> string)

  /** Only a CPU build of Torch is audited under its public version. */
  function PinOf(naming: Naming, d: (string, string)): Pin {
    var name := naming.canonical(d.0);
    Pin(name, d.1, if name == "torch" && naming.local(d.1) == "cpu" then naming.public(d.1) else d.1)
  }

  /** Two distributions of one name with different versions. */
  ghost predicate Conflict(naming: Naming, ds: seq<(string, string)>) {
    exists a, b :: a in ds && b in ds && naming.canonical(a.0) == naming.canonical(b.0) && a.1 != b.1
  }

  ghost predicate PinsExactly(naming: Naming, ds: seq<(string, string)>, pins: map<string, Pin>) {
    && (forall d :: d in ds ==> PinOf(naming, d).name in pins)
    && (forall n :: n in pins ==> pins[n].name == n && exists d :: d in ds && PinOf(naming, d) == pins[n])
  }

  ghost predicate IsInventory(naming: Naming, ds: seq<(string, string)>, inventory: seq<Pin>) {
    && (forall i, j :: 0 <= i < j < |inventory| ==> Before(inventory[i].name, inventory[j].name))
    && (forall p :: p in inventory <==> exists d :: d in ds && Pins(naming, d, p))
  }

  /** The pin names the distribution and its version; it audits that version, of "torch" builds for "cpu" the public
      part of it. */
  ghost predicate Pins(naming: Naming, d: (string, string), p: Pin) {
    && p.name == naming.canonical(d.0) && p.installed == d.1
    && (p.name == "torch" && naming.local(p.installed) == "cpu" ==> p.audited == naming.public(p.installed))
    && (p.name != "torch" || naming.local(p.installed) != "cpu" ==> p.audited == p.installed)
  }

  method InstalledInventory(ds: seq<(string, string)>, naming: Naming) returns (inventory: Option<seq<Pin>>)
    ensures inventory.None? <==> Conflict(naming, ds)
    ensures inventory.Some? ==> IsInventory(naming, ds, inventory.value)
  {
    var pins: map<string, Pin> := map[];
    var names: seq<string> := [];
    for i := 0 to |ds|
      invariant PinsExactly(naming, ds[..i], pins) && !Conflict(naming, ds[..i])
      invariant Ascending(names) && Lists(names, pins)
    {
      assert ds[..i + 1] == ds[..i] + [ds[i]];
      var item := PinOf(naming, ds[i]);
      if item.name in pins && pins[item.name] != item {
        PinConflicts(naming, ds, i, pins);
        return None;
      }
      NoNewConflict(naming, ds[..i], pins, ds[i]);
      PinsExactlyStep(naming, ds[..i], pins, ds[i]);
      PlacedKeepsAscending(names, item.name);
      names := Placed(names, item.name);
      pins := pins[item.name := item];
    }
    assert ds[..|ds|] == ds;
    PinsAreInventory(naming, ds, pins, names);
    ListedIsInventory(naming, ds, Listing(names, pins), names);
    return Some(Listing(names, pins));
  }

  ghost predicate Lists(names: seq<string>, pins: map<string, Pin>) {
    forall n :: n in names <==> n in pins
  }

  function Listing(names: seq<string>, pins: map<string, Pin>): seq<Pin>
    requires forall n :: n in names ==> n in pins
  {
    seq(|names|, i requires 0 <= i < |names| => (assert names[i] in names; pins[names[i]]))
  }

  lemma PinConflicts(naming: Naming, ds: seq<(string, string)>, i: nat, pins: map<string, Pin>)
    requires i < |ds| && PinsExactly(naming, ds[..i], pins)
    requires PinOf(naming, ds[i]).name in pins && pins[PinOf(naming, ds[i]).name] != PinOf(naming, ds[i])
    ensures Conflict(naming, ds)
  {
  }

  lemma PinsExactlyStep(naming: Naming, before: seq<(string, string)>, pins: map<string, Pin>, d: (string, string))
    requires PinsExactly(naming, before, pins)
    requires PinOf(naming, d).name in pins ==> pins[PinOf(naming, d).name] == PinOf(naming, d)
    ensures PinsExactly(naming, before + [d], pins[PinOf(naming, d).name := PinOf(naming, d)])
  {
  }

  lemma PinsAreInventory(naming: Naming, ds: seq<(string, string)>, pins: map<string, Pin>, names: seq<string>)
    requires PinsExactly(naming, ds, pins) && !Conflict(naming, ds) && Ascending(names) && Lists(names, pins)
    ensures var listed := Listing(names, pins);
      && (forall i :: 0 <= i < |listed| ==> listed[i].name == names[i])
      && (forall p :: p in listed <==> exists d :: d in ds && PinOf(naming, d) == p)
  {
    var listed := Listing(names, pins);
    forall i | 0 <= i < |names|
      ensures listed[i].name == names[i] && exists d :: d in ds && PinOf(naming, d) == listed[i]
    {
      assert names[i] in names;
    }
    forall d | d in ds ensures PinOf(naming, d) in listed {
      var p := PinOf(naming, d);
      var e :| e in ds && PinOf(naming, e) == pins[p.name];
      assert p.name in names;
      var i :| 0 <= i < |names| && names[i] == p.name;
      assert listed[i] == pins[p.name] == p;
    }
  }

  lemma ListedIsInventory(naming: Naming, ds: seq<(string, string)>, listed: seq<Pin>, names: seq<string>)
    requires Ascending(names) && |listed| == |names|
    requires forall i :: 0 <= i < |listed| ==> listed[i].name == names[i]
    requires forall p :: p in listed <==> exists d :: d in ds && PinOf(naming, d) == p
    ensures IsInventory(naming, ds, listed)
  {
    forall d, p ensures Pins(naming, d, p) <==> PinOf(naming, d) == p {
      PinIsPinOf(naming, d, p);
    }
  }

  lemma PinIsPinOf(naming: Naming, d: (string, string), p: Pin)
    ensures Pins(naming, d, p) <==> PinOf(naming, d) == p
  {
  }

  lemma NoNewConflict(naming: Naming, before: seq<(string, string)>, pins: map<string, Pin>, d: (string, string))
    requires PinsExactly(naming, before, pins) && !Conflict(naming, before)
    requires PinOf(naming, d).name in pins ==> pins[PinOf(naming, d).name] == PinOf(naming, d)
    ensures !Conflict(naming, before + [d])
  {
  }

  /** The inventory does not depend on the order or repetition in which distributions are listed. */
  lemma InventoryIgnoresOrder(naming: Naming, ds: seq<(string, string)>, es: seq<(string, string)>, first: seq<Pin>,
      second: seq<Pin>)
    requires forall d :: d in ds <==> d in es
    requires IsInventory(naming, ds, first) && IsInventory(naming, es, second)
    ensures first == second
    ensures Conflict(naming, ds) <==> Conflict(naming, es)
  {
    var a := seq(|first|, i requires 0 <= i < |first| => first[i].name);
    var b := seq(|second|, i requires 0 <= i < |second| => second[i].name);
    assert forall p :: p in first <==> p in second;
    forall x ensures x in a <==> x in b {
      if x in a { var i :| 0 <= i < |a| && a[i] == x; assert first[i] in second; NameListed(second, first[i]); }
      if x in b { var i :| 0 <= i < |b| && b[i] == x; assert second[i] in first; NameListed(first, second[i]); }
    }
    AscendingIsUnique(a, b);
    forall i | 0 <= i < |first| ensures first[i] == second[i] {
      assert first[i] in second;
      var j :| 0 <= j < |second| && second[j] == first[i];
      assert b[j] == a[i] == b[i];
      BeforeIsStrict(b[i]);
    }
  }

  lemma NameListed(pins: seq<Pin>, p: Pin)
    requires p in pins
    ensures p.name in seq(|pins|, i requires 0 <= i < |pins| => pins[i].name)
  {
    var i :| 0 <= i < |pins| && pins[i] == p;
    var names := seq(|pins|, i requires 0 <= i < |pins| => pins[i].name);
    assert names[i] == p.name;
  }
}
