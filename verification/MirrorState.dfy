/** The state object: every public operation, and what it publishes.

    `Valid` says that the published snapshot is a full rebuild of the mutable state. The
    operations keep it although most of them publish through an incremental publisher:
    each publisher demands exactly the difference between the old and the new state that
    makes its shortcut right. Validation comes first in every operation, and a refused
    operation changes nothing. */
module MirrorState {
  import opened Availability
  import opened Options
  import opened Paging
  import opened Registry
  import opened RegistryObjects
  import opened SnapshotBuild
  import opened Snapshots
  import Lex

  const MAX_CODE_BYTES: nat := 128
  const MAX_KEY_BYTES: nat := 256
  const MAX_URL_BYTES: nat := 4096
  const MAX_VERSION_BYTES: nat := 256
  const MAX_SCAN_FUTURE_SKEW: int := 300

  // ---- Validation ----

  predicate Blank(s: string) {
    forall i :: 0 <= i < |s| ==> s[i] in " \t\n\r"
  }

  predicate ValidText(s: string, max: nat) {
    !Blank(s) && |s| <= max
  }

  predicate ValidOptional(s: string, max: nat) {
    s == "" || ValidText(s, max)
  }

  predicate ValidId(id: Id) {
    ValidText(id.code, MAX_CODE_BYTES) && ValidOptional(id.key, MAX_KEY_BYTES) && ValidOptional(id.version, MAX_VERSION_BYTES)
  }

  predicate ValidDiagnostic(d: Diagnostic) {
    ValidId(d.id) && d.impact != Ok && d.reason != 0
  }

  predicate KnownKey(keys: map<string, Key>, key: string) {
    ValidText(key, MAX_KEY_BYTES) && key in keys
  }

  /** `validateDiagnosticScopeLocked`. */
  predicate ValidScope(keys: map<string, Key>, id: Id) {
    match id.scope
    case GlobalScope => id.key == "" && id.version == ""
    case KeyScope => id.version == "" && KnownKey(keys, id.key)
    case VersionScope => KnownKey(keys, id.key) && ValidText(id.version, MAX_VERSION_BYTES)
  }

  /** What passes validation has the scope that its key and version call for. */
  lemma ValidScopeIsWellScoped(keys: map<string, Key>, id: Id)
    requires ValidScope(keys, id)
    ensures WellScoped(id)
  {
  }

  ghost predicate AllScoped(g: Reg) {
    forall id :: id in g.records ==> WellScoped(id)
  }

  lemma UpsertKeepsScopes(g: Reg, max: nat, d: Diagnostic, now: int)
    requires AllScoped(g) && WellScoped(d.id)
    ensures AllScoped(Upserted(g, max, d, now))
  {
  }

  const MAX_DIAGNOSTICS: nat := 4096
  const MAX_KEYS: nat := 4096

  function NewKey(sourceURL: string): Key {
    Key(Shown(Unclassified, sourceURL, "", "", Unknown, 0, 0, false, "", 0, 0), false)
  }

  /** A key at the start: its source is known, and nothing else. */
  predicate JustStarted(k: Key, sourceURL: string) {
    var b := k.shown;
    && b.sourceURL == sourceURL && b.kind == Unclassified && b.reach == Unknown && b.cycles == 0
    && b.lastScan == 0 && !b.present && b.versionCount == 0 && b.lastPublish == 0 && !k.reclassAllowed
    && b.brotherURL == "" && b.remoteKey == "" && b.latestVersion == ""
  }

  predicate ValidConfig(mirrors: map<string, string>, permanentAfter: nat) {
    && 1 <= |mirrors| <= MAX_KEYS && 1 <= permanentAfter < 0x1_0000_0000
    && forall k :: k in mirrors ==> ValidText(k, MAX_KEY_BYTES) && ValidText(mirrors[k], MAX_URL_BYTES)
  }

  /** What clearing does to the records: those chosen are no longer active, and that is all. */
  ghost predicate Cleared(g: Reg, g': Reg, chosen: set<Id>) {
    && g'.records.Keys == g.records.Keys && g'.dropped == g.dropped
    && forall id :: id in g.records ==> g'.records[id] == if id in chosen then g.records[id].(active := false) else g.records[id]
  }

  ghost predicate ClearedOf(g: Reg, g': Reg, key: string, version: string, versionOnly: bool) {
    Cleared(g, g', set id | id in g.records && id.key == key && (versionOnly ==> id.version == version))
  }

  lemma TurnClears(g: Reg, cleared: seq<Id>, ids: set<Id>)
    requires InTurn(g, cleared, ids)
    ensures Cleared(g, DeactivatedAll(g, cleared), ids)
  {
    DeactivateAllEffect(g, cleared);
  }

  lemma TurnClearsKey(g: Reg, cleared: seq<Id>, key: string, version: string, versionOnly: bool)
    requires key != "" && InTurn(g, cleared, OfKey(g, key, version, versionOnly))
    ensures ClearedOf(g, DeactivatedAll(g, cleared), key, version, versionOnly)
  {
    TurnClears(g, cleared, OfKey(g, key, version, versionOnly));
    assert OfKey(g, key, version, versionOnly) == set id | id in g.records && id.key == key && (versionOnly ==> id.version == version);
  }

  lemma OneIsCleared(g: Reg, id: Id)
    ensures Cleared(g, if id in g.records && g.records[id].active then Deactivated(g, id) else g, {id})
  {
  }

  lemma ClearedKeeps(g: Reg, max: nat, cleared: seq<Id>, ids: set<Id>)
    requires Sound(g, max) && AllScoped(g) && InTurn(g, cleared, ids)
    ensures Sound(DeactivatedAll(g, cleared), max) && AllScoped(DeactivatedAll(g, cleared))
  {
    DeactivateAllKeeps(g, max, cleared);
  }

  // ---- Batches ----

  predicate ValidScan(scan: Scan, now: int) {
    scan.at != 0 && scan.at <= now + MAX_SCAN_FUTURE_SKEW
  }

  predicate DistinctKeys(updates: seq<(string, Scan)>) {
    forall i, j :: 0 <= i < j < |updates| ==> updates[i].0 != updates[j].0
  }

  predicate ValidBatch(keys: map<string, Key>, updates: seq<(string, Scan)>, now: int) {
    && |updates| <= |keys|
    && (forall i :: 0 <= i < |updates| ==> KnownKey(keys, updates[i].0) && ValidScan(updates[i].1, now))
    && DistinctKeys(updates)
  }

  function AppliedAll(keys: map<string, Key>, updates: seq<(string, Scan)>, permanentAt: nat): (r: map<string, Key>)
    requires forall i :: 0 <= i < |updates| ==> updates[i].0 in keys
    ensures r.Keys == keys.Keys
  {
    if updates == [] then keys
    else
      var init, last := AppliedAll(keys, updates[..|updates| - 1], permanentAt), updates[|updates| - 1];
      init[last.0 := Apply(init[last.0], last.1, permanentAt)]
  }

  /** The loop of `ApplyAvailabilityBatch`. */
  method ApplyEach(keys: map<string, Key>, updates: seq<(string, Scan)>, permanentAt: nat)
    returns (next: map<string, Key>, changed: bool)
    requires DistinctKeys(updates) && forall i :: 0 <= i < |updates| ==> updates[i].0 in keys
    ensures next == AppliedAll(keys, updates, permanentAt) && changed == (next != keys)
  {
    next, changed := keys, false;
    for i := 0 to |updates|
      invariant next.Keys == keys.Keys && next == AppliedAll(keys, updates[..i], permanentAt)
      invariant changed == (next != keys)
      invariant forall j :: i <= j < |updates| ==> next[updates[j].0] == keys[updates[j].0]
    {
      assert updates[..i + 1] == updates[..i] + [updates[i]];
      var (key, scan) := updates[i];
      var k := Apply(next[key], scan, permanentAt);
      changed := k != next[key] || changed;
      next := next[key := k];
      assert k != keys[key] ==> next != keys;
    }
    assert updates[..|updates|] == updates;
  }

  /** Distinct keys are updated independently: each gets its own update, from its old contents. */
  lemma {:induction false} AppliedAllAt(keys: map<string, Key>, updates: seq<(string, Scan)>, permanentAt: nat, k: string)
    requires DistinctKeys(updates) && (forall i :: 0 <= i < |updates| ==> updates[i].0 in keys) && k in keys
    ensures forall i :: 0 <= i < |updates| && updates[i].0 == k ==> AppliedAll(keys, updates, permanentAt)[k] == Apply(keys[k], updates[i].1, permanentAt)
    ensures (forall i :: 0 <= i < |updates| ==> updates[i].0 != k) ==> AppliedAll(keys, updates, permanentAt)[k] == keys[k]
  {
    if updates != [] {
      AppliedAllAt(keys, updates[..|updates| - 1], permanentAt, k);
    }
  }

  datatype Stats = Stats(key: string, latestVersion: string, versionCount: nat, lastPublish: int)

  predicate ValidStats(keys: map<string, Key>, stats: seq<Stats>) {
    && |stats| <= |keys|
    && (forall i :: 0 <= i < |stats| ==> KnownKey(keys, stats[i].key) && ValidOptional(stats[i].latestVersion, MAX_VERSION_BYTES))
    && forall i, j :: 0 <= i < j < |stats| ==> stats[i].key != stats[j].key
  }

  function WithStats(k: Key, s: Stats): Key {
    k.(shown := k.shown.(latestVersion := s.latestVersion, versionCount := s.versionCount, lastPublish := s.lastPublish))
  }

  function WithAllStats(keys: map<string, Key>, stats: seq<Stats>): (r: map<string, Key>)
    requires forall i :: 0 <= i < |stats| ==> stats[i].key in keys
    ensures r.Keys == keys.Keys
  {
    if stats == [] then keys
    else
      var init, last := WithAllStats(keys, stats[..|stats| - 1]), stats[|stats| - 1];
      init[last.key := WithStats(init[last.key], last)]
  }

  /** The statistics are shown, and nothing else of the key changes. */
  predicate StatsShown(k: Key, k': Key, s: Stats) {
    var b := k'.shown;
    && b.latestVersion == s.latestVersion && b.versionCount == s.versionCount && b.lastPublish == s.lastPublish
    && k' == k.(shown := k.shown.(latestVersion := b.latestVersion, versionCount := b.versionCount, lastPublish := b.lastPublish))
  }

  lemma {:induction false} StatsSpare(keys: map<string, Key>, stats: seq<Stats>, k: string)
    requires (forall i :: 0 <= i < |stats| ==> stats[i].key in keys && stats[i].key != k) && k in keys
    ensures WithAllStats(keys, stats)[k] == keys[k]
  {
    if stats != [] {
      StatsSpare(keys, stats[..|stats| - 1], k);
    }
  }

  lemma {:induction false} StatsShownAt(keys: map<string, Key>, stats: seq<Stats>, at: nat)
    requires at < |stats| && forall i :: 0 <= i < |stats| ==> stats[i].key in keys
    requires forall i, j :: 0 <= i < j < |stats| ==> stats[i].key != stats[j].key
    ensures StatsShown(keys[stats[at].key], WithAllStats(keys, stats)[stats[at].key], stats[at])
  {
    var n := |stats| - 1;
    if at == n {
      StatsSpare(keys, stats[..n], stats[n].key);
    } else {
      assert stats[at].key != stats[n].key;
      StatsShownAt(keys, stats[..n], at);
    }
  }

  /** Each key of a batch shows its own statistics, and no other key changes. */
  lemma StatsAreShown(keys: map<string, Key>, stats: seq<Stats>)
    requires forall i :: 0 <= i < |stats| ==> stats[i].key in keys
    requires forall i, j :: 0 <= i < j < |stats| ==> stats[i].key != stats[j].key
    ensures forall i :: 0 <= i < |stats| ==> StatsShown(keys[stats[i].key], WithAllStats(keys, stats)[stats[i].key], stats[i])
    ensures forall k :: k in keys && (forall i :: 0 <= i < |stats| ==> stats[i].key != k) ==> WithAllStats(keys, stats)[k] == keys[k]
  {
    forall i | 0 <= i < |stats| ensures StatsShown(keys[stats[i].key], WithAllStats(keys, stats)[stats[i].key], stats[i]) {
      StatsShownAt(keys, stats, i);
    }
    forall k | k in keys && (forall i :: 0 <= i < |stats| ==> stats[i].key != k) ensures WithAllStats(keys, stats)[k] == keys[k] {
      StatsSpare(keys, stats, k);
    }
  }

  /** The loop of `SetMirrorStatsBatch`. */
  method SetEach(keys: map<string, Key>, stats: seq<Stats>) returns (next: map<string, Key>, changed: bool)
    requires forall i :: 0 <= i < |stats| ==> stats[i].key in keys
    requires forall i, j :: 0 <= i < j < |stats| ==> stats[i].key != stats[j].key
    ensures next == WithAllStats(keys, stats) && changed == (next != keys)
  {
    next, changed := keys, false;
    for i := 0 to |stats|
      invariant next.Keys == keys.Keys && next == WithAllStats(keys, stats[..i])
      invariant changed == (next != keys)
      invariant forall j :: i <= j < |stats| ==> next[stats[j].key] == keys[stats[j].key]
    {
      assert stats[..i + 1] == stats[..i] + [stats[i]];
      var key := stats[i].key;
      var k := WithStats(next[key], stats[i]);
      changed := k != next[key] || changed;
      next := next[key := k];
      assert k != keys[key] ==> next != keys;
    }
    assert stats[..|stats|] == stats;
  }

  function WithRemote(k: Key, remoteKey: string): Key {
    k.(shown := k.shown.(remoteKey := remoteKey))
  }

  /** The remote key is shown, and nothing else of the key changes. */
  predicate RemoteShown(k: Key, k': Key, remoteKey: string) {
    k'.shown.remoteKey == remoteKey && k' == k.(shown := k.shown.(remoteKey := k'.shown.remoteKey))
  }

  predicate ValidClass(c: Class, sourceURL: string, brotherURL: string) {
    c != Unclassified && ValidOptional(sourceURL, MAX_URL_BYTES) && ValidOptional(brotherURL, MAX_URL_BYTES)
  }

  /** The loop of `publishKeyViewsChangedLocked`. */
  method WithKeyViews(current: Snap, st: State) returns (snap: Snap)
    requires forall i :: 0 <= i < |st.order| ==> st.order[i] in st.keys
    ensures snap == KeyViewsPublished(st, current)
  {
    var ks: seq<KeyView> := [];
    for i := 0 to |st.order|
      invariant |ks| == i && forall j :: 0 <= j < i ==> ks[j] == KeyViewsPublished(st, current).keys[j]
    {
      var status := if i < |current.keys| then current.keys[i].status else Ok;
      ks := ks + [KeyView(st.order[i], status, st.keys[st.order[i]].shown)];
    }
    snap := current.(checksum := st.checksum, lastRescan := st.lastRescan, keys := ks);
  }

  // ---- The object ----

  /** `New`. */
  method Start(mirrors: map<string, string>, permanentAfter: nat) returns (r: Option<StateObj>)
    ensures r.Some? <==> ValidConfig(mirrors, permanentAfter)
    ensures r.Some? ==> r.value.Valid() && fresh(r.value) && r.value.permanentAt == permanentAfter
    ensures r.Some? ==> r.value.keys == map k | k in mirrors :: NewKey(mirrors[k])
    ensures r.Some? ==> r.value.keys.Keys == mirrors.Keys && forall k :: k in mirrors ==> JustStarted(r.value.keys[k], mirrors[k])
  {
    if !ValidConfig(mirrors, permanentAfter) {
      return None;
    }
    Lex.StrictOrder();
    var order := SortAll(mirrors.Keys, Lex.Less);
    var obj := new StateObj(mirrors, order, permanentAfter);
    return Some(obj);
  }

  class StateObj {
    const diag: Diagnostics
    const order: seq<string>
    const permanentAt: nat
    var keys: map<string, Key>
    var checksum: string
    var lastRescan: int
    var generation: nat
    var published: Snap

    function View(): State
      reads `keys, `checksum, `lastRescan, diag, diag.diagnosticMap.Values
    {
      State(Views(diag.diagnosticMap), diag.dropped, keys, order, checksum, lastRescan)
    }

    /** The mutable part is sound; the snapshot may be out of date. */
    ghost predicate Ready()
      reads `keys, diag, diag.list, diag.list.queue, diag.diagnosticMap.Values
    {
      && diag.Owned() && Sound(diag.View(), diag.max) && AllScoped(diag.View())
      && KeysFit(keys)
    }

    ghost predicate KeysFit(ks: map<string, Key>) {
      Sorted(Lex.Less, order) && forall k :: k in order <==> k in ks
    }

    /** The published snapshot is a full rebuild of the state. */
    ghost predicate Valid()
      reads this, diag, diag.list, diag.list.queue, diag.diagnosticMap.Values
    {
      Ready() && published.generation == generation && IsSnapshot(View(), published)
    }

    constructor (mirrors: map<string, string>, order: seq<string>, permanentAt: nat)
      requires Sorted(Lex.Less, order) && forall k :: k in order <==> k in mirrors
      ensures Valid() && fresh(diag) && fresh(diag.list) && diag.View() == Reg(map[], [], map[], 0, map[], 0)
      ensures diag.max == MAX_DIAGNOSTICS && this.permanentAt == permanentAt && generation == 0
      ensures keys == map k | k in mirrors :: NewKey(mirrors[k])
    {
      diag := new Diagnostics(MAX_DIAGNOSTICS);
      this.order, this.permanentAt := order, permanentAt;
      keys := map k | k in mirrors :: NewKey(mirrors[k]);
      checksum, lastRescan, generation := "", 0, 0;
      published := Snap("", 0, 0, Health(Ok, [], 0, 0), [], []);
      new;
      assert Ready();
      PublishFirst();
    }

    method PublishFirst()
      requires Ready() && generation == 0
      modifies this`published
      ensures Valid() && View() == old(View())
    {
      var snap := RebuildNow();
      Replace(snap.(generation := 0));
    }

    method Replace(snap: Snap)
      modifies this`published
      ensures published == snap && View() == old(View()) && (old(Ready()) ==> Ready())
    {
      published := snap;
    }

    // ---- Publishers ----

    /** `publishSnapshotLocked`: the next generation of the snapshot. */
    method Store(snap: Snap)
      modifies this`generation, this`published
      ensures generation == Bump(old(generation)) && published == snap.(generation := generation)
      ensures View() == old(View()) && (old(Ready()) ==> Ready())
    {
      generation := Bump(generation);
      published := snap.(generation := generation);
    }

    /** `publishChangedLocked`. */
    method PublishChanged(changed: bool)
      requires Ready() && (!changed ==> IsSnapshot(View(), published) && published.generation == generation)
      modifies this`generation, this`published
      ensures Valid() && View() == old(View())
      ensures generation == if changed then Bump(old(generation)) else old(generation)
    {
      if changed {
        var snap := RebuildNow();
        Store(snap);
      }
    }

    lemma RebuildIsDefined()
      requires AllScoped(diag.View()) && KeysFit(keys)
      ensures forall id :: id in View().records ==> WellScoped(id)
      ensures forall i :: 0 <= i < |View().order| ==> View().order[i] in View().keys
    {
      assert View().records == diag.View().records;
      forall i | 0 <= i < |order| ensures order[i] in keys {
        assert order[i] in order;
      }
    }

    /** `buildSnapshotLocked`. */
    method RebuildNow() returns (snap: Snap)
      requires Ready()
      ensures IsSnapshot(View(), snap)
    {
      RebuildIsDefined();
      var st := View();
      snap := Rebuild(st);
      assert IsSnapshot(st, snap);
    }

    /** `publishMetaChangedLocked`. */
    method PublishMetaChanged(changed: bool, ghost before: State)
      requires Ready() && IsSnapshot(before, published) && published.generation == generation
      requires View() == if changed then before.(checksum := checksum, lastRescan := lastRescan) else before
      modifies this`generation, this`published
      ensures Valid() && View() == old(View())
      ensures generation == if changed then Bump(old(generation)) else old(generation)
    {
      if !changed {
        return;
      }
      ghost var st := View();
      MetaIsRebuild(before, st, published);
      Store(published.(checksum := checksum, lastRescan := lastRescan));
    }

    method KeyViewsNow(ghost before: State) returns (snap: Snap)
      requires KeysFit(keys) && IsSnapshot(before, published) && View() == before.(keys := keys)
      ensures IsSnapshot(View(), snap)
    {
      forall i | 0 <= i < |order| ensures order[i] in keys {
        assert order[i] in order;
      }
      KeyViewsAreRebuild(before, View(), published);
      snap := WithKeyViews(published, View());
    }

    /** `publishKeyViewsChangedLocked`. */
    method PublishKeyViewsChanged(changed: bool, ghost before: State)
      requires Ready() && IsSnapshot(before, published) && published.generation == generation
      requires View() == if changed then before.(keys := keys) else before
      modifies this`generation, this`published
      ensures Valid() && View() == old(View())
      ensures generation == if changed then Bump(old(generation)) else old(generation)
    {
      if changed {
        var snap := KeyViewsNow(before);
        Store(snap);
      }
    }

    /** `publishHealthChangedLocked`. */
    method PublishHealthChanged(ghost before: State)
      requires Ready() && IsSnapshot(before, published) && published.generation == generation && View() == before.(dropped := diag.dropped)
      modifies this`generation, this`published
      ensures Valid() && View() == old(View()) && generation == Bump(old(generation))
    {
      ghost var st := View();
      HealthIsRebuild(before, st, published);
      Store(published.(health := published.health.(dropped := diag.dropped)));
    }

    // ---- Diagnostics ----

    /** `RaiseDiagnostic`. */
    method RaiseDiagnostic(d: Diagnostic, now: int) returns (failed: bool)
      requires Valid()
      modifies this`generation, this`published, diag, diag.list, diag.diagnosticMap.Values
      ensures Valid()
      ensures var accepted := ValidDiagnostic(d) && ValidScope(keys, d.id);
              && diag.View() == (if accepted then Upserted(old(diag.View()), diag.max, d, now) else old(diag.View()))
              && failed == (!accepted || Full(old(diag.View()), diag.max, d.id))
              && generation == if accepted then Bump(old(generation)) else old(generation)
      ensures !failed ==> Raised(old(diag.View()), diag.View(), d, now)
      ensures failed && ValidDiagnostic(d) && ValidScope(keys, d.id) ==> Dropped(old(diag.View()), diag.View())
    {
      if !ValidDiagnostic(d) || !ValidScope(keys, d.id) {
        return true;
      }
      ghost var g, before := diag.View(), View();
      ValidScopeIsWellScoped(keys, d.id);
      UpsertKeeps(g, diag.max, d, now);
      UpsertKeepsScopes(g, diag.max, d, now);
      UpsertRaises(g, diag.max, d, now);
      var structural, ok := diag.Upsert(d, now);
      if !ok && !structural {
        UpsertSparesActive(g, diag.max, d, now);
        PublishHealthChanged(before);
      } else {
        PublishChanged(true);
      }
      failed := !ok;
    }

    /** `ClearDiagnostic`. */
    method ClearDiagnostic(id: Id) returns (failed: bool)
      requires Valid()
      modifies this`generation, this`published, diag, diag.list, diag.diagnosticMap.Values
      ensures Valid()
      ensures failed == !(ValidId(id) && ValidScope(keys, id))
      ensures diag.View() == if !failed && id in old(diag.View()).records && old(diag.View()).records[id].active
                             then Deactivated(old(diag.View()), id) else old(diag.View())
      ensures !failed ==> Cleared(old(diag.View()), diag.View(), {id})
    {
      if !ValidId(id) || !ValidScope(keys, id) {
        return true;
      }
      ghost var g := diag.View();
      OneIsCleared(g, id);
      var changed := diag.ClearOne(id);
      if changed {
        DeactivateKeeps(g, diag.max, id);
      }
      PublishChanged(changed);
      failed := false;
    }

    method ClearValid(key: string, version: string, versionOnly: bool) returns (ghost cleared: seq<Id>)
      requires Valid() && key != ""
      modifies this`generation, this`published, diag, diag.list, diag.diagnosticMap.Values
      ensures Valid()
      ensures InTurn(old(diag.View()), cleared, OfKey(old(diag.View()), key, version, versionOnly))
      ensures diag.View() == DeactivatedAll(old(diag.View()), cleared)
    {
      ghost var g := diag.View();
      var changed;
      changed, cleared := diag.ClearDiagnostics(key, version, versionOnly);
      ClearedKeeps(g, diag.max, cleared, OfKey(g, key, version, versionOnly));
      PublishChanged(changed);
    }

    /** `ClearKeyDiagnostics`, and `ClearVersionDiagnostics` when `versionOnly`. */
    method ClearDiagnosticsOf(key: string, version: string, versionOnly: bool) returns (failed: bool, ghost cleared: seq<Id>)
      requires Valid()
      modifies this`generation, this`published, diag, diag.list, diag.diagnosticMap.Values
      ensures Valid()
      ensures failed == !(KnownKey(keys, key) && (versionOnly ==> ValidText(version, MAX_VERSION_BYTES)))
      ensures failed ==> diag.View() == old(diag.View())
      ensures !failed ==> InTurn(old(diag.View()), cleared, OfKey(old(diag.View()), key, version, versionOnly))
      ensures !failed ==> diag.View() == DeactivatedAll(old(diag.View()), cleared)
      ensures !failed ==> ClearedOf(old(diag.View()), diag.View(), key, version, versionOnly)
    {
      if !KnownKey(keys, key) || (versionOnly && !ValidText(version, MAX_VERSION_BYTES)) {
        return true, [];
      }
      ghost var g := diag.View();
      cleared := ClearValid(key, version, versionOnly);
      TurnClearsKey(g, cleared, key, version, versionOnly);
      failed := false;
    }

    /** `ClearAllDiagnostics`. */
    method ClearAllDiagnostics() returns (ghost cleared: seq<Id>)
      requires Valid()
      modifies this`generation, this`published, diag, diag.list, diag.diagnosticMap.Values
      ensures Valid()
      ensures InTurn(old(diag.View()), cleared, old(diag.diagnosticMap.Keys))
      ensures diag.View() == DeactivatedAll(old(diag.View()), cleared)
      ensures Cleared(old(diag.View()), diag.View(), old(diag.diagnosticMap.Keys))
    {
      ghost var g := diag.View();
      var changed;
      changed, cleared := diag.DeactivateEach(diag.diagnosticMap.Keys);
      ClearedKeeps(g, diag.max, cleared, diag.diagnosticMap.Keys);
      TurnClears(g, cleared, diag.diagnosticMap.Keys);
      PublishChanged(changed);
    }

    // ---- Keys ----

    method SetKeys(next: map<string, Key>)
      requires next.Keys == keys.Keys
      modifies this`keys
      ensures keys == next && View() == old(View()).(keys := next)
      ensures old(Ready()) ==> Ready()
    {
      keys := next;
    }

    /** The end of every operation on keys. */
    method StoreKeys(next: map<string, Key>, changed: bool)
      requires Valid() && next.Keys == keys.Keys && (!changed ==> next == keys)
      modifies this`keys, this`generation, this`published
      ensures Valid() && keys == next
    {
      ghost var before := View();
      SetKeys(next);
      PublishKeyViewsChanged(changed, before);
    }

    method ApplyValid(updates: seq<(string, Scan)>)
      requires Valid() && DistinctKeys(updates) && forall i :: 0 <= i < |updates| ==> updates[i].0 in keys
      modifies this`keys, this`generation, this`published
      ensures Valid() && keys == AppliedAll(old(keys), updates, permanentAt)
    {
      var next, changed := ApplyEach(keys, updates, permanentAt);
      StoreKeys(next, changed);
    }

    method SetValid(stats: seq<Stats>)
      requires Valid() && forall i :: 0 <= i < |stats| ==> stats[i].key in keys
      requires forall i, j :: 0 <= i < j < |stats| ==> stats[i].key != stats[j].key
      modifies this`keys, this`generation, this`published
      ensures Valid() && keys == WithAllStats(old(keys), stats)
    {
      var next, changed := SetEach(keys, stats);
      StoreKeys(next, changed);
    }

    /** `ApplyAvailabilityBatch`: all updates or none, stale ones without effect. */
    method ApplyAvailabilityBatch(updates: seq<(string, Scan)>, now: int) returns (failed: bool)
      requires Valid()
      modifies this`keys, this`generation, this`published
      ensures Valid()
      ensures failed <==> !ValidBatch(old(keys), updates, now)
      ensures keys == if failed then old(keys) else AppliedAll(old(keys), updates, permanentAt)
      ensures !failed ==> forall i :: 0 <= i < |updates| ==> ScanShown(old(keys)[updates[i].0], keys[updates[i].0], updates[i].1, permanentAt)
    {
      if updates == [] {
        return false;
      }
      if !ValidBatch(keys, updates, now) {
        return true;
      }
      forall i | 0 <= i < |updates|
        ensures ScanShown(keys[updates[i].0], AppliedAll(keys, updates, permanentAt)[updates[i].0], updates[i].1, permanentAt)
      {
        AppliedAllAt(keys, updates, permanentAt, updates[i].0);
        ScanIsShown(keys[updates[i].0], updates[i].1, permanentAt);
      }
      ApplyValid(updates);
      failed := false;
    }

    /** `SetClassification`. */
    method SetClassification(key: string, c: Class, sourceURL: string, brotherURL: string) returns (failed: bool)
      requires Valid()
      modifies this`keys, this`generation, this`published
      ensures Valid()
      ensures failed <==> !(ValidClass(c, sourceURL, brotherURL) && KnownKey(old(keys), key)) || ReclassRefused(old(keys)[key], c)
      ensures keys == if failed then old(keys) else old(keys)[key := Classified(old(keys)[key], c, sourceURL, brotherURL)]
      ensures ValidClass(c, sourceURL, brotherURL) && KnownKey(old(keys), key) ==>
        (failed <==> old(keys)[key].shown.kind !in {Unclassified, c} && !old(keys)[key].reclassAllowed)
      ensures !failed ==> ClassShown(old(keys)[key], keys[key], c, sourceURL, brotherURL)
    {
      if c == Unclassified || !ValidOptional(sourceURL, MAX_URL_BYTES) || !ValidOptional(brotherURL, MAX_URL_BYTES) || !KnownKey(keys, key) {
        return true;
      }
      var k := keys[key];
      if ReclassRefused(k, c) {
        return true;
      }
      ClassIsShown(k, c, sourceURL, brotherURL);
      var changed := ClassChange(k, c) || (sourceURL != "" && sourceURL != k.shown.sourceURL)
                     || (if c == Brother then brotherURL else "") != k.shown.brotherURL;
      StoreKeys(keys[key := Classified(k, c, sourceURL, brotherURL)], changed);
      failed := false;
    }

    /** `SetRemoteKey`: an empty remote key is the key itself. */
    method SetRemoteKey(key: string, remoteKey: string) returns (failed: bool)
      requires Valid()
      modifies this`keys, this`generation, this`published
      ensures Valid()
      ensures failed <==> !(ValidOptional(remoteKey, MAX_KEY_BYTES) && KnownKey(old(keys), key))
      ensures keys == if failed then old(keys)
                      else old(keys)[key := WithRemote(old(keys)[key], if remoteKey == "" then key else remoteKey)]
      ensures !failed ==> RemoteShown(old(keys)[key], keys[key], if remoteKey != "" then remoteKey else key)
    {
      if !ValidOptional(remoteKey, MAX_KEY_BYTES) || !KnownKey(keys, key) {
        return true;
      }
      var next := if remoteKey == "" then key else remoteKey;
      if next == keys[key].shown.remoteKey {
        return false;
      }
      StoreKeys(keys[key := WithRemote(keys[key], next)], true);
      failed := false;
    }

    /** `SetMirrorStatsBatch`. */
    method SetMirrorStatsBatch(stats: seq<Stats>) returns (failed: bool)
      requires Valid()
      modifies this`keys, this`generation, this`published
      ensures Valid()
      ensures failed <==> !ValidStats(old(keys), stats)
      ensures keys == if failed then old(keys) else WithAllStats(old(keys), stats)
      ensures !failed ==> forall i :: 0 <= i < |stats| ==> StatsShown(old(keys)[stats[i].key], keys[stats[i].key], stats[i])
      ensures forall k :: k in keys && (forall i :: 0 <= i < |stats| ==> stats[i].key != k) ==> keys[k] == old(keys)[k]
    {
      if stats == [] {
        return false;
      }
      if !ValidStats(keys, stats) {
        return true;
      }
      StatsAreShown(keys, stats);
      SetValid(stats);
      failed := false;
    }

    // ---- Metadata ----

    method SetMeta(c: string, rescan: int)
      modifies this`checksum, this`lastRescan
      ensures checksum == c && lastRescan == rescan
      ensures View() == old(View()).(checksum := c, lastRescan := rescan)
      ensures old(Ready()) ==> Ready()
    {
      checksum, lastRescan := c, rescan;
    }

    /** `SetLastRescan`. */
    method SetLastRescan(ts: int)
      requires Valid()
      modifies this`checksum, this`lastRescan, this`generation, this`published
      ensures Valid() && lastRescan == ts && checksum == old(checksum)
    {
      if lastRescan == ts {
        return;
      }
      ghost var before := View();
      SetMeta(checksum, ts);
      PublishMetaChanged(true, before);
    }

    /** `SetContentChecksum`. */
    method SetContentChecksum(content: string)
      requires Valid()
      modifies this`checksum, this`lastRescan, this`generation, this`published
      ensures Valid() && checksum == content && lastRescan == old(lastRescan)
    {
      ghost var before := View();
      var changed := checksum != content;
      SetMeta(content, lastRescan);
      PublishMetaChanged(changed, before);
    }
  }
}
