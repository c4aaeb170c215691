/** The published snapshot: what a full rebuild is, why it is unique, and what each incremental
    publisher may assume. */
module Snapshots {
  import opened Availability
  import opened Options
  import opened Paging
  import opened Registry
  import Lex

  const MAX_HEALTH_REASONS: nat := 32

  datatype View = View(id: Id, rec: Rec)

  datatype KeyView = KeyView(key: string, status: Status, shown: Shown)

  datatype Health = Health(status: Status, reasons: seq<nat>, count: nat, dropped: nat)

  datatype Snap = Snap(checksum: string, lastRescan: int, generation: nat, health: Health,
                       keys: seq<KeyView>, diagnostics: seq<View>)

  /** The mutable state as a value; `order` is the sorted list of mirror keys, fixed at start. */
  datatype State = State(records: map<Id, Rec>, dropped: nat, keys: map<string, Key>, order: seq<string>,
                         checksum: string, lastRescan: int)

  // ---- The order of diagnostics ----

  /** The scope goes with the key and version, as `validateDiagnosticScopeLocked` demands. */
  predicate WellScoped(id: Id) {
    match id.scope
    case GlobalScope => id.key == "" && id.version == ""
    case KeyScope => id.key != "" && id.version == ""
    case VersionScope => id.key != "" && id.version != ""
  }

  predicate Before(a: View, b: View) {
    if a.rec.lastSeen != b.rec.lastSeen then a.rec.lastSeen > b.rec.lastSeen
    else if a.id.code != b.id.code then Lex.Less(a.id.code, b.id.code)
    else if a.id.key != b.id.key then Lex.Less(a.id.key, b.id.key)
    else Lex.Less(a.id.version, b.id.version)
  }

  /** Two different well-scoped records are never tied, although the sort does not look at the scope. */
  lemma NeverTied(a: View, b: View)
    requires WellScoped(a.id) && WellScoped(b.id)
    ensures !Before(a, a)
    ensures a.id != b.id ==> Before(a, b) || Before(b, a)
    ensures Before(a, b) ==> !Before(b, a)
  {
    Lex.Total(a.id.code, b.id.code);
    Lex.Total(a.id.key, b.id.key);
    Lex.Total(a.id.version, b.id.version);
    Lex.Irreflexive(a.id.version);
    Lex.StrictOrder();
  }

  lemma BeforeIsTransitive(a: View, b: View, c: View)
    requires Before(a, b) && Before(b, c)
    ensures Before(a, c)
  {
    Lex.StrictOrder();
  }

  // ---- What a snapshot of a state is ----

  function Worst(s: set<Status>): Status {
    if Error in s then Error else if Degraded in s then Degraded else Ok
  }

  function Rank(s: Status): nat {
    match s case Error => 2 case Degraded => 1 case Ok => 0
  }

  function MaxStatus(a: Status, b: Status): Status {
    if Rank(b) > Rank(a) then b else a
  }

  lemma WorstOfUnion(s: set<Status>, t: set<Status>)
    ensures Worst(s + t) == MaxStatus(Worst(s), Worst(t))
  {
  }

  ghost function ActiveViews(records: map<Id, Rec>): set<View> {
    set id | id in records && records[id].active :: View(id, records[id])
  }

  ghost function Reasons(vs: set<View>): set<nat> {
    set v | v in vs :: v.rec.reason
  }

  ghost function Impacts(vs: set<View>): set<Status> {
    set v | v in vs :: v.rec.impact
  }

  predicate IsGlobal(id: Id) {
    id.scope == GlobalScope || id.key == ""
  }

  ghost function GlobalImpacts(vs: set<View>): set<Status> {
    set v | v in vs && IsGlobal(v.id) :: v.rec.impact
  }

  ghost function KeyImpacts(vs: set<View>, key: string): set<Status> {
    set v | v in vs && !IsGlobal(v.id) && v.id.key == key :: v.rec.impact
  }

  ghost function KeyStatus(vs: set<View>, key: string): Status {
    Worst(GlobalImpacts(vs) + KeyImpacts(vs, key))
  }

  predicate LessReason(a: nat, b: nat) {
    a < b
  }

  ghost predicate IsHealth(st: State, h: Health) {
    var vs := ActiveViews(st.records);
    && h.status == Worst(Impacts(vs))
    && IsPage(Reasons(vs), LessReason, None, MAX_HEALTH_REASONS, h.reasons)
    && h.count == |vs|
    && h.dropped == st.dropped
  }

  ghost predicate IsDiagnosticList(st: State, ds: seq<View>) {
    Sorted(Before, ds) && forall v :: v in ds <==> v in ActiveViews(st.records)
  }

  ghost predicate IsKeyList(st: State, ks: seq<KeyView>) {
    && |ks| == |st.order|
    && forall i :: 0 <= i < |ks| ==>
         && st.order[i] in st.keys
         && ks[i] == KeyView(st.order[i], KeyStatus(ActiveViews(st.records), st.order[i]), st.keys[st.order[i]].shown)
  }

  /** A full rebuild from the mutable state, apart from the generation. */
  ghost predicate IsSnapshot(st: State, snap: Snap) {
    && snap.checksum == st.checksum && snap.lastRescan == st.lastRescan
    && IsHealth(st, snap.health)
    && IsDiagnosticList(st, snap.diagnostics)
    && IsKeyList(st, snap.keys)
  }

  // ---- A snapshot written out ----

  /** Some active record that concerns the key, or any record when `key` is not given, has this impact. */
  ghost predicate Impacted(records: map<Id, Rec>, key: Option<string>, impact: Status) {
    exists id :: id in records && records[id].active && records[id].impact == impact
                 && (key.None? || id.scope == GlobalScope || id.key == "" || id.key == key.value)
  }

  /** An error outweighs everything, and it is well only when nothing is degraded either. */
  ghost predicate StatusFits(records: map<Id, Rec>, key: Option<string>, status: Status) {
    && (status == Error <==> Impacted(records, key, Error))
    && (status == Degraded <==> Impacted(records, key, Degraded) && !Impacted(records, key, Error))
  }

  /** Newest first, and for one time by code, key and version. */
  ghost predicate NewestFirst(ds: seq<View>) {
    forall i, j :: 0 <= i < j < |ds| ==>
      && ds[i].rec.lastSeen >= ds[j].rec.lastSeen
      && (ds[i].rec.lastSeen == ds[j].rec.lastSeen ==> ds[i].id.code == ds[j].id.code || Lex.Less(ds[i].id.code, ds[j].id.code))
      && (ds[i].rec.lastSeen == ds[j].rec.lastSeen && ds[i].id.code == ds[j].id.code ==>
            ds[i].id.key == ds[j].id.key || Lex.Less(ds[i].id.key, ds[j].id.key))
  }

  ghost predicate IsReason(records: map<Id, Rec>, reason: nat) {
    exists id :: id in records && records[id].active && records[id].reason == reason
  }

  /** The smallest reasons of active records, ascending: all of them, or 32. */
  ghost predicate SmallestReasons(records: map<Id, Rec>, reasons: seq<nat>) {
    && |reasons| <= 32
    && (forall i, j :: 0 <= i < j < |reasons| ==> reasons[i] < reasons[j])
    && (forall x :: x in reasons ==> IsReason(records, x))
    && forall x: nat :: IsReason(records, x) && x !in reasons ==> |reasons| == 32 && forall y :: y in reasons ==> y < x
  }

  ghost predicate WrittenOut(st: State, snap: Snap) {
    && snap.checksum == st.checksum && snap.lastRescan == st.lastRescan && snap.health.dropped == st.dropped
    && (forall v :: v in snap.diagnostics <==> v.id in st.records && st.records[v.id].active && v.rec == st.records[v.id])
    && NewestFirst(snap.diagnostics)
    && snap.health.count == |snap.diagnostics|
    && SmallestReasons(st.records, snap.health.reasons)
    && StatusFits(st.records, None, snap.health.status)
    && |snap.keys| == |st.order|
    && forall i :: 0 <= i < |snap.keys| ==>
         && snap.keys[i].key == st.order[i] && st.order[i] in st.keys && snap.keys[i].shown == st.keys[st.order[i]].shown
         && StatusFits(st.records, Some(st.order[i]), snap.keys[i].status)
  }

  lemma WorstFits(records: map<Id, Rec>, key: Option<string>, impacts: set<Status>)
    requires forall s: Status :: s in impacts <==> Impacted(records, key, s)
    ensures StatusFits(records, key, Worst(impacts))
  {
  }

  lemma ImpactsAre(records: map<Id, Rec>, key: string)
    ensures var vs := ActiveViews(records);
            && (forall s: Status :: s in Impacts(vs) <==> Impacted(records, None, s))
            && forall s: Status :: s in GlobalImpacts(vs) + KeyImpacts(vs, key) <==> Impacted(records, Some(key), s)
  {
    var vs := ActiveViews(records);
    forall s: Status ensures s in Impacts(vs) <==> Impacted(records, None, s) {
      if id :| id in records && records[id].active && records[id].impact == s {
        assert View(id, records[id]) in vs;
      }
    }
    forall s: Status ensures s in GlobalImpacts(vs) + KeyImpacts(vs, key) <==> Impacted(records, Some(key), s) {
      if id :| id in records && records[id].active && records[id].impact == s && (IsGlobal(id) || id.key == key) {
        assert View(id, records[id]) in vs;
      }
    }
  }

  lemma ReasonsAre(records: map<Id, Rec>, reasons: seq<nat>)
    requires IsPage(Reasons(ActiveViews(records)), LessReason, None, MAX_HEALTH_REASONS, reasons)
    ensures SmallestReasons(records, reasons)
  {
    var vs := ActiveViews(records);
    forall x: nat ensures x in Reasons(vs) <==> IsReason(records, x) {
      if id :| id in records && records[id].active && records[id].reason == x {
        assert View(id, records[id]) in vs;
      }
    }
  }

  lemma ListedOnce(st: State, ds: seq<View>)
    requires IsDiagnosticList(st, ds) && forall id :: id in st.records ==> WellScoped(id)
    ensures |ds| == |ActiveViews(st.records)|
  {
    forall i, j | 0 <= i < j < |ds| ensures ds[i] != ds[j] {
      assert ds[i] in ds;
      NeverTied(ds[i], ds[i]);
    }
    DistinctSize(ds);
    assert ActiveViews(st.records) == set v | v in ds;
  }

  lemma {:induction false} DistinctSize(ds: seq<View>)
    requires forall i, j :: 0 <= i < j < |ds| ==> ds[i] != ds[j]
    ensures |set v | v in ds| == |ds|
  {
    if ds != [] {
      var init, last := ds[..|ds| - 1], ds[|ds| - 1];
      DistinctSize(init);
      assert ds == init + [last];
      assert (set v | v in ds) == (set v | v in init) + {last};
    }
  }

  /** What every snapshot says of the state. */
  lemma SnapshotWrittenOut(st: State, snap: Snap)
    requires IsSnapshot(st, snap) && forall id :: id in st.records ==> WellScoped(id)
    ensures WrittenOut(st, snap)
  {
    ListedOnce(st, snap.diagnostics);
    ReasonsAre(st.records, snap.health.reasons);
    ImpactsAre(st.records, "");
    WorstFits(st.records, None, Impacts(ActiveViews(st.records)));
    forall i | 0 <= i < |snap.keys| ensures StatusFits(st.records, Some(st.order[i]), snap.keys[i].status) {
      ImpactsAre(st.records, st.order[i]);
      WorstFits(st.records, Some(st.order[i]), GlobalImpacts(ActiveViews(st.records)) + KeyImpacts(ActiveViews(st.records), st.order[i]));
    }
    assert NewestFirst(snap.diagnostics);
  }

  // ---- A rebuild does not depend on the order in which maps are visited ----

  lemma {:induction false} SortedViewsAreUnique(a: seq<View>, b: seq<View>)
    requires Sorted(Before, a) && Sorted(Before, b)
    requires forall v :: v in a <==> v in b
    requires forall v :: v in a ==> WellScoped(v.id)
    ensures a == b
  {
    assert b != [] ==> b[0] in b;
    if a != [] {
      assert a[0] in a && b != [];
      FirstOfSorted(a, b);
      forall v ensures v in a[1..] <==> v in b[1..] {
        NotFirst(a, v);
        NotFirst(b, v);
      }
      SortedViewsAreUnique(a[1..], b[1..]);
      assert a == [a[0]] + a[1..] && b == [b[0]] + b[1..];
    }
  }

  lemma FirstOfSorted(a: seq<View>, b: seq<View>)
    requires Sorted(Before, a) && Sorted(Before, b) && a != [] && b != []
    requires forall v :: v in a <==> v in b
    requires forall v :: v in a ==> WellScoped(v.id)
    ensures a[0] == b[0]
  {
    assert a[0] in b && b[0] in a;
    var i :| 0 <= i < |a| && a[i] == b[0];
    var j :| 0 <= j < |b| && b[j] == a[0];
    NeverTied(a[0], b[0]);
  }

  lemma NotFirst(a: seq<View>, v: View)
    requires Sorted(Before, a) && a != [] && forall x :: x in a ==> WellScoped(x.id)
    ensures v in a[1..] <==> v in a && v != a[0]
  {
    assert a[0] in a;
    NeverTied(a[0], a[0]);
    if v in a && v != a[0] {
      var i :| 0 <= i < |a| && a[i] == v;
      assert a[1..][i - 1] == v;
    }
  }

  lemma ReasonOrder()
    ensures StrictTotal(LessReason)
  {
  }

  /** Whatever the visiting order was, one state has one snapshot: well-scoped records are never tied
      in the sort, and everything else is a set, a maximum or already ordered. */
  lemma SnapshotIsUnique(st: State, a: Snap, b: Snap)
    requires forall id :: id in st.records ==> WellScoped(id)
    requires IsSnapshot(st, a) && IsSnapshot(st, b) && a.generation == b.generation
    ensures a == b
  {
    SortedViewsAreUnique(a.diagnostics, b.diagnostics);
    ReasonOrder();
    PageIsUnique(Reasons(ActiveViews(st.records)), LessReason, None, MAX_HEALTH_REASONS, a.health.reasons, b.health.reasons);
    assert a.keys == b.keys;
  }

  // ---- The incremental publishers ----

  function MetaPublished(st: State, snap: Snap): Snap {
    snap.(checksum := st.checksum, lastRescan := st.lastRescan)
  }

  /** `publishKeyViewsChangedLocked` takes each status from the current snapshot. */
  function KeyViewsPublished(st: State, snap: Snap): Snap
    requires forall i :: 0 <= i < |st.order| ==> st.order[i] in st.keys
  {
    snap.(checksum := st.checksum, lastRescan := st.lastRescan,
          keys := seq(|st.order|, i requires 0 <= i < |st.order| =>
            KeyView(st.order[i], if i < |snap.keys| then snap.keys[i].status else Ok, st.keys[st.order[i]].shown)))
  }

  function HealthPublished(st: State, snap: Snap): Snap {
    snap.(health := snap.health.(dropped := st.dropped))
  }

  /** Enough when nothing but the checksum and the rescan time changed. */
  lemma MetaIsRebuild(before: State, after: State, snap: Snap)
    requires IsSnapshot(before, snap) && after == before.(checksum := after.checksum, lastRescan := after.lastRescan)
    ensures IsSnapshot(after, MetaPublished(after, snap))
  {
  }

  /** Enough when, besides those, only the contents of key records changed. */
  lemma KeyViewsAreRebuild(before: State, after: State, snap: Snap)
    requires IsSnapshot(before, snap)
    requires after == before.(keys := after.keys, checksum := after.checksum, lastRescan := after.lastRescan)
    requires forall i :: 0 <= i < |after.order| ==> after.order[i] in after.keys
    ensures IsSnapshot(after, KeyViewsPublished(after, snap))
  {
  }

  /** Enough when only the count of dropped diagnostics changed. */
  lemma HealthIsRebuild(before: State, after: State, snap: Snap)
    requires IsSnapshot(before, snap) && after == before.(dropped := after.dropped)
    ensures IsSnapshot(after, HealthPublished(after, snap))
  {
  }

  /** And not otherwise: after a visible change of a diagnostic the key publisher leaves the state
      without its snapshot, which is why raising and clearing rebuild in full. */
  lemma KeyViewsMissDiagnostics(before: State, after: State, snap: Snap)
    requires IsSnapshot(before, snap) && after.order == before.order
    requires forall i :: 0 <= i < |after.order| ==> after.order[i] in after.keys
    requires ActiveViews(after.records) != ActiveViews(before.records)
    ensures !IsSnapshot(after, KeyViewsPublished(after, snap))
  {
    var v :| v in ActiveViews(after.records) <==> v !in ActiveViews(before.records);
    assert v in snap.diagnostics <==> v in ActiveViews(before.records);
  }
}
