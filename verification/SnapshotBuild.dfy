/** `buildSnapshotLocked`: one pass over the records in any order, then two sorts.

    The pass keeps the active views, their reasons, the worst impact overall and among
    global diagnostics, and the worst impact of each key. None of these depends on the
    order of the pass. What the result must be is said in module Snapshots, where it is
    also shown to be unique; the sorts are selection sorts because only their result
    matters. */
module SnapshotBuild {
  import opened Options
  import opened Paging
  import opened Registry
  import opened Snapshots

  /** What the pass has accumulated over the active records `vs`. */
  datatype Tally = Tally(views: set<View>, reasons: set<nat>, health: Status, globalStatus: Status, keyStatus: map<string, Status>)

  function StatusOf(m: map<string, Status>, key: string): Status {
    if key in m then m[key] else Ok
  }

  ghost predicate Tallied(vs: set<View>, t: Tally) {
    && t.views == vs && t.reasons == Reasons(vs)
    && t.health == Worst(Impacts(vs)) && t.globalStatus == Worst(GlobalImpacts(vs))
    && forall k :: StatusOf(t.keyStatus, k) == Worst(KeyImpacts(vs, k))
  }

  function AddView(t: Tally, v: View): Tally {
    var u := t.(views := t.views + {v}, reasons := t.reasons + {v.rec.reason}, health := MaxStatus(t.health, v.rec.impact));
    if IsGlobal(v.id) then u.(globalStatus := MaxStatus(u.globalStatus, v.rec.impact))
    else u.(keyStatus := u.keyStatus[v.id.key := MaxStatus(StatusOf(u.keyStatus, v.id.key), v.rec.impact)])
  }

  lemma OneMoreImpact(s: set<Status>, x: Status)
    ensures Worst(s + {x}) == MaxStatus(Worst(s), x)
  {
  }

  lemma AddViewTallied(vs: set<View>, t: Tally, v: View)
    requires Tallied(vs, t)
    ensures Tallied(vs + {v}, AddView(t, v))
  {
    var ws, u, x := vs + {v}, AddView(t, v), v.rec.impact;
    assert Reasons(ws) == Reasons(vs) + {v.rec.reason};
    assert Impacts(ws) == Impacts(vs) + {x};
    OneMoreImpact(Impacts(vs), x);
    assert GlobalImpacts(ws) == GlobalImpacts(vs) + if IsGlobal(v.id) then {x} else {};
    OneMoreImpact(GlobalImpacts(vs), x);
    forall k ensures StatusOf(u.keyStatus, k) == Worst(KeyImpacts(ws, k)) {
      AddViewForKey(vs, t, v, k);
    }
  }

  lemma AddViewForKey(vs: set<View>, t: Tally, v: View, k: string)
    requires StatusOf(t.keyStatus, k) == Worst(KeyImpacts(vs, k))
    ensures StatusOf(AddView(t, v).keyStatus, k) == Worst(KeyImpacts(vs + {v}, k))
  {
    assert KeyImpacts(vs + {v}, k) == KeyImpacts(vs, k) + if !IsGlobal(v.id) && v.id.key == k then {v.rec.impact} else {};
    OneMoreImpact(KeyImpacts(vs, k), v.rec.impact);
  }

  lemma NothingTallied()
    ensures Tallied({}, Tally({}, {}, Ok, Ok, map[]))
  {
  }

  ghost function ViewsIn(records: map<Id, Rec>, ids: set<Id>): set<View> {
    set id | id in ids && id in records && records[id].active :: View(id, records[id])
  }

  /** The pass; map iteration order is arbitrary. */
  method Collect(records: map<Id, Rec>) returns (t: Tally)
    ensures Tallied(ActiveViews(records), t)
  {
    t := Tally({}, {}, Ok, Ok, map[]);
    NothingTallied();
    var todo := records.Keys;
    ghost var vs: set<View> := {};
    while todo != {}
      invariant todo <= records.Keys
      invariant vs == ViewsIn(records, records.Keys - todo) && Tallied(vs, t)
      decreases todo
    {
      var id :| id in todo;
      ghost var seen := ViewsIn(records, records.Keys - (todo - {id}));
      if records[id].active {
        AddViewTallied(vs, t, View(id, records[id]));
        t := AddView(t, View(id, records[id]));
        assert seen == vs + {View(id, records[id])};
      } else {
        assert seen == vs;
      }
      vs := seen;
      todo := todo - {id};
    }
    assert vs == ActiveViews(records);
  }

  method FirstView(s: set<View>) returns (first: View)
    requires s != {} && forall v :: v in s ==> WellScoped(v.id)
    requires forall v, w :: v in s && w in s && v.id == w.id ==> v == w
    ensures first in s && forall v :: v in s && v != first ==> Before(first, v)
  {
    first :| first in s;
    var rest := s - {first};
    while rest != {}
      invariant first in s && rest <= s && first !in rest
      invariant forall v :: v in s && v !in rest && v != first ==> Before(first, v)
      decreases rest
    {
      var x :| x in rest;
      NeverTied(first, x);
      if Before(x, first) {
        forall v | v in s && v !in rest && v != first ensures Before(x, v) {
          BeforeIsTransitive(x, first, v);
        }
        first := x;
      }
      rest := rest - {x};
    }
  }

  /** `sortDiagnosticViews`. */
  method SortViews(s: set<View>) returns (r: seq<View>)
    requires forall v :: v in s ==> WellScoped(v.id)
    requires forall v, w :: v in s && w in s && v.id == w.id ==> v == w
    ensures Sorted(Before, r) && forall v :: v in r <==> v in s
  {
    r := [];
    var rest := s;
    while rest != {}
      invariant rest <= s && Sorted(Before, r)
      invariant forall v :: v in s <==> v in r || v in rest
      invariant forall v, w :: v in r && w in rest ==> Before(v, w)
      decreases rest
    {
      var x := FirstView(rest);
      r := r + [x];
      rest := rest - {x};
    }
  }

  method KeyList(st: State, globalStatus: Status, keyStatus: map<string, Status>) returns (ks: seq<KeyView>)
    requires forall i :: 0 <= i < |st.order| ==> st.order[i] in st.keys
    requires globalStatus == Worst(GlobalImpacts(ActiveViews(st.records)))
    requires forall k :: StatusOf(keyStatus, k) == Worst(KeyImpacts(ActiveViews(st.records), k))
    ensures IsKeyList(st, ks)
  {
    ghost var vs := ActiveViews(st.records);
    ks := [];
    for i := 0 to |st.order|
      invariant |ks| == i
      invariant forall j :: 0 <= j < i ==> ks[j] == KeyView(st.order[j], KeyStatus(vs, st.order[j]), st.keys[st.order[j]].shown)
    {
      var key := st.order[i];
      var status := if key in keyStatus then MaxStatus(globalStatus, keyStatus[key]) else globalStatus;
      assert StatusOf(keyStatus, key) == Worst(KeyImpacts(vs, key));
      WorstOfUnion(GlobalImpacts(vs), KeyImpacts(vs, key));
      ks := ks + [KeyView(key, status, st.keys[key].shown)];
    }
  }

  method Rebuild(st: State) returns (snap: Snap)
    requires forall id :: id in st.records ==> WellScoped(id)
    requires forall i :: 0 <= i < |st.order| ==> st.order[i] in st.keys
    ensures IsSnapshot(st, snap) && WrittenOut(st, snap)
  {
    var t := Collect(st.records);
    var ds := SortViews(t.views);
    ReasonOrder();
    var rs := Page(t.reasons, LessReason, None, MAX_HEALTH_REASONS);
    var ks := KeyList(st, t.globalStatus, t.keyStatus);
    snap := Snap(st.checksum, st.lastRescan, 0, Health(t.health, rs, |t.views|, st.dropped), ks, ds);
    SnapshotWrittenOut(st, snap);
  }
}
