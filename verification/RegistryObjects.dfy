/** The registry on the heap.

    Records are objects linked in place, and the list, the map and the index are fields that
    the methods update. Each method says which operation on values (module Registry) it
    carries out on the abstract value `View()`; the links are described once, by `Linked`,
    and the frame clauses name single fields, so that what a method does not mention is
    known to be unchanged. */
module RegistryObjects {
  import opened Registry

  class Record {
    const id: Id
    var impact: Status
    var reason: nat
    var message: string
    const firstSeen: int
    var lastSeen: int
    var count: nat
    var active: bool
    var prev: Record?
    var next: Record?

    constructor (d: Diagnostic, now: int)
      ensures id == d.id && View() == Registry.Fresh(d, now) && prev == null && next == null
    {
      id, impact, reason, message := d.id, d.impact, d.reason, Trim(d.message);
      firstSeen, lastSeen, count, active := now, now, 1, true;
      prev, next := null, null;
    }

    function View(): Rec
      reads `impact, `reason, `message, `lastSeen, `count, `active
    {
      Rec(impact, reason, message, firstSeen, lastSeen, count, active)
    }
  }

  function Before(q: seq<Record>, i: nat): Record?
    requires i < |q|
  {
    if i == 0 then null else q[i - 1]
  }

  function After(q: seq<Record>, i: nat): Record?
    requires i < |q|
  {
    if i + 1 == |q| then null else q[i + 1]
  }

  /** The intrusive list: `head`, `tail` and the links of the records spell out `queue`. */
  class InactiveList {
    var head: Record?
    var tail: Record?
    var len: nat
    ghost var queue: seq<Record>

    ghost predicate Linked()
      reads this, queue`prev, queue`next
    {
      NoDuplicates(queue) && len == |queue| && Ends(queue) && Links(queue)
    }

    ghost predicate Ends(q: seq<Record>)
      reads this
    {
      && head == (if q == [] then null else q[0])
      && tail == (if q == [] then null else q[|q| - 1])
    }

    ghost predicate Links(q: seq<Record>)
      reads q`prev, q`next
    {
      forall i {:trigger Before(q, i)} {:trigger After(q, i)} :: 0 <= i < |q| ==>
        q[i].prev == Before(q, i) && q[i].next == After(q, i)
    }

    /** The links after the record at position `k` was taken out. */
    ghost predicate Respliced(q: seq<Record>, k: nat)
      requires k < |q|
      reads q`prev, q`next
    {
      forall i {:trigger Before(q, i)} {:trigger After(q, i)} :: 0 <= i < |q| && i != k ==>
        && q[i].prev == (if i == k + 1 then Before(q, k) else Before(q, i))
        && q[i].next == (if i + 1 == k then After(q, k) else After(q, i))
    }

    constructor ()
      ensures Linked() && queue == []
    {
      head, tail, len, queue := null, null, 0, [];
    }

    /** `pushInactiveTailLocked`. */
    method PushTail(r: Record)
      requires Linked() && r !in queue && r.prev == null && r.next == null
      modifies this, r`prev, queue`next
      ensures Linked() && queue == old(queue) + [r]
    {
      ghost var q := queue;
      if tail == null {
        head, tail := r, r;
      } else {
        assert tail == queue[|queue| - 1];
        r.prev := tail;
        tail.next := r;
        tail := r;
      }
      queue := queue + [r];
      len := len + 1;
      forall i | 0 <= i < |queue| ensures queue[i].prev == Before(queue, i) && queue[i].next == After(queue, i) {
        if i < |q| {
          assert queue[i] == q[i] && Before(queue, i) == Before(q, i);
          assert i + 1 < |q| ==> After(queue, i) == After(q, i);
        }
      }
    }

    /** The pointer surgery of `unlinkInactiveLocked` on the record at position `k`. */
    method Splice(r: Record, ghost k: nat)
      requires Linked() && k < |queue| && queue[k] == r
      modifies `head, `tail, queue`prev, queue`next
      ensures r.prev == null && r.next == null
      ensures head == if k == 0 then After(queue, k) else queue[0]
      ensures tail == if k + 1 == |queue| then Before(queue, k) else queue[|queue| - 1]
      ensures Respliced(queue, k)
    {
      assert r.prev == Before(queue, k) && r.next == After(queue, k);
      if r.prev != null {
        r.prev.next := r.next;
      } else {
        head := r.next;
      }
      if r.next != null {
        r.next.prev := r.prev;
      } else {
        tail := r.prev;
      }
      r.prev, r.next := null, null;
    }

    lemma InQueueIsLinked(r: Record)
      requires Linked() && r in queue
      ensures r.prev != null || r.next != null || head == r
    {
      var k :| 0 <= k < |queue| && queue[k] == r;
      assert r.prev == Before(queue, k);
    }

    /** `unlinkInactiveLocked`: nothing happens to a record that is not in the list. */
    method Unlink(r: Record) returns (removed: bool)
      requires Linked() && (r in queue || (r.prev == null && r.next == null))
      modifies this, queue`prev, queue`next
      ensures Linked() && removed == (r in old(queue))
      ensures queue == Without(old(queue), r)
      ensures removed ==> r.prev == null && r.next == null
    {
      ghost var q := queue;
      if r in queue {
        InQueueIsLinked(r);
      }
      if r.prev == null && r.next == null && head != r {
        NothingWithout(queue, r);
        return false;
      }
      ghost var k :| 0 <= k < |q| && q[k] == r;
      Splice(r, k);
      if len > 0 {
        len := len - 1;
      }
      ResplicedLinks(q, r, k);
      ghost var rest := Without(q, r);
      assert Ends(rest);
      queue := rest;
      removed := true;
    }

    lemma ResplicedLinks(q: seq<Record>, r: Record, k: nat)
      requires NoDuplicates(q) && k < |q| && q[k] == r && Respliced(q, k)
      ensures var rest := Without(q, r);
              && NoDuplicates(rest) && Links(rest) && |rest| == |q| - 1
              && (rest != [] ==>
                    && rest[0] == (if k == 0 then q[1] else q[0])
                    && rest[|rest| - 1] == (if k + 1 == |q| then q[k - 1] else q[|q| - 1]))
    {
      WithoutIsSplice(q, k);
      WithoutKeeps(q, r);
      var rest := Without(q, r);
      forall i | 0 <= i < |rest| ensures rest[i].prev == Before(rest, i) && rest[i].next == After(rest, i) {
        var j := if i < k then i else i + 1;
        assert rest[i] == q[j];
        assert Before(rest, i) == if j == k + 1 then Before(q, k) else Before(q, j);
        assert After(rest, i) == if j + 1 == k then After(q, k) else After(q, j);
      }
    }
  }

  function Views(m: map<Id, Record>): map<Id, Rec>
    reads m.Values`impact, m.Values`reason, m.Values`message, m.Values`lastSeen, m.Values`count, m.Values`active
  {
    map id | id in m :: m[id].View()
  }

  function Ids(q: seq<Record>): (ids: seq<Id>)
    ensures |ids| == |q| && forall i :: 0 <= i < |q| ==> ids[i] == q[i].id
  {
    seq(|q|, i requires 0 <= i < |q| => q[i].id)
  }

  lemma {:induction false} IdsWithout(q: seq<Record>, r: Record)
    requires forall x :: x in q && x.id == r.id ==> x == r
    ensures Ids(Without(q, r)) == Without(Ids(q), r.id)
  {
    if q != [] {
      assert Ids(q)[1..] == Ids(q[1..]);
      IdsWithout(q[1..], r);
    }
  }

  lemma IdsFirst(r: Record, q: seq<Record>)
    ensures Ids([r] + q) == [r.id] + Ids(q)
  {
  }

  lemma WithoutFirst(q: seq<Record>)
    requires q != [] && NoDuplicates(q)
    ensures q[0] !in Without(q, q[0]) && Ids(q) == [q[0].id] + Ids(Without(q, q[0]))
    ensures forall r :: r in Without(q, q[0]) ==> r in q
  {
    assert Without(q, q[0]) == q[1..] && q == [q[0]] + q[1..];
    IdsFirst(q[0], q[1..]);
  }

  lemma IdsAppend(q: seq<Record>, r: Record)
    ensures Ids(q + [r]) == Ids(q) + [r.id]
  {
    assert Ids(q + [r]) == Ids(q) + [r.id];
  }

  lemma IsDeactivated(g: Reg, g': Reg, id: Id)
    requires id in g.records && g'.records == g.records[id := g.records[id].(active := false)] && g'.queue == g.queue + [id]
    requires g'.byKey == g.byKey && g'.dropped == g.dropped && g'.since == g.since[id := g.clock] && g'.clock == g.clock + 1
    ensures g' == Deactivated(g, id)
  {
  }

  lemma IsEvicted(g: Reg, g': Reg, id: Id)
    requires g.queue == [id] + g'.queue && g'.records == g.records - {id}
    requires g'.byKey == Unindexed(g.byKey, id) && g'.dropped == g.dropped && g'.since == g.since - {id} && g'.clock == g.clock
    ensures g' == Evicted(g)
  {
  }

  lemma IsRepeated(g: Reg, g': Reg, d: Diagnostic, now: int)
    requires d.id in g.records && g'.queue == Without(g.queue, d.id) && g'.since == g.since - {d.id} && g'.clock == g.clock
    requires g'.records == g.records[d.id := Rec(d.impact, d.reason, Trim(d.message), g.records[d.id].firstSeen, now, Bump(g.records[d.id].count), true)]
    requires g'.byKey == g.byKey && g'.dropped == g.dropped
    ensures g' == Repeated(g, d, now)
  {
  }

  lemma IsInserted(g: Reg, g': Reg, d: Diagnostic, now: int)
    requires g'.records == g.records[d.id := Registry.Fresh(d, now)] && g'.byKey == Indexed(g.byKey, d.id)
    requires g'.queue == g.queue && g'.dropped == g.dropped && g'.since == g.since && g'.clock == g.clock
    ensures g' == Inserted(g, d, now)
  {
  }

  /** `order` lists, once each, the records among `ids` that were active in `g`. */
  ghost predicate InTurn(g: Reg, order: seq<Id>, ids: set<Id>) {
    NoDuplicates(order) && forall id :: id in order <==> id in ids && id in g.records && g.records[id].active
  }

  /** The records with a given non-empty key, or with a given key and version. */
  ghost function OfKey(g: Reg, key: string, version: string, versionOnly: bool): set<Id> {
    set id | id in g.records && key != "" && id.key == key && (!versionOnly || id.version == version)
  }

  lemma QueueStaysExact(g: Reg, order: seq<Id>, ids: set<Id>)
    requires QueueExact(g) && InTurn(g, order, ids)
    ensures QueueExact(DeactivatedAll(g, order))
  {
    DeactivateAllEffect(g, order);
    var q := g.queue + order;
    forall i, j | 0 <= i < j < |q| ensures q[i] != q[j] {
      assert i < |g.queue| ==> q[i] in g.queue;
      assert j >= |g.queue| ==> q[j] in order;
    }
  }

  lemma OneLess(ids: set<Id>, todo: set<Id>, id: Id)
    requires todo <= ids && id in todo
    ensures todo - {id} <= ids && ids - (todo - {id}) == (ids - todo) + {id} && id !in ids - todo
  {
  }

  lemma NextTurn(g: Reg, order: seq<Id>, done: set<Id>, id: Id)
    requires InTurn(g, order, done) && id in g.records && id !in done
    ensures InTurn(g, if g.records[id].active then order + [id] else order, done + {id})
  {
  }

  /** The diagnostic part of the state object. */
  class Diagnostics {
    const max: nat
    const list: InactiveList
    var diagnosticMap: map<Id, Record>
    var byKey: map<string, set<Id>>
    var dropped: nat
    ghost var since: map<Id, nat>
    ghost var clock: nat

    ghost function View(): Reg
      reads this, list, diagnosticMap.Values
    {
      Reg(Views(diagnosticMap), Ids(list.queue), byKey, dropped, since, clock)
    }

    /** Records sit under their own identity; listed records are mapped ones, and only they are linked. */
    ghost predicate Owned()
      reads this`diagnosticMap, list, list.queue`prev, list.queue`next, diagnosticMap.Values`prev, diagnosticMap.Values`next
    {
      && list.Linked()
      && (forall id :: id in diagnosticMap ==> diagnosticMap[id].id == id)
      && (forall r :: r in list.queue ==> r.id in diagnosticMap && diagnosticMap[r.id] == r)
      && (forall id :: id in diagnosticMap && diagnosticMap[id] !in list.queue ==>
            diagnosticMap[id].prev == null && diagnosticMap[id].next == null)
    }

    ghost predicate Valid()
      reads this, list, list.queue, diagnosticMap.Values
    {
      Owned() && Sound(View(), max)
    }

    constructor (max: nat)
      ensures Valid() && this.max == max && View() == Reg(map[], [], map[], 0, map[], 0)
      ensures fresh(list)
    {
      this.max := max;
      list := new InactiveList();
      diagnosticMap, byKey, dropped, since, clock := map[], map[], 0, map[], 0;
    }

    lemma QueuedIsInactive(r: Record)
      requires Owned() && QueueExact(View()) && r.id in diagnosticMap && diagnosticMap[r.id] == r
      ensures r in list.queue <==> !r.active
    {
      assert Views(diagnosticMap)[r.id] == r.View();
      if r in list.queue {
        var i :| 0 <= i < |list.queue| && list.queue[i] == r;
        assert Ids(list.queue)[i] == r.id;
      }
      if r.id in Ids(list.queue) {
        var i :| 0 <= i < |list.queue| && Ids(list.queue)[i] == r.id;
      }
    }

    method MoveToInactive(r: Record)
      requires Owned() && r.id in diagnosticMap && diagnosticMap[r.id] == r && r !in list.queue
      modifies this`since, this`clock, list, r`active, r`prev, list.queue`next
      ensures Owned() && list.queue == old(list.queue) + [r] && !r.active
      ensures since == old(since)[r.id := old(clock)] && clock == old(clock) + 1
      ensures Views(diagnosticMap) == old(Views(diagnosticMap))[r.id := old(r.View()).(active := false)]
    {
      since, clock := since[r.id := clock], clock + 1;
      r.active := false;
      list.PushTail(r);
      forall id | id in diagnosticMap
        ensures diagnosticMap[id].View() == if id == r.id then old(r.View()).(active := false) else old(diagnosticMap[id].View())
      {
      }
    }

    /** The three places that clear: the record turns inactive and goes to the end of the list. */
    method Deactivate(r: Record)
      requires Owned() && r.id in diagnosticMap && diagnosticMap[r.id] == r && r !in list.queue
      modifies this`since, this`clock, list, r`active, r`prev, list.queue`next
      ensures Owned() && View() == Deactivated(old(View()), r.id)
      ensures list.queue == old(list.queue) + [r] && !r.active
    {
      MoveToInactive(r);
      IdsAppend(old(list.queue), r);
      IsDeactivated(old(View()), Reg(Views(diagnosticMap), Ids(list.queue), byKey, dropped, since, clock), r.id);
    }

    method UnlinkOldest() returns (r: Record)
      requires Owned() && list.head != null
      modifies list, list.queue`prev, list.queue`next
      ensures Owned() && r.id in diagnosticMap && diagnosticMap[r.id] == r && r !in list.queue
      ensures r == old(list.head)
      ensures Ids(old(list.queue)) == [r.id] + Ids(list.queue)
    {
      ghost var q := list.queue;
      r := list.head;
      assert r == q[0] && r in q;
      var ignored := list.Unlink(r);
      WithoutFirst(q);
    }

    method Unmap(r: Record)
      requires Owned() && r.id in diagnosticMap && diagnosticMap[r.id] == r && r !in list.queue
      modifies this`diagnosticMap, this`since
      ensures Owned() && since == old(since) - {r.id} && Views(diagnosticMap) == old(Views(diagnosticMap)) - {r.id}
      ensures diagnosticMap == old(diagnosticMap) - {r.id}
    {
      forall x | x in list.queue ensures x.id != r.id {
        assert diagnosticMap[x.id] == x;
      }
      diagnosticMap := diagnosticMap - {r.id};
      since := since - {r.id};
    }

    method TakeOldest() returns (r: Record)
      requires Owned() && list.head != null
      modifies this`diagnosticMap, this`since, list, list.queue`prev, list.queue`next
      ensures Owned() && r == old(list.head) && Ids(old(list.queue)) == [r.id] + Ids(list.queue)
      ensures since == old(since) - {r.id} && Views(diagnosticMap) == old(Views(diagnosticMap)) - {r.id}
      ensures diagnosticMap == old(diagnosticMap) - {r.id}
    {
      r := UnlinkOldest();
      assert Views(diagnosticMap) == old(Views(diagnosticMap));
      Unmap(r);
    }

    method DropOldest()
      requires Owned() && list.head != null && "" !in byKey
      modifies this`diagnosticMap, this`byKey, this`since, list, list.queue`prev, list.queue`next
      ensures Owned() && View() == Evicted(old(View()))
      ensures forall id :: id in diagnosticMap ==> id in old(diagnosticMap) && diagnosticMap[id] == old(diagnosticMap)[id]
    {
      UnindexDiagnostic(list.head.id);
      var r := TakeOldest();
      IsEvicted(old(View()), Reg(Views(diagnosticMap), Ids(list.queue), byKey, dropped, since, clock), r.id);
    }

    /** `evictOldestInactiveLocked`. */
    method EvictOldestInactive() returns (ok: bool)
      requires Owned() && "" !in byKey
      modifies this`diagnosticMap, this`byKey, this`since, list, list.queue`prev, list.queue`next
      ensures Owned() && ok == (old(list.queue) != [])
      ensures View() == if ok then Evicted(old(View())) else old(View())
      ensures forall id :: id in diagnosticMap ==> id in old(diagnosticMap) && diagnosticMap[id] == old(diagnosticMap)[id]
    {
      if list.head == null {
        return false;
      }
      DropOldest();
      ok := true;
    }

    method IndexDiagnostic(id: Id)
      modifies this`byKey
      ensures byKey == Indexed(old(byKey), id)
      ensures old(Owned()) ==> Owned()
    {
      if id.key == "" {
        return;
      }
      var group := if id.key in byKey then byKey[id.key] else {};
      byKey := byKey[id.key := group + {id}];
    }

    method UnindexDiagnostic(id: Id)
      modifies this`byKey
      ensures "" !in old(byKey) ==> byKey == Unindexed(old(byKey), id)
      ensures (old(Owned()) ==> Owned()) && Views(diagnosticMap) == old(Views(diagnosticMap))
    {
      if id.key == "" || id.key !in byKey {
        return;
      }
      var group := byKey[id.key] - {id};
      byKey := byKey[id.key := group];
      if group == {} {
        byKey := byKey - {id.key};
      }
    }

    method LeaveInactive(r: Record)
      requires Owned() && r.id in diagnosticMap && diagnosticMap[r.id] == r && (r in list.queue <==> !r.active)
      modifies list, list.queue`prev, list.queue`next
      ensures Owned() && list.queue == Without(old(list.queue), r)
    {
      ghost var q := list.queue;
      if !r.active {
        var ignored := list.Unlink(r);
        WithoutKeeps(q, r);
      } else {
        NothingWithout(q, r);
      }
    }

    method Refresh(r: Record, d: Diagnostic, now: int)
      requires d.id in diagnosticMap && diagnosticMap[d.id] == r && forall id :: id in diagnosticMap && id != d.id ==> diagnosticMap[id] != r
      modifies r`impact, r`reason, r`message, r`lastSeen, r`active, r`count
      ensures Views(diagnosticMap) == old(Views(diagnosticMap))[d.id := Rec(d.impact, d.reason, Trim(d.message), r.firstSeen, now, Bump(old(r.count)), true)]
    {
      r.impact, r.reason, r.message, r.lastSeen, r.active := d.impact, d.reason, Trim(d.message), now, true;
      if r.count < MAX_COUNT {
        r.count := r.count + 1;
      }
      forall id | id in diagnosticMap && id != d.id ensures diagnosticMap[id].View() == old(diagnosticMap[id].View()) {
        assert diagnosticMap[id] != r;
      }
      assert r.View() == Rec(d.impact, d.reason, Trim(d.message), r.firstSeen, now, Bump(old(r.count)), true);
    }

    /** The first half of `upsertDiagnosticLocked`, on a record that exists. */
    method Reactivate(r: Record, d: Diagnostic, now: int)
      requires Owned() && d.id in diagnosticMap && diagnosticMap[d.id] == r && (r in list.queue <==> !r.active)
      modifies this`since, list, r, list.queue`prev, list.queue`next
      ensures Owned() && list.queue == Without(old(list.queue), r) && since == old(since) - {d.id}
      ensures Views(diagnosticMap) == old(Views(diagnosticMap))[d.id := Rec(d.impact, d.reason, Trim(d.message), r.firstSeen, now, Bump(old(r.count)), true)]
    {
      since := since - {d.id};
      LeaveInactive(r);
      assert Views(diagnosticMap) == old(Views(diagnosticMap));
      Refresh(r, d, now);
    }

    method RepeatExisting(r: Record, d: Diagnostic, now: int)
      requires Owned() && d.id in diagnosticMap && diagnosticMap[d.id] == r && (r in list.queue <==> !r.active)
      modifies this`since, list, r, list.queue`prev, list.queue`next
      ensures Owned() && View() == Repeated(old(View()), d, now)
    {
      IdsWithout(list.queue, r);
      Reactivate(r, d, now);
      IsRepeated(old(View()), Reg(Views(diagnosticMap), Ids(list.queue), byKey, dropped, since, clock), d, now);
    }

    method InsertNew(d: Diagnostic, now: int)
      requires Owned() && d.id !in diagnosticMap
      modifies this`diagnosticMap, this`byKey
      ensures Owned() && View() == Inserted(old(View()), d, now)
      ensures d.id in diagnosticMap && fresh(diagnosticMap[d.id])
      ensures diagnosticMap == old(diagnosticMap)[d.id := diagnosticMap[d.id]]
    {
      IndexDiagnostic(d.id);
      AddRecord(d, now);
      IsInserted(old(View()), View(), d, now);
    }

    method AddRecord(d: Diagnostic, now: int)
      requires Owned() && d.id !in diagnosticMap
      modifies this`diagnosticMap
      ensures Owned() && d.id in diagnosticMap && fresh(diagnosticMap[d.id])
      ensures diagnosticMap == old(diagnosticMap)[d.id := diagnosticMap[d.id]]
      ensures Views(diagnosticMap) == old(Views(diagnosticMap))[d.id := Registry.Fresh(d, now)]
    {
      var r := new Record(d, now);
      diagnosticMap := diagnosticMap[d.id := r];
      assert Views(diagnosticMap) == old(Views(diagnosticMap))[d.id := r.View()];
    }

    lemma NotMapped(id: Id)
      requires id !in diagnosticMap
      ensures id !in View().records && |View().records| == |diagnosticMap|
    {
      assert Views(diagnosticMap).Keys == diagnosticMap.Keys;
    }

    method MakeRoom(id: Id) returns (ok: bool)
      requires Owned() && "" !in byKey && id !in diagnosticMap
      modifies this, list, list.queue`prev, list.queue`next
      ensures Owned() && forall x :: x in diagnosticMap ==> x in old(diagnosticMap) && diagnosticMap[x] == old(diagnosticMap)[x]
      ensures ok <==> |old(diagnosticMap)| < max || old(list.queue) != []
      ensures View() == if |old(diagnosticMap)| < max then old(View())
                        else if ok then Evicted(old(View())) else old(View()).(dropped := Bump(old(dropped)))
    {
      ok := true;
      if |diagnosticMap| >= max {
        ok := EvictOldestInactive();
        if !ok {
          CountDropped();
        }
      }
    }

    method UpsertNew(d: Diagnostic, now: int) returns (ok: bool)
      requires Owned() && "" !in byKey && d.id !in diagnosticMap
      modifies this, list, list.queue`prev, list.queue`next
      ensures Owned() && View() == Upserted(old(View()), max, d, now)
      ensures ok <==> !Full(old(View()), max, d.id)
    {
      ghost var g := View();
      NotMapped(d.id);
      assert g.queue == [] <==> list.queue == [];
      ok := MakeRoom(d.id);
      ghost var g1 := View();
      if ok {
        InsertNew(d, now);
        assert View() == Inserted(g1, d, now);
      }
    }

    method CountDropped()
      modifies this`dropped
      ensures dropped == Bump(old(dropped)) && (old(Owned()) ==> Owned())
    {
      if dropped < MAX_COUNT {
        dropped := dropped + 1;
      }
    }

    /** `upsertDiagnosticLocked`. */
    method Upsert(d: Diagnostic, now: int) returns (structural: bool, ok: bool)
      requires Valid()
      modifies this, list, diagnosticMap.Values
      ensures Owned() && View() == Upserted(old(View()), max, d, now)
      ensures ok <==> !Full(old(View()), max, d.id)
      ensures structural ==> ok
    {
      if d.id in diagnosticMap {
        var r := diagnosticMap[d.id];
        QueuedIsInactive(r);
        structural := !r.active || r.impact != d.impact || r.reason != d.reason;
        assert d.id in View().records;
        RepeatExisting(r, d, now);
        return structural, true;
      }
      ok := UpsertNew(d, now);
      structural := ok;
    }

    /** One turn of the clearing loops. */
    method ClearTurn(id: Id, ghost g: Reg, ghost order: seq<Id>, ghost done: set<Id>)
      returns (turned: bool, ghost order': seq<Id>)
      requires Owned() && QueueExact(View()) && id in diagnosticMap && id !in done
      requires InTurn(g, order, done) && View() == DeactivatedAll(g, order)
      modifies this`since, this`clock, list, diagnosticMap.Values`active, diagnosticMap.Values`prev, diagnosticMap.Values`next
      ensures Owned() && InTurn(g, order', done + {id}) && View() == DeactivatedAll(g, order')
      ensures turned == (order' != order) && |order'| >= |order|
    {
      var r := diagnosticMap[id];
      DeactivateAllEffect(g, order);
      QueuedIsInactive(r);
      assert View().records[id] == r.View();
      turned := r.active;
      NextTurn(g, order, done, id);
      order' := order;
      if turned {
        Deactivate(r);
        assert (order + [id])[..|order|] == order;
        order' := order + [id];
      }
    }

    /** Deactivates the chosen active records one by one, in whatever order the map yields them. */
    method DeactivateEach(ids: set<Id>) returns (changed: bool, ghost order: seq<Id>)
      requires Owned() && QueueExact(View()) && forall id :: id in ids ==> id in diagnosticMap
      modifies this`since, this`clock, list, diagnosticMap.Values`active, diagnosticMap.Values`prev, diagnosticMap.Values`next
      ensures Owned() && InTurn(old(View()), order, ids) && changed == (order != [])
      ensures View() == DeactivatedAll(old(View()), order)
    {
      ghost var g := View();
      order, changed := [], false;
      var todo := ids;
      ghost var done: set<Id> := {};
      while todo != {}
        invariant Owned() && diagnosticMap == old(diagnosticMap) && changed == (order != [])
        invariant todo <= ids && done == ids - todo
        invariant InTurn(g, order, done) && View() == DeactivatedAll(g, order)
        decreases todo
      {
        var id :| id in todo;
        var turned;
        QueueStaysExact(g, order, done);
        turned, order := ClearTurn(id, g, order, done);
        changed := changed || turned;
        OneLess(ids, todo, id);
        done := done + {id};
        todo := todo - {id};
      }
      assert ids - todo == ids;
    }

    /** The registry part of `ClearDiagnostic`. */
    method ClearOne(id: Id) returns (changed: bool)
      requires Owned() && QueueExact(View())
      modifies this`since, this`clock, list, diagnosticMap.Values`active, diagnosticMap.Values`prev, list.queue`next
      ensures Owned() && changed == (id in old(View()).records && old(View()).records[id].active)
      ensures View() == if changed then Deactivated(old(View()), id) else old(View())
    {
      if id !in diagnosticMap {
        return false;
      }
      var r := diagnosticMap[id];
      QueuedIsInactive(r);
      changed := r.active;
      if changed {
        Deactivate(r);
      }
    }

    /** `clearDiagnosticsLocked`: the records of one key, found through the index. */
    method ClearDiagnostics(key: string, version: string, versionOnly: bool) returns (changed: bool, ghost order: seq<Id>)
      requires Owned() && QueueExact(View()) && IndexExact(View())
      modifies this`since, this`clock, list, diagnosticMap.Values`active, diagnosticMap.Values`prev, diagnosticMap.Values`next
      ensures Owned() && InTurn(old(View()), order, OfKey(old(View()), key, version, versionOnly)) && changed == (order != [])
      ensures View() == DeactivatedAll(old(View()), order)
    {
      var group := if key in byKey then byKey[key] else {};
      var ids := set id | id in group && (!versionOnly || id.version == version);
      assert ids == OfKey(View(), key, version, versionOnly);
      changed, order := DeactivateEach(ids);
    }
  }
}
