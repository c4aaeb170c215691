/** The bounded diagnostic registry as a value: records, an index by key, the inactive queue. */
module Registry {
  // The queue holds the inactive records in the order in which they became inactive; on the heap
  // it is an intrusive doubly linked list.

  import Utf8

  datatype Scope = GlobalScope | KeyScope | VersionScope

  datatype Status = Ok | Degraded | Error

  /** The identity of a diagnostic. */
  datatype Id = Id(code: string, scope: Scope, key: string, version: string)

  datatype Diagnostic = Diagnostic(id: Id, impact: Status, reason: nat, message: string)

  datatype Rec = Rec(impact: Status, reason: nat, message: string, firstSeen: int, lastSeen: int, count: nat, active: bool)

  /** The registry as a value. `since` stamps each record with the moment it last became inactive. */
  datatype Reg = Reg(records: map<Id, Rec>, queue: seq<Id>, byKey: map<string, set<Id>>, dropped: nat,
                     since: map<Id, nat>, clock: nat)

  const MAX_COUNT: nat := 0xFFFF_FFFF_FFFF_FFFF
  const MAX_MESSAGE_BYTES: nat := 4096

  function Bump(n: nat): nat {
    if n < MAX_COUNT then n + 1 else n
  }

  function Trim(message: string): string {
    if |message| <= MAX_MESSAGE_BYTES then message else Utf8.ValidPrefix(message, MAX_MESSAGE_BYTES)
  }

  /** A stored message is at most 4096 bytes; cutting takes as little as keeps it valid UTF-8, so of a
      valid message at most three bytes more. */
  lemma TrimKeepsText(message: string)
    ensures var t := Trim(message); t <= message && |t| <= MAX_MESSAGE_BYTES && (|message| <= MAX_MESSAGE_BYTES ==> t == message)
    ensures |message| > MAX_MESSAGE_BYTES ==>
      Utf8.Valid(Trim(message)) && forall k :: 0 <= k <= MAX_MESSAGE_BYTES && Utf8.Valid(message[..k]) ==> k <= |Trim(message)|
    ensures Utf8.Valid(message) && |message| > MAX_MESSAGE_BYTES ==> |Trim(message)| >= MAX_MESSAGE_BYTES - 3
  {
    if |message| > MAX_MESSAGE_BYTES {
      Utf8.PrefixIsLongest(message, MAX_MESSAGE_BYTES);
      Utf8.PrefixWithin(message, MAX_MESSAGE_BYTES);
      if Utf8.Valid(message) {
        Utf8.CutKeepsValid(message, MAX_MESSAGE_BYTES);
      }
    }
  }

  // ---- The operations on values ----

  function Without<T(==)>(q: seq<T>, x: T): seq<T> {
    if q == [] then [] else if q[0] == x then q[1..] else [q[0]] + Without(q[1..], x)
  }

  function Indexed(byKey: map<string, set<Id>>, id: Id): map<string, set<Id>> {
    if id.key == "" then byKey
    else byKey[id.key := (if id.key in byKey then byKey[id.key] else {}) + {id}]
  }

  function Unindexed(byKey: map<string, set<Id>>, id: Id): map<string, set<Id>> {
    if id.key !in byKey then byKey
    else
      var rest := byKey[id.key] - {id};
      if rest == {} then byKey - {id.key} else byKey[id.key := rest]
  }

  function Deactivated(g: Reg, id: Id): Reg
    requires id in g.records
  {
    g.(records := g.records[id := g.records[id].(active := false)], queue := g.queue + [id],
       since := g.since[id := g.clock], clock := g.clock + 1)
  }

  function Evicted(g: Reg): Reg
    requires g.queue != []
  {
    var id := g.queue[0];
    g.(records := g.records - {id}, queue := g.queue[1..], byKey := Unindexed(g.byKey, id), since := g.since - {id})
  }

  function Fresh(d: Diagnostic, now: int): Rec {
    Rec(d.impact, d.reason, Trim(d.message), now, now, 1, true)
  }

  function Inserted(g: Reg, d: Diagnostic, now: int): Reg {
    g.(records := g.records[d.id := Fresh(d, now)], byKey := Indexed(g.byKey, d.id))
  }

  function Repeated(g: Reg, d: Diagnostic, now: int): Reg
    requires d.id in g.records
  {
    var r := g.records[d.id];
    g.(records := g.records[d.id := Rec(d.impact, d.reason, Trim(d.message), r.firstSeen, now, Bump(r.count), true)],
       queue := Without(g.queue, d.id), since := g.since - {d.id})
  }

  predicate Full(g: Reg, max: nat, id: Id) {
    id !in g.records && |g.records| >= max && g.queue == []
  }

  /** `upsertDiagnosticLocked`. */
  function Upserted(g: Reg, max: nat, d: Diagnostic, now: int): Reg {
    if d.id in g.records then Repeated(g, d, now)
    else if |g.records| < max then Inserted(g, d, now)
    else if g.queue == [] then g.(dropped := Bump(g.dropped))
    else Inserted(Evicted(g), d, now)
  }

  /** What raising a diagnostic that is not dropped does to the records: its own says what was raised and
      when, first and last, and how often; of the others at most one goes, an inactive one. */
  ghost predicate Raised(g: Reg, g': Reg, d: Diagnostic, now: int) {
    && d.id in g'.records
    && var r := g'.records[d.id];
    && r.impact == d.impact && r.reason == d.reason && r.message == Trim(d.message) && r.lastSeen == now && r.active
    && (d.id !in g.records ==> r.firstSeen == now && r.count == 1)
    && (d.id in g.records ==>
          && r.firstSeen == g.records[d.id].firstSeen
          && (g.records[d.id].count < MAX_COUNT ==> r.count == g.records[d.id].count + 1)
          && (g.records[d.id].count >= MAX_COUNT ==> r.count == g.records[d.id].count))
    && g'.dropped == g.dropped
    && (forall id :: id in g'.records && id != d.id ==> id in g.records && g'.records[id] == g.records[id])
    && (forall id :: id in g.records && id !in g'.records ==> !g.records[id].active && d.id !in g.records && g.queue != [] && id == g.queue[0])
  }

  /** And a dropped one is counted, up to the 64-bit maximum, and changes nothing else. */
  ghost predicate Dropped(g: Reg, g': Reg) {
    && g' == g.(dropped := g'.dropped)
    && g'.dropped == if g.dropped < MAX_COUNT then g.dropped + 1 else g.dropped
  }

  lemma UpsertRaises(g: Reg, max: nat, d: Diagnostic, now: int)
    requires Sound(g, max)
    ensures if Full(g, max, d.id) then Dropped(g, Upserted(g, max, d, now)) else Raised(g, Upserted(g, max, d, now), d, now)
  {
    assert g.queue != [] ==> g.queue[0] in g.queue;
  }

  // ---- What every operation keeps ----

  predicate NoDuplicates<T(==)>(q: seq<T>) {
    forall i, j :: 0 <= i < j < |q| ==> q[i] != q[j]
  }

  ghost predicate QueueExact(g: Reg) {
    && NoDuplicates(g.queue)
    && (forall id :: id in g.queue <==> id in g.records && !g.records[id].active)
  }

  /** The queue is in the order in which its records last became inactive. */
  ghost predicate QueueOrdered(g: Reg) {
    && (forall id :: id in g.queue ==> id in g.since && g.since[id] < g.clock)
    && Ascending(g.queue, g.since)
  }

  ghost predicate Ascending(q: seq<Id>, since: map<Id, nat>) {
    forall i, j :: 0 <= i < j < |q| ==> q[i] in since && q[j] in since && since[q[i]] < since[q[j]]
  }

  lemma SpliceAscending(q: seq<Id>, since: map<Id, nat>, k: nat)
    requires Ascending(q, since) && NoDuplicates(q) && k < |q|
    ensures Ascending(q[..k] + q[k + 1..], since - {q[k]})
  {
    var rest := q[..k] + q[k + 1..];
    forall i, j | 0 <= i < j < |rest|
      ensures rest[i] in since - {q[k]} && rest[j] in since - {q[k]} && since[rest[i]] < since[rest[j]]
    {
      var a, b := if i < k then i else i + 1, if j < k then j else j + 1;
      assert rest[i] == q[a] && rest[j] == q[b] && a < b;
      assert q[a] != q[k] && q[b] != q[k];
    }
  }

  /** The index holds exactly the records that have a key, without empty groups. */
  ghost predicate IndexExact(g: Reg) {
    && "" !in g.byKey
    && (forall k :: k in g.byKey ==> g.byKey[k] != {} && forall id :: id in g.byKey[k] <==> id in g.records && id.key == k)
    && (forall id :: id in g.records && id.key != "" ==> id.key in g.byKey)
  }

  ghost predicate Sound(g: Reg, max: nat) {
    |g.records| <= max && QueueExact(g) && QueueOrdered(g) && IndexExact(g)
  }

  lemma {:induction false} WithoutKeeps<T>(q: seq<T>, x: T)
    requires NoDuplicates(q)
    ensures NoDuplicates(Without(q, x))
    ensures forall y :: y in Without(q, x) <==> y in q && y != x
    ensures |Without(q, x)| == |q| - if x in q then 1 else 0
  {
    if q != [] {
      assert q == [q[0]] + q[1..];
      assert q[0] !in q[1..];
      WithoutKeeps(q[1..], x);
    }
  }

  /** Removing one element leaves the others in their order. */
  lemma {:induction false} WithoutIsSplice<T>(q: seq<T>, i: nat)
    requires NoDuplicates(q) && i < |q|
    ensures Without(q, q[i]) == q[..i] + q[i + 1..]
  {
    if i > 0 {
      assert q[0] != q[i];
      WithoutIsSplice(q[1..], i - 1);
      assert q[1..][..i - 1] == q[1..i] && q[1..][i..] == q[i + 1..];
      assert [q[0]] + q[1..i] == q[..i];
    }
  }

  lemma WithoutOrdered(g: Reg, g': Reg, id: Id)
    requires QueueExact(g) && QueueOrdered(g)
    requires g'.queue == Without(g.queue, id) && g'.since == g.since - {id} && g'.clock == g.clock
    ensures QueueOrdered(g')
  {
    WithoutKeeps(g.queue, id);
    if id in g.queue {
      var i :| 0 <= i < |g.queue| && g.queue[i] == id;
      WithoutIsSplice(g.queue, i);
      SpliceAscending(g.queue, g.since, i);
    } else {
      NothingWithout(g.queue, id);
    }
  }

  lemma {:induction false} NothingWithout<T>(q: seq<T>, x: T)
    requires x !in q
    ensures Without(q, x) == q
  {
    if q != [] {
      NothingWithout(q[1..], x);
    }
  }

  lemma DeactivateKeeps(g: Reg, max: nat, id: Id)
    requires Sound(g, max) && id in g.records && g.records[id].active
    ensures Sound(Deactivated(g, id), max)
  {
    var g' := Deactivated(g, id);
    assert g'.records.Keys == g.records.Keys;
    assert |g'.records| == |g'.records.Keys|;
  }

  lemma EvictedQueue(g: Reg)
    requires QueueExact(g) && QueueOrdered(g) && g.queue != []
    ensures QueueExact(Evicted(g)) && QueueOrdered(Evicted(g))
  {
    var gone, g' := g.queue[0], Evicted(g);
    assert g'.queue == Without(g.queue, gone);
    WithoutKeeps(g.queue, gone);
    WithoutOrdered(g, g', gone);
  }

  lemma FirstIsLongestInactive(g: Reg, id: Id)
    requires QueueExact(g) && QueueOrdered(g) && id in g.records && !g.records[id].active && id != g.queue[0]
    ensures g.since[g.queue[0]] < g.since[id]
  {
    assert id in g.queue;
    var i :| 0 <= i < |g.queue| && g.queue[i] == id;
  }

  /** Eviction takes an inactive record, and every other inactive one became inactive later. */
  lemma EvictionTakesTheLongestInactive(g: Reg, max: nat)
    requires Sound(g, max) && g.queue != []
    ensures Sound(Evicted(g), max)
    ensures |Evicted(g).records| == |g.records| - 1
    ensures var gone := g.queue[0];
            && gone in g.records && !g.records[gone].active
            && Evicted(g).records == g.records - {gone}
            && forall id :: id in g.records && !g.records[id].active && id != gone ==> g.since[gone] < g.since[id]
  {
    var gone, g' := g.queue[0], Evicted(g);
    assert gone in g.queue;
    CountKeys(g.records, g'.records);
    assert g'.records.Keys == g.records.Keys - {gone};
    forall id | id in g.records && !g.records[id].active && id != gone ensures id in g.queue && g.since[gone] < g.since[id] {
      FirstIsLongestInactive(g, id);
    }
    EvictedQueue(g);
    UnindexKeeps(g, gone);
    SameIndex(g.(records := g.records - {gone}, byKey := Unindexed(g.byKey, gone)), g');
  }

  lemma CountKeys(m: map<Id, Rec>, n: map<Id, Rec>)
    ensures |m| == |m.Keys| && |n| == |n.Keys|
  {
  }

  lemma SameIndex(g: Reg, h: Reg)
    requires IndexExact(g) && g.records == h.records && g.byKey == h.byKey
    ensures IndexExact(h)
  {
  }

  lemma UnindexKeeps(g: Reg, id: Id)
    requires IndexExact(g) && id in g.records
    ensures IndexExact(g.(records := g.records - {id}, byKey := Unindexed(g.byKey, id)))
  {
    var g' := g.(records := g.records - {id}, byKey := Unindexed(g.byKey, id));
    forall k | k in g'.byKey ensures g'.byKey[k] != {} && forall x :: x in g'.byKey[k] <==> x in g'.records && x.key == k {
      assert g'.byKey[k] == g.byKey[k] - {id};
    }
    forall x | x in g'.records && x.key != "" ensures x.key in g'.byKey {
      assert x in g.byKey[x.key] - {id};
    }
  }

  lemma IndexKeeps(g: Reg, d: Diagnostic, now: int)
    requires IndexExact(g)
    ensures IndexExact(Inserted(g, d, now))
  {
    var g' := Inserted(g, d, now);
    forall k | k in g'.byKey ensures g'.byKey[k] != {} && forall x :: x in g'.byKey[k] <==> x in g'.records && x.key == k {
      if k == d.id.key {
        assert d.id in g'.byKey[k];
      }
    }
  }

  lemma InsertKeeps(g: Reg, max: nat, d: Diagnostic, now: int)
    requires Sound(g, max) && d.id !in g.records && |g.records| < max
    ensures Sound(Inserted(g, d, now), max)
  {
    var g' := Inserted(g, d, now);
    CountKeys(g.records, g'.records);
    assert g'.records.Keys == g.records.Keys + {d.id};
    IndexKeeps(g, d, now);
    InsertKeepsQueue(g, d, now);
  }

  lemma InsertKeepsQueue(g: Reg, d: Diagnostic, now: int)
    requires QueueExact(g) && QueueOrdered(g) && d.id !in g.records
    ensures QueueExact(Inserted(g, d, now)) && QueueOrdered(Inserted(g, d, now))
  {
  }

  lemma RepeatKeeps(g: Reg, max: nat, d: Diagnostic, now: int)
    requires Sound(g, max) && d.id in g.records
    ensures Sound(Repeated(g, d, now), max)
  {
    var g' := Repeated(g, d, now);
    WithoutKeeps(g.queue, d.id);
    WithoutOrdered(g, g', d.id);
    CountKeys(g.records, g'.records);
    assert g'.records.Keys == g.records.Keys;
  }

  /** Raising keeps the registry sound and within its capacity. */
  lemma UpsertKeeps(g: Reg, max: nat, d: Diagnostic, now: int)
    requires Sound(g, max)
    ensures Sound(Upserted(g, max, d, now), max)
  {
    if d.id in g.records {
      RepeatKeeps(g, max, d, now);
    } else if |g.records| < max {
      InsertKeeps(g, max, d, now);
    } else if g.queue != [] {
      EvictionTakesTheLongestInactive(g, max);
      InsertKeeps(Evicted(g), max, d, now);
    }
  }

  /** Raising never touches an active record other than its own, and is refused exactly when a full
      registry is all active; the refusal only counts. */
  lemma UpsertSparesActive(g: Reg, max: nat, d: Diagnostic, now: int)
    requires Sound(g, max)
    ensures var g' := Upserted(g, max, d, now);
            && (forall id :: id in g.records && g.records[id].active && id != d.id ==> id in g'.records && g'.records[id] == g.records[id])
            && (d.id !in g'.records <==> d.id !in g.records && |g.records| == max && forall id :: id in g.records ==> g.records[id].active)
            && (d.id !in g'.records ==> g' == g.(dropped := Bump(g.dropped)))
            && (d.id in g'.records ==> g'.records[d.id].active && g'.dropped == g.dropped)
  {
    assert g.queue != [] ==> g.queue[0] in g.queue;
    if g.queue == [] {
      forall id | id in g.records ensures g.records[id].active {
        assert id !in g.queue;
      }
    }
  }

  /** Deactivations in the order in which the map yields the records. */
  function DeactivatedAll(g: Reg, order: seq<Id>): (r: Reg)
    requires forall id :: id in order ==> id in g.records
    ensures r.records.Keys == g.records.Keys
  {
    if order == [] then g
    else Deactivated(DeactivatedAll(g, order[..|order| - 1]), order[|order| - 1])
  }

  /** A clear deactivates exactly the chosen records and queues them in the order visited. */
  lemma {:induction false} DeactivateAllEffect(g: Reg, order: seq<Id>)
    requires forall id :: id in order ==> id in g.records
    ensures var g' := DeactivatedAll(g, order);
            && g'.queue == g.queue + order && g'.byKey == g.byKey && g'.dropped == g.dropped
            && forall id :: id in g.records ==> g'.records[id] == if id in order then g.records[id].(active := false) else g.records[id]
  {
    if order != [] {
      var init, last := order[..|order| - 1], order[|order| - 1];
      assert order == init + [last];
      DeactivateAllEffect(g, init);
      assert g.queue + order == (g.queue + init) + [last];
    }
  }

  /** Whatever that order is, the registry stays sound. */
  lemma {:induction false} DeactivateAllKeeps(g: Reg, max: nat, order: seq<Id>)
    requires Sound(g, max) && NoDuplicates(order)
    requires forall id :: id in order ==> id in g.records && g.records[id].active
    ensures Sound(DeactivatedAll(g, order), max)
  {
    if order != [] {
      var init, last := order[..|order| - 1], order[|order| - 1];
      assert order == init + [last];
      assert last !in init;
      DeactivateAllKeeps(g, max, init);
      DeactivateAllEffect(g, init);
      DeactivateKeeps(DeactivatedAll(g, init), max, last);
    }
  }
}
