/** The cache objects: shards with a map and a list, and the budget loop over them.

    A shard's methods are the critical sections under its lock; what each does to the list
    of items, and the delta it hands back, are the functions of module CacheModel. The
    methods of the cache apply that delta to the global counter afterwards, here with
    nothing else in flight; what other interleavings do to the counter is the state
    machine of that module. */
module Cache {
  import opened CacheModel
  import opened Options

  class Shard {
    var itemMap: map<string, Item>
    var lru: seq<Item>
    var entries: int
    var bytes: int

    /** Map and list hold the same items; the counters are their number and size. */
    ghost predicate Valid()
      reads this
    {
      && DistinctKeys(lru)
      && (forall it :: it in lru <==> it.key in itemMap && itemMap[it.key] == it)
      && (forall k :: k in itemMap ==> itemMap[k].key == k)
      && entries == |lru| && bytes == SizeOf(lru)
    }

    constructor ()
      ensures Valid() && lru == []
    {
      itemMap, lru, entries, bytes := map[], [], 0, 0;
    }

    /** `lru.Remove` of the element that the map holds for a key. */
    method Unlink(key: string) returns (it: Item)
      requires Valid() && key in itemMap
      modifies this`lru
      ensures it == old(itemMap)[key] && lru == Without(old(lru), key)
      ensures ItemSize(it) == SizeAt(old(lru), key) && |lru| == |old(lru)| - 1
      ensures ItemsAt(old(lru), key) == [it]
    {
      it := itemMap[key];
      assert it in lru;
      ItemsAtSize(lru, key);
      WithoutSize(lru, key);
      WithoutItems(lru, key);
      OnlyItem(lru, it);
      lru := Without(lru, key);
    }

    /** `get`: a live item moves to the front, an expired one is removed and its size handed back. */
    method Get(key: string, now: int) returns (value: Option<Item>, freed: int, ghost op: Op)
      requires Valid()
      modifies this
      ensures Valid()
      ensures value == if key in old(itemMap) && old(itemMap)[key].expiry > now then Some(old(itemMap)[key]) else None
      ensures op == if value.Some? then Hit(key) else Expire(key)
      ensures lru == After(old(lru), op) && freed == 0 - Delta(old(lru), op) >= 0
      ensures value.Some? ==> value.value.key == key && freed == 0 && MovedToFront(old(lru), lru, value.value)
      ensures value.None? ==> TakenOut(old(lru), lru, key)
      ensures value.None? && key in old(itemMap) ==> freed == ItemSize(old(itemMap)[key])
    {
      WithoutIsTakenOut(lru, key);
      op := Expire(key);
      if key !in itemMap {
        MissingKey(key);
        return None, 0, op;
      }
      var it := itemMap[key];
      if it.expiry <= now {
        Drop(key);
        return None, ItemSize(it), op;
      }
      HitMovesToFront(lru, it);
      Touch(key);
      return Some(it), 0, Hit(key);
    }

    method Drop(key: string)
      requires Valid() && key in itemMap
      modifies this
      ensures Valid() && lru == After(old(lru), Expire(key))
      ensures Delta(old(lru), Expire(key)) == 0 - ItemSize(old(itemMap)[key])
    {
      DeltaIsExact(lru, Expire(key));
      WithoutItems(lru, key);
      var it := Unlink(key);
      itemMap := itemMap - {key};
      entries, bytes := entries - 1, bytes - ItemSize(it);
    }

    /** `lru.MoveToFront`. */
    method Touch(key: string)
      requires Valid() && key in itemMap
      modifies this`lru
      ensures Valid() && lru == After(old(lru), Hit(key))
    {
      DeltaIsExact(lru, Hit(key));
      FrontItems(lru, itemMap[key]);
      var it := Unlink(key);
      lru := [it] + lru;
    }

    lemma MissingKey(key: string)
      requires Valid() && key !in itemMap
      ensures !HasKey(lru, key) && Without(lru, key) == lru && SizeAt(lru, key) == 0 && ItemsAt(lru, key) == []
    {
      forall i | 0 <= i < |lru| ensures lru[i].key != key {
        assert lru[i] in lru;
      }
      WithoutSize(lru, key);
      ItemsAtSize(lru, key);
    }

    /** Makes room in the list for an item with this key. */
    method Detach(key: string) returns (size: nat)
      requires Valid()
      modifies this`lru, this`entries
      ensures lru == Without(old(lru), key) && size == SizeAt(old(lru), key) && entries == |lru| + 1
    {
      if key in itemMap {
        var existing := Unlink(key);
        size := ItemSize(existing);
      } else {
        MissingKey(key);
        entries := entries + 1;
        size := 0;
      }
    }

    /** `insert`. */
    method InsertItem(it: Item) returns (delta: int)
      requires Valid()
      modifies this
      ensures Valid()
      ensures lru == After(old(lru), Insert(it)) && delta == Delta(old(lru), Insert(it))
      ensures itemMap == old(itemMap)[it.key := it]
    {
      DeltaIsExact(lru, Insert(it));
      FrontItems(lru, it);
      var existing := Detach(it.key);
      delta := ItemSize(it) - existing;
      lru := [it] + lru;
      itemMap := itemMap[it.key := it];
      bytes := bytes + delta;
    }

    /** `evictTail`: the least recently used item; nothing is freed only when the shard is empty. */
    method EvictLast() returns (freed: int)
      requires Valid()
      modifies this
      ensures Valid()
      ensures lru == After(old(lru), EvictTail) && freed == 0 - Delta(old(lru), EvictTail)
      ensures freed == 0 <==> old(lru) == []
      ensures LastTaken(old(lru), lru, freed)
    {
      DeltaIsExact(lru, EvictTail);
      TailIsLastTaken(lru);
      if lru == [] {
        return 0;
      }
      LastItem(lru);
      var it := lru[|lru| - 1];
      lru := lru[..|lru| - 1];
      itemMap := itemMap - {it.key};
      entries, bytes := entries - 1, bytes - ItemSize(it);
      freed := ItemSize(it);
    }

    /** `clear`. */
    method ClearAll() returns (freed: int)
      requires Valid()
      modifies this
      ensures Valid() && lru == [] && freed == SizeOf(old(lru))
    {
      freed := bytes;
      itemMap, lru, entries, bytes := map[], [], 0, 0;
    }
  }

  // ---- The cache ----

  class CacheObj {
    const shards: seq<Shard>
    const shardOf: string -> nat
    const budget: nat
    var curBytes: int
    var cursor: nat
    var evictions: nat

    ghost function Lists(): seq<Lru>
      reads shards
    {
      seq(|shards|, i requires 0 <= i < |shards| reads shards => shards[i].lru)
    }

    /** The shards are sound; the counter may still be owed some deltas. */
    ghost predicate Sound()
      reads this`cursor, shards
    {
      && |shards| == SHARD_COUNT && budget >= SHARD_COUNT && cursor < CURSOR_MODULUS
      && (forall i, j :: 0 <= i < j < |shards| ==> shards[i] != shards[j])
      && (forall key :: shardOf(key) < SHARD_COUNT)
      && forall i :: 0 <= i < |shards| ==> shards[i].Valid()
    }

    /** Nothing in flight: the counter is the size of all items. */
    ghost predicate Valid()
      reads this`cursor, this`curBytes, shards
    {
      Sound() && curBytes == Total(Lists())
    }

    constructor (shardOf: string -> nat, configured: nat)
      requires forall key :: shardOf(key) < SHARD_COUNT
      ensures Valid() && fresh(shards) && this.shardOf == shardOf
      ensures budget == if configured < SHARD_COUNT then SHARD_COUNT else configured
    {
      var made: seq<Shard> := [];
      for i := 0 to SHARD_COUNT
        invariant |made| == i && fresh(made)
        invariant forall j :: 0 <= j < i ==> made[j].Valid() && made[j].lru == []
        invariant forall j, k :: 0 <= j < k < i ==> made[j] != made[k]
      {
        var s := new Shard();
        made := made + [s];
      }
      shards, this.shardOf := made, shardOf;
      budget := if configured < SHARD_COUNT then SHARD_COUNT else configured;
      curBytes, cursor, evictions := 0, 0, 0;
      new;
      TotalOfEmpty(Lists());
    }

    /** One shard changed by an operation whose delta is then added to the counter. */
    lemma Applied(before: seq<Lru>, i: nat, op: Op)
      requires i < |shards| == |before| && DistinctKeys(before[i])
      requires shards[i].lru == After(before[i], op) && forall j :: 0 <= j < |shards| && j != i ==> shards[j].lru == before[j]
      ensures Lists() == before[i := After(before[i], op)]
      ensures Total(Lists()) == Total(before) + Delta(before[i], op)
    {
      assert Lists() == before[i := After(before[i], op)];
      DeltaIsExact(before[i], op);
      TotalUpdate(before, i, After(before[i], op));
    }

    /** `lookup`. */
    method Lookup(key: string, now: int) returns (value: Option<Item>)
      requires Valid()
      modifies this`curBytes, shards[shardOf(key)]
      ensures Valid()
      ensures var l := old(shards[shardOf(key)].itemMap);
              value == if key in l && l[key].expiry > now then Some(l[key]) else None
      ensures curBytes <= old(curBytes)
      ensures value.Some? ==> value.value.key == key && MovedToFront(old(shards[shardOf(key)].lru), shards[shardOf(key)].lru, value.value)
      ensures value.None? ==> TakenOut(old(shards[shardOf(key)].lru), shards[shardOf(key)].lru, key)
    {
      ghost var before := Lists();
      var i := shardOf(key);
      var freed;
      ghost var op;
      value, freed, op := shards[i].Get(key, now);
      Settle(before, i, op, freed);
    }

    /** The update of the counter after a lookup: only if something was freed. */
    method Settle(ghost before: seq<Lru>, ghost i: nat, ghost op: Op, freed: int)
      requires Sound() && i < |shards| == |before| && curBytes == Total(before) && DistinctKeys(before[i])
      requires shards[i].lru == After(before[i], op) && forall j :: 0 <= j < |shards| && j != i ==> shards[j].lru == before[j]
      requires freed == 0 - Delta(before[i], op) && freed >= 0
      modifies this`curBytes
      ensures Valid() && curBytes == old(curBytes) - freed
    {
      Applied(before, i, op);
      if freed > 0 {
        curBytes := curBytes - freed;
      }
    }

    /** The next index of the round robin; the cursor is a wrapping 64-bit counter. */
    method NextShard() returns (i: nat)
      requires cursor < CURSOR_MODULUS
      modifies this`cursor
      ensures cursor < CURSOR_MODULUS && cursor == (old(cursor) + 1) % CURSOR_MODULUS && i == cursor % SHARD_COUNT && i == (old(cursor) % SHARD_COUNT + 1) % SHARD_COUNT
    {
      cursor := (cursor + 1) % CURSOR_MODULUS;
      i := cursor % SHARD_COUNT;
    }

    /** The last `streak` shards that the round robin visited are empty. */
    ghost predicate EmptyBehind(streak: nat)
      reads this`cursor, shards
      requires |shards| == SHARD_COUNT
    {
      streak <= SHARD_COUNT && forall j :: 0 <= j < streak ==> shards[Behind(cursor, j)].lru == []
    }

    method EvictFrom(i: nat) returns (freed: int)
      requires Valid() && i < SHARD_COUNT
      modifies this`curBytes, shards[i]
      ensures Valid() && Lists() == TailGone(old(Lists()), i)
      ensures curBytes == old(curBytes) - freed && freed == 0 - Delta(old(Lists())[i], EvictTail) && freed >= 0
      ensures freed == 0 <==> old(Lists())[i] == []
    {
      ghost var before := Lists();
      var s := shards[i];
      assert forall j :: 0 <= j < |shards| && j != i ==> shards[j] != s;
      assert before[i] == s.lru;
      freed := s.EvictLast();
      curBytes := curBytes - freed;
      Applied(before, i, EvictTail);
    }

    lemma AllEmpty()
      requires Sound() && EmptyBehind(SHARD_COUNT)
      ensures Total(Lists()) == 0
    {
      forall i | 0 <= i < SHARD_COUNT ensures shards[i].lru == [] {
        var j := (cursor % SHARD_COUNT + SHARD_COUNT - i) % SHARD_COUNT;
        assert Behind(cursor, j) == i;
      }
      TotalOfEmpty(Lists());
    }

    lemma StreakGrows(before: nat, streak: nat)
      requires |shards| == SHARD_COUNT && streak < SHARD_COUNT && cursor % SHARD_COUNT == (before % SHARD_COUNT + 1) % SHARD_COUNT
      requires forall j :: 0 <= j < streak ==> shards[Behind(before, j)].lru == []
      requires shards[cursor % SHARD_COUNT].lru == []
      ensures EmptyBehind(streak + 1)
    {
      forall j | 0 <= j < streak + 1 ensures shards[Behind(cursor, j)].lru == [] {
        BehindNext(before, cursor, j);
      }
    }

    /** One turn of the eviction loop: the next shard loses its last item, if it has one. */
    method EvictTurn(emptyStreak: nat) returns (streak: nat)
      requires Valid() && EmptyBehind(emptyStreak) && emptyStreak < SHARD_COUNT
      modifies this`curBytes, this`cursor, this`evictions, shards
      ensures Valid() && EmptyBehind(streak)
      ensures cursor == (old(cursor) + 1) % CURSOR_MODULUS && Lists() == TailGone(old(Lists()), cursor % SHARD_COUNT)
      ensures old(curBytes) - curBytes == 0 - Delta(old(Lists())[cursor % SHARD_COUNT], EvictTail)
      ensures if old(Lists())[cursor % SHARD_COUNT] == [] then curBytes == old(curBytes) && streak == emptyStreak + 1
              else curBytes < old(curBytes) && streak == 0
    {
      ghost var cursor0, before := cursor, Lists();
      var i := NextShard();
      var freed := EvictFrom(i);
      if freed == 0 {
        StreakContinues(before, cursor0, emptyStreak);
        return emptyStreak + 1;
      }
      evictions := evictions + 1;
      return 0;
    }

    lemma StreakContinues(before: seq<Lru>, c: nat, streak: nat)
      requires Sound() && |before| == SHARD_COUNT && streak < SHARD_COUNT && cursor % SHARD_COUNT == (c % SHARD_COUNT + 1) % SHARD_COUNT
      requires before[cursor % SHARD_COUNT] == [] && Lists() == TailGone(before, cursor % SHARD_COUNT)
      requires forall j :: 0 <= j < streak ==> before[Behind(c, j)] == []
      ensures EmptyBehind(streak + 1)
    {
      TailGoneIsOneLess(before, cursor % SHARD_COUNT);
      forall j | 0 <= j < SHARD_COUNT && before[j] == [] ensures shards[j].lru == [] {
        assert Lists()[j] == [];
      }
      StreakGrows(c, streak);
    }

    /** `evictToBudget`: it terminates, removes only from the ends of the lists, stops as soon as the total
        is within the budget, and with nothing else in flight gets there. */
    method EvictToBudget()
      requires Valid()
      modifies this`curBytes, this`cursor, this`evictions, shards
      ensures Valid() && curBytes <= budget
      ensures EvictedAsNeeded(old(Lists()), Lists(), curBytes, budget)
      ensures old(curBytes) <= budget ==> Lists() == old(Lists())
    {
      var emptyStreak: nat := 0;
      while curBytes > budget
        invariant Valid() && emptyStreak < SHARD_COUNT && EmptyBehind(emptyStreak)
        invariant EvictedAsNeeded(old(Lists()), Lists(), curBytes, budget)
        invariant old(curBytes) <= budget ==> curBytes == old(curBytes) && Lists() == old(Lists())
        decreases curBytes, SHARD_COUNT - emptyStreak
      {
        ghost var mid, bytes := Lists(), curBytes;
        emptyStreak := EvictTurn(emptyStreak);
        TurnKeepsNeeded(old(Lists()), mid, cursor % SHARD_COUNT, bytes, curBytes, budget);
        if emptyStreak >= SHARD_COUNT {
          AllEmpty();
          break;
        }
      }
    }

    /** The item is at the front of its shard in place of what had its key, unless eviction went that far. */
    ghost predicate Stored(before: seq<Lru>, it: Item)
      reads shards
    {
      |before| == |shards| && shardOf(it.key) < |shards| &&
      exists rest: Lru :: TakenOut(before[shardOf(it.key)], rest, it.key) && shards[shardOf(it.key)].lru <= [it] + rest
    }

    /** `Set`: a positive time to live stores the item and evicts back to the budget. */
    method Set(key: string, payload: string, etag: string, ttl: int, now: int)
      requires Valid()
      modifies this`curBytes, this`cursor, this`evictions, shards
      ensures Valid()
      ensures ttl <= 0 ==> Lists() == old(Lists())
      ensures ttl > 0 ==> curBytes <= budget
      ensures ttl > 0 ==> var it, i := Item(key, payload, etag, now + ttl), shardOf(key);
        var stored := old(Lists())[i := After(old(shards[i].lru), Insert(it))];
        && (forall j :: 0 <= j < |shards| ==> shards[j].lru <= stored[j])
        && (Total(stored) <= budget ==> Lists() == stored)
      ensures ttl > 0 ==> Stored(old(Lists()), Item(key, payload, etag, now + ttl))
    {
      if ttl <= 0 {
        return;
      }
      var it := Item(key, payload, etag, now + ttl);
      ghost var before := Lists();
      StoreItem(it);
      ghost var stored := Lists();
      EvictToBudget();
      assert NoMore(stored, Lists());
      IsStored(before, stored, it);
    }

    lemma IsStored(before: seq<Lru>, stored: seq<Lru>, it: Item)
      requires Sound() && |before| == |shards| && DistinctKeys(before[shardOf(it.key)])
      requires stored == before[shardOf(it.key) := After(before[shardOf(it.key)], Insert(it))] && NoMore(stored, Lists())
      ensures Stored(before, it)
    {
      var i := shardOf(it.key);
      WithoutIsTakenOut(before[i], it.key);
      assert Lists()[i] <= stored[i] == [it] + Without(before[i], it.key);
    }

    method StoreItem(it: Item)
      requires Valid()
      modifies this`curBytes, shards[shardOf(it.key)]
      ensures Valid()
      ensures Lists() == old(Lists())[shardOf(it.key) := After(old(shards[shardOf(it.key)].lru), Insert(it))]
    {
      ghost var before := Lists();
      var s := shards[shardOf(it.key)];
      assert forall j :: 0 <= j < |shards| && j != shardOf(it.key) ==> shards[j] != s;
      var delta := s.InsertItem(it);
      curBytes := curBytes + delta;
      Applied(before, shardOf(it.key), Insert(it));
    }

    /** `Clear`. */
    method Clear()
      requires Valid()
      modifies this`curBytes, shards
      ensures Valid() && curBytes == 0 && forall i :: 0 <= i < |shards| ==> shards[i].lru == []
    {
      for i := 0 to SHARD_COUNT
        invariant Valid() && forall j :: 0 <= j < i ==> shards[j].lru == []
      {
        ClearShard(i);
      }
      TotalOfEmpty(Lists());
    }

    method ClearShard(i: nat)
      requires Valid() && i < SHARD_COUNT
      modifies this`curBytes, shards[i]
      ensures Valid() && shards[i].lru == []
    {
      ghost var before := Lists();
      var freed := shards[i].ClearAll();
      curBytes := curBytes - freed;
      Applied(before, i, CacheModel.Clear);
    }
  }

  const CURSOR_MODULUS: nat := 0x1_0000_0000_0000_0000

  function Behind(cursor: nat, j: nat): (i: nat)
    ensures i < SHARD_COUNT
  {
    (cursor % SHARD_COUNT + SHARD_COUNT - j) % SHARD_COUNT
  }

  lemma BehindNext(before: nat, cursor: nat, j: nat)
    requires cursor % SHARD_COUNT == (before % SHARD_COUNT + 1) % SHARD_COUNT && j < SHARD_COUNT
    ensures Behind(cursor, j) == if j == 0 then cursor % SHARD_COUNT else Behind(before, j - 1)
  {
  }

  lemma LastItem(l: Lru)
    requires l != [] && DistinctKeys(l)
    ensures var last := l[|l| - 1];
            last in l && forall it :: it in l[..|l| - 1] <==> it in l && it.key != last.key
  {
    var init, last := l[..|l| - 1], l[|l| - 1];
    assert l == init + [last];
    forall it | it in init ensures it.key != last.key {
      var i :| 0 <= i < |init| && init[i] == it;
    }
  }

  lemma FrontItems(l: Lru, it: Item)
    requires DistinctKeys(l)
    ensures forall x :: x in [it] + Without(l, it.key) <==> x == it || (x in l && x.key != it.key)
  {
    WithoutItems(l, it.key);
  }

  lemma {:induction false} OnlyItem(l: Lru, it: Item)
    requires DistinctKeys(l) && it in l
    ensures ItemsAt(l, it.key) == [it]
  {
    if l[0].key != it.key {
      OnlyItem(l[1..], it);
    }
  }
}
