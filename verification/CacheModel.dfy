/** The sharded byte cache as values: what each critical section does to one shard, and why bytes are
    conserved when the global counter is updated later, outside the shard lock. */
module CacheModel {

  const SHARD_COUNT: nat := 32
  const ENTRY_OVERHEAD_BYTES: nat := 64

  datatype Item = Item(key: string, payload: string, etag: string, expiry: int)

  function ItemSize(it: Item): nat {
    |it.key| + |it.payload| + |it.etag| + ENTRY_OVERHEAD_BYTES
  }

  /** The items of a shard, most recently used first. */
  type Lru = seq<Item>

  predicate DistinctKeys(l: Lru) {
    forall i, j :: 0 <= i < j < |l| ==> l[i].key != l[j].key
  }

  predicate HasKey(l: Lru, key: string) {
    exists i :: 0 <= i < |l| && l[i].key == key
  }

  function SizeOf(l: Lru): nat {
    if l == [] then 0 else ItemSize(l[0]) + SizeOf(l[1..])
  }

  function Without(l: Lru, key: string): Lru {
    if l == [] then [] else if l[0].key == key then l[1..] else [l[0]] + Without(l[1..], key)
  }

  function SizeAt(l: Lru, key: string): nat {
    if l == [] then 0 else if l[0].key == key then ItemSize(l[0]) else SizeAt(l[1..], key)
  }

  lemma {:induction false} WithoutSize(l: Lru, key: string)
    ensures SizeOf(l) == SizeOf(Without(l, key)) + SizeAt(l, key)
    ensures !HasKey(l, key) ==> Without(l, key) == l && SizeAt(l, key) == 0
    ensures |Without(l, key)| == |l| - if HasKey(l, key) then 1 else 0
  {
    if l != [] && l[0].key != key {
      var rest := l[1..];
      WithoutSize(rest, key);
      assert HasKey(l, key) <==> HasKey(rest, key) by {
        assert forall i :: 0 <= i < |rest| ==> rest[i] == l[i + 1];
        if HasKey(l, key) {
          var i :| 0 <= i < |l| && l[i].key == key;
          assert rest[i - 1].key == key;
        }
      }
    }
  }

  lemma {:induction false} WithoutItems(l: Lru, key: string)
    requires DistinctKeys(l)
    ensures forall it :: it in Without(l, key) <==> it in l && it.key != key
    ensures forall it :: it in l && it.key == key ==> SizeAt(l, key) == ItemSize(it)
  {
    if l != [] {
      var rest := l[1..];
      assert l == [l[0]] + rest;
      assert forall it :: it in rest ==> it.key != l[0].key;
      WithoutItems(rest, key);
    }
  }

  lemma {:induction false} WithoutDistinct(l: Lru, key: string)
    requires DistinctKeys(l)
    ensures DistinctKeys(Without(l, key))
  {
    if l != [] && l[0].key != key {
      var rest := l[1..];
      assert l == [l[0]] + rest;
      WithoutDistinct(rest, key);
      WithoutItems(rest, key);
      var w := Without(l, key);
      forall i, j | 0 <= i < j < |w| ensures w[i].key != w[j].key {
        assert w[j] in Without(rest, key);
      }
    }
  }

  lemma WithoutKeeps(l: Lru, key: string)
    requires DistinctKeys(l)
    ensures DistinctKeys(Without(l, key)) && !HasKey(Without(l, key), key)
    ensures forall it :: it in Without(l, key) <==> it in l && it.key != key
    ensures SizeOf(l) == SizeOf(Without(l, key)) + SizeAt(l, key)
  {
    WithoutSize(l, key);
    WithoutItems(l, key);
    WithoutDistinct(l, key);
    assert forall i :: 0 <= i < |Without(l, key)| ==> Without(l, key)[i] in Without(l, key);
  }

  lemma {:induction false} SizeOfAppend(l: Lru, m: Lru)
    ensures SizeOf(l + m) == SizeOf(l) + SizeOf(m)
  {
    if l == [] {
      assert l + m == m;
    } else {
      assert (l + m)[1..] == l[1..] + m;
      SizeOfAppend(l[1..], m);
    }
  }

  // ---- One critical section of a shard ----

  datatype Op = Hit(key: string) | Expire(key: string) | Insert(it: Item) | EvictTail | Clear

  /** The shard after the operation. */
  function After(l: Lru, op: Op): Lru {
    match op
    case Hit(key) => if ItemsAt(l, key) == [] then l else ItemsAt(l, key) + Without(l, key)
    case Expire(key) => Without(l, key)
    case Insert(it) => [it] + Without(l, it.key)
    case EvictTail => if l == [] then l else l[..|l| - 1]
    case Clear => []
  }

  /** The first item with a key, as a sequence of at most one. */
  function ItemsAt(l: Lru, key: string): (r: Lru)
    ensures |r| <= 1
  {
    if l == [] then [] else if l[0].key == key then [l[0]] else ItemsAt(l[1..], key)
  }

  /** What the operation hands back to be added to the global counter. */
  function Delta(l: Lru, op: Op): int {
    match op
    case Hit(_) => 0
    case Expire(key) => 0 - SizeAt(l, key)
    case Insert(it) => ItemSize(it) - SizeAt(l, it.key)
    case EvictTail => if l == [] then 0 else 0 - ItemSize(l[|l| - 1])
    case Clear => 0 - SizeOf(l)
  }

  lemma {:induction false} ItemsAtSize(l: Lru, key: string)
    ensures SizeOf(ItemsAt(l, key)) == SizeAt(l, key)
    ensures ItemsAt(l, key) != [] ==> ItemsAt(l, key)[0] in l && ItemsAt(l, key)[0].key == key
    ensures ItemsAt(l, key) == [] <==> !HasKey(l, key)
  {
    if l != [] && l[0].key != key {
      ItemsAtSize(l[1..], key);
      if HasKey(l, key) {
        var i :| 0 <= i < |l| && l[i].key == key;
        assert l[1..][i - 1].key == key;
      }
    }
  }

  /** Every operation changes the bytes of the shard by exactly its delta, and keeps keys distinct. */
  lemma DeltaIsExact(l: Lru, op: Op)
    requires DistinctKeys(l)
    ensures SizeOf(After(l, op)) == SizeOf(l) + Delta(l, op)
    ensures DistinctKeys(After(l, op))
  {
    match op
    case Hit(key) =>
      WithoutKeeps(l, key);
      ItemsAtSize(l, key);
      SizeOfAppend(ItemsAt(l, key), Without(l, key));
      FrontKeeps(l, ItemsAt(l, key), key);
    case Expire(key) => WithoutKeeps(l, key);
    case Insert(it) =>
      WithoutKeeps(l, it.key);
      SizeOfAppend([it], Without(l, it.key));
      FrontKeeps(l, [it], it.key);
    case EvictTail =>
      if l != [] {
        SizeOfAppend(l[..|l| - 1], [l[|l| - 1]]);
        assert l == l[..|l| - 1] + [l[|l| - 1]];
      }
    case Clear =>
  }

  lemma FrontKeeps(l: Lru, front: Lru, key: string)
    requires DistinctKeys(l) && |front| <= 1 && forall it :: it in front ==> it.key == key
    ensures DistinctKeys(front + Without(l, key))
  {
    WithoutKeeps(l, key);
    var w, all := Without(l, key), front + Without(l, key);
    forall i, j | 0 <= i < j < |all| ensures all[i].key != all[j].key {
      if i < |front| {
        assert front[i] in front && all[j] in w;
      }
    }
  }

  // ---- Least recently used ----

  /** The item went from where it was to the front; all others keep their order. */
  ghost predicate MovedToFront(l: Lru, l': Lru, it: Item) {
    exists i :: 0 <= i < |l| && l[i] == it && l' == [it] + l[..i] + l[i + 1..]
  }

  /** What had the key went; all others keep their order. */
  ghost predicate TakenOut(l: Lru, l': Lru, key: string) {
    if HasKey(l, key) then exists i :: 0 <= i < |l| && l[i].key == key && l' == l[..i] + l[i + 1..]
    else l' == l
  }

  lemma {:induction false} WithoutAt(l: Lru, i: nat)
    requires DistinctKeys(l) && i < |l|
    ensures Without(l, l[i].key) == l[..i] + l[i + 1..] && ItemsAt(l, l[i].key) == [l[i]]
  {
    if i > 0 {
      assert l[0].key != l[i].key;
      WithoutAt(l[1..], i - 1);
      assert l[1..][..i - 1] == l[1..i] && l[1..][i..] == l[i + 1..];
      assert [l[0]] + l[1..i] == l[..i];
    }
  }

  lemma WithoutIsTakenOut(l: Lru, key: string)
    requires DistinctKeys(l)
    ensures TakenOut(l, Without(l, key), key)
  {
    WithoutSize(l, key);
    if HasKey(l, key) {
      var i :| 0 <= i < |l| && l[i].key == key;
      WithoutAt(l, i);
    }
  }

  lemma HitMovesToFront(l: Lru, it: Item)
    requires DistinctKeys(l) && it in l
    ensures MovedToFront(l, After(l, Hit(it.key)), it)
  {
    var i :| 0 <= i < |l| && l[i] == it;
    WithoutAt(l, i);
    assert [it] + l[..i] + l[i + 1..] == [it] + (l[..i] + l[i + 1..]);
  }

  /** The last item went, and what was freed is its texts and the fixed overhead; an empty shard frees nothing. */
  ghost predicate LastTaken(l: Lru, l': Lru, freed: int) {
    if l == [] then l' == [] && freed == 0
    else exists it: Item :: l == l' + [it] && freed == |it.key| + |it.payload| + |it.etag| + 64
  }

  lemma TailIsLastTaken(l: Lru)
    ensures LastTaken(l, After(l, EvictTail), 0 - Delta(l, EvictTail))
  {
    if l != [] {
      assert l == l[..|l| - 1] + [l[|l| - 1]];
    }
  }

  predicate MoreRecent(last: map<string, nat>, a: string, b: string) {
    a in last && b in last && last[a] > last[b]
  }

  /** The most recent use comes first: `last` says when each key was last hit or inserted. */
  ghost predicate ByRecency(l: Lru, last: map<string, nat>) {
    && (forall it :: it in l ==> it.key in last)
    && forall i, j :: 0 <= i < j < |l| ==> MoreRecent(last, l[i].key, l[j].key)
  }

  function Stamped(last: map<string, nat>, op: Op, now: nat): map<string, nat> {
    match op
    case Hit(key) => last[key := now]
    case Insert(it) => last[it.key := now]
    case _ => last
  }

  /** When each key was last used, over the first operations of a history. */
  ghost function LastUse(ops: seq<Op>, n: nat): map<string, nat>
    requires n <= |ops|
  {
    if n == 0 then map[] else Stamped(LastUse(ops, n - 1), ops[n - 1], n - 1)
  }

  ghost predicate AllBefore(last: map<string, nat>, now: nat) {
    forall k :: k in last ==> last[k] < now
  }

  lemma {:induction false} LastUseIsPast(ops: seq<Op>, n: nat)
    requires n <= |ops|
    ensures AllBefore(LastUse(ops, n), n)
  {
    if n > 0 {
      LastUseIsPast(ops, n - 1);
    }
  }

  lemma CutKeepsRecency(l: Lru, i: nat, last: map<string, nat>)
    requires ByRecency(l, last) && i < |l|
    ensures ByRecency(l[..i] + l[i + 1..], last)
  {
    var rest := l[..i] + l[i + 1..];
    forall a, b | 0 <= a < b < |rest| ensures MoreRecent(last, rest[a].key, rest[b].key) {
      var x, y := if a < i then a else a + 1, if b < i then b else b + 1;
      assert rest[a] == l[x] && rest[b] == l[y];
    }
  }

  lemma WithoutKeepsRecency(l: Lru, key: string, last: map<string, nat>)
    requires DistinctKeys(l) && ByRecency(l, last)
    ensures ByRecency(Without(l, key), last) && !HasKey(Without(l, key), key)
  {
    WithoutIsTakenOut(l, key);
    WithoutKeeps(l, key);
    if HasKey(l, key) {
      var i :| 0 <= i < |l| && l[i].key == key && Without(l, key) == l[..i] + l[i + 1..];
      CutKeepsRecency(l, i, last);
    }
  }

  lemma FrontKeepsRecency(l: Lru, it: Item, last: map<string, nat>, now: nat)
    requires ByRecency(l, last) && !HasKey(l, it.key) && AllBefore(last, now)
    ensures ByRecency([it] + l, last[it.key := now])
  {
    var all := [it] + l;
    forall i, j | 0 <= i < j < |all| ensures MoreRecent(last[it.key := now], all[i].key, all[j].key) {
      var y := j - 1;
      assert all[j] == l[y] && l[y].key != it.key && l[y] in l;
      if i > 0 {
        var x := i - 1;
        assert all[i] == l[x] && l[x].key != it.key && MoreRecent(last, l[x].key, l[y].key);
      }
    }
  }

  lemma StampKeepsRecency(l: Lru, key: string, last: map<string, nat>, now: nat)
    requires ByRecency(l, last) && !HasKey(l, key)
    ensures ByRecency(l, last[key := now])
  {
    forall i, j | 0 <= i < j < |l| ensures MoreRecent(last[key := now], l[i].key, l[j].key) {
      assert MoreRecent(last, l[i].key, l[j].key) && l[i].key != key && l[j].key != key;
    }
  }

  lemma HitKeepsRecency(l: Lru, key: string, last: map<string, nat>, now: nat)
    requires DistinctKeys(l) && ByRecency(l, last) && AllBefore(last, now)
    ensures ByRecency(After(l, Hit(key)), last[key := now])
  {
    WithoutKeepsRecency(l, key, last);
    ItemsAtSize(l, key);
    if ItemsAt(l, key) == [] {
      StampKeepsRecency(l, key, last, now);
    } else {
      var it := ItemsAt(l, key)[0];
      assert ItemsAt(l, key) == [it];
      FrontKeepsRecency(Without(l, key), it, last, now);
    }
  }

  lemma StepKeepsRecency(l: Lru, op: Op, last: map<string, nat>, now: nat)
    requires DistinctKeys(l) && ByRecency(l, last) && AllBefore(last, now)
    ensures ByRecency(After(l, op), Stamped(last, op, now))
  {
    match op
    case Hit(key) => HitKeepsRecency(l, key, last, now);
    case Insert(it) =>
      WithoutKeepsRecency(l, it.key, last);
      FrontKeepsRecency(Without(l, it.key), it, last, now);
    case Expire(key) => WithoutKeepsRecency(l, key, last);
    case EvictTail =>
      if l != [] {
        CutKeepsRecency(l, |l| - 1, last);
        assert l[..|l| - 1] + l[|l|..] == l[..|l| - 1];
      }
    case Clear =>
  }

  /** One shard from empty on. */
  ghost predicate History(ls: seq<Lru>, ops: seq<Op>) {
    && |ls| == |ops| + 1 && ls[0] == []
    && forall i :: 0 <= i < |ops| ==> StepOf(ls, ops, i)
  }

  predicate StepOf(ls: seq<Lru>, ops: seq<Op>, i: nat)
    requires i < |ops| && |ls| == |ops| + 1
  {
    ls[i + 1] == After(ls[i], ops[i])
  }

  /** In every history the list is in order of last use, the most recent first. */
  lemma {:induction false} ListIsByRecency(ls: seq<Lru>, ops: seq<Op>, n: nat)
    requires History(ls, ops) && n <= |ops|
    ensures DistinctKeys(ls[n]) && ByRecency(ls[n], LastUse(ops, n))
  {
    if n > 0 {
      var m := n - 1;
      ListIsByRecency(ls, ops, m);
      LastUseIsPast(ops, m);
      DeltaIsExact(ls[m], ops[m]);
      StepKeepsRecency(ls[m], ops[m], LastUse(ops, m), m);
      assert StepOf(ls, ops, m);
    }
  }

  /** So what an eviction takes was used before everything that it leaves. */
  lemma EvictionTakesTheLeastRecentlyUsed(ls: seq<Lru>, ops: seq<Op>, n: nat, it: Item, other: Item)
    requires History(ls, ops) && n < |ops| && ops[n] == EvictTail
    requires it in ls[n] && it !in ls[n + 1] && other in ls[n + 1]
    ensures var last := LastUse(ops, n); it.key in last && other.key in last && last[it.key] < last[other.key]
  {
    ListIsByRecency(ls, ops, n);
    assert StepOf(ls, ops, n);
    var i :| 0 <= i < |ls[n]| && ls[n][i] == it;
    var j :| 0 <= j < |ls[n + 1]| && ls[n + 1][j] == other;
    assert i == |ls[n]| - 1 && ls[n][j] == other;
    assert MoreRecent(LastUse(ops, n), ls[n][j].key, ls[n][i].key);
  }

  // ---- All shards ----

  function Total(ss: seq<Lru>): nat {
    if ss == [] then 0 else SizeOf(ss[0]) + Total(ss[1..])
  }

  lemma {:induction false} TotalUpdate(ss: seq<Lru>, i: nat, l: Lru)
    requires i < |ss|
    ensures Total(ss[i := l]) == Total(ss) - SizeOf(ss[i]) + SizeOf(l)
  {
    if i > 0 {
      assert ss[i := l][1..] == ss[1..][i - 1 := l];
      TotalUpdate(ss[1..], i - 1, l);
    } else {
      assert ss[i := l][1..] == ss[1..];
    }
  }

  lemma {:induction false} TotalOfEmpty(ss: seq<Lru>)
    requires forall i :: 0 <= i < |ss| ==> ss[i] == []
    ensures Total(ss) == 0
  {
    if ss != [] {
      TotalOfEmpty(ss[1..]);
    }
  }

  // ---- Evicting over all shards ----

  /** The last item of one shard went. */
  ghost predicate OneLess(before: seq<Lru>, after: seq<Lru>, freed: int) {
    |before| == |after| &&
    exists i, it :: 0 <= i < |after| && before == after[i := after[i] + [it]] && freed == ItemSize(it)
  }

  ghost predicate NoMore(before: seq<Lru>, after: seq<Lru>) {
    |before| == |after| && forall i :: 0 <= i < |after| ==> after[i] <= before[i]
  }

  /** Nothing was evicted, or the last item evicted would not fit in with what is left. */
  ghost predicate EvictedAsNeeded(before: seq<Lru>, after: seq<Lru>, bytes: int, budget: int) {
    NoMore(before, after)
    && (after == before || exists i, it :: 0 <= i < |after| && after[i] + [it] <= before[i] && bytes + ItemSize(it) > budget)
  }

  /** The lists when the last item of one shard goes. */
  function TailGone(ls: seq<Lru>, i: nat): (r: seq<Lru>)
    requires i < |ls|
    ensures |r| == |ls|
  {
    ls[i := After(ls[i], EvictTail)]
  }

  lemma TailGoneIsOneLess(before: seq<Lru>, i: nat)
    requires i < |before|
    ensures before[i] != [] ==> OneLess(before, TailGone(before, i), 0 - Delta(before[i], EvictTail))
    ensures before[i] == [] ==> TailGone(before, i) == before
  {
    if before[i] != [] {
      var it, after := before[i][|before[i]| - 1], TailGone(before, i);
      assert after[i] + [it] == before[i];
      assert before == after[i := after[i] + [it]];
    } else {
      assert before[i := before[i]] == before;
    }
  }

  lemma TurnIsNeeded(before: seq<Lru>, mid: seq<Lru>, after: seq<Lru>, bytes: int, freed: int, budget: int)
    requires NoMore(before, mid) && OneLess(mid, after, freed) && bytes + freed > budget
    ensures EvictedAsNeeded(before, after, bytes, budget)
  {
    var i, it :| 0 <= i < |after| && mid == after[i := after[i] + [it]] && freed == ItemSize(it);
    assert mid[i] == after[i] + [it] && after[i] + [it] <= before[i];
    forall k | 0 <= k < |after| ensures after[k] <= before[k] {
      assert mid[k] <= before[k];
    }
  }

  lemma TurnKeepsNeeded(before: seq<Lru>, mid: seq<Lru>, i: nat, bytes: int, bytes': int, budget: int)
    requires EvictedAsNeeded(before, mid, bytes, budget) && bytes > budget && i < |mid|
    requires bytes - bytes' == 0 - Delta(mid[i], EvictTail)
    ensures EvictedAsNeeded(before, TailGone(mid, i), bytes', budget)
  {
    TailGoneIsOneLess(mid, i);
    if mid[i] != [] {
      TurnIsNeeded(before, mid, TailGone(mid, i), bytes', bytes - bytes', budget);
    }
  }

  // ---- Every interleaving ----

  /** `cur` is the global counter; `pending` holds the deltas that operations have handed back and
      their callers have not added yet. */
  datatype Machine = Machine(shards: seq<Lru>, cur: int, pending: seq<int>)

  datatype Step = Shard(i: nat, op: Op) | Apply(at: nat)

  ghost predicate Next(m: Machine, step: Step, m': Machine) {
    match step
    case Shard(i, op) =>
      i < |m.shards|
      && m' == m.(shards := m.shards[i := After(m.shards[i], op)], pending := m.pending + [Delta(m.shards[i], op)])
    case Apply(at) =>
      at < |m.pending|
      && m' == m.(cur := m.cur + m.pending[at], pending := m.pending[..at] + m.pending[at + 1..])
  }

  function SumOf(p: seq<int>): int {
    if p == [] then 0 else p[0] + SumOf(p[1..])
  }

  lemma {:induction false} SumOfAppend(p: seq<int>, q: seq<int>)
    ensures SumOf(p + q) == SumOf(p) + SumOf(q)
  {
    if p == [] {
      assert p + q == q;
    } else {
      assert (p + q)[1..] == p[1..] + q;
      SumOfAppend(p[1..], q);
    }
  }

  ghost predicate Conserved(m: Machine) {
    && (forall i :: 0 <= i < |m.shards| ==> DistinctKeys(m.shards[i]))
    && m.cur + SumOf(m.pending) == Total(m.shards)
  }

  lemma StepConserves(m: Machine, step: Step, m': Machine)
    requires Conserved(m) && Next(m, step, m')
    ensures Conserved(m')
  {
    match step
    case Shard(i, op) =>
      var l := m.shards[i];
      DeltaIsExact(l, op);
      TotalUpdate(m.shards, i, After(l, op));
      SumOfAppend(m.pending, [Delta(l, op)]);
    case Apply(at) =>
      SumOfAppend(m.pending[..at], [m.pending[at]] + m.pending[at + 1..]);
      SumOfAppend([m.pending[at]], m.pending[at + 1..]);
      SumOfAppend(m.pending[..at], m.pending[at + 1..]);
      assert m.pending == m.pending[..at] + ([m.pending[at]] + m.pending[at + 1..]);
  }

  ghost predicate Run(ms: seq<Machine>, steps: seq<Step>) {
    && |ms| == |steps| + 1
    && Conserved(ms[0])
    && forall i :: 0 <= i < |steps| ==> Next(ms[i], steps[i], ms[i + 1])
  }

  /** Bytes are conserved in every interleaving: the counter plus the deltas on their way is the size
      of all items; when nothing is on its way the counter is that size. */
  lemma {:induction false} BytesAreConserved(ms: seq<Machine>, steps: seq<Step>, i: nat)
    requires Run(ms, steps) && i < |ms|
    ensures Conserved(ms[i])
    ensures ms[i].pending == [] ==> ms[i].cur == Total(ms[i].shards)
    decreases i
  {
    if i > 0 {
      BytesAreConserved(ms, steps, i - 1);
      StepConserves(ms[i - 1], steps[i - 1], ms[i]);
    }
  }

  /** The counter alone may run ahead or behind. It is negative if and only if the deltas on their way
      add up to more than the size of all items. */
  lemma NegativeWhileDeltasAreDue(ms: seq<Machine>, steps: seq<Step>, i: nat)
    requires Run(ms, steps) && i < |ms|
    ensures ms[i].cur < 0 <==> SumOf(ms[i].pending) > Total(ms[i].shards)
  {
    BytesAreConserved(ms, steps, i);
  }

  /** An item evicted before its insertion was added does that. */
  lemma CounterMayBeNegative(it: Item) returns (ms: seq<Machine>, steps: seq<Step>)
    ensures Run(ms, steps) && |ms| == 4 && ms[3].cur < 0
  {
    var m0 := Machine([[]], 0, []);
    steps := [Shard(0, Insert(it)), Shard(0, EvictTail), Apply(1)];
    var m1 := Machine([[it]], 0, [ItemSize(it)]);
    var m2 := Machine([[]], 0, [ItemSize(it), 0 - ItemSize(it)]);
    var m3 := Machine([[]], 0 - ItemSize(it), [ItemSize(it)]);
    assert Total([[]]) == 0;
    assert m0.shards[0 := [it]] == [[it]];
    assert [it] + Without([], it.key) == [it];
    assert m1.shards[0 := []] == [[]] && [it][..0] == [];
    assert m2.pending[..1] + m2.pending[2..] == [ItemSize(it)];
    ms := [m0, m1, m2, m3];
  }
}
