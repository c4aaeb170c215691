/** Making room for a publish: pruning per key, then evicting the oldest ingests, under
    `writeMu` and never touching what the incoming tree shares or what a key must retain. */
module Quotas {
  import opened ObjectModel
  import opened DurableStores
  import opened EvictionOrder
  import opened LiveBlobs
  import opened Paging
  import opened Options
  import Lex

  datatype Limits = Limits(maxTotalSize: nat, evictToSize: nat, retainLatestPerKey: nat, maxVersionsPerKey: nat)

  datatype Verdict = Admitted | IoFailure | AdmissionRefused | StillOverAfterEviction

  // ---- The versions of a key, newest first ----

  datatype Ranked = Ranked(upstreamSeq: nat, id: VersionId)

  /** `sortVersions`: newest first. */
  predicate Newer(a: Ranked, b: Ranked) {
    || a.upstreamSeq > b.upstreamSeq
    || (a.upstreamSeq == b.upstreamSeq && Lex.Less(b.id.version, a.id.version))
    || (a.upstreamSeq == b.upstreamSeq && a.id.version == b.id.version && Lex.Less(b.id.key, a.id.key))
  }

  lemma NewerIsTotal()
    ensures StrictTotal(Newer)
  {
    Lex.StrictOrder();
  }

  lemma KeyOrderIsTotal()
    ensures StrictTotal(Lex.Less)
  {
    Lex.StrictOrder();
  }

  function RankOf(vs: map<VersionId, Row>, id: VersionId): Ranked
    requires id in vs
  {
    Ranked(vs[id].upstreamSeq, id)
  }

  /** The versions of the same key that are listed before `id`. */
  ghost function NewerOf(vs: map<VersionId, Row>, id: VersionId): set<VersionId>
    requires id in vs
  {
    set k | k in vs && k.key == id.key && Newer(RankOf(vs, k), RankOf(vs, id))
  }

  ghost predicate AmongNewest(vs: map<VersionId, Row>, id: VersionId, retain: nat)
    requires id in vs
  {
    |NewerOf(vs, id)| < retain
  }

  // ---- What eviction may do ----

  /** One deletion of a version that shares nothing with the incoming tree, cleaned up or not. */
  ghost predicate OneEviction(c: Codec, s: Store, s': Store, incoming: Hash, id: VersionId) {
    && CanDelete(c, s, id) && !SharesWith(c, s.versions[id].tree, incoming)
    && PartlySwept(c, DeleteRow(c, s, id), s', s.versions[id].tree)
  }

  ghost predicate EvictedInSteps(c: Codec, s0: Store, s1: Store, incoming: Hash, n: nat)
    decreases n
  {
    if n == 0 then s1 == s0
    else exists mid, id :: EvictedInSteps(c, s0, mid, incoming, n - 1) && OneEviction(c, mid, s1, incoming, id)
  }

  /** The one store came from the other by such deletions alone. */
  ghost predicate EvictedStepwise(c: Codec, s0: Store, s1: Store, incoming: Hash) {
    exists n: nat :: EvictedInSteps(c, s0, s1, incoming, n)
  }

  lemma NoStep(c: Codec, s: Store, incoming: Hash)
    ensures EvictedStepwise(c, s, s, incoming)
  {
    assert EvictedInSteps(c, s, s, incoming, 0);
  }

  lemma OneMoreStep(c: Codec, s0: Store, s1: Store, s2: Store, incoming: Hash, id: VersionId)
    requires EvictedStepwise(c, s0, s1, incoming) && OneEviction(c, s1, s2, incoming, id)
    ensures EvictedStepwise(c, s0, s2, incoming)
  {
    var n: nat :| EvictedInSteps(c, s0, s1, incoming, n);
    assert EvictedInSteps(c, s0, s2, incoming, n + 1);
  }

  /** Between two stores only versions were evicted: none shares an object with the incoming tree,
      none is among its key's newest, and no object of the incoming tree was lost. */
  ghost predicate OnlyEvicted(c: Codec, s0: Store, s1: Store, incoming: Hash, retain: nat) {
    && Healthy(c, s1)
    && (Exact(c, s0) ==> Exact(c, s1))
    && (forall id :: id in s1.versions ==> id in s0.versions && s1.versions[id] == s0.versions[id])
    && (forall id :: id in s0.versions && id !in s1.versions ==>
          !SharesWith(c, s0.versions[id].tree, incoming) && !AmongNewest(s0.versions, id, retain))
    && s1.objects <= s0.objects
    && (forall o :: o in s0.objects && o !in s1.objects ==> o !in ObjectsOf(c, incoming))
    && EvictedStepwise(c, s0, s1, incoming)
  }

  lemma EvictOneMore(c: Codec, s0: Store, s1: Store, s2: Store, incoming: Hash, retain: nat, id: VersionId)
    requires OnlyEvicted(c, s0, s1, incoming, retain)
    requires id in s1.versions && !SharesWith(c, s1.versions[id].tree, incoming) && !AmongNewest(s0.versions, id, retain)
    requires CanDelete(c, s1, id) && PartlySwept(c, DeleteRow(c, s1, id), s2, s1.versions[id].tree)
    ensures OnlyEvicted(c, s0, s2, incoming, retain)
    ensures s2.versions == s1.versions - {id}
  {
    OneMoreStep(c, s0, s1, s2, incoming, id);
    DeleteVersionKeeps(c, s1, s2, id);
    SharesNothing(c, s1.versions[id].tree, incoming);
  }

  lemma SharesNothing(c: Codec, h: Hash, incoming: Hash)
    requires !SharesWith(c, h, incoming)
    ensures ObjectsOf(c, h) !! ObjectsOf(c, incoming)
  {
  }

  /** The listing order of one key, written out: the higher position first, then the version that is later
      byte by byte. */
  predicate ListedBefore(vs: map<VersionId, Row>, k: VersionId, id: VersionId)
    requires k in vs && id in vs
  {
    && k.key == id.key
    && (vs[k].upstreamSeq > vs[id].upstreamSeq || (vs[k].upstreamSeq == vs[id].upstreamSeq && Lex.Less(id.version, k.version)))
  }

  /** Whatever was evicted had at least the retained number of its key's versions before it. */
  lemma KeepsTheNewest(c: Codec, s0: Store, s1: Store, incoming: Hash, retain: nat, id: VersionId)
    requires OnlyEvicted(c, s0, s1, incoming, retain) && id in s0.versions && id !in s1.versions
    ensures |set k | k in s0.versions && ListedBefore(s0.versions, k, id)| >= retain
  {
    Lex.StrictOrder();
    assert NewerOf(s0.versions, id) == set k | k in s0.versions && ListedBefore(s0.versions, k, id);
  }

  /** Of what pruning may take from a key, it takes nothing that is listed before a version that stays. */
  lemma PrunesTheOldest(c: Codec, vs: map<VersionId, Row>, incoming: Hash, retain: nat, cap: nat, id: VersionId, other: VersionId)
    requires var left := AfterPruning(c, vs, incoming, retain, cap); id in vs && id !in left && other in left
    requires id.key == other.key && !SharesWith(c, vs[other].tree, incoming)
    ensures ListedBefore(vs, other, id)
  {
    NewerIsTotal();
    var n, m := NewerOf(vs, id), NewerOf(vs, other);
    if !Newer(RankOf(vs, other), RankOf(vs, id)) {
      assert id != other;
      assert n <= m;
      SmallerSet(n, m);
    }
    Lex.StrictOrder();
  }

  /** `versionProtected`, from the row's tree hash. */
  method VersionProtected(s: DurableStore, h: Hash, incoming: Hash, blobs: set<Hash>) returns (shared: bool, failed: bool)
    requires blobs == BlobsOf(s.codec.treeOf(incoming))
    ensures !failed ==> (shared <==> SharesWith(s.codec, h, incoming))
    ensures s.reliable && Tree(h) in s.objects ==> !failed
  {
    if h == incoming {
      return true, false;
    }
    var fault := s.Fault();
    if fault || Tree(h) !in s.objects {
      return false, true;
    }
    var t := s.codec.treeOf(h);
    for i := 0 to |t|
      invariant forall j :: 0 <= j < i ==> t[j].blob !in blobs
    {
      if t[i].blob in blobs {
        assert t[i].blob in BlobsOf(t);
        return true, false;
      }
    }
    return false, false;
  }

  method ListVersions(s: DurableStore, key: string) returns (listed: seq<Ranked>)
    ensures Sorted(Newer, listed)
    ensures forall r :: r in listed <==> r.id in s.versions && r.id.key == key && r == RankOf(s.versions, r.id)
  {
    NewerIsTotal();
    var rows := set id | id in s.versions && id.key == key :: Ranked(s.versions[id].upstreamSeq, id);
    listed := SortAll(rows, Newer);
  }

  /** In a newest-first listing the position of a version is the number of newer ones. */
  lemma PositionCountsNewer(vs: map<VersionId, Row>, key: string, listed: seq<Ranked>, i: nat)
    requires Sorted(Newer, listed) && i < |listed|
    requires forall r :: r in listed <==> r.id in vs && r.id.key == key && r == RankOf(vs, r.id)
    ensures listed[i] in listed && |NewerOf(vs, listed[i].id)| == i
  {
    NewerIsTotal();
    var before := listed[..i];
    SortedHasNoDuplicates(Newer, before);
    var ranks := set r | r in before;
    var ids := NewerOf(vs, listed[i].id);
    forall k | k in ids ensures RankOf(vs, k) in ranks {
      NewerComesEarlier(listed, i, RankOf(vs, k));
    }
    forall r | r in ranks ensures r.id in ids && r == RankOf(vs, r.id) {
      var j :| 0 <= j < i && before[j] == r;
      assert listed[j] in listed;
    }
    SameSize(vs, ids, ranks);
  }

  lemma NewerComesEarlier(listed: seq<Ranked>, i: nat, r: Ranked)
    requires Sorted(Newer, listed) && StrictTotal(Newer) && i < |listed| && r in listed && Newer(r, listed[i])
    ensures r in listed[..i]
  {
    var j :| 0 <= j < |listed| && listed[j] == r;
    assert listed[..i + 1][i] == listed[i];
    if j < i {
      assert listed[..i][j] == r;
    }
  }

  lemma {:induction false} SameSize(vs: map<VersionId, Row>, ids: set<VersionId>, ranks: set<Ranked>)
    requires forall k :: k in ids ==> k in vs && RankOf(vs, k) in ranks
    requires forall r :: r in ranks ==> r.id in ids && r.id in vs && r == RankOf(vs, r.id)
    ensures |ids| == |ranks|
    decreases ids
  {
    if ids == {} {
      assert ranks == {};
    } else {
      var k :| k in ids;
      SameSize(vs, ids - {k}, ranks - {RankOf(vs, k)});
    }
  }

  // ---- Pruning per key ----

  /** What pruning to `cap` versions per key leaves: the newest of each key, and what the incoming tree shares. */
  ghost predicate Survives(c: Codec, vs: map<VersionId, Row>, incoming: Hash, cap: nat, id: VersionId)
    requires id in vs
  {
    AmongNewest(vs, id, cap) || SharesWith(c, vs[id].tree, incoming)
  }

  /** A key pruned to `cap` versions. */
  ghost predicate KeyPruned(c: Codec, s0: Store, vs: map<VersionId, Row>, incoming: Hash, cap: nat, key: string) {
    forall id :: id in s0.versions && id.key == key ==> (id in vs <==> Survives(c, s0.versions, incoming, cap, id))
  }

  /** `prunePerKeyLocked`: remember the newest, delete the oldest beyond the cap. */
  method PrunePerKey(s: DurableStore, ghost s0: Store, ghost key: string, listed: seq<Ranked>, retain: nat, maxVersions: nat,
                     incoming: Hash, blobs: set<Hash>)
    returns (kept: set<VersionId>, failed: bool)
    requires blobs == BlobsOf(s.codec.treeOf(incoming))
    requires OnlyEvicted(s.codec, s0, s.State(), incoming, retain)
    requires Sorted(Newer, listed) && (maxVersions > 0 ==> retain <= maxVersions)
    requires forall r :: r in listed <==> r.id in s0.versions && r.id.key == key && r == RankOf(s0.versions, r.id)
    requires forall id :: id in s0.versions && id.key == key ==> id in s.versions
    modifies s
    ensures OnlyEvicted(s.codec, s0, s.State(), incoming, retain)
    ensures forall id :: id in kept <==> id in s0.versions && id.key == key && AmongNewest(s0.versions, id, retain)
    ensures forall id: VersionId :: id.key != key ==> (id in s.versions <==> id in old(s.versions))
    ensures maxVersions == 0 ==> s.State() == old(s.State()) && !failed
    ensures !failed && maxVersions > 0 ==> KeyPruned(s.codec, s0, s.versions, incoming, maxVersions, key)
    ensures s.reliable ==> !failed
  {
    kept := RememberNewest(s0, key, listed, retain);
    failed := false;
    if maxVersions > 0 {
      if |listed| > maxVersions {
        failed := DeleteOldest(s, s0, key, listed, retain, maxVersions, incoming, blobs);
      } else {
        ShortListing(s0.versions, key, listed, maxVersions);
      }
    }
  }

  lemma ShortListing(vs: map<VersionId, Row>, key: string, listed: seq<Ranked>, cap: nat)
    requires Sorted(Newer, listed) && |listed| <= cap
    requires forall r :: r in listed <==> r.id in vs && r.id.key == key && r == RankOf(vs, r.id)
    ensures forall id :: id in vs && id.key == key ==> AmongNewest(vs, id, cap)
  {
    forall id | id in vs && id.key == key ensures AmongNewest(vs, id, cap) {
      assert RankOf(vs, id) in listed;
      var i :| 0 <= i < |listed| && listed[i] == RankOf(vs, id);
      PositionCountsNewer(vs, key, listed, i);
    }
  }

  method RememberNewest(ghost s0: Store, ghost key: string, listed: seq<Ranked>, retain: nat) returns (kept: set<VersionId>)
    requires Sorted(Newer, listed)
    requires forall r :: r in listed <==> r.id in s0.versions && r.id.key == key && r == RankOf(s0.versions, r.id)
    ensures forall id :: id in kept <==> id in s0.versions && id.key == key && AmongNewest(s0.versions, id, retain)
  {
    var retainLimit := if retain < |listed| then retain else |listed|;
    kept := set i | 0 <= i < retainLimit :: listed[i].id;
    forall i | 0 <= i < retainLimit
      ensures listed[i].id in s0.versions && listed[i].id.key == key && AmongNewest(s0.versions, listed[i].id, retain)
    {
      PositionCountsNewer(s0.versions, key, listed, i);
    }
    forall id | id in s0.versions && id.key == key && AmongNewest(s0.versions, id, retain) ensures id in kept {
      assert RankOf(s0.versions, id) in listed;
      var i :| 0 <= i < |listed| && listed[i] == RankOf(s0.versions, id);
      PositionCountsNewer(s0.versions, key, listed, i);
    }
  }

  method DeleteOldest(s: DurableStore, ghost s0: Store, ghost key: string, listed: seq<Ranked>, retain: nat, maxVersions: nat,
                      incoming: Hash, blobs: set<Hash>)
    returns (failed: bool)
    requires blobs == BlobsOf(s.codec.treeOf(incoming))
    requires OnlyEvicted(s.codec, s0, s.State(), incoming, retain)
    requires Sorted(Newer, listed) && retain <= maxVersions < |listed|
    requires forall r :: r in listed <==> r.id in s0.versions && r.id.key == key && r == RankOf(s0.versions, r.id)
    requires forall id :: id in s0.versions && id.key == key ==> id in s.versions
    modifies s
    ensures OnlyEvicted(s.codec, s0, s.State(), incoming, retain)
    ensures forall id: VersionId :: id.key != key ==> (id in s.versions <==> id in old(s.versions))
    ensures !failed ==> KeyPruned(s.codec, s0, s.versions, incoming, maxVersions, key)
    ensures s.reliable ==> !failed
  {
    for i := maxVersions to |listed|
      invariant OnlyEvicted(s.codec, s0, s.State(), incoming, retain)
      invariant forall id: VersionId :: id.key != key ==> (id in s.versions <==> id in old(s.versions))
      invariant PrunedFrom(s.codec, s0, s.versions, incoming, listed, maxVersions, i)
    {
      PositionCountsNewer(s0.versions, key, listed, i);
      ghost var before := s.versions;
      failed := PruneOne(s, s0, listed[i].id, retain, incoming, blobs);
      if failed {
        return;
      }
      PrunedOneMore(s.codec, s0, before, s.versions, incoming, listed, maxVersions, i);
    }
    PrunedAll(s.codec, s0, s.versions, incoming, key, listed, maxVersions);
    failed := false;
  }

  /** Of the listed versions, those from position `cap` up to `i` that nothing protects are gone. */
  ghost predicate PrunedFrom(c: Codec, s0: Store, vs: map<VersionId, Row>, incoming: Hash, listed: seq<Ranked>, cap: nat, i: nat) {
    && (forall r :: r in listed ==> r.id in s0.versions)
    && forall j :: 0 <= j < |listed| ==>
         (listed[j].id in vs <==> j < cap || i <= j || SharesWith(c, s0.versions[listed[j].id].tree, incoming))
  }

  lemma PrunedOneMore(c: Codec, s0: Store, before: map<VersionId, Row>, vs: map<VersionId, Row>, incoming: Hash, listed: seq<Ranked>, cap: nat, i: nat)
    requires Sorted(Newer, listed) && cap <= i < |listed| && PrunedFrom(c, s0, before, incoming, listed, cap, i)
    requires forall id :: id != listed[i].id ==> (id in vs <==> id in before)
    requires listed[i].id in vs <==> SharesWith(c, s0.versions[listed[i].id].tree, incoming)
    requires forall r, t :: r in listed && t in listed && r.id == t.id ==> r == t
    ensures PrunedFrom(c, s0, vs, incoming, listed, cap, i + 1)
  {
    NewerIsTotal();
    forall j | 0 <= j < |listed| && j != i ensures listed[j].id != listed[i].id {
      assert listed[j] in listed && listed[i] in listed;
    }
  }

  lemma PrunedAll(c: Codec, s0: Store, vs: map<VersionId, Row>, incoming: Hash, key: string, listed: seq<Ranked>, cap: nat)
    requires Sorted(Newer, listed) && PrunedFrom(c, s0, vs, incoming, listed, cap, |listed|)
    requires forall r :: r in listed <==> r.id in s0.versions && r.id.key == key && r == RankOf(s0.versions, r.id)
    ensures KeyPruned(c, s0, vs, incoming, cap, key)
  {
    forall id | id in s0.versions && id.key == key ensures id in vs <==> Survives(c, s0.versions, incoming, cap, id) {
      assert RankOf(s0.versions, id) in listed;
      var i :| 0 <= i < |listed| && listed[i] == RankOf(s0.versions, id);
      PositionCountsNewer(s0.versions, key, listed, i);
    }
  }

  /** The body of the pruning loop: one version that is not among the newest of its key. */
  method PruneOne(s: DurableStore, ghost s0: Store, id: VersionId, ghost retain: nat, incoming: Hash, blobs: set<Hash>)
    returns (failed: bool)
    requires blobs == BlobsOf(s.codec.treeOf(incoming)) && id in s0.versions && !AmongNewest(s0.versions, id, retain)
    requires OnlyEvicted(s.codec, s0, s.State(), incoming, retain)
    modifies s
    ensures OnlyEvicted(s.codec, s0, s.State(), incoming, retain)
    ensures forall other :: other != id ==> (other in s.versions <==> other in old(s.versions))
    ensures !failed && id in old(s.versions) ==> (id in s.versions <==> SharesWith(s.codec, s0.versions[id].tree, incoming))
    ensures s.reliable ==> !failed
  {
    ghost var before := s.State();
    if id !in s.versions {
      return false;
    }
    assert TreeStored(s.codec, s.objects, s.versions[id].tree);
    var shared, readFailed := VersionProtected(s, s.versions[id].tree, incoming, blobs);
    if readFailed || shared {
      return readFailed;
    }
    var deleted, estimate, deleteFailed := s.DeleteVersion(id);
    if deleted {
      EvictOneMore(s.codec, s0, before, s.State(), incoming, retain, id);
    }
    failed := deleteFailed;
  }

  /** The keys still to be visited. */
  ghost function KeysPast(s0: Store, after: Option<string>): set<string> {
    set id | id in s0.versions && Past(Lex.Less, after, id.key) :: id.key
  }

  ghost predicate Untouched(s0: Store, s: Store, after: Option<string>) {
    forall id :: id in s0.versions && Past(Lex.Less, after, id.key) ==> id in s.versions
  }

  ghost predicate KeptUpTo(s0: Store, after: Option<string>, kept: set<VersionId>, retain: nat) {
    forall id :: id in kept <==> id in s0.versions && !Past(Lex.Less, after, id.key) && AmongNewest(s0.versions, id, retain)
  }

  /** All keys up to the cursor are pruned, when there is a cap at all. */
  ghost predicate PrunedUpTo(c: Codec, s0: Store, vs: map<VersionId, Row>, incoming: Hash, cap: nat, after: Option<string>) {
    cap > 0 ==> forall id :: id in s0.versions && !Past(Lex.Less, after, id.key) ==> (id in vs <==> Survives(c, s0.versions, incoming, cap, id))
  }

  lemma PrunedNextKey(c: Codec, s0: Store, before: map<VersionId, Row>, vs: map<VersionId, Row>, incoming: Hash, cap: nat, prior: Option<string>, key: string)
    requires PrunedUpTo(c, s0, before, incoming, cap, prior) && (cap > 0 ==> KeyPruned(c, s0, vs, incoming, cap, key))
    requires forall id: VersionId :: id.key != key ==> (id in vs <==> id in before)
    requires forall id :: id in s0.versions && Past(Lex.Less, prior, id.key) ==> id.key == key || Past(Lex.Less, Some(key), id.key)
    ensures PrunedUpTo(c, s0, vs, incoming, cap, Some(key))
  {
  }

  lemma KeptNextKey(s0: Store, before: map<VersionId, Row>, vs: map<VersionId, Row>, kept0: set<VersionId>, more: set<VersionId>,
                    retain: nat, prior: Option<string>, key: string)
    requires KeptUpTo(s0, prior, kept0, retain) && Past(Lex.Less, prior, key)
    requires forall id :: id in more <==> id in s0.versions && id.key == key && AmongNewest(s0.versions, id, retain)
    requires forall id :: id in s0.versions && Past(Lex.Less, prior, id.key) ==> id.key == key || Past(Lex.Less, Some(key), id.key)
    requires forall id: VersionId :: id.key != key ==> (id in vs <==> id in before)
    requires forall id :: id in s0.versions && Past(Lex.Less, prior, id.key) ==> id in before
    ensures KeptUpTo(s0, Some(key), kept0 + more, retain)
    ensures forall id :: id in s0.versions && Past(Lex.Less, Some(key), id.key) ==> id in vs
  {
    forall id | id in s0.versions && Past(Lex.Less, Some(key), id.key) ensures Past(Lex.Less, prior, id.key) && id.key != key {
      Lex.Irreflexive(key);
      if prior.Some? {
        Lex.Transitive(prior.value, key, id.key);
      }
    }
  }

  /** Walking through a page skips no key of the original store. */
  lemma StepThroughPage(s0: Store, start: Option<string>, keys: set<string>, page: seq<string>, k: nat)
    requires IsPage(keys, Lex.Less, start, PAGE_SIZE, page) && k < |page| && KeysPast(s0, start) <= keys
    ensures var prior := if k == 0 then start else Some(page[k - 1]);
            && Past(Lex.Less, prior, page[k])
            && forall id :: id in s0.versions && Past(Lex.Less, prior, id.key) ==> id.key == page[k] || Past(Lex.Less, Some(page[k]), id.key)
  {
    var prior := if k == 0 then start else Some(page[k - 1]);
    assert page[k] in page && (k > 0 ==> page[k - 1] in page);
    forall id | id in s0.versions && Past(Lex.Less, prior, id.key)
      ensures id.key == page[k] || Past(Lex.Less, Some(page[k]), id.key)
    {
      if start.Some? && k > 0 {
        Lex.Transitive(start.value, page[k - 1], id.key);
      }
      assert id.key in KeysPast(s0, start);
      if id.key in page {
        var j :| 0 <= j < |page| && page[j] == id.key;
        OnPage(page, k, j);
      }
    }
  }

  /** On a sorted page what comes after one position is at or after the next. */
  lemma OnPage(page: seq<string>, k: nat, j: nat)
    requires Sorted(Lex.Less, page) && k < |page| && j < |page| && (k > 0 ==> Lex.Less(page[k - 1], page[j]))
    ensures page[j] == page[k] || Lex.Less(page[k], page[j])
  {
    if j < k {
      if j < k - 1 {
        Lex.Asymmetric(page[j], page[k - 1]);
      } else {
        Lex.Irreflexive(page[j]);
      }
    }
  }

  /** One key: list it and prune it. The cursor moves on to it. */
  method PruneKey(s: DurableStore, ghost s0: Store, ghost prior: Option<string>, key: string,
                  kept0: set<VersionId>, retain: nat, maxVersions: nat, incoming: Hash, blobs: set<Hash>)
    returns (kept: set<VersionId>, failed: bool)
    requires blobs == BlobsOf(s.codec.treeOf(incoming)) && (maxVersions > 0 ==> retain <= maxVersions)
    requires OnlyEvicted(s.codec, s0, s.State(), incoming, retain)
    requires Untouched(s0, s.State(), prior) && KeptUpTo(s0, prior, kept0, retain)
    requires PrunedUpTo(s.codec, s0, s.versions, incoming, maxVersions, prior)
    requires Past(Lex.Less, prior, key)
    requires forall id :: id in s0.versions && Past(Lex.Less, prior, id.key) ==> id.key == key || Past(Lex.Less, Some(key), id.key)
    modifies s
    ensures OnlyEvicted(s.codec, s0, s.State(), incoming, retain)
    ensures Untouched(s0, s.State(), Some(key)) && KeptUpTo(s0, Some(key), kept, retain)
    ensures !failed ==> PrunedUpTo(s.codec, s0, s.versions, incoming, maxVersions, Some(key))
    ensures s.reliable ==> !failed
    ensures maxVersions == 0 ==> s.State() == old(s.State()) && !failed
  {
    ghost var before := s.versions;
    var listed := ListVersions(s, key);
    var more;
    more, failed := PrunePerKey(s, s0, key, listed, retain, maxVersions, incoming, blobs);
    kept := kept0 + more;
    KeptNextKey(s0, before, s.versions, kept0, more, retain, prior, key);
    if !failed {
      PrunedNextKey(s.codec, s0, before, s.versions, incoming, maxVersions, prior, key);
    }
  }

  /** One page of keys. */
  method PrunePage(s: DurableStore, ghost s0: Store, ghost start: Option<string>, ghost keys: set<string>, page: seq<string>,
                   kept0: set<VersionId>, retain: nat, maxVersions: nat, incoming: Hash, blobs: set<Hash>)
    returns (kept: set<VersionId>, failed: bool)
    requires blobs == BlobsOf(s.codec.treeOf(incoming)) && (maxVersions > 0 ==> retain <= maxVersions)
    requires IsPage(keys, Lex.Less, start, PAGE_SIZE, page) && page != [] && KeysPast(s0, start) <= keys
    requires OnlyEvicted(s.codec, s0, s.State(), incoming, retain)
    requires Untouched(s0, s.State(), start) && KeptUpTo(s0, start, kept0, retain)
    requires PrunedUpTo(s.codec, s0, s.versions, incoming, maxVersions, start)
    modifies s
    ensures OnlyEvicted(s.codec, s0, s.State(), incoming, retain)
    ensures !failed ==> PrunedUpTo(s.codec, s0, s.versions, incoming, maxVersions, Some(page[|page| - 1]))
    ensures s.reliable ==> !failed
    ensures !failed ==> Untouched(s0, s.State(), Some(page[|page| - 1])) && KeptUpTo(s0, Some(page[|page| - 1]), kept, retain)
    ensures maxVersions == 0 ==> s.State() == old(s.State()) && !failed
  {
    kept, failed := kept0, false;
    ghost var after := start;
    for k := 0 to |page|
      invariant after == if k == 0 then start else Some(page[k - 1])
      invariant OnlyEvicted(s.codec, s0, s.State(), incoming, retain)
      invariant Untouched(s0, s.State(), after) && KeptUpTo(s0, after, kept, retain)
      invariant PrunedUpTo(s.codec, s0, s.versions, incoming, maxVersions, after)
      invariant maxVersions == 0 ==> s.State() == old(s.State())
      invariant !failed
    {
      StepThroughPage(s0, start, keys, page, k);
      kept, failed := PruneKey(s, s0, after, page[k], kept, retain, maxVersions, incoming, blobs);
      after := Some(page[k]);
      if failed {
        return;
      }
    }
  }

  /** The cap on versions per key, which never undercuts what must be retained; 0 is no cap. */
  function EffectiveCap(retain: nat, maxVersionsPerKey: nat): nat {
    if 0 < maxVersionsPerKey < retain then retain else maxVersionsPerKey
  }

  /** The versions a key must retain, over all keys. */
  ghost function Newest(vs: map<VersionId, Row>, retain: nat): set<VersionId> {
    set id | id in vs && AmongNewest(vs, id, retain)
  }

  /** The rows that pruning leaves. */
  ghost function AfterPruning(c: Codec, vs: map<VersionId, Row>, incoming: Hash, retain: nat, maxVersionsPerKey: nat): map<VersionId, Row> {
    map id | id in vs && (maxVersionsPerKey > 0 ==> Survives(c, vs, incoming, EffectiveCap(retain, maxVersionsPerKey), id)) :: vs[id]
  }

  /** `evictPrunableVersionsLocked`: every key in turn, in pages of keys. With a cap, a pruning that does
      not fail leaves of each key exactly its newest versions up to the cap and those that share an
      object with the incoming tree. */
  method EvictPrunable(s: DurableStore, retain: nat, maxVersionsPerKey: nat, incoming: Hash, blobs: set<Hash>)
    returns (kept: set<VersionId>, failed: bool)
    requires blobs == BlobsOf(s.codec.treeOf(incoming)) && Healthy(s.codec, s.State())
    modifies s
    ensures OnlyEvicted(s.codec, old(s.State()), s.State(), incoming, retain)
    ensures !failed ==> kept == Newest(old(s.versions), retain)
    ensures maxVersionsPerKey == 0 ==> s.State() == old(s.State()) && !failed
    ensures !failed ==> s.versions == AfterPruning(s.codec, old(s.versions), incoming, retain, maxVersionsPerKey)
    ensures s.reliable ==> !failed
  {
    KeyOrderIsTotal();
    var maxVersions := EffectiveCap(retain, maxVersionsPerKey);
    ghost var s0 := s.State();
    NoStep(s.codec, s0, incoming);
    kept, failed := {}, false;
    var after: Option<string> := None;
    while true
      invariant OnlyEvicted(s.codec, s0, s.State(), incoming, retain)
      invariant Untouched(s0, s.State(), after) && KeptUpTo(s0, after, kept, retain)
      invariant PrunedUpTo(s.codec, s0, s.versions, incoming, maxVersions, after)
      invariant maxVersionsPerKey == 0 ==> s.State() == s0
      decreases KeysPast(s0, after)
    {
      ghost var start := after;
      var keys := set id | id in s.versions :: id.key;
      var page := Page(keys, Lex.Less, after, PAGE_SIZE);
      assert KeysPast(s0, start) <= keys;
      if page != [] {
        assert page[|page| - 1] in page;
        kept, failed := PrunePage(s, s0, start, keys, page, kept, retain, maxVersions, incoming, blobs);
        after := Some(page[|page| - 1]);
        PageAdvances(s0, start, keys, page);
        if failed {
          return;
        }
      }
      if |page| < PAGE_SIZE {
        LastPage(s0, start, keys, page);
        AllPruned(s.codec, s0, s.State(), incoming, retain, maxVersionsPerKey, after, kept);
        return;
      }
    }
  }

  /** With the cursor past every key, what is kept and what is left is exact. */
  lemma AllPruned(c: Codec, s0: Store, s1: Store, incoming: Hash, retain: nat, maxVersionsPerKey: nat, after: Option<string>, kept: set<VersionId>)
    requires forall id :: id in s0.versions ==> !Past(Lex.Less, after, id.key)
    requires OnlyEvicted(c, s0, s1, incoming, retain) && KeptUpTo(s0, after, kept, retain)
    requires PrunedUpTo(c, s0, s1.versions, incoming, EffectiveCap(retain, maxVersionsPerKey), after)
    requires maxVersionsPerKey == 0 ==> s1 == s0
    ensures kept == Newest(s0.versions, retain)
    ensures s1.versions == AfterPruning(c, s0.versions, incoming, retain, maxVersionsPerKey)
  {
  }

  lemma PageAdvances(s0: Store, start: Option<string>, keys: set<string>, page: seq<string>)
    requires IsPage(keys, Lex.Less, start, PAGE_SIZE, page) && page != []
    requires exists id :: id in s0.versions && id.key == page[|page| - 1]
    ensures KeysPast(s0, Some(page[|page| - 1])) < KeysPast(s0, start)
  {
    KeyOrderIsTotal();
    var last := page[|page| - 1];
    assert last in page;
    assert last in KeysPast(s0, start) && last !in KeysPast(s0, Some(last));
  }

  /** After a short page no key is left. */
  lemma LastPage(s0: Store, start: Option<string>, keys: set<string>, page: seq<string>)
    requires IsPage(keys, Lex.Less, start, PAGE_SIZE, page) && |page| < PAGE_SIZE && KeysPast(s0, start) <= keys
    ensures forall id :: id in s0.versions ==> !Past(Lex.Less, if page == [] then start else Some(page[|page| - 1]), id.key)
  {
    KeyOrderIsTotal();
    forall id | id in s0.versions && Past(Lex.Less, start, id.key)
      ensures id.key in page
    {
      assert id.key in KeysPast(s0, start);
    }
    if page != [] {
      forall id | id in s0.versions ensures !Past(Lex.Less, Some(page[|page| - 1]), id.key) {
        assert page[|page| - 1] in page;
        if Past(Lex.Less, start, id.key) {
          var j :| 0 <= j < |page| && page[j] == id.key;
        }
      }
    }
  }

  // ---- Evicting the oldest ingests ----

  /** The body of the scanning loop: one row. */
  method ScanRow(s: DurableStore, id: VersionId, retained: set<VersionId>, incoming: Hash, blobs: set<Hash>, batch0: seq<Candidate>)
    returns (batch: seq<Candidate>, failed: bool)
    requires blobs == BlobsOf(s.codec.treeOf(incoming)) && id in s.versions
    ensures batch == if failed then batch0 else WithRow(s.codec, s.versions, retained, incoming, batch0, id)
    ensures s.reliable && NoDangling(s.codec, s.State()) ==> !failed
  {
    batch, failed := batch0, false;
    if id !in retained {
      var h := s.versions[id].tree;
      var shared;
      assert NoDangling(s.codec, s.State()) ==> TreeStored(s.codec, s.objects, h);
      shared, failed := VersionProtected(s, h, incoming, blobs);
      if !failed && !shared {
        batch := batch + [Candidate(id, h)];
      }
    }
  }

  /** The rows of one page, in ingest order, until the batch is full. */
  method ScanPage(s: DurableStore, page: seq<Ingested>, retained: set<VersionId>, incoming: Hash, blobs: set<Hash>,
                  ghost after: Option<Ingested>, ghost start: Option<Ingested>, batch0: seq<Candidate>)
    returns (batch: seq<Candidate>, consumed: nat, failed: bool)
    requires blobs == BlobsOf(s.codec.treeOf(incoming)) && |batch0| < PAGE_SIZE
    requires page != [] && (forall k :: 0 <= k < |page| ==> page[k].id in s.versions) && IsPage(RowsOf(s.versions), Earlier, start, PAGE_SIZE, page)
    requires start == after || (start.Some? && Past(Earlier, after, start.value))
    requires Gathered(s.codec, s.versions, retained, incoming, after, start, batch0)
    ensures !failed ==> 0 < consumed <= |page| && |batch| <= PAGE_SIZE && (consumed < |page| ==> |batch| == PAGE_SIZE)
    ensures !failed ==> Gathered(s.codec, s.versions, retained, incoming, after, Some(page[consumed - 1]), batch)
    ensures !failed && |batch| == PAGE_SIZE ==> EndsWell(s.versions, Some(page[consumed - 1]), batch)
    ensures s.reliable && NoDangling(s.codec, s.State()) ==> !failed
  {
    batch, consumed, failed := ScanLoop(s, page, retained, incoming, blobs, batch0);
    if !failed {
      ScanIsExact(s.codec, s.versions, retained, incoming, after, start, page, consumed, batch0);
      FullEndsWell(s.versions, after, start, page, consumed - 1, batch);
    }
  }

  method ScanLoop(s: DurableStore, page: seq<Ingested>, retained: set<VersionId>, incoming: Hash, blobs: set<Hash>, batch0: seq<Candidate>)
    returns (batch: seq<Candidate>, consumed: nat, failed: bool)
    requires blobs == BlobsOf(s.codec.treeOf(incoming)) && |batch0| < PAGE_SIZE
    requires page != [] && forall i :: 0 <= i < |page| ==> page[i].id in s.versions
    ensures !failed ==> 0 < consumed <= |page| && |batch| <= PAGE_SIZE && (consumed < |page| ==> |batch| == PAGE_SIZE)
    ensures !failed ==> batch == ScanOf(s.codec, s.versions, retained, incoming, page, consumed, batch0)
    ensures !failed && |batch| == PAGE_SIZE ==> batch[|batch| - 1].id == page[consumed - 1].id
    ensures s.reliable && NoDangling(s.codec, s.State()) ==> !failed
  {
    batch, consumed, failed := batch0, 0, false;
    while consumed < |page| && |batch| < PAGE_SIZE
      invariant consumed <= |page| && |batch| <= PAGE_SIZE && (consumed == 0 ==> |batch| < PAGE_SIZE)
      invariant batch == ScanOf(s.codec, s.versions, retained, incoming, page, consumed, batch0)
      invariant |batch| == PAGE_SIZE ==> consumed > 0 && batch[|batch| - 1].id == page[consumed - 1].id
    {
      batch, failed := ScanRow(s, page[consumed].id, retained, incoming, blobs, batch);
      if failed {
        return;
      }
      consumed := consumed + 1;
    }
  }

  /** The candidate loop of `evictUntilTargetLocked`. `exhausted` is its early return on an empty page, which
      drops the candidates already gathered: that is where it ends exactly when the rows ahead end with a
      full page and what is evictable among them does not fill a batch. */
  method Gather(s: DurableStore, after: Option<Ingested>, retained: set<VersionId>, incoming: Hash, blobs: set<Hash>)
    returns (batch: seq<Candidate>, cursor: Option<Ingested>, exhausted: bool, failed: bool)
    requires blobs == BlobsOf(s.codec.treeOf(incoming))
    ensures !failed && !exhausted ==> Gathered(s.codec, s.versions, retained, incoming, after, cursor, batch)
    ensures !failed && !exhausted ==> cursor.Some? && Past(Earlier, after, cursor.value)
    ensures !failed && !exhausted ==> RowsPast(s.versions, cursor) < RowsPast(s.versions, after)
    ensures !failed ==> (exhausted <==> StallsFrom(s.codec, s.versions, retained, incoming, after))
    ensures !failed && !exhausted && batch == [] ==> EvictablePast(s.codec, s.versions, retained, incoming, after) == {}
    ensures !failed && !exhausted ==> EndsWell(s.versions, cursor, batch) && |batch| <= PAGE_SIZE
    ensures s.reliable && NoDangling(s.codec, s.State()) ==> !failed
  {
    batch, cursor, exhausted, failed := [], after, false, false;
    while true
      invariant |batch| < PAGE_SIZE
      invariant Gathered(s.codec, s.versions, retained, incoming, after, cursor, batch)
      invariant cursor == after || (cursor.Some? && Past(Earlier, after, cursor.value))
      invariant cursor == after || RowsPast(s.versions, cursor) < RowsPast(s.versions, after)
      invariant WholePagesPast(s.versions, cursor) == WholePagesPast(s.versions, after)
      decreases RowsPast(s.versions, cursor)
    {
      var last;
      batch, cursor, last, exhausted, failed := GatherPage(s, after, cursor, retained, incoming, blobs, batch);
      if failed {
        return;
      }
      GatheredCounts(s.codec, s.versions, retained, incoming, after, cursor, batch);
      if exhausted || last {
        return;
      }
    }
  }

  /** One turn of the candidate loop. */
  method GatherPage(s: DurableStore, ghost after: Option<Ingested>, cursor0: Option<Ingested>, retained: set<VersionId>, incoming: Hash,
                    blobs: set<Hash>, batch0: seq<Candidate>)
    returns (batch: seq<Candidate>, cursor: Option<Ingested>, last: bool, exhausted: bool, failed: bool)
    requires blobs == BlobsOf(s.codec.treeOf(incoming)) && |batch0| < PAGE_SIZE
    requires cursor0 == after || (cursor0.Some? && Past(Earlier, after, cursor0.value))
    requires Gathered(s.codec, s.versions, retained, incoming, after, cursor0, batch0)
    ensures !failed ==> Gathered(s.codec, s.versions, retained, incoming, after, cursor, batch)
    ensures !failed && !exhausted ==> Turn(s.versions, after, cursor0, cursor, |batch|, last)
    ensures !failed && !exhausted && last ==> EndsWell(s.versions, cursor, batch) && |batch| <= PAGE_SIZE
    ensures exhausted ==> !failed && batch == batch0 && cursor == cursor0 && RowsPast(s.versions, cursor) == {}
    ensures s.reliable && NoDangling(s.codec, s.State()) ==> !failed
  {
    batch, cursor, last, exhausted, failed := batch0, cursor0, false, false, false;
    var page := NextPage(s, after, cursor);
    if page == [] {
      exhausted := true;
      return;
    }
    var consumed;
    batch, consumed, failed := ScanPage(s, page, retained, incoming, blobs, after, cursor, batch);
    if failed {
      return;
    }
    TurnOver(s.versions, after, cursor, page, consumed, |batch|);
    cursor := Some(page[consumed - 1]);
    last := |page| < PAGE_SIZE || |batch| >= PAGE_SIZE;
  }

  /** Every row of the next page is one that the cursor moves on to. */
  method NextPage(s: DurableStore, ghost after: Option<Ingested>, cursor: Option<Ingested>) returns (page: seq<Ingested>)
    requires cursor == after || (cursor.Some? && Past(Earlier, after, cursor.value))
    ensures IsPage(RowsOf(s.versions), Earlier, cursor, PAGE_SIZE, page)
    ensures forall k :: 0 <= k < |page| ==> page[k].id in s.versions && MovesOn(s.versions, after, cursor, page[k])
    ensures page == [] ==> RowsPast(s.versions, cursor) == {}
    ensures page != [] ==> |page| <= PAGE_SIZE && PageLeaves(s.versions, cursor, page[|page| - 1], |page| == PAGE_SIZE)
  {
    EarlierIsTotal();
    page := Page(RowsOf(s.versions), Earlier, cursor, PAGE_SIZE);
    forall k | 0 <= k < |page| ensures page[k].id in s.versions && MovesOn(s.versions, after, cursor, page[k]) {
      assert page[k] in page;
      CursorAdvances(s.versions, cursor, page, k);
    }
    if page == [] {
      ShortPageIsLast(RowsOf(s.versions), Earlier, cursor, PAGE_SIZE, page);
    } else {
      PageTakes(s.versions, cursor, page);
      PagesLeft(s.versions, cursor, page[|page| - 1], |page|);
    }
  }

  /** `evictUntilTargetBatchLocked`: delete in order, and measure again once the estimates say it may be enough.
      `neededBytes` is a natural number, so the subtraction never underflows. */
  method EvictBatch(s: DurableStore, ghost s0: Store, target: nat, current0: nat, batch: seq<Candidate>,
                    ghost retain: nat, incoming: Hash, blobs: set<Hash>)
    returns (current: nat, done: bool, failed: bool, ghost evicted: nat)
    requires blobs == BlobsOf(s.codec.treeOf(incoming)) && current0 == LiveBytes(s.refs) >= target
    requires OnlyEvicted(s.codec, s0, s.State(), incoming, retain)
    requires forall x :: x in batch ==> x.id in s.versions && !SharesWith(s.codec, x.tree, incoming)
    requires forall i, j :: 0 <= i < j < |batch| ==> batch[i].id != batch[j].id
    requires forall x :: x in batch ==> x.id in s0.versions && x.tree == s0.versions[x.id].tree && !AmongNewest(s0.versions, x.id, retain)
    modifies s
    ensures OnlyEvicted(s.codec, s0, s.State(), incoming, retain)
    ensures evicted <= |batch| && s.versions == old(s.versions) - IdsOf(batch[..evicted])
    ensures !failed && !done ==> evicted == |batch|
    ensures !failed && batch != [] ==> evicted > 0
    ensures EvictedAsNeeded(s.codec, old(s.State()), s.State(), incoming, target)
    ensures s.reliable ==> !failed
    ensures !failed ==> current == LiveBytes(s.refs) && (done <==> current < target)
  {
    current := current0;
    var pendingEstimate := 0;
    evicted := 0;
    assert old(s.versions) - IdsOf(batch[..0]) == old(s.versions);
    for i := 0 to |batch|
      invariant OnlyEvicted(s.codec, s0, s.State(), incoming, retain)
      invariant evicted == i && s.versions == old(s.versions) - IdsOf(batch[..i])
      invariant current >= target && Measured(LiveBytes(s.refs), current, pendingEstimate, target)
      invariant EvictedAsNeeded(s.codec, old(s.State()), s.State(), incoming, target)
    {
      if current < target {
        done, failed := true, false;
        return;
      }
      var deleted;
      current, pendingEstimate, deleted, failed :=
        EvictAndMeasure(s, s0, target, current, pendingEstimate, batch, i, retain, incoming, blobs, old(s.versions));
      evicted := if deleted then i + 1 else i;
      if failed || current < target {
        done := !failed;
        return;
      }
    }
    if pendingEstimate != 0 {
      current := s.ReferencedBytes();
    }
    return current, current < target, false, |batch|;
  }

  /** The last deletion was needed: before it the live bytes were not yet below the target. */
  ghost predicate LastNeeded(c: Codec, s: Store, incoming: Hash, target: nat) {
    exists prior: Store, id: VersionId :: OneEviction(c, prior, s, incoming, id) && LiveBytes(prior.refs) >= target
  }

  /** Nothing went that was not needed. */
  ghost predicate EvictedAsNeeded(c: Codec, before: Store, s: Store, incoming: Hash, target: nat) {
    s == before || LastNeeded(c, s, incoming, target)
  }

  /** What is known between two measurements: the estimates cover what was freed, and not yet what is needed. */
  predicate Measured(live: nat, current: nat, pending: nat, target: nat) {
    live <= current <= live + pending && (pending == 0 || (current > target && pending < current - target))
  }

  /** The body of the loop: delete one candidate, and measure if the estimates cover what is needed. */
  method EvictAndMeasure(s: DurableStore, ghost s0: Store, target: nat, current0: nat, pending0: nat, batch: seq<Candidate>, i: nat,
                         ghost retain: nat, incoming: Hash, blobs: set<Hash>, ghost before: map<VersionId, Row>)
    returns (current: nat, pendingEstimate: nat, deleted: bool, failed: bool)
    requires blobs == BlobsOf(s.codec.treeOf(incoming)) && i < |batch| && current0 >= target
    requires OnlyEvicted(s.codec, s0, s.State(), incoming, retain)
    requires var x := batch[i]; x.id in before && x.id in s0.versions && x.tree == s0.versions[x.id].tree
    requires !AmongNewest(s0.versions, batch[i].id, retain) && !SharesWith(s.codec, batch[i].tree, incoming)
    requires forall k, j :: 0 <= k < j < |batch| ==> batch[k].id != batch[j].id
    requires s.versions == before - IdsOf(batch[..i]) && Measured(LiveBytes(s.refs), current0, pending0, target)
    modifies s
    ensures OnlyEvicted(s.codec, s0, s.State(), incoming, retain)
    ensures s.versions == before - IdsOf(batch[..if deleted then i + 1 else i])
    ensures if deleted then LastNeeded(s.codec, s.State(), incoming, target) else s.State() == old(s.State())
    ensures !failed ==> deleted && Measured(LiveBytes(s.refs), current, pendingEstimate, target)
    ensures failed ==> current == current0
    ensures current < target ==> LiveBytes(s.refs) < target
    ensures s.reliable ==> !failed
  {
    current, pendingEstimate := current0, pending0;
    var estimate;
    assert LiveBytes(s.refs) >= target;
    deleted, estimate, failed := EvictOne(s, s0, batch, i, retain, incoming, blobs, before);
    assert deleted ==> LastNeeded(s.codec, s.State(), incoming, target);
    if !failed && deleted {
      pendingEstimate := pendingEstimate + estimate;
      var neededBytes: nat := current - target;
      if pendingEstimate >= neededBytes {
        current := s.ReferencedBytes();
        pendingEstimate := 0;
      }
    }
  }

  /** One candidate, which nothing protects and which is still there. */
  method EvictOne(s: DurableStore, ghost s0: Store, batch: seq<Candidate>, i: nat, ghost retain: nat, incoming: Hash, blobs: set<Hash>,
                  ghost before: map<VersionId, Row>)
    returns (deleted: bool, estimate: nat, failed: bool)
    requires blobs == BlobsOf(s.codec.treeOf(incoming)) && i < |batch|
    requires OnlyEvicted(s.codec, s0, s.State(), incoming, retain)
    requires var x := batch[i]; x.id in before && x.id in s0.versions && x.tree == s0.versions[x.id].tree
    requires !AmongNewest(s0.versions, batch[i].id, retain) && !SharesWith(s.codec, batch[i].tree, incoming)
    requires forall k, j :: 0 <= k < j < |batch| ==> batch[k].id != batch[j].id
    requires s.versions == before - IdsOf(batch[..i])
    modifies s
    ensures OnlyEvicted(s.codec, s0, s.State(), incoming, retain)
    ensures s.versions == before - IdsOf(batch[..if deleted then i + 1 else i])
    ensures if deleted then OneEviction(s.codec, old(s.State()), s.State(), incoming, batch[i].id) else s.State() == old(s.State())
    ensures deleted ==> LiveBytes(s.refs) <= LiveBytes(old(s.refs)) <= LiveBytes(s.refs) + estimate
    ensures !failed ==> deleted
    ensures s.reliable ==> !failed
  {
    var x := batch[i];
    IdsOfNext(batch, i);
    assert TreeStored(s.codec, s.objects, s.versions[x.id].tree);
    estimate := 0;
    var shared, readFailed := VersionProtected(s, x.tree, incoming, blobs);
    if readFailed {
      return false, 0, true;
    }
    ghost var mid := s.State();
    deleted := false;
    failed := false;
    if !shared {
      deleted, estimate, failed := s.DeleteVersion(x.id);
      if deleted {
        FreedAtMostPayload(s.codec, mid, s.State(), x.id);
        EvictOneMore(s.codec, s0, mid, s.State(), incoming, retain, x.id);
      }
    }
  }

  /** `evictUntilTargetLocked`: the oldest ingests first. A zero target evicts nothing. When room is needed and
      nothing faults, nothing is evicted exactly when nothing is evictable or the candidate loop stalls. */
  method EvictUntilTarget(s: DurableStore, ghost s0: Store, target: nat, retained: set<VersionId>, ghost retain: nat,
                          incoming: Hash, blobs: set<Hash>)
    returns (failed: bool)
    requires blobs == BlobsOf(s.codec.treeOf(incoming))
    requires OnlyEvicted(s.codec, s0, s.State(), incoming, retain)
    requires forall id :: id in s0.versions && AmongNewest(s0.versions, id, retain) ==> id in retained
    modifies s
    ensures OnlyEvicted(s.codec, s0, s.State(), incoming, retain)
    ensures target == 0 ==> s.State() == old(s.State()) && !failed
    ensures Stalls(s.codec, old(s.versions), retained, incoming) ==> s.State() == old(s.State())
    ensures s.reliable && target > 0 && LiveBytes(old(s.refs)) >= target ==>
      (s.versions == old(s.versions) <==>
         Stalls(s.codec, old(s.versions), retained, incoming) || EvictableIds(s.codec, old(s.versions), retained, incoming) == {})
    ensures OldestFirst(s.codec, old(s.versions), s.versions, retained, incoming)
    ensures OldestWent(s.codec, old(s.versions), s.versions, retained, incoming)
    ensures EvictedAsNeeded(s.codec, old(s.State()), s.State(), incoming, target)
    ensures !failed && target > 0 ==>
      LiveBytes(s.refs) < target || EvictableIds(s.codec, s.versions, retained, incoming) == Stranded(s.codec, old(s.versions), retained, incoming)
    ensures s.reliable ==> !failed
  {
    var current := s.ReferencedBytes();
    if target == 0 || current < target {
      return false;
    }
    StallsFromStart(s.codec, s.versions, retained, incoming);
    ghost var moved;
    failed, moved := EvictRounds(s, s0, target, current, retained, retain, incoming, blobs);
    OldestIsFirst(s.codec, old(s.versions), s.versions, retained, incoming);
    if moved {
      LessIsOther(s.versions, old(s.versions));
    }
  }

  /** The rounds, while room is needed. */
  method EvictRounds(s: DurableStore, ghost s0: Store, target: nat, current0: nat, retained: set<VersionId>, ghost retain: nat,
                     incoming: Hash, blobs: set<Hash>)
    returns (failed: bool, ghost moved: bool)
    requires blobs == BlobsOf(s.codec.treeOf(incoming)) && current0 == LiveBytes(s.refs) >= target
    requires OnlyEvicted(s.codec, s0, s.State(), incoming, retain)
    requires forall id :: id in s0.versions && AmongNewest(s0.versions, id, retain) ==> id in retained
    modifies s
    ensures OnlyEvicted(s.codec, s0, s.State(), incoming, retain)
    ensures OldestFirst(s.codec, old(s.versions), s.versions, retained, incoming)
    ensures StallsFrom(s.codec, old(s.versions), retained, incoming, None) ==> s.State() == old(s.State())
    ensures moved ==> LessThan(s.versions, old(s.versions)) && !StallsFrom(s.codec, old(s.versions), retained, incoming, None)
    ensures moved ==> EvictablePast(s.codec, old(s.versions), retained, incoming, None) != {}
    ensures !failed ==>
      LiveBytes(s.refs) < target || EvictableIds(s.codec, s.versions, retained, incoming) == Stranded(s.codec, old(s.versions), retained, incoming)
    ensures EvictedAsNeeded(s.codec, old(s.State()), s.State(), incoming, target)
    ensures !failed && !moved ==> s.State() == old(s.State())
    ensures !failed && !moved ==>
      StallsFrom(s.codec, s.versions, retained, incoming, None) || EvictablePast(s.codec, s.versions, retained, incoming, None) == {}
    ensures s.reliable ==> !failed
  {
    var current := current0;
    var after: Option<Ingested> := None;
    var done := false;
    moved := false;
    NothingEvictedYet(s.codec, s.versions, retained, incoming);
    SteadyAtFirst(s.codec, s.versions, retained, incoming);
    while current >= target && !done
      invariant OnlyEvicted(s.codec, s0, s.State(), incoming, retain)
      invariant moved == after.Some?
      invariant !moved ==> s.State() == old(s.State()) && current == current0 && !done
      invariant moved ==> LessThan(s.versions, old(s.versions)) && !StallsFrom(s.codec, old(s.versions), retained, incoming, None)
      invariant moved ==> EvictablePast(s.codec, old(s.versions), retained, incoming, None) != {}
      invariant OldestFirst(s.codec, old(s.versions), s.versions, retained, incoming)
      invariant !done ==> EvictedUpTo(s.codec, old(s.versions), s.versions, retained, incoming, after)
      invariant Steady(s.codec, old(s.versions), retained, incoming, after) && (done <==> current < target) && current == LiveBytes(s.refs)
      invariant EvictedAsNeeded(s.codec, old(s.State()), s.State(), incoming, target)
      decreases RowsPast(s.versions, after)
    {
      var stopped;
      ghost var vs := s.versions;
      current, after, done, stopped, failed := EvictRound(s, s0, target, current, after, retained, retain, incoming, blobs, old(s.versions));
      if failed || stopped {
        if moved {
          StillLess(vs, s.versions, old(s.versions));
        }
        return;
      }
      moved := true;
    }
    failed := false;
  }

  /** One round: gather a batch and evict from it. It stops when there is nothing to evict from. */
  method EvictRound(s: DurableStore, ghost s0: Store, target: nat, current0: nat, after0: Option<Ingested>, retained: set<VersionId>,
                    ghost retain: nat, incoming: Hash, blobs: set<Hash>, ghost before: map<VersionId, Row>)
    returns (current: nat, after: Option<Ingested>, done: bool, stopped: bool, failed: bool)
    requires blobs == BlobsOf(s.codec.treeOf(incoming)) && current0 == LiveBytes(s.refs) >= target
    requires OnlyEvicted(s.codec, s0, s.State(), incoming, retain)
    requires forall id :: id in s0.versions && AmongNewest(s0.versions, id, retain) ==> id in retained
    requires EvictedUpTo(s.codec, before, s.versions, retained, incoming, after0) && Steady(s.codec, before, retained, incoming, after0)
    modifies s
    ensures OnlyEvicted(s.codec, s0, s.State(), incoming, retain)
    ensures OldestFirst(s.codec, before, s.versions, retained, incoming)
    ensures StallsFrom(s.codec, old(s.versions), retained, incoming, after0) ==> s.State() == old(s.State()) && (failed || stopped)
    ensures stopped && !failed ==> s.State() == old(s.State())
    ensures stopped && !failed ==> StallsFrom(s.codec, s.versions, retained, incoming, after0) || EvictablePast(s.codec, s.versions, retained, incoming, after0) == {}
    ensures !failed && !stopped ==> after.Some? && LessThan(s.versions, before) && RowsPast(s.versions, after) < RowsPast(old(s.versions), after0)
    ensures !failed && !stopped && !done ==> EvictedUpTo(s.codec, before, s.versions, retained, incoming, after)
    ensures !failed && !stopped ==> Steady(s.codec, before, retained, incoming, after) && current == LiveBytes(s.refs)
    ensures EvictedAsNeeded(s.codec, old(s.State()), s.State(), incoming, target)
    ensures stopped && !failed ==> EvictableIds(s.codec, s.versions, retained, incoming) == Stranded(s.codec, before, retained, incoming)
    ensures !failed && !stopped ==> (done <==> current < target) && EvictablePast(s.codec, old(s.versions), retained, incoming, after0) != {}
    ensures forall id :: id in s.versions ==> id in old(s.versions)
    ensures s.reliable ==> !failed
  {
    ghost var vs := s.versions;
    current, done, stopped := current0, false, false;
    var batch, exhausted;
    batch, after, exhausted, failed := Gather(s, after0, retained, incoming, blobs);
    UpToIsOldestFirst(s.codec, before, vs, retained, incoming, after0);
    if failed || exhausted || batch == [] {
      stopped := true;
      if !failed {
        LeftIsStranded(s.codec, before, vs, retained, incoming, after0);
      }
      return;
    }
    SteadyRound(s.codec, before, vs, retained, incoming, after0, after, batch);
    DistinctBatch(vs, batch);
    ghost var evicted;
    current, done, failed, evicted := EvictBatch(s, s0, target, current, batch, retain, incoming, blobs);
    BatchIsOldestFirst(s.codec, before, vs, s.versions, retained, incoming, after0, after, batch, evicted);
    if !failed {
      SomeGathered(s.codec, vs, retained, incoming, after0, after, batch);
      FewerLeft(before, vs, s.versions, batch, evicted);
      FewerRows(vs, s.versions, after);
    }
  }

  // ---- Admission ----

  /** Of the rows that pruning left, what is evictable and still there is what the rounds strand. */
  ghost predicate EvictedAsFarAsReached(c: Codec, vs: map<VersionId, Row>, vs': map<VersionId, Row>, lim: Limits, incoming: Hash) {
    var kept := Newest(vs, lim.retainLatestPerKey);
    EvictableIds(c, vs', kept, incoming)
      == Stranded(c, AfterPruning(c, vs, incoming, lim.retainLatestPerKey, lim.maxVersionsPerKey), kept, incoming)
  }

  /** `evictVersionsProtectedLocked`: prune, then evict down to the target. */
  method EvictVersions(s: DurableStore, lim: Limits, target: nat, incoming: Hash, blobs: set<Hash>) returns (failed: bool)
    requires blobs == BlobsOf(s.codec.treeOf(incoming)) && Healthy(s.codec, s.State())
    modifies s
    ensures OnlyEvicted(s.codec, old(s.State()), s.State(), incoming, lim.retainLatestPerKey)
    ensures !failed && target > 0 ==> LiveBytes(s.refs) < target || EvictedAsFarAsReached(s.codec, old(s.versions), s.versions, lim, incoming)
    ensures !failed ==>
      || s.versions == AfterPruning(s.codec, old(s.versions), incoming, lim.retainLatestPerKey, lim.maxVersionsPerKey)
      || (target > 0 && LastNeeded(s.codec, s.State(), incoming, target))
    ensures lim.maxVersionsPerKey == 0 && (target == 0 || Stalls(s.codec, old(s.versions), Newest(old(s.versions), lim.retainLatestPerKey), incoming))
            ==> s.State() == old(s.State())
    ensures (lim.maxVersionsPerKey == 0 && target == 0) || s.reliable ==> !failed
  {
    NoStep(s.codec, s.State(), incoming);
    ghost var s0 := s.State();
    var retained;
    retained, failed := EvictPrunable(s, lim.retainLatestPerKey, lim.maxVersionsPerKey, incoming, blobs);
    if !failed {
      failed := EvictUntilTarget(s, s0, target, retained, lim.retainLatestPerKey, incoming, blobs);
    }
  }

  /** The eviction goes on at this size: it is not below what the publish leaves room for, or not below
      the configured size to evict to. */
  predicate RoomNeeded(lim: Limits, incomingBytes: nat, live: nat) {
    live + incomingBytes + 1 >= lim.maxTotalSize || 0 < lim.evictToSize <= live
  }

  /** `ensureDurableBudgetProtectedLocked`. Admission means there is room for the incoming bytes; in
      every outcome only evictable versions went. A refusal after eviction leaves nothing evictable but
      what the rounds strand. A publish needing all but one byte of the quota gets the eviction target
      zero, which evicts nothing: it is admitted only if pruning alone leaves no live bytes. */
  method EnsureBudget(s: DurableStore, lim: Limits, incomingBytes: nat, incoming: Hash, blobs: set<Hash>)
    returns (v: Verdict)
    requires blobs == BlobsOf(s.codec.treeOf(incoming)) && Healthy(s.codec, s.State())
    modifies s
    ensures OnlyEvicted(s.codec, old(s.State()), s.State(), incoming, lim.retainLatestPerKey)
    ensures v == Admitted && lim.maxTotalSize > 0 ==> LiveBytes(s.refs) + incomingBytes < lim.maxTotalSize
    ensures v == AdmissionRefused <==> 0 < lim.maxTotalSize <= incomingBytes
    ensures v == StillOverAfterEviction ==> LiveBytes(s.refs) + incomingBytes >= lim.maxTotalSize
    ensures lim.maxTotalSize == 0 || v == AdmissionRefused || LiveBytes(old(s.refs)) + incomingBytes < lim.maxTotalSize
            ==> s.State() == old(s.State()) && (v == AdmissionRefused || v == Admitted)
    ensures v == StillOverAfterEviction && incomingBytes + 1 < lim.maxTotalSize ==>
      EvictedAsFarAsReached(s.codec, old(s.versions), s.versions, lim, incoming)
    ensures v != IoFailure && LiveBytes(old(s.refs)) + incomingBytes >= lim.maxTotalSize > incomingBytes + 1 ==>
      !RoomNeeded(lim, incomingBytes, LiveBytes(s.refs)) || EvictedAsFarAsReached(s.codec, old(s.versions), s.versions, lim, incoming)
    ensures v != IoFailure && LiveBytes(old(s.refs)) + incomingBytes >= lim.maxTotalSize > incomingBytes ==>
      || s.versions == AfterPruning(s.codec, old(s.versions), incoming, lim.retainLatestPerKey, lim.maxVersionsPerKey)
      || exists prior, id :: OneEviction(s.codec, prior, s.State(), incoming, id) && RoomNeeded(lim, incomingBytes, LiveBytes(prior.refs))
    ensures lim.maxVersionsPerKey == 0 && Stalls(s.codec, old(s.versions), Newest(old(s.versions), lim.retainLatestPerKey), incoming)
            ==> s.State() == old(s.State())
    ensures 0 < LiveBytes(old(s.refs)) && incomingBytes + 1 == lim.maxTotalSize && lim.maxVersionsPerKey == 0
            ==> v == StillOverAfterEviction && s.State() == old(s.State())
    ensures s.reliable && incomingBytes + 1 == lim.maxTotalSize && LiveBytes(old(s.refs)) > 0 ==>
      && s.versions == AfterPruning(s.codec, old(s.versions), incoming, lim.retainLatestPerKey, lim.maxVersionsPerKey)
      && v == if LiveBytes(s.refs) == 0 then Admitted else StillOverAfterEviction
    ensures s.reliable ==> v != IoFailure
  {
    NoStep(s.codec, s.State(), incoming);
    if lim.maxTotalSize == 0 {
      return Admitted;
    }
    var current := s.ReferencedBytes();
    if incomingBytes >= lim.maxTotalSize {
      return AdmissionRefused;
    }
    var admission: nat := lim.maxTotalSize - incomingBytes;
    if current < admission {
      return Admitted;
    }
    var target: nat := if lim.evictToSize == 0 || lim.evictToSize >= admission then admission - 1 else lim.evictToSize;
    var failed := EvictVersions(s, lim, target, incoming, blobs);
    if failed {
      return IoFailure;
    }
    current := s.ReferencedBytes();
    return if current >= admission then StillOverAfterEviction else Admitted;
  }
}
