/** Healthy stores in which deleting one old version would make room for a publish, and the publish is
    refused all the same: the candidate loop strands that version, or the eviction target is zero. */
module EvictionExamples {
  import opened ArchivePaths
  import opened DurableStores
  import opened EvictionOrder
  import opened ObjectModel
  import opened Options
  import opened Quotas
  import Protocol = StoreProtocol
  import StoredNames
  import Sums
  import TreeCodec

  /** `n + 1` versions of one key, published one after the other: the first has a file of its own, all
      later ones are one tree that shares its blob with the incoming tree. */
  datatype Example = Example(
    name: nat -> VersionId, first: Hash, later: Hash, incoming: Hash, own: Hash, shared: Hash,
    ownBytes: nat, sharedBytes: nat, treeBytes: Hash -> nat)

  /** Names of one key, and all different. */
  ghost predicate Distinct(name: nat -> VersionId, n: nat) {
    && (forall i: nat :: i <= n ==> name(i).key == name(0).key)
    && forall i: nat, j: nat :: i < j <= n ==> name(i) != name(j)
  }

  predicate RealHash(h: Hash) {
    |h| == TreeCodec.HASH_SIZE && !TreeCodec.IsZero(h)
  }

  ghost predicate Fits(x: Example, n: nat) {
    && Distinct(x.name, n)
    && x.first != x.later && x.first != x.incoming && x.later != x.incoming && x.own != x.shared
  }

  function TreeOf(x: Example, h: Hash): seq<Entry> {
    if h == x.first then [Entry("f", File, x.ownBytes, x.own)]
    else if h == x.later then [Entry("f", File, x.sharedBytes, x.shared)]
    else if h == x.incoming then [Entry("g", File, x.sharedBytes, x.shared)]
    else []
  }

  ghost function CodecOf(x: Example): Codec {
    Codec(h => TreeOf(x, h), b => if b == x.own then x.ownBytes else x.sharedBytes, x.treeBytes)
  }

  function RowNo(x: Example, i: nat): Row {
    Row(if i == 0 then x.first else x.later, i + 1, i)
  }

  ghost function Rows(x: Example, n: nat): map<VersionId, Row> {
    if n == 0 then map[x.name(0) := RowNo(x, 0)] else Rows(x, n - 1)[x.name(n) := RowNo(x, n)]
  }

  ghost function RefsOf(x: Example, n: nat): map<Hash, BlobRef> {
    map[x.own := BlobRef(1, x.ownBytes), x.shared := BlobRef(n, x.sharedBytes)]
  }

  ghost function Stored(x: Example, n: nat): Store {
    Store(Rows(x, n), RefsOf(x, n), {Tree(x.first), Tree(x.later), Blob(x.own), Blob(x.shared)})
  }

  /** A tree that has a tree object, of that size. */
  ghost predicate RealTree(x: Example, h: Hash, clean: Cleaner) {
    RealHash(h) && TreeCodec.Valid(clean, TreeOf(x, h)) && x.treeBytes(h) == |TreeCodec.PrintTree(TreeOf(x, h))|
  }

  /** The code accepts the names and trees. */
  ghost predicate Real(x: Example, n: nat, clean: Cleaner) {
    && (forall i: nat :: i <= n ==> StoredNames.Accepted(x.name(i)))
    && RealTree(x, x.first, clean) && RealTree(x, x.later, clean) && RealTree(x, x.incoming, clean)
  }

  // ---- The rows ----

  ghost predicate RowFits(x: Example, n: nat, id: VersionId, row: Row) {
    row.ingest <= n && id == x.name(row.ingest) && row == RowNo(x, row.ingest)
  }

  lemma {:induction false} NotYet(x: Example, n: nat, k: nat)
    requires Distinct(x.name, k) && n < k
    ensures x.name(k) !in Rows(x, n)
    decreases n
  {
    assert x.name(n) != x.name(k);
    if n > 0 {
      NotYet(x, n - 1, k);
    }
  }

  lemma {:induction false} RowsAre(x: Example, n: nat, all: nat)
    requires Distinct(x.name, all) && n <= all
    ensures |Rows(x, n)| == n + 1 && x.name(0) in Rows(x, n) && Rows(x, n)[x.name(0)] == RowNo(x, 0)
    ensures forall id :: id in Rows(x, n) ==> RowFits(x, n, id, Rows(x, n)[id])
    decreases n
  {
    if n > 0 {
      RowsAre(x, n - 1, all);
      NotYet(x, n - 1, n);
    }
  }

  lemma OneEntry(t: seq<Entry>)
    requires |t| == 1
    ensures BlobsOf(t) == {t[0].blob} && forall b :: Occ(t, b) == if b == t[0].blob then 1 else 0
  {
    assert t[0] in t;
    OneMore(t, 0);
    assert t[..1] == t && t[..0] == [];
  }

  lemma {:induction false} References(x: Example, n: nat, b: Hash)
    requires Fits(x, n)
    ensures RefTotal(CodecOf(x), Rows(x, n), b) == if b == x.own then 1 else if b == x.shared then n else 0
  {
    var c := CodecOf(x);
    OneEntry(TreeOf(x, x.first));
    OneEntry(TreeOf(x, x.later));
    if n == 0 {
      var none: map<VersionId, Row> := map[];
      TotalZero(c, none, b);
      TotalInsert(c, none, x.name(0), RowNo(x, 0), b);
      assert Rows(x, 0) == none[x.name(0) := RowNo(x, 0)];
    } else {
      References(x, n - 1, b);
      NotYet(x, n - 1, n);
      TotalInsert(c, Rows(x, n - 1), x.name(n), RowNo(x, n), b);
    }
  }

  lemma LiveSum(x: Example, refs: map<Hash, BlobRef>)
    requires x.own != x.shared && refs.Keys == {x.own, x.shared} && refs[x.shared].count > 0 && refs[x.own].count > 0
    requires refs[x.own].size == x.ownBytes && refs[x.shared].size == x.sharedBytes
    ensures LiveBytes(refs) == x.ownBytes + x.sharedBytes
  {
    Sums.Remove({x.own, x.shared}, LiveSize(refs), x.own);
    assert {x.own, x.shared} - {x.own} == {x.shared};
    Sums.Remove({x.shared}, LiveSize(refs), x.shared);
    assert {x.shared} - {x.shared} == {};
  }

  lemma IsHealthy(x: Example, n: nat)
    requires Fits(x, n) && n > 0
    ensures Healthy(CodecOf(x), Stored(x, n)) && Exact(CodecOf(x), Stored(x, n))
    ensures LiveBytes(Stored(x, n).refs) == x.ownBytes + x.sharedBytes
  {
    var c, s := CodecOf(x), Stored(x, n);
    RowsAre(x, n, n);
    forall id | id in s.versions ensures TreeStored(c, s.objects, s.versions[id].tree) {
      assert RowFits(x, n, id, s.versions[id]);
    }
    forall b ensures RefTotal(c, s.versions, b) == CountOf(s.refs, b) {
      References(x, n, b);
    }
    LiveSum(x, s.refs);
  }

  // ---- What may be evicted ----

  /** All later versions share a blob with the incoming tree. */
  lemma LaterIsShared(x: Example, n: nat, id: VersionId)
    requires Fits(x, n) && id in Rows(x, n)
    ensures SharesWith(CodecOf(x), Rows(x, n)[id].tree, x.incoming) <==> id != x.name(0)
  {
    var i := Rows(x, n)[id].ingest;
    RowsAre(x, n, n);
    assert RowFits(x, n, id, Rows(x, n)[id]);
    OneEntry(TreeOf(x, x.first));
    OneEntry(TreeOf(x, x.later));
    OneEntry(TreeOf(x, x.incoming));
    var c := CodecOf(x);
    assert c.treeOf(x.first) == TreeOf(x, x.first) && c.treeOf(x.later) == TreeOf(x, x.later) && c.treeOf(x.incoming) == TreeOf(x, x.incoming);
    if i > 0 {
      assert x.name(0) != x.name(i);
      assert x.shared in BlobsOf(c.treeOf(x.later)) && x.shared in BlobsOf(c.treeOf(x.incoming));
    }
  }

  /** And they are newer than the first one. */
  lemma LaterIsNewer(x: Example, n: nat)
    requires Fits(x, n)
    ensures x.name(0) in Rows(x, n) && |NewerOf(Rows(x, n), x.name(0))| == n
  {
    var vs := Rows(x, n);
    RowsAre(x, n, n);
    forall id | id in vs ensures id in NewerOf(vs, x.name(0)) <==> id != x.name(0) {
      assert RowFits(x, n, id, vs[id]);
      NotNewer(RankOf(vs, x.name(0)));
    }
    assert NewerOf(vs, x.name(0)) == vs.Keys - {x.name(0)};
  }

  lemma NotNewer(r: Ranked)
    ensures !Newer(r, r)
  {
    NewerIsTotal();
  }

  lemma OnlyFirstIsEvictable(x: Example, n: nat, retain: nat)
    requires Fits(x, n) && retain <= n
    ensures EvictableIds(CodecOf(x), Rows(x, n), Newest(Rows(x, n), retain), x.incoming) == {x.name(0)}
  {
    var c, vs := CodecOf(x), Rows(x, n);
    LaterIsNewer(x, n);
    forall id | id in vs ensures Evictable(c, vs, Newest(vs, retain), x.incoming, id) <==> id == x.name(0) {
      LaterIsShared(x, n, id);
    }
    assert EvictableIds(c, vs, Newest(vs, retain), x.incoming) == {x.name(0)};
  }

  /** With whole pages of versions, the first one is stranded. */
  lemma StrandedThoughItWouldMakeRoom(x: Example, n: nat, retain: nat)
    requires Fits(x, n) && retain <= n && WholePages(n + 1)
    ensures var c, vs := CodecOf(x), Rows(x, n);
            && |vs| == n + 1
            && Stalls(c, vs, Newest(vs, retain), x.incoming)
            && Stranded(c, vs, Newest(vs, retain), x.incoming) == {x.name(0)}
  {
    RowsAre(x, n, n);
    OnlyFirstIsEvictable(x, n, retain);
    assert |{x.name(0)}| == 1;
    StallsIsStranded(CodecOf(x), Rows(x, n), Newest(Rows(x, n), retain), x.incoming);
  }

  // ---- The refusal ----

  /** All that the object store lacks of the incoming tree, which is fit to be published, is its tree object. */
  lemma IncomingIsOneTree(x: Example, n: nat, id: VersionId, seqNo: nat, ingest: nat)
    requires Fits(x, n)
    ensures ObjectsOf(CodecOf(x), x.incoming) - Stored(x, n).objects == {Tree(x.incoming)}
    ensures Protocol.ReferencesVerified(CodecOf(x), Stored(x, n), Protocol.Job(id, Row(x.incoming, seqNo, ingest), {}, Protocol.Overwrite))
  {
    OneEntry(TreeOf(x, x.incoming));
  }

  lemma SubtractedRefs(x: Example, n: nat)
    requires Fits(x, n)
    ensures CanSubtract(RefsOf(x, n), TreeOf(x, x.first))
    ensures SubtractRefs(RefsOf(x, n), TreeOf(x, x.first)) == map[x.own := BlobRef(0, x.ownBytes), x.shared := BlobRef(n, x.sharedBytes)]
  {
    var t := TreeOf(x, x.first);
    OneEntry(t);
    var r := SubtractRefs(RefsOf(x, n), t);
    assert r[x.own] == BlobRef(0, x.ownBytes) && r[x.shared] == BlobRef(n, x.sharedBytes) && r.Keys == {x.own, x.shared};
  }

  lemma SweptRefs(x: Example, n: nat, s: Store)
    requires Fits(x, n) && n > 0
    requires s.refs == map[x.own := BlobRef(0, x.ownBytes), x.shared := BlobRef(n, x.sharedBytes)]
    ensures LiveBytes(Swept(CodecOf(x), s, x.first).refs) == x.sharedBytes
  {
    OneEntry(TreeOf(x, x.first));
    assert CodecOf(x).treeOf(x.first) == TreeOf(x, x.first);
    assert DeadBlobs(CodecOf(x), s, x.first) == {x.own};
    var refs := map[x.shared := BlobRef(n, x.sharedBytes)];
    assert s.refs - {x.own} == refs;
    assert refs.Keys == {x.shared} && LiveSize(refs)(x.shared) == x.sharedBytes;
    Sums.Remove({x.shared}, LiveSize(refs), x.shared);
    assert {x.shared} - {x.shared} == {};
  }

  /** When the first version is deleted, the shared blob is all that has live bytes. */
  lemma WithoutTheFirst(x: Example, n: nat)
    requires Fits(x, n) && n > 0
    ensures CanDelete(CodecOf(x), Stored(x, n), x.name(0)) && Stored(x, n).versions[x.name(0)].tree == x.first
    ensures LiveBytes(Swept(CodecOf(x), DeleteRow(CodecOf(x), Stored(x, n), x.name(0)), x.first).refs) == x.sharedBytes
  {
    RowsAre(x, n, n);
    SubtractedRefs(x, n);
    assert CodecOf(x).treeOf(x.first) == TreeOf(x, x.first);
    SweptRefs(x, n, DeleteRow(CodecOf(x), Stored(x, n), x.name(0)));
  }

  /** A publish of the incoming tree is refused, although it is admitted once the first version is
      deleted, which eviction was free to do: with whole pages of versions the loop strands it, and when
      the publish needs all but one byte of the quota the target is zero. */
  method RefusedThoughOneDeletionMakesRoom(s: DurableStore, x: Example, n: nat, lim: Limits) returns (v: Verdict, w: Verdict)
    requires Fits(x, n) && n > 0 && s.reliable && s.codec == CodecOf(x) && s.State() == Stored(x, n)
    requires lim.retainLatestPerKey <= n && lim.maxVersionsPerKey == 0
    requires x.sharedBytes + x.treeBytes(x.incoming) < lim.maxTotalSize <= x.ownBytes + x.sharedBytes + x.treeBytes(x.incoming)
    requires WholePages(n + 1) || x.treeBytes(x.incoming) + 1 == lim.maxTotalSize
    modifies s
    ensures v == StillOverAfterEviction && w == Admitted
  {
    IsHealthy(x, n);
    OneEntry(TreeOf(x, x.incoming));
    if WholePages(n + 1) {
      StrandedThoughItWouldMakeRoom(x, n, lim.retainLatestPerKey);
    }
    v := EnsureBudget(s, lim, x.treeBytes(x.incoming), x.incoming, {x.shared});
    w := AdmittedWithoutTheFirst(s, x, n, lim);
  }

  method AdmittedWithoutTheFirst(s: DurableStore, x: Example, n: nat, lim: Limits) returns (w: Verdict)
    requires Fits(x, n) && n > 0 && s.reliable && s.codec == CodecOf(x) && s.State() == Stored(x, n)
    requires x.sharedBytes + x.treeBytes(x.incoming) < lim.maxTotalSize
    modifies s
    ensures w == Admitted
  {
    IsHealthy(x, n);
    WithoutTheFirst(x, n);
    OneEntry(TreeOf(x, x.incoming));
    var deleted, estimate, failed := s.DeleteVersion(x.name(0));
    DeleteVersionKeeps(s.codec, Stored(x, n), s.State(), x.name(0));
    w := EnsureBudget(s, lim, x.treeBytes(x.incoming), x.incoming, {x.shared});
  }

  lemma OneEntryIsValid(clean: Cleaner, e: Entry)
    requires clean(e.path) == Some(e.path) && |e.path| == 1 && e.size < TreeCodec.UINT64 && RealHash(e.blob)
    ensures TreeCodec.Valid(clean, [e])
  {
  }

  /** For all hashes that differ there is such a store of any size that the names allow, which the code can hold. */
  lemma RealExamples(x: Example, n: nat, clean: Cleaner)
    requires RealHash(x.first) && RealHash(x.later) && RealHash(x.incoming) && RealHash(x.own) && RealHash(x.shared)
    requires x.first != x.later && x.first != x.incoming && x.later != x.incoming && x.own != x.shared
    requires x.ownBytes < TreeCodec.UINT64 && x.sharedBytes < TreeCodec.UINT64 && clean("f") == Some("f") && clean("g") == Some("g")
    requires |StoredNames.Digits(n)| <= StoredNames.MAX_SEMVER_BYTES - 5
    requires (forall i: nat :: x.name(i) == StoredNames.Patch(i)) && forall h :: x.treeBytes(h) == |TreeCodec.PrintTree(TreeOf(x, h))|
    ensures Fits(x, n) && Real(x, n, clean)
  {
    forall i: nat | i <= n ensures StoredNames.Accepted(x.name(i)) && x.name(i).key == x.name(0).key {
      StoredNames.PatchesAreAccepted(i, n);
      StoredNames.PatchesAreAccepted(0, n);
    }
    forall i: nat, j: nat | i < j <= n ensures x.name(i) != x.name(j) {
      StoredNames.PatchesAreAccepted(i, j);
    }
    OneEntryIsValid(clean, TreeOf(x, x.first)[0]);
    OneEntryIsValid(clean, TreeOf(x, x.later)[0]);
    OneEntryIsValid(clean, TreeOf(x, x.incoming)[0]);
  }
}
