/** Conservation of logical bytes across a publish: what the quota admits, and what the index
    reports after the commit. */
module LogicalBytes {
  import opened ObjectModel
  import opened DurableStores
  import opened LiveBlobs
  import Publishing
  import opened StoreProtocol
  import Sums

  /** The blobs of a tree that no version names yet. */
  ghost function NewlyLive(c: Codec, s: Store, h: Hash): set<Hash> {
    set b | b in BlobsOf(c.treeOf(h)) && CountOf(s.refs, b) == 0
  }

  /** Stored but unreferenced: left over from a failed publish or an interrupted cleanup. */
  ghost function Orphans(c: Codec, s: Store, h: Hash): set<Hash> {
    set b | b in NewlyLive(c, s, h) && Blob(b) in s.objects
  }

  ghost function Missing(c: Codec, s: Store, h: Hash): set<Hash> {
    set b | b in BlobsOf(c.treeOf(h)) && Blob(b) !in s.objects
  }

  /** The job replaces a revision whose row goes. */
  ghost predicate Replaces(s: Store, job: Job) {
    job.id in s.versions && job.mutation.Overwrite?
  }

  /** The blobs of the replaced revision that no version names after the commit. A new version replaces
      none, and history mode keeps the old revision under another name. */
  ghost function LeftUnnamed(c: Codec, s: Store, job: Job): set<Hash>
    requires (Replaces(s, job) ==> CanDelete(c, s, job.id)) && !TagTaken(s, job)
  {
    if job.id !in s.versions then {}
    else set b | b in BlobsOf(c.treeOf(s.versions[job.id].tree)) && !Named(c, Committed(c, s, job), Blob(b))
  }

  lemma InsertKeepsExact(c: Codec, s: Store, id: VersionId, row: Row)
    requires Exact(c, s) && id !in s.versions
    ensures Exact(c, InsertRow(c, s, id, row))
  {
    forall b ensures RefTotal(c, s.versions[id := row], b) == CountOf(InsertRow(c, s, id, row).refs, b) {
      TotalInsert(c, s.versions, id, row, b);
      OccPositive(c.treeOf(row.tree), b);
    }
  }

  /** The counts after a commit are exact, whether or not the objects are there yet. */
  lemma CommittedIsExact(c: Codec, s: Store, job: Job)
    requires Healthy(c, s) && Exact(c, s) && !TagTaken(s, job)
    ensures (Replaces(s, job) ==> CanDelete(c, s, job.id)) && Exact(c, Committed(c, s, job))
  {
    if job.id !in s.versions {
      InsertKeepsExact(c, s, job.id, job.row);
    } else if job.mutation.Overwrite? {
      DeleteRowKeeps(c, s, job.id);
      InsertKeepsExact(c, DeleteRow(c, s, job.id), job.id, job.row);
    } else {
      var historical := VersionId(job.id.key, job.mutation.tag);
      RetireKeeps(c, s, job.id, historical);
      InsertKeepsExact(c, RetireRow(s, job.id, historical), job.id, job.row);
    }
  }

  lemma CommittedCounts(c: Codec, s: Store, job: Job, b: Hash)
    requires Healthy(c, s) && !TagTaken(s, job) && (Replaces(s, job) ==> CanDelete(c, s, job.id))
    ensures CountOf(Committed(c, s, job).refs, b) == CountOf(s.refs, b) + Occ(c.treeOf(job.row.tree), b)
              - if Replaces(s, job) then Occ(c.treeOf(s.versions[job.id].tree), b) else 0
    ensures b in Committed(c, s, job).refs ==> Committed(c, s, job).refs[b].size == c.sizeOf(b)
  {
    OccPositive(c.treeOf(job.row.tree), b);
    if Replaces(s, job) {
      OccPositive(c.treeOf(s.versions[job.id].tree), b);
    }
  }

  /** The commit takes what it leaves unnamed off the live blobs and adds what is newly named. */
  lemma LiveAfterCommit(c: Codec, s: Store, job: Job)
    requires Healthy(c, s) && Exact(c, s) && !TagTaken(s, job) && (Replaces(s, job) ==> CanDelete(c, s, job.id))
    ensures var s' := Committed(c, s, job);
            Live(s'.refs) == Live(s.refs) - LeftUnnamed(c, s, job) + NewlyLive(c, s, job.row.tree)
    ensures LeftUnnamed(c, s, job) <= Live(s.refs)
    ensures NewlyLive(c, s, job.row.tree) !! Live(s.refs)
  {
    var s', gone := Committed(c, s, job), LeftUnnamed(c, s, job);
    CommittedIsExact(c, s, job);
    forall b
      ensures b in Live(s'.refs) <==> (b in Live(s.refs) && b !in gone) || b in NewlyLive(c, s, job.row.tree)
      ensures b in gone ==> b in Live(s.refs)
    {
      CommittedCounts(c, s, job, b);
      OccPositive(c.treeOf(job.row.tree), b);
      ExactlyNamed(c, s', Blob(b));
      if job.id in s.versions {
        OccPositive(c.treeOf(s.versions[job.id].tree), b);
        TotalZero(c, s.versions, b);
      }
    }
  }

  lemma CommitMovesBytes(c: Codec, s: Store, job: Job)
    requires Healthy(c, s) && Exact(c, s) && !TagTaken(s, job) && (Replaces(s, job) ==> CanDelete(c, s, job.id))
    ensures LiveBytes(Committed(c, s, job).refs) + Sums.Sum(LeftUnnamed(c, s, job), SizeOf(c))
            == LiveBytes(s.refs) + Sums.Sum(NewlyLive(c, s, job.row.tree), SizeOf(c))
  {
    LiveAfterCommit(c, s, job);
    BytesOfLive(c, s.refs);
    BytesOfCommitted(c, s, job);
    Exchange(Live(s.refs), LeftUnnamed(c, s, job), NewlyLive(c, s, job.row.tree), SizeOf(c));
  }

  lemma BytesOfCommitted(c: Codec, s: Store, job: Job)
    requires Healthy(c, s) && !TagTaken(s, job) && (Replaces(s, job) ==> CanDelete(c, s, job.id))
    ensures LiveBytes(Committed(c, s, job).refs) == Sums.Sum(Live(Committed(c, s, job).refs), SizeOf(c))
  {
    forall b | b in Committed(c, s, job).refs ensures Committed(c, s, job).refs[b].size == c.sizeOf(b) {
      CommittedCounts(c, s, job, b);
    }
    BytesOfLive(c, Committed(c, s, job).refs);
  }

  lemma Exchange(live: set<Hash>, gone: set<Hash>, newly: set<Hash>, size: Hash -> nat)
    requires gone <= live && newly !! live
    ensures Sums.Sum(live - gone + newly, size) + Sums.Sum(gone, size) == Sums.Sum(live, size) + Sums.Sum(newly, size)
  {
    Sums.Union(live - gone, gone, size);
    assert live - gone + gone == live;
    Sums.Union(live - gone, newly, size);
  }

  /** What a commit newly names is missing, or an orphan. */
  lemma NewlyLiveIs(c: Codec, s: Store, h: Hash)
    requires Healthy(c, s) && Exact(c, s)
    ensures Sums.Sum(NewlyLive(c, s, h), SizeOf(c)) == Sums.Sum(Missing(c, s, h), SizeOf(c)) + Sums.Sum(Orphans(c, s, h), SizeOf(c))
  {
    forall b | b in Missing(c, s, h) ensures b in NewlyLive(c, s, h) {
      ExactlyNamed(c, s, Blob(b));
      if CountOf(s.refs, b) > 0 {
        StoredObjects(c, s, Blob(b));
      }
    }
    assert Missing(c, s, h) + Orphans(c, s, h) == NewlyLive(c, s, h);
    Sums.Union(Missing(c, s, h), Orphans(c, s, h), SizeOf(c));
  }

  lemma {:induction false} BlobSum(c: Codec, hashes: set<Hash>)
    ensures Sums.Sum(set b | b in hashes :: Blob(b), Publishing.ObjectSize(c)) == Sums.Sum(hashes, SizeOf(c))
    decreases hashes
  {
    var blobs := set b | b in hashes :: Blob(b);
    if hashes != {} {
      var b :| b in hashes;
      Sums.Remove(hashes, SizeOf(c), b);
      Sums.Remove(blobs, Publishing.ObjectSize(c), Blob(b));
      assert blobs - {Blob(b)} == set x | x in hashes - {b} :: Blob(x);
      BlobSum(c, hashes - {b});
    } else {
      assert blobs == {};
    }
  }

  ghost function TreeBytesMissing(c: Codec, s: Store, h: Hash): nat {
    if Tree(h) in s.objects then 0 else c.treeBytes(h)
  }

  lemma IncomingBytes(c: Codec, s: Store, h: Hash)
    ensures Sums.Sum(ObjectsOf(c, h) - s.objects, Publishing.ObjectSize(c))
            == Sums.Sum(Missing(c, s, h), SizeOf(c)) + TreeBytesMissing(c, s, h)
  {
    var blobs := set b | b in Missing(c, s, h) :: Blob(b);
    BlobSum(c, Missing(c, s, h));
    if Tree(h) in s.objects {
      assert ObjectsOf(c, h) - s.objects == blobs;
    } else {
      assert ObjectsOf(c, h) - s.objects == blobs + {Tree(h)};
      Sums.Add(blobs, Publishing.ObjectSize(c), Tree(h));
    }
  }

  /** A commit, in each of its three modes, raises the logical bytes by exactly the admitted bytes, less
      the tree object (which the index does not count), less what the replaced revision leaves unnamed,
      plus the orphan blobs the tree brings back to life (which admission does not count). */
  lemma CommitConservesBytes(c: Codec, s: Store, job: Job)
    requires Healthy(c, s) && Exact(c, s) && !TagTaken(s, job)
    ensures Replaces(s, job) ==> CanDelete(c, s, job.id)
    ensures LiveBytes(Committed(c, s, job).refs) + TreeBytesMissing(c, s, job.row.tree) + Sums.Sum(LeftUnnamed(c, s, job), SizeOf(c))
            == LiveBytes(s.refs) + Sums.Sum(ObjectsOf(c, job.row.tree) - s.objects, Publishing.ObjectSize(c))
               + Sums.Sum(Orphans(c, s, job.row.tree), SizeOf(c))
  {
    CommittedIsExact(c, s, job);
    CommitMovesBytes(c, s, job);
    IncomingBytes(c, s, job.row.tree);
    NewlyLiveIs(c, s, job.row.tree);
  }

  /** Only a replaced revision leaves anything unnamed. */
  lemma OnlyReplacedIsUnnamed(c: Codec, s: Store, job: Job)
    requires Healthy(c, s) && Exact(c, s) && !TagTaken(s, job) && !Replaces(s, job)
    ensures LeftUnnamed(c, s, job) == {}
  {
    if job.id in s.versions {
      var s', h := Committed(c, s, job), VersionId(job.id.key, job.mutation.tag);
      assert h in s'.versions && s'.versions[h].tree == s.versions[job.id].tree;
      forall b | b in BlobsOf(c.treeOf(s.versions[job.id].tree)) ensures Named(c, s', Blob(b)) {
        assert Blob(b) in ObjectsOf(c, s'.versions[h].tree);
      }
    }
  }

  /** An admitted publish, in each mode, keeps the logical bytes below the maximum exactly when the
      orphans it revives fit into the room that is left and the room that it makes. */
  lemma BoundAfterCommit(c: Codec, s: Store, job: Job, maxBytes: nat)
    requires Healthy(c, s) && Exact(c, s) && !TagTaken(s, job)
    requires LiveBytes(s.refs) + Sums.Sum(ObjectsOf(c, job.row.tree) - s.objects, Publishing.ObjectSize(c)) < maxBytes
    ensures Replaces(s, job) ==> CanDelete(c, s, job.id)
    ensures LiveBytes(Committed(c, s, job).refs) < maxBytes <==>
              Sums.Sum(Orphans(c, s, job.row.tree), SizeOf(c))
              < maxBytes - LiveBytes(s.refs) - Sums.Sum(ObjectsOf(c, job.row.tree) - s.objects, Publishing.ObjectSize(c))
                + TreeBytesMissing(c, s, job.row.tree) + Sums.Sum(LeftUnnamed(c, s, job), SizeOf(c))
    ensures Orphans(c, s, job.row.tree) == {} ==> LiveBytes(Committed(c, s, job).refs) < maxBytes
  {
    CommitConservesBytes(c, s, job);
    Sums.Zero(Orphans(c, s, job.row.tree), SizeOf(c));
  }

  /** So the quota can be exceeded: an empty index, and one orphan blob that is not smaller than the quota. */
  ghost function OneBlobCodec(b: Hash, treeBytes: nat, blobBytes: nat): Codec {
    Codec(h => [Entry("f", File, blobBytes, b)], x => blobBytes, h => treeBytes)
  }

  ghost function OneOrphan(b: Hash): Store {
    Store(map[], map[], {Blob(b)})
  }

  lemma OneOrphanIsHealthy(c: Codec, b: Hash)
    ensures Healthy(c, OneOrphan(b)) && Exact(c, OneOrphan(b))
  {
    forall x ensures RefTotal(c, OneOrphan(b).versions, x) == 0 {
      TotalZero(c, OneOrphan(b).versions, x);
    }
  }

  /** Whatever the size of the tree object and the quota above it. */
  lemma RevivedOrphanBreaksQuota(id: VersionId, h: Hash, b: Hash, treeBytes: nat, maxBytes: nat, blobBytes: nat)
    requires treeBytes < maxBytes <= blobBytes
    ensures var c, s, job := OneBlobCodec(b, treeBytes, blobBytes), OneOrphan(b), Job(id, Row(h, 1, 0), {}, Overwrite);
            && Healthy(c, s) && Exact(c, s) && ReferencesVerified(c, s, job)
            && LiveBytes(s.refs) + Sums.Sum(ObjectsOf(c, h) - s.objects, Publishing.ObjectSize(c)) < maxBytes
            && LiveBytes(Committed(c, s, job).refs) == blobBytes
  {
    var c, s, job := OneBlobCodec(b, treeBytes, blobBytes), OneOrphan(b), Job(id, Row(h, 1, 0), {}, Overwrite);
    var t := c.treeOf(h);
    assert t == [Entry("f", File, blobBytes, b)];
    assert t[0] in t;
    assert BlobsOf(t) == {b};
    OneOrphanIsHealthy(c, b);
    assert ObjectsOf(c, h) - s.objects == {Tree(h)};
    Sums.Remove({Tree(h)}, Publishing.ObjectSize(c), Tree(h));
    assert {Tree(h)} - {Tree(h)} == {};
    assert Orphans(c, s, h) == {b};
    Sums.Remove({b}, SizeOf(c), b);
    CommitConservesBytes(c, s, job);
  }
}
