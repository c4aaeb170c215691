/** `PublishStaged` from the staged blobs to the commit, all under `writeMu`. */
module Publishing {
  import opened ObjectModel
  import opened DurableStores
  import opened Options
  import opened Quotas
  import Protocol = StoreProtocol
  import Sums

  /** A staged blob as declared, and what its spool file really holds. */
  datatype StagedBlob = StagedBlob(hash: Hash, size: nat, actual: Hash)

  datatype Request = Request(id: VersionId, tree: Hash, requestedSeq: nat, ingest: nat, mutation: Protocol.Mutation)

  /** `cleaned` is false when removing the written objects after a failure failed too. */
  datatype Outcome = Published(historical: Option<string>) | Skipped | Failed(verdict: Verdict, cleaned: bool)

  /** A blob declared again is accepted on its size alone: its second file is never opened. */
  ghost predicate Acceptable(c: Codec, staged: seq<StagedBlob>, used: set<Hash>, j: nat)
    requires j < |staged|
  {
    var b := staged[j];
    && b.hash != "" && b.hash in used && b.size == c.sizeOf(b.hash)
    && (b.actual == b.hash || exists k :: 0 <= k < j && staged[k].hash == b.hash)
  }

  /** `prepareStagedBlobs`: hash, use, size and content of the staged files. */
  method PrepareStagedBlobs(c: Codec, staged: seq<StagedBlob>, used: set<Hash>) returns (r: Option<map<Hash, nat>>)
    ensures r.Some? <==> forall j :: 0 <= j < |staged| ==> Acceptable(c, staged, used, j)
    ensures r.Some? ==> r.value.Keys == set b | b in staged :: b.hash
    ensures r.Some? ==> forall h :: h in r.value ==> r.value[h] == c.sizeOf(h)
  {
    var files: map<Hash, nat> := map[];
    for i := 0 to |staged|
      invariant files.Keys == set j | 0 <= j < i :: staged[j].hash
      invariant forall h :: h in files ==> files[h] == c.sizeOf(h)
      invariant forall j :: 0 <= j < i ==> Acceptable(c, staged, used, j)
    {
      var b := staged[i];
      if b.hash == "" || b.hash !in used {
        assert !Acceptable(c, staged, used, i);
        return None;
      }
      if b.hash in files {
        if files[b.hash] != b.size {
          assert !Acceptable(c, staged, used, i);
          return None;
        }
      } else {
        assert Acceptable(c, staged, used, i) <==> b.actual == b.hash && c.sizeOf(b.actual) == b.size;
        if b.actual != b.hash || c.sizeOf(b.actual) != b.size {
          return None;
        }
        files := files[b.hash := b.size];
      }
    }
    return Some(files);
  }

  ghost predicate ReferencesHold(s: DurableStore, t: seq<Entry>, files: map<Hash, nat>)
    reads s
  {
    forall e :: e in t ==> (e.blob in files || Blob(e.blob) in s.objects) && e.size == s.codec.sizeOf(e.blob)
  }

  /** `verifyStagedReferences`: each blob once, staged or stored, and every entry at that size. */
  method VerifyStagedReferences(s: DurableStore, t: seq<Entry>, files: map<Hash, nat>) returns (ok: bool)
    requires forall h :: h in files ==> files[h] == s.codec.sizeOf(h)
    ensures ok ==> ReferencesHold(s, t, files)
    ensures s.reliable && ReferencesHold(s, t, files) ==> ok
  {
    var verified: map<Hash, nat> := map[];
    for i := 0 to |t|
      invariant forall h :: h in verified ==> (h in files || Blob(h) in s.objects) && verified[h] == s.codec.sizeOf(h)
      invariant forall j :: 0 <= j < i ==> t[j].blob in verified && t[j].size == s.codec.sizeOf(t[j].blob)
    {
      var e := t[i];
      assert e in t;
      if e.blob in verified {
        if verified[e.blob] != e.size {
          return false;
        }
      } else if e.blob in files {
        if files[e.blob] != e.size {
          return false;
        }
        verified := verified[e.blob := e.size];
      } else {
        var fault := s.Fault();
        if fault || Blob(e.blob) !in s.objects || s.codec.sizeOf(e.blob) != e.size {
          return false;
        }
        verified := verified[e.blob := e.size];
      }
    }
    return true;
  }

  function BytesOf(c: Codec, o: Object): nat {
    match o
    case Blob(b) => c.sizeOf(b)
    case Tree(h) => c.treeBytes(h)
  }

  ghost function ObjectSize(c: Codec): Object -> nat {
    o => BytesOf(c, o)
  }

  /** `PendingObjects`: what the object store lacks, and its size. */
  method PendingObjects(s: DurableStore, files: map<Hash, nat>, tree: Hash) returns (pending: set<Object>, bytes: nat)
    requires forall h :: h in files ==> files[h] == s.codec.sizeOf(h)
    ensures pending == (set h | h in files && Blob(h) !in s.objects :: Blob(h)) + if Tree(tree) in s.objects then {} else {Tree(tree)}
    ensures bytes == Sums.Sum(pending, ObjectSize(s.codec))
  {
    pending, bytes := {}, 0;
    var todo := files.Keys;
    while todo != {}
      invariant todo <= files.Keys
      invariant pending == set h | h in files && h !in todo && Blob(h) !in s.objects :: Blob(h)
      invariant bytes == Sums.Sum(pending, ObjectSize(s.codec))
      decreases todo
    {
      var h :| h in todo;
      if Blob(h) !in s.objects {
        Sums.Add(pending, ObjectSize(s.codec), Blob(h));
        pending := pending + {Blob(h)};
        bytes := bytes + files[h];
      }
      todo := todo - {h};
    }
    if Tree(tree) !in s.objects {
      Sums.Add(pending, ObjectSize(s.codec), Tree(tree));
      pending := pending + {Tree(tree)};
      bytes := bytes + s.codec.treeBytes(tree);
    }
  }

  /** `WriteMissingObjectsFromFileOpener`: one object after another; any of them may fail. */
  method WriteMissingObjects(s: DurableStore, pending: set<Object>) returns (failed: bool)
    modifies s`objects
    ensures old(s.objects) <= s.objects <= old(s.objects) + pending
    ensures !failed ==> s.objects == old(s.objects) + pending
    ensures s.reliable ==> !failed
  {
    var todo := pending;
    while todo != {}
      invariant todo <= pending && s.objects == old(s.objects) + (pending - todo)
      decreases todo
    {
      var fault := s.Fault();
      if fault {
        return true;
      }
      var o :| o in todo;
      s.objects := s.objects + {o};
      todo := todo - {o};
    }
    return false;
  }

  /** What undoing a publish may have taken away: pending objects that the index does not reference. */
  ghost predicate Undone(before: Store, after: Store, pending: set<Object>) {
    && after == before.(objects := after.objects) && after.objects <= before.objects
    && forall o :: o in before.objects && o !in after.objects ==> o in pending && !Referenced(before, o)
  }

  /** `cleanupPublishFailure`: the pending objects that the index does not reference. */
  method CleanupPublishFailure(s: DurableStore, pending: set<Object>) returns (cleaned: bool)
    requires Healthy(s.codec, s.State())
    modifies s`objects
    ensures Healthy(s.codec, s.State()) && Undone(old(s.State()), s.State(), pending)
    ensures cleaned ==> forall o :: o in pending && o in s.objects ==> Referenced(old(s.State()), o)
    ensures s.reliable ==> cleaned
  {
    var gone: set<Object> := {};
    var todo := pending;
    while todo != {}
      invariant todo <= pending && gone <= pending - todo && s.objects == old(s.objects)
      invariant forall o :: o in pending - todo ==> (o in gone <==> !Referenced(s.State(), o))
      decreases todo
    {
      var fault := s.Fault();
      if fault {
        return false;
      }
      var o :| o in todo;
      var referenced :=
        match o
        case Tree(h) => exists id :: id in s.versions && s.versions[id].tree == h
        case Blob(b) => b in s.refs && s.refs[b].count > 0;
      if !referenced {
        gone := gone + {o};
      }
      todo := todo - {o};
    }
    ghost var before := s.State();
    var failed := s.DeleteObjects(gone);
    forall o | o in before.objects - s.objects ensures !Named(s.codec, before, o) {
      if Named(s.codec, before, o) {
        NamedIsReferenced(s.codec, before, o);
      }
    }
    DropUnnamed(s.codec, before, before.objects - s.objects);
    assert before.objects - (before.objects - s.objects) == s.objects;
    assert before.(objects := s.objects) == s.State();
    return !failed;
  }

  // ---- The listing position ----

  ghost predicate IsMaxSeq(vs: map<VersionId, Row>, key: string, n: nat) {
    && (forall id :: id in vs && id.key == key ==> vs[id].upstreamSeq <= n)
    && (n == 0 || exists id :: id in vs && id.key == key && vs[id].upstreamSeq == n)
  }

  method MaxUpstreamSeq(vs: map<VersionId, Row>, key: string) returns (n: nat)
    ensures IsMaxSeq(vs, key, n)
  {
    n := 0;
    var todo := vs.Keys;
    while todo != {}
      invariant todo <= vs.Keys
      invariant forall id :: id in vs && id !in todo && id.key == key ==> vs[id].upstreamSeq <= n
      invariant n == 0 || exists id :: id in vs && id.key == key && vs[id].upstreamSeq == n
      decreases todo
    {
      var id :| id in todo;
      if id.key == key && vs[id].upstreamSeq > n {
        n := vs[id].upstreamSeq;
      }
      todo := todo - {id};
    }
  }

  /** A republished version keeps its position, a requested position is taken as given, and otherwise
      the version becomes the newest of its key. */
  ghost predicate Position(vs: map<VersionId, Row>, key: string, existing: Option<Row>, requested: nat, n: nat) {
    if existing.Some? && existing.value.upstreamSeq > 0 then n == existing.value.upstreamSeq
    else if requested > 0 then n == requested
    else n > 0 && IsMaxSeq(vs, key, n - 1)
  }

  /** `resolveUpstreamSeq`. */
  method ResolveUpstreamSeq(vs: map<VersionId, Row>, key: string, existing: Option<Row>, requested: nat) returns (n: nat)
    ensures Position(vs, key, existing, requested, n)
  {
    if existing.Some? && existing.value.upstreamSeq > 0 {
      return existing.value.upstreamSeq;
    }
    if requested > 0 {
      return requested;
    }
    var top := MaxUpstreamSeq(vs, key);
    return top + 1;
  }

  // ---- The transaction and the publish ----

  ghost function JobOf(q: Request, seqNo: nat, staged: set<Hash>): Protocol.Job {
    Protocol.Job(q.id, Row(q.tree, seqNo, q.ingest), staged, q.mutation)
  }

  ghost predicate TagTaken(s: Store, q: Request) {
    Protocol.TagTaken(s, JobOf(q, 0, {}))
  }

  /** Taking away or renaming a row without a position does not move the others. */
  lemma SamePosition(vs: map<VersionId, Row>, cleared: map<VersionId, Row>, id: VersionId, requested: nat, n: nat)
    requires Position(cleared, id.key, ExistingRow(vs, id), requested, n)
    requires forall k :: k in vs && k != id ==> k in cleared && cleared[k] == vs[k]
    requires forall k :: k in cleared ==> (k in vs && k != id && cleared[k] == vs[k]) || cleared[k].upstreamSeq == 0
    ensures Position(vs, id.key, ExistingRow(vs, id), requested, n)
  {
    var existing := ExistingRow(vs, id);
    if requested == 0 && (existing.None? || existing.value.upstreamSeq == 0) {
      forall k | k in vs && k.key == id.key ensures vs[k].upstreamSeq <= n - 1 {
        assert k != id ==> cleared[k] == vs[k];
      }
      if n != 1 {
        var k :| k in cleared && k.key == id.key && cleared[k].upstreamSeq == n - 1;
        assert k in vs && vs[k].upstreamSeq == n - 1;
      }
    }
  }

  ghost function ExistingRow(vs: map<VersionId, Row>, id: VersionId): Option<Row> {
    if id in vs then Some(vs[id]) else None
  }

  function Historical(vs: map<VersionId, Row>, q: Request): Option<string> {
    if q.id in vs && q.mutation.History? then Some(q.mutation.tag) else None
  }

  /** `publishTx`: all of the index changes or none of them. */
  method PublishTx(s: DurableStore, q: Request, ghost staged: set<Hash>) returns (ok: bool, historical: Option<string>, ghost seqNo: nat)
    requires q.id in s.versions ==> s.versions[q.id].tree != q.tree
    requires forall e :: e in s.codec.treeOf(q.tree) ==> e.size == s.codec.sizeOf(e.blob)
    modifies s`versions, s`refs
    ensures !ok ==> s.State() == old(s.State())
    ensures TagTaken(old(s.State()), q) ==> !ok
    ensures ok ==>
      && !TagTaken(old(s.State()), q)
      && (q.id in old(s.versions) && q.mutation.Overwrite? ==> CanDelete(s.codec, old(s.State()), q.id))
      && s.State() == Protocol.Committed(s.codec, old(s.State()), JobOf(q, seqNo, staged))
    ensures s.reliable && Healthy(s.codec, old(s.State())) && !TagTaken(old(s.State()), q) ==> ok
    ensures ok ==> historical == Historical(old(s.versions), q)
    ensures ok ==> Position(old(s.versions), q.id.key, ExistingRow(old(s.versions), q.id), q.requestedSeq, seqNo)
  {
    var versions0, refs0 := s.versions, s.refs;
    if q.id in s.versions {
      HealthyIsDeletable(s.codec, s.State(), q.id);
    }
    historical, seqNo := None, 0;
    var existing := if q.id in s.versions then Some(s.versions[q.id]) else None;
    if existing.Some? {
      match q.mutation
      case History(tag) =>
        if VersionId(q.id.key, tag) in s.versions {
          return false, None, 0;
        }
        historical := Some(tag);
        s.versions := s.versions[VersionId(q.id.key, tag) := existing.value.(upstreamSeq := 0)] - {q.id};
      case Overwrite =>
        var ok1 := s.SubtractBlobRefs(s.codec.treeOf(existing.value.tree));
        if !ok1 {
          return false, None, 0;
        }
        s.versions := s.versions - {q.id};
    }
    var n := ResolveUpstreamSeq(s.versions, q.id.key, existing, q.requestedSeq);
    SamePosition(versions0, s.versions, q.id, q.requestedSeq, n);
    seqNo := n;
    s.versions := s.versions[q.id := Row(q.tree, n, q.ingest)];
    var added := s.AddBlobRefs(s.codec.treeOf(q.tree));
    var fault := s.Fault();
    if fault || !added {
      s.versions, s.refs := versions0, refs0;
      return false, None, 0;
    }
    ok := true;
  }

  // ---- What holds between the steps ----

  /** Staged or stored, and not stored: what is pending is exactly what is missing. */
  lemma PendingIsMissing(c: Codec, s: Store, tree: Hash, staged: set<Hash>, pending: set<Object>)
    requires staged <= BlobsOf(c.treeOf(tree))
    requires forall e :: e in c.treeOf(tree) ==> e.blob in staged || Blob(e.blob) in s.objects
    requires pending == (set h | h in staged && Blob(h) !in s.objects :: Blob(h)) + if Tree(tree) in s.objects then {} else {Tree(tree)}
    ensures pending == ObjectsOf(c, tree) - s.objects
  {
    forall o | o in ObjectsOf(c, tree) - s.objects ensures o in pending {
      if o.Blob? {
        var e :| e in c.treeOf(tree) && e.blob == o.hash;
      }
    }
  }

  lemma MoreObjectsAreHealthy(c: Codec, s: Store, s': Store)
    requires Healthy(c, s) && s' == s.(objects := s'.objects) && s.objects <= s'.objects
    ensures Healthy(c, s') && (Exact(c, s') <==> Exact(c, s))
  {
    forall id | id in s'.versions ensures TreeStored(c, s'.objects, s'.versions[id].tree) {
      assert TreeStored(c, s.objects, s.versions[id].tree);
    }
  }

  /** After eviction and writing every object of the incoming tree is there. */
  lemma EverythingWritten(c: Codec, s0: Store, admitted: Store, objects: set<Object>, tree: Hash, retain: nat)
    requires OnlyEvicted(c, s0, admitted, tree, retain)
    requires objects == admitted.objects + (ObjectsOf(c, tree) - s0.objects)
    requires forall e :: e in c.treeOf(tree) ==> e.size == c.sizeOf(e.blob)
    ensures TreeStored(c, objects, tree)
    ensures ObjectsOf(c, tree) - admitted.objects == ObjectsOf(c, tree) - s0.objects
  {
    assert Tree(tree) in ObjectsOf(c, tree);
    forall e | e in c.treeOf(tree) ensures Blob(e.blob) in objects {
      assert Blob(e.blob) in ObjectsOf(c, tree);
    }
  }

  /** With exact counts a cleaned-up failure leaves nothing behind. */
  lemma NothingLeftBehind(c: Codec, s0: Store, before: Store, after: set<Object>, pending: set<Object>)
    requires Healthy(c, s0) && Healthy(c, before) && Exact(c, before)
    requires forall id :: id in before.versions ==> id in s0.versions && s0.versions[id] == before.versions[id]
    requires before.objects <= s0.objects + pending && pending !! s0.objects && after <= before.objects
    requires forall o :: o in pending && o in after ==> Referenced(before, o)
    ensures after <= s0.objects
  {
    forall o | o in after ensures o in s0.objects {
      if o in pending {
        ExactlyNamed(c, before, o);
        var id :| id in before.versions && o in ObjectsOf(c, before.versions[id].tree);
        assert Named(c, s0, o);
        StoredObjects(c, s0, o);
      }
    }
  }

  /** The replaced revision leaves no object behind that only it named. */
  ghost predicate ReplacedIsSwept(c: Codec, before: Store, s: Store, q: Request, staged: set<Hash>, seqNo: nat) {
    q.id in before.versions && q.mutation.Overwrite? ==>
      && CanDelete(c, before, q.id)
      && s == Swept(c, Protocol.Committed(c, before, JobOf(q, seqNo, staged)), before.versions[q.id].tree)
  }

  /** `commitPublish`: skip an identical version, otherwise commit and clean up what it replaced.
      A failing cleanup of the replaced revision is only logged. */
  method CommitPublish(s: DurableStore, q: Request, ghost staged: set<Hash>, pending: set<Object>)
    returns (r: Outcome, ghost seqNo: nat)
    requires Healthy(s.codec, s.State()) && TreeStored(s.codec, s.objects, q.tree)
    modifies s
    ensures Healthy(s.codec, s.State())
    ensures Exact(s.codec, old(s.State())) ==> Exact(s.codec, s.State())
    ensures r.Skipped? <==> q.id in old(s.versions) && old(s.versions)[q.id].tree == q.tree
    ensures r.Skipped? ==> s.State() == old(s.State())
    ensures r.Failed? ==> s.versions == old(s.versions) && s.refs == old(s.refs) && s.objects <= old(s.objects) && r.verdict == IoFailure
    ensures r.Failed? ==> Undone(old(s.State()), s.State(), pending)
    ensures r.Failed? && r.cleaned ==> forall o :: o in pending && o in s.objects ==> Referenced(old(s.State()), o)
    ensures r.Failed? && s.reliable ==> r.cleaned && TagTaken(old(s.State()), q)
    ensures r.Published? ==> !TagTaken(old(s.State()), q) && r.historical == Historical(old(s.versions), q)
    ensures r.Published? ==> Position(old(s.versions), q.id.key, ExistingRow(old(s.versions), q.id), q.requestedSeq, seqNo)
    ensures r.Published? ==> q.id in old(s.versions) && q.mutation.Overwrite? ==> CanDelete(s.codec, old(s.State()), q.id)
    ensures r.Published? ==>
      var committed := Protocol.Committed(s.codec, old(s.State()), JobOf(q, seqNo, staged));
      if q.id in old(s.versions) && q.mutation.Overwrite?
      then PartlySwept(s.codec, committed, s.State(), old(s.versions)[q.id].tree)
      else s.State() == committed
    ensures r.Published? && s.reliable ==> ReplacedIsSwept(s.codec, old(s.State()), s.State(), q, staged, seqNo)
  {
    seqNo := 0;
    ghost var before := s.State();
    var replaced := if q.id in s.versions then Some(s.versions[q.id].tree) else None;
    if replaced == Some(q.tree) {
      return Skipped, 0;
    }
    var ok, historical;
    ok, historical, seqNo := PublishTx(s, q, staged);
    if !ok {
      var cleaned := CleanupPublishFailure(s, pending);
      return Failed(IoFailure, cleaned), 0;
    }
    ghost var committed := s.State();
    Protocol.CommittedKeeps(s.codec, before, JobOf(q, seqNo, staged));
    if replaced.Some? && q.mutation.Overwrite? {
      var ignored := s.CleanupDeletedObjects(replaced.value);
      PartlySweptKeeps(s.codec, committed, s.State(), replaced.value);
    }
    r := Published(historical);
  }

  /** The second half of the critical section, once the publish is admitted: write what is missing,
      then commit. `mid` is the store as the commit found it. */
  method WriteAndCommit(s: DurableStore, q: Request, ghost staged: set<Hash>, pending: set<Object>, ghost s0: Store, ghost retain: nat)
    returns (r: Outcome, ghost mid: Store, ghost seqNo: nat)
    requires Healthy(s.codec, s0) && OnlyEvicted(s.codec, s0, s.State(), q.tree, retain)
    requires pending == ObjectsOf(s.codec, q.tree) - s0.objects
    requires forall e :: e in s.codec.treeOf(q.tree) ==> e.size == s.codec.sizeOf(e.blob)
    modifies s
    ensures Healthy(s.codec, s.State())
    ensures Exact(s.codec, s0) ==> Exact(s.codec, s.State())
    ensures mid == old(s.State()).(objects := mid.objects) && mid.objects - pending == old(s.objects)
    ensures r.Failed? && s.reliable ==> r.cleaned && TagTaken(mid, q)
    ensures r.Failed? ==> r.verdict == IoFailure
    ensures Outcomes(s.codec, q, staged, s0, mid, s.State(), r, seqNo)
    ensures r.Published? && s.reliable ==> ReplacedIsSwept(s.codec, mid, s.State(), q, staged, seqNo)
  {
    ghost var admitted := s.State();
    seqNo := 0;
    var failed := WriteMissingObjects(s, pending);
    mid := s.State();
    assert mid.objects - pending == admitted.objects;
    MoreObjectsAreHealthy(s.codec, admitted, mid);
    var overHardLimit := s.Fault();
    if failed || overHardLimit {
      var cleaned := CleanupPublishFailure(s, pending);
      if cleaned && Exact(s.codec, s0) {
        NothingLeftBehind(s.codec, s0, mid, s.objects, pending);
      }
      return Failed(IoFailure, cleaned), mid, 0;
    }
    EverythingWritten(s.codec, s0, admitted, mid.objects, q.tree, retain);
    r, seqNo := CommitPublish(s, q, staged, pending);
    if r.Skipped? {
      SkippedWroteNothing(s.codec, s0, admitted, q.id, pending, q.tree, retain);
    }
    if r.Failed? && r.cleaned && Exact(s.codec, s0) {
      NothingLeftBehind(s.codec, s0, mid, s.objects, pending);
    }
  }

  lemma SkippedWroteNothing(c: Codec, s0: Store, admitted: Store, id: VersionId, pending: set<Object>, tree: Hash, retain: nat)
    requires Healthy(c, s0) && OnlyEvicted(c, s0, admitted, tree, retain) && pending == ObjectsOf(c, tree) - s0.objects
    requires id in admitted.versions && admitted.versions[id].tree == tree
    ensures pending == {}
  {
    assert TreeStored(c, s0.objects, tree);
  }

  /** What each outcome of a publish means, from the store `s0` it began with over the store `mid` as the
      commit found it to the store `s` it left: a skip changed nothing, a cleaned-up failure left no
      object behind, and a success is the commit, less what the replaced revision leaves unnamed. */
  ghost predicate Outcomes(c: Codec, q: Request, staged: set<Hash>, s0: Store, mid: Store, s: Store, r: Outcome, seqNo: nat) {
    match r
    case Skipped =>
      s == mid && mid.objects <= s0.objects && q.id in mid.versions && mid.versions[q.id].tree == q.tree
    case Failed(_, cleaned) =>
      Undone(mid, s, ObjectsOf(c, q.tree) - s0.objects) && (cleaned && Exact(c, s0) ==> s.objects <= s0.objects)
    case Published(historical) =>
      && TreeStored(c, mid.objects, q.tree) && !TagTaken(mid, q) && historical == Historical(mid.versions, q)
      && !(q.id in mid.versions && mid.versions[q.id].tree == q.tree)
      && Position(mid.versions, q.id.key, ExistingRow(mid.versions, q.id), q.requestedSeq, seqNo)
      && (q.id in mid.versions && q.mutation.Overwrite? ==> CanDelete(c, mid, q.id))
      && var committed := Protocol.Committed(c, mid, JobOf(q, seqNo, staged));
         if q.id in mid.versions && q.mutation.Overwrite?
         then PartlySwept(c, committed, s, mid.versions[q.id].tree)
         else s == committed
  }

  /** The bytes a publish adds to the object store. */
  ghost function Charged(c: Codec, s0: Store, tree: Hash): nat {
    Sums.Sum(ObjectsOf(c, tree) - s0.objects, ObjectSize(c))
  }

  /** The rows of the index around a publish that committed: the new one, and the replaced one gone or
      kept under its historical name; no other row changed. */
  ghost predicate RowsCommitted(mid: Store, s: Store, q: Request, seqNo: nat) {
    var kept := VersionId(q.id.key, if q.mutation.History? then q.mutation.tag else "");
    && q.id in s.versions && s.versions[q.id].tree == q.tree && s.versions[q.id].ingest == q.ingest && s.versions[q.id].upstreamSeq == seqNo
    && if q.id in mid.versions && q.mutation.History? then
         && kept in s.versions && kept !in mid.versions && s.versions[kept].tree == mid.versions[q.id].tree
         && s.versions[kept].ingest == mid.versions[q.id].ingest && s.versions[kept].upstreamSeq == 0
         && s.versions - {q.id, kept} == mid.versions - {q.id}
       else s.versions - {q.id} == mid.versions - {q.id}
  }

  lemma RowsOfCommitted(c: Codec, mid: Store, q: Request, staged: set<Hash>, seqNo: nat)
    requires !TagTaken(mid, q) && (q.id in mid.versions && q.mutation.Overwrite? ==> CanDelete(c, mid, q.id))
    ensures RowsCommitted(mid, Protocol.Committed(c, mid, JobOf(q, seqNo, staged)), q, seqNo)
  {
  }

  lemma OutcomeRows(c: Codec, q: Request, staged: set<Hash>, s0: Store, mid: Store, s: Store, r: Outcome, seqNo: nat)
    requires Outcomes(c, q, staged, s0, mid, s, r, seqNo) && r.Published?
    ensures RowsCommitted(mid, s, q, seqNo)
  {
    RowsOfCommitted(c, mid, q, staged, seqNo);
  }

  /** What the quota says of a publish: what is published or skipped fits with all its bytes, and what is
      refused does not. */
  ghost predicate QuotaKept(c: Codec, lim: Limits, s0: Store, mid: Store, tree: Hash, r: Outcome) {
    var bytes := Charged(c, s0, tree);
    && (r.Published? || r.Skipped? ==> lim.maxTotalSize == 0 || LiveBytes(mid.refs) + bytes < lim.maxTotalSize)
    && (r.Failed? && r.verdict == AdmissionRefused ==> 0 < lim.maxTotalSize <= bytes)
    && (r.Failed? && r.verdict == StillOverAfterEviction ==> bytes < lim.maxTotalSize <= LiveBytes(mid.refs) + bytes)
  }

  /** The publish critical section: reference check, room, missing objects, commit. */
  method PublishStaged(s: DurableStore, lim: Limits, q: Request, files: map<Hash, nat>)
    returns (r: Outcome, ghost mid: Store, ghost seqNo: nat)
    requires Healthy(s.codec, s.State())
    requires files.Keys <= BlobsOf(s.codec.treeOf(q.tree)) && forall h :: h in files ==> files[h] == s.codec.sizeOf(h)
    modifies s
    ensures Healthy(s.codec, s.State())
    ensures Exact(s.codec, old(s.State())) ==> Exact(s.codec, s.State())
    ensures OnlyEvicted(s.codec, old(s.State()), mid.(objects := mid.objects - (ObjectsOf(s.codec, q.tree) - old(s.objects))), q.tree, lim.retainLatestPerKey)
    ensures Outcomes(s.codec, q, files.Keys, old(s.State()), mid, s.State(), r, seqNo)
    ensures Protocol.ReferencesVerified(s.codec, old(s.State()), JobOf(q, seqNo, files.Keys)) || (r.Failed? && s.State() == old(s.State()))
    ensures r.Published? ==> RowsCommitted(mid, s.State(), q, seqNo)
    ensures r.Published? && s.reliable ==> ReplacedIsSwept(s.codec, mid, s.State(), q, files.Keys, seqNo)
    ensures QuotaKept(s.codec, lim, old(s.State()), mid, q.tree, r)
    ensures s.reliable && old(ReferencesHold(s, s.codec.treeOf(q.tree), files)) ==>
      (r == Failed(AdmissionRefused, true) <==> 0 < lim.maxTotalSize <= Charged(s.codec, old(s.State()), q.tree))
    ensures s.reliable && r.Failed? ==>
      || !old(ReferencesHold(s, s.codec.treeOf(q.tree), files))
      || r.verdict in {AdmissionRefused, StillOverAfterEviction}
      || TagTaken(mid, q)
  {
    var t := s.codec.treeOf(q.tree);
    ghost var s0 := s.State();
    mid, seqNo := s0, 0;
    var verified := VerifyStagedReferences(s, t, files);
    if !verified {
      NothingEvicted(s.codec, s0, q.tree, lim.retainLatestPerKey);
      return Failed(IoFailure, true), mid, 0;
    }
    r, mid, seqNo := PublishVerified(s, lim, q, files);
  }

  /** What follows the reference check: room, missing objects, commit. */
  method PublishVerified(s: DurableStore, lim: Limits, q: Request, files: map<Hash, nat>)
    returns (r: Outcome, ghost mid: Store, ghost seqNo: nat)
    requires Healthy(s.codec, s.State()) && ReferencesHold(s, s.codec.treeOf(q.tree), files)
    requires files.Keys <= BlobsOf(s.codec.treeOf(q.tree)) && forall h :: h in files ==> files[h] == s.codec.sizeOf(h)
    modifies s
    ensures Healthy(s.codec, s.State())
    ensures Exact(s.codec, old(s.State())) ==> Exact(s.codec, s.State())
    ensures OnlyEvicted(s.codec, old(s.State()), mid.(objects := mid.objects - (ObjectsOf(s.codec, q.tree) - old(s.objects))), q.tree, lim.retainLatestPerKey)
    ensures Outcomes(s.codec, q, files.Keys, old(s.State()), mid, s.State(), r, seqNo)
    ensures r.Published? ==> RowsCommitted(mid, s.State(), q, seqNo)
    ensures r.Published? && s.reliable ==> ReplacedIsSwept(s.codec, mid, s.State(), q, files.Keys, seqNo)
    ensures QuotaKept(s.codec, lim, old(s.State()), mid, q.tree, r)
    ensures r == Failed(AdmissionRefused, true) <==> 0 < lim.maxTotalSize <= Charged(s.codec, old(s.State()), q.tree)
    ensures s.reliable && r.Failed? ==> r.verdict in {AdmissionRefused, StillOverAfterEviction} || TagTaken(mid, q)
  {
    ghost var s0 := s.State();
    var pending, bytes := PendingObjects(s, files, q.tree);
    PendingIsMissing(s.codec, s0, q.tree, files.Keys, pending);
    var verdict := EnsureBudget(s, lim, bytes, q.tree, set e | e in s.codec.treeOf(q.tree) :: e.blob);
    ghost var admitted := s.State();
    if verdict != Admitted {
      NothingWritten(s.codec, s0, admitted, q.tree, lim.retainLatestPerKey);
      return Failed(verdict, true), admitted, 0;
    }
    r, mid, seqNo := WriteAndCommit(s, q, files.Keys, pending, s0, lim.retainLatestPerKey);
    if r.Published? {
      OutcomeRows(s.codec, q, files.Keys, s0, mid, s.State(), r, seqNo);
    }
    assert mid.(objects := admitted.objects) == admitted;
  }

  lemma NothingWritten(c: Codec, s0: Store, admitted: Store, incoming: Hash, retain: nat)
    requires OnlyEvicted(c, s0, admitted, incoming, retain)
    ensures OnlyEvicted(c, s0, admitted.(objects := admitted.objects - (ObjectsOf(c, incoming) - s0.objects)), incoming, retain)
    ensures Undone(admitted, admitted, ObjectsOf(c, incoming) - s0.objects)
  {
    assert admitted.objects - (ObjectsOf(c, incoming) - s0.objects) == admitted.objects;
    assert admitted.(objects := admitted.objects) == admitted;
  }

  lemma NothingEvicted(c: Codec, s: Store, incoming: Hash, retain: nat)
    requires Healthy(c, s)
    ensures OnlyEvicted(c, s, s.(objects := s.objects - (ObjectsOf(c, incoming) - s.objects)), incoming, retain)
    ensures Undone(s, s, ObjectsOf(c, incoming) - s.objects)
  {
    NoStep(c, s, incoming);
    NothingWritten(c, s, s, incoming, retain);
  }
}
