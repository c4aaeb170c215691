/** The operations of the store are runs of the machine: what each method promises about the store
    before and after it is joined by steps of StoreProtocol, with the lock free at both ends. */
module ProtocolRuns {
  import opened ObjectModel
  import opened StoreProtocol
  import Integrity
  import Publish = Publishing
  import Quotas

  lemma Prepend(c: Codec, m: Machine, step: Step, ms: seq<Machine>, steps: seq<Step>)
    requires Run(c, ms, steps) && Next(c, m, step, ms[0])
    ensures Run(c, [m] + ms, [step] + steps)
  {
    var all, more := [m] + ms, [step] + steps;
    forall i | 0 <= i < |more| ensures Next(c, all[i], more[i], all[i + 1]) {
      if i > 0 {
        assert Next(c, ms[i - 1], steps[i - 1], ms[i]);
      }
    }
  }

  lemma Append(c: Codec, ms: seq<Machine>, steps: seq<Step>, step: Step, m: Machine)
    requires Run(c, ms, steps) && Next(c, ms[|ms| - 1], step, m)
    ensures Run(c, ms + [m], steps + [step])
  {
    var all, more := ms + [m], steps + [step];
    forall i | 0 <= i < |more| ensures Next(c, all[i], more[i], all[i + 1]) {
      if i < |steps| {
        assert Next(c, ms[i], steps[i], ms[i + 1]);
      }
    }
  }

  /** A publisher can write all that is pending, one object after another. */
  lemma {:induction false} WriteAll(c: Codec, m: Machine) returns (ms: seq<Machine>, steps: seq<Step>)
    requires m.lock.Publishing? && m.lock.stage.Writing? && m.lock.stage.written <= m.lock.stage.pending
    ensures Run(c, ms, steps) && ms[0] == m
    ensures var p := m.lock.stage.pending;
            ms[|ms| - 1] == m.(store := m.store.(objects := m.store.objects + (p - m.lock.stage.written)), lock := Publishing(m.lock.job, Writing(p, p)))
    decreases m.lock.stage.pending - m.lock.stage.written
  {
    var p, w := m.lock.stage.pending, m.lock.stage.written;
    if w == p {
      assert m.store.objects + (p - w) == m.store.objects;
      ms, steps := [m], [];
    } else {
      assert w + (p - w) == p;
      var o :| o in p - w;
      var m' := m.(store := m.store.(objects := m.store.objects + {o}), lock := Publishing(m.lock.job, Writing(p, w + {o})));
      ms, steps := WriteAll(c, m');
      assert m.store.objects + {o} + (p - (w + {o})) == m.store.objects + (p - w);
      Prepend(c, m, Write(o), ms, steps);
      ms, steps := [m] + ms, [Write(o)] + steps;
    }
  }

  /** Taking some of the doomed objects and their empty rows away is one step. */
  lemma CleaningRuns(c: Codec, m: Machine, s': Store, h: Hash)
    requires PartlySwept(c, m.store, s', h) && Doomed(m.lock) == DeadObjects(c, m.store, h)
    ensures var gone, rows := m.store.objects - s'.objects, m.store.refs.Keys - s'.refs.Keys;
            Next(c, m, Clean(gone, rows), m.(store := s', lock := LessDoomed(m.lock, gone)))
  {
    var gone, rows := m.store.objects - s'.objects, m.store.refs.Keys - s'.refs.Keys;
    assert m.store.objects - gone == s'.objects;
    assert m.store.refs - rows == s'.refs;
  }

  lemma ThreeSteps(c: Codec, m0: Machine, a: Step, m1: Machine, b: Step, m2: Machine, d: Step, m3: Machine)
    requires Next(c, m0, a, m1) && Next(c, m1, b, m2) && Next(c, m2, d, m3)
    ensures Run(c, [m0, m1, m2, m3], [a, b, d])
  {
    var ms, steps := [m0, m1, m2, m3], [a, b, d];
    forall i | 0 <= i < |steps| ensures Next(c, ms[i], steps[i], ms[i + 1]) {
      assert i == 0 || i == 1 || i == 2;
    }
  }

  /** What `DeleteVersion` promises, completely cleaned up or not. */
  lemma DeletionRuns(c: Codec, s: Store, s': Store, id: VersionId, gc: Gc) returns (ms: seq<Machine>, steps: seq<Step>)
    requires CanDelete(c, s, id) && PartlySwept(c, DeleteRow(c, s, id), s', s.versions[id].tree)
    ensures Run(c, ms, steps) && ms[0] == Machine(s, Free, gc) && ms[|ms| - 1] == Machine(s', Free, gc)
  {
    var s1, h := DeleteRow(c, s, id), s.versions[id].tree;
    var m0, m1, m3 := Machine(s, Free, gc), Machine(s1, Sweeping(DeadObjects(c, s1, h)), gc), Machine(s', Free, gc);
    var gone, rows := s1.objects - s'.objects, s1.refs.Keys - s'.refs.Keys;
    var m2 := m1.(store := s', lock := LessDoomed(m1.lock, gone));
    CleaningRuns(c, m1, s', h);
    ThreeSteps(c, m0, Delete(id), m1, Clean(gone, rows), m2, Release, m3);
    ms, steps := [m0, m1, m2, m3], [Delete(id), Clean(gone, rows), Release];
  }

  /** A deletion during the eviction of an admitted publish, which goes on afterwards. */
  lemma EvictionRuns(c: Codec, s: Store, s': Store, id: VersionId, job: Job, pending: set<Object>, gc: Gc)
    returns (ms: seq<Machine>, steps: seq<Step>)
    requires CanDelete(c, s, id) && PartlySwept(c, DeleteRow(c, s, id), s', s.versions[id].tree)
    requires !SharesWith(c, s.versions[id].tree, job.row.tree)
    ensures Run(c, ms, steps)
    ensures ms[0] == Machine(s, Publishing(job, Admitted(pending)), gc) && ms[|ms| - 1] == Machine(s', Publishing(job, Admitted(pending)), gc)
  {
    var s1, h := DeleteRow(c, s, id), s.versions[id].tree;
    var m0, m3 := Machine(s, Publishing(job, Admitted(pending)), gc), Machine(s', Publishing(job, Admitted(pending)), gc);
    var m1 := Machine(s1, Publishing(job, Evicting(pending, DeadObjects(c, s1, h))), gc);
    var gone, rows := s1.objects - s'.objects, s1.refs.Keys - s'.refs.Keys;
    var m2 := m1.(store := s', lock := LessDoomed(m1.lock, gone));
    CleaningRuns(c, m1, s', h);
    ThreeSteps(c, m0, Evict(id), m1, Clean(gone, rows), m2, Cleaned, m3);
    ms, steps := [m0, m1, m2, m3], [Evict(id), Clean(gone, rows), Cleaned];
  }

  lemma Joined(c: Codec, ms: seq<Machine>, steps: seq<Step>, ms': seq<Machine>, steps': seq<Step>)
    requires Run(c, ms, steps) && Run(c, ms', steps') && ms[|ms| - 1] == ms'[0]
    ensures Run(c, ms + ms'[1..], steps + steps')
  {
    var all, more := ms + ms'[1..], steps + steps';
    forall i | 0 <= i < |more| ensures Next(c, all[i], more[i], all[i + 1]) {
      if i < |steps| {
        assert Next(c, ms[i], steps[i], ms[i + 1]);
      } else {
        assert Next(c, ms'[i - |steps|], steps'[i - |steps|], ms'[i - |steps| + 1]);
        assert all[i] == ms'[i - |steps|];
      }
    }
  }

  ghost predicate Overwrites(s: Store, job: Job) {
    job.id in s.versions && job.mutation.Overwrite?
  }

  /** What a publish that commits promises from its admission on: every pending object written, the
      commit, and as much of the clean-up of a replaced revision as was done. */
  ghost predicate CommittedFrom(c: Codec, s: Store, s': Store, job: Job, pending: set<Object>) {
    var written := s.(objects := s.objects + pending);
    && !(job.id in s.versions && s.versions[job.id].tree == job.row.tree)
    && !TagTaken(s, job) && (Overwrites(s, job) ==> CanDelete(c, s, job.id))
    && if Overwrites(s, job) then PartlySwept(c, Committed(c, written, job), s', s.versions[job.id].tree)
       else s' == Committed(c, written, job)
  }

  /** From the admission to the end of a publish. */
  lemma AdmittedRuns(c: Codec, s: Store, s': Store, job: Job, pending: set<Object>, gc: Gc)
    returns (ms: seq<Machine>, steps: seq<Step>)
    requires CommittedFrom(c, s, s', job, pending)
    ensures Run(c, ms, steps) && ms[0] == Machine(s, Publishing(job, Admitted(pending)), gc) && ms[|ms| - 1] == Machine(s', Free, gc)
  {
    var m0, m1 := Machine(s, Publishing(job, Admitted(pending)), gc), Machine(s, Publishing(job, Writing(pending, {})), gc);
    ms, steps := WriteAll(c, m1);
    var m2 := ms[|ms| - 1];
    assert pending - {} == pending;
    Prepend(c, m0, StartWriting, ms, steps);
    ms, steps := [m0] + ms, [StartWriting] + steps;
    var s1 := Committed(c, m2.store, job);
    if Overwrites(s, job) {
      var h := s.versions[job.id].tree;
      var m3 := Machine(s1, Publishing(job, Superseding(DeadObjects(c, s1, h))), gc);
      var gone, rows := s1.objects - s'.objects, s1.refs.Keys - s'.refs.Keys;
      var m4 := m3.(store := s', lock := LessDoomed(m3.lock, gone));
      CleaningRuns(c, m3, s', h);
      ThreeSteps(c, m2, Commit, m3, Clean(gone, rows), m4, Release, Machine(s', Free, gc));
      Joined(c, ms, steps, [m2, m3, m4, Machine(s', Free, gc)], [Commit, Clean(gone, rows), Release]);
      ms, steps := ms + [m3, m4, Machine(s', Free, gc)], steps + [Commit, Clean(gone, rows), Release];
    } else {
      Append(c, ms, steps, Commit, Machine(s', Free, gc));
      ms, steps := ms + [Machine(s', Free, gc)], steps + [Commit];
    }
  }

  /** And from its beginning to its admission without eviction. */
  lemma PublishingRuns(c: Codec, s: Store, s': Store, job: Job, gc: Gc) returns (ms: seq<Machine>, steps: seq<Step>)
    requires ReferencesVerified(c, s, job) && job.staged <= BlobsOf(c.treeOf(job.row.tree))
    requires CommittedFrom(c, s, s', job, Pending(s, job))
    ensures Run(c, ms, steps) && ms[0] == Machine(s, Free, gc) && ms[|ms| - 1] == Machine(s', Free, gc)
  {
    ms, steps := AdmittedRuns(c, s, s', job, Pending(s, job), gc);
    Prepend(c, Machine(s, Free, gc), Begin(job), ms, steps);
    ms, steps := [Machine(s, Free, gc)] + ms, [Begin(job)] + steps;
  }

  /** The machine does publish: from an empty store there is a run after which any fully staged tree with
      true sizes is indexed, and nothing else. */
  lemma PublishRuns(c: Codec, job: Job) returns (ms: seq<Machine>, steps: seq<Step>)
    requires job.staged == BlobsOf(c.treeOf(job.row.tree)) && forall e :: e in c.treeOf(job.row.tree) ==> e.size == c.sizeOf(e.blob)
    ensures Run(c, ms, steps) && ms[0] == Machine(Store(map[], map[], {}), Free, Idle)
    ensures ms[|ms| - 1].store.versions == map[job.id := job.row] && ms[|ms| - 1].lock == Free
  {
    var s := Store(map[], map[], {});
    ms, steps := PublishingRuns(c, s, Committed(c, s.(objects := s.objects + Pending(s, job)), job), job, Idle);
  }

  // ---- A publish that evicts, whatever its outcome ----

  /** Deletions one after another, from one admitted stage to another. */
  lemma {:induction false} EvictionsRun(c: Codec, s: Store, s': Store, job: Job, pending: set<Object>, gc: Gc, n: nat)
    returns (ms: seq<Machine>, steps: seq<Step>)
    requires Quotas.EvictedInSteps(c, s, s', job.row.tree, n)
    ensures Run(c, ms, steps)
    ensures ms[0] == Machine(s, Publishing(job, Admitted(pending)), gc) && ms[|ms| - 1] == Machine(s', Publishing(job, Admitted(pending)), gc)
    decreases n
  {
    if n == 0 {
      return [Machine(s, Publishing(job, Admitted(pending)), gc)], [];
    }
    var mid, id :| Quotas.EvictedInSteps(c, s, mid, job.row.tree, n - 1) && Quotas.OneEviction(c, mid, s', job.row.tree, id);
    ms, steps := EvictionsRun(c, s, mid, job, pending, gc, n - 1);
    var ms1, steps1 := EvictionRuns(c, mid, s', id, job, pending, gc);
    Joined(c, ms, steps, ms1, steps1);
    ms, steps := ms + ms1[1..], steps + steps1;
  }

  /** A publisher can write some of what is pending. */
  lemma {:induction false} WriteSome(c: Codec, s: Store, job: Job, pending: set<Object>, some: set<Object>, gc: Gc)
    returns (ms: seq<Machine>, steps: seq<Step>)
    requires some <= pending
    ensures Run(c, ms, steps) && ms[0] == Machine(s, Publishing(job, Writing(pending, {})), gc)
    ensures ms[|ms| - 1] == Machine(s.(objects := s.objects + some), Publishing(job, Writing(pending, some)), gc)
    decreases some
  {
    if some == {} {
      assert s.objects + {} == s.objects;
      return [Machine(s, Publishing(job, Writing(pending, {})), gc)], [];
    }
    var o :| o in some;
    var fewer := some - {o};
    ms, steps := WriteSome(c, s, job, pending, fewer, gc);
    assert s.objects + fewer + {o} == s.objects + some && fewer + {o} == some;
    var m := Machine(s.(objects := s.objects + some), Publishing(job, Writing(pending, some)), gc);
    Append(c, ms, steps, Write(o), m);
    ms, steps := ms + [m], steps + [Write(o)];
  }

  /** From the admission to a failure: some objects written, then some of the unreferenced ones removed. */
  lemma FailureRuns(c: Codec, s: Store, mid: Store, s': Store, job: Job, pending: set<Object>, gc: Gc)
    returns (ms: seq<Machine>, steps: seq<Step>)
    requires mid == s.(objects := mid.objects) && s.objects <= mid.objects <= s.objects + pending
    requires Publish.Undone(mid, s', pending)
    ensures Run(c, ms, steps) && ms[0] == Machine(s, Publishing(job, Admitted(pending)), gc) && ms[|ms| - 1] == Machine(s', Free, gc)
  {
    var some, gone := mid.objects - s.objects, mid.objects - s'.objects;
    ms, steps := WriteSome(c, s, job, pending, some, gc);
    assert s.objects + some == mid.objects;
    var m0 := Machine(s, Publishing(job, Admitted(pending)), gc);
    Prepend(c, m0, StartWriting, ms, steps);
    ms, steps := [m0] + ms, [StartWriting] + steps;
    var doomed := set o | o in pending && !Referenced(mid, o);
    var m1, m2 := ms[|ms| - 1], Machine(mid, Publishing(job, Undoing(doomed)), gc);
    var m3, m4 := Machine(s', Publishing(job, Undoing(doomed - gone)), gc), Machine(s', Free, gc);
    assert mid.objects - gone == s'.objects && mid.refs - {} == mid.refs;
    ThreeSteps(c, m1, StartUndo, m2, Clean(gone, {}), m3, Release, m4);
    Joined(c, ms, steps, [m1, m2, m3, m4], [StartUndo, Clean(gone, {}), Release]);
    ms, steps := ms + [m2, m3, m4], steps + [StartUndo, Clean(gone, {}), Release];
  }

  /** From the admission to the skip of a version that is there already. */
  lemma SkipRuns(c: Codec, s: Store, job: Job, gc: Gc) returns (ms: seq<Machine>, steps: seq<Step>)
    requires job.id in s.versions && s.versions[job.id].tree == job.row.tree
    ensures Run(c, ms, steps) && ms[0] == Machine(s, Publishing(job, Admitted({})), gc) && ms[|ms| - 1] == Machine(s, Free, gc)
  {
    var m0, m1, m2 := Machine(s, Publishing(job, Admitted({})), gc), Machine(s, Publishing(job, Writing({}, {})), gc), Machine(s, Free, gc);
    ms, steps := [m1, m2], [Commit];
    Prepend(c, m0, StartWriting, ms, steps);
    ms, steps := [m0] + ms, [StartWriting] + steps;
  }

  /** From the admission to the outcome, as `PublishStaged` describes it. */
  lemma OutcomeRuns(c: Codec, q: Publish.Request, staged: set<Hash>, s0: Store, mid: Store, s: Store, r: Publish.Outcome, seqNo: nat, retain: nat,
                    pending: set<Object>, gc: Gc)
    returns (ms: seq<Machine>, steps: seq<Step>)
    requires Healthy(c, s0) && pending == ObjectsOf(c, q.tree) - s0.objects
    requires Quotas.OnlyEvicted(c, s0, mid.(objects := mid.objects - pending), q.tree, retain)
    requires Publish.Outcomes(c, q, staged, s0, mid, s, r, seqNo)
    ensures Run(c, ms, steps)
    ensures ms[0] == Machine(mid.(objects := mid.objects - pending), Publishing(Publish.JobOf(q, seqNo, staged), Admitted(pending)), gc)
    ensures ms[|ms| - 1] == Machine(s, Free, gc)
  {
    var job, admitted := Publish.JobOf(q, seqNo, staged), mid.(objects := mid.objects - pending);
    match r
    case Published(_) =>
      StoredHere(c, mid.objects, q.tree, s0.objects);
      assert admitted.objects + pending == mid.objects;
      assert admitted.(objects := admitted.objects + pending) == mid;
      ms, steps := AdmittedRuns(c, admitted, s, job, pending, gc);
    case Skipped =>
      Publish.SkippedWroteNothing(c, s0, admitted, q.id, pending, q.tree, retain);
      assert mid.objects - {} == mid.objects && admitted == mid;
      ms, steps := SkipRuns(c, admitted, job, gc);
    case Failed(_, _) =>
      ms, steps := FailureRuns(c, admitted, mid, s, job, pending, gc);
  }

  lemma StoredHere(c: Codec, objects: set<Object>, h: Hash, before: set<Object>)
    requires TreeStored(c, objects, h)
    ensures ObjectsOf(c, h) - before <= objects
  {
  }

  /** What `PublishStaged` promises, whatever it evicted and however it ended: a run of the machine joins
      the store before it with the store after it. */
  lemma PublishStagedRuns(c: Codec, q: Publish.Request, staged: set<Hash>, s0: Store, mid: Store, s: Store, r: Publish.Outcome, seqNo: nat,
                          retain: nat, gc: Gc)
    returns (ms: seq<Machine>, steps: seq<Step>)
    requires Healthy(c, s0) && staged <= BlobsOf(c.treeOf(q.tree))
    requires Quotas.OnlyEvicted(c, s0, mid.(objects := mid.objects - (ObjectsOf(c, q.tree) - s0.objects)), q.tree, retain)
    requires Publish.Outcomes(c, q, staged, s0, mid, s, r, seqNo)
    requires ReferencesVerified(c, s0, Publish.JobOf(q, seqNo, staged)) || (r.Failed? && s == s0)
    ensures Run(c, ms, steps) && ms[0] == Machine(s0, Free, gc) && ms[|ms| - 1] == Machine(s, Free, gc)
  {
    var job := Publish.JobOf(q, seqNo, staged);
    if !ReferencesVerified(c, s0, job) {
      return [Machine(s0, Free, gc)], [];
    }
    var pending := Pending(s0, job);
    Publish.PendingIsMissing(c, s0, q.tree, staged, pending);
    var admitted := mid.(objects := mid.objects - pending);
    var n: nat :| Quotas.EvictedInSteps(c, s0, admitted, q.tree, n);
    ms, steps := EvictionsRun(c, s0, admitted, job, pending, gc, n);
    Prepend(c, Machine(s0, Free, gc), Begin(job), ms, steps);
    ms, steps := [Machine(s0, Free, gc)] + ms, [Begin(job)] + steps;
    var ms1, steps1 := OutcomeRuns(c, q, staged, s0, mid, s, r, seqNo, retain, pending, gc);
    Joined(c, ms, steps, ms1, steps1);
    ms, steps := ms + ms1[1..], steps + steps1;
  }

  // ---- The other operations ----

  /** What `RepairBlobRefs` promises when it rebuilt the counts, completely swept or not. */
  lemma RepairRuns(c: Codec, s: Store, s': Store, gc: Gc) returns (ms: seq<Machine>, steps: seq<Step>)
    requires NoDangling(c, s) && s'.versions == s.versions && Integrity.Tallied(c, s.versions, Integrity.TreesOf(s.versions), s'.refs)
    requires s'.objects <= s.objects && forall o :: o in s.objects && o !in s'.objects ==> o !in Reachable(c, s')
    ensures Run(c, ms, steps) && ms[0] == Machine(s, Free, gc) && ms[|ms| - 1] == Machine(s', Free, gc)
  {
    RebuiltIsTally(c, s);
    Integrity.TallyIsUnique(c, s.versions, s'.refs, RebuiltRefs(c, s.versions));
    var gone := s.objects - s'.objects;
    var m0, m3 := Machine(s, Free, gc), Machine(s', Free, gc);
    var m1 := Machine(s.(refs := s'.refs), Sweeping(s.objects - Reachable(c, s)), gc);
    var m2 := m1.(store := s', lock := LessDoomed(m1.lock, gone));
    assert Reachable(c, s) == Reachable(c, s');
    assert s.objects - gone == s'.objects && s'.refs - {} == s'.refs;
    ThreeSteps(c, m0, Repair, m1, Clean(gone, {}), m2, Release, m3);
    ms, steps := [m0, m1, m2, m3], [Repair, Clean(gone, {}), Release];
  }

  lemma RebuiltIsTally(c: Codec, s: Store)
    requires NoDangling(c, s)
    ensures Integrity.Tallied(c, s.versions, Integrity.TreesOf(s.versions), RebuiltRefs(c, s.versions))
  {
    var refs := RebuiltRefs(c, s.versions);
    RebuiltIsExact(c, s);
    forall b ensures CountOf(refs, b) == Integrity.Weighted(c, s.versions, Integrity.TreesOf(s.versions), b) && (b in refs ==> refs[b].count > 0) {
      Integrity.AllTreesCounted(c, s.versions, b);
      TotalZero(c, s.versions, b);
    }
    forall h, e | h in Integrity.TreesOf(s.versions) && e in c.treeOf(h) ensures e.blob in refs && refs[e.blob].size == e.size {
      var id :| id in s.versions && s.versions[id].tree == h;
      assert TreeStored(c, s.objects, h);
    }
  }

  lemma MarkingRuns(c: Codec, s: Store, marked: set<Object>) returns (ms: seq<Machine>, steps: seq<Step>)
    requires forall o :: o in marked ==> Referenced(s, o)
    ensures Run(c, ms, steps) && ms[0] == Machine(s, Free, Idle) && ms[|ms| - 1] == Machine(s, Free, Scanning(s.objects - marked))
    ensures steps != [] && steps[0] == GcStart
  {
    var m0, m1, m2 := Machine(s, Free, Idle), Machine(s, Free, Marking({})), Machine(s, Free, Marking(marked));
    var m3 := Machine(s, Free, Scanning(s.objects - marked));
    assert {} + marked == marked;
    ThreeSteps(c, m0, GcStart, m1, GcMark(marked), m2, GcScan, m3);
    ms, steps := [m0, m1, m2, m3], [GcStart, GcMark(marked), GcScan];
  }

  lemma SweepingRuns(c: Codec, s: Store, s': Store, todo: set<Object>, failed: bool) returns (ms: seq<Machine>, steps: seq<Step>)
    requires s' == s.(objects := s'.objects) && s'.objects <= s.objects && s.objects - s'.objects <= todo
    requires (forall o :: o in todo ==> !Referenced(s, o)) && (!failed ==> s.objects - s'.objects == todo)
    ensures Run(c, ms, steps) && ms[0] == Machine(s, Free, Scanning(todo)) && ms[|ms| - 1] == Machine(s', Free, Idle)
    ensures steps != [] && steps[|steps| - 1] == if failed then GcFail else GcEnd
  {
    var gone := s.objects - s'.objects;
    var m3, m4 := Machine(s, Free, Scanning(todo)), Machine(s, GcSweeping(todo), Scanning({}));
    var m5 := Machine(s', GcSweeping(todo - gone), Scanning({}));
    assert todo == (set o | o in todo && !Referenced(s, o)) && todo - todo == {};
    assert s.objects - gone == s'.objects && s.refs - {} == s.refs;
    var m6 := Machine(s', Free, if failed then Idle else Scanning({}));
    var end := if failed then GcFail else GcBatchDone;
    ThreeSteps(c, m3, GcBatch(todo), m4, Clean(gone, {}), m5, end, m6);
    ms, steps := [m3, m4, m5, m6], [GcBatch(todo), Clean(gone, {}), end];
    if !failed {
      Append(c, ms, steps, GcEnd, Machine(s', Free, Idle));
      ms, steps := ms + [Machine(s', Free, Idle)], steps + [GcEnd];
    }
  }

  /** What `CollectGarbage` promises, when it ends normally and when it stops on the way. */
  lemma CollectionRuns(c: Codec, s: Store, s': Store, failed: bool) returns (ms: seq<Machine>, steps: seq<Step>)
    requires s'.versions == s.versions && s'.refs == s.refs && s'.objects <= s.objects
    requires forall o :: o in s.objects && o !in s'.objects ==> !Referenced(s, o)
    requires !failed ==> forall o :: o in s'.objects ==> Referenced(s, o)
    ensures Run(c, ms, steps) && ms[0] == Machine(s, Free, Idle) && ms[|ms| - 1] == Machine(s', Free, Idle)
    ensures steps != [] && steps[0] == GcStart && steps[|steps| - 1] == if failed then GcFail else GcEnd
  {
    var marked := set o | o in s.objects && Referenced(s, o);
    ms, steps := MarkingRuns(c, s, marked);
    var todo := s.objects - marked;
    var ms', steps' := SweepingRuns(c, s, s', todo, failed);
    Joined(c, ms, steps, ms', steps');
    ms, steps := ms + ms'[1..], steps + steps';
  }
}
