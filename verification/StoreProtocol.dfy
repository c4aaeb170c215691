/** Every interleaving of publishes, deletions, overwrites, evictions, repairs and collection. */
module StoreProtocol {
  // Writers hold `writeMu` over many separate store operations; the collector marks and scans
  // without it and takes it for one rechecked batch at a time. Each constructor of Step is one
  // atomic store operation, so a run is any interleaving, with failures and crashes between any
  // two operations.

  import opened ObjectModel

  datatype Mutation = Overwrite | History(tag: string)

  /** A publish after staging: the tree it will index and the blobs its spool holds. */
  datatype Job = Job(id: VersionId, row: Row, staged: set<Hash>, mutation: Mutation)

  datatype Stage =
    | Admitted(pending: set<Object>)
    | Evicting(pending: set<Object>, dead: set<Object>)
    | Writing(pending: set<Object>, written: set<Object>)
    | Undoing(doomed: set<Object>)
    | Superseding(dead: set<Object>)

  /** Who holds `writeMu`, and how far it has got. */
  datatype Lock =
    | Free
    | Publishing(job: Job, stage: Stage)
    | Sweeping(doomed: set<Object>)
    | GcSweeping(doomed: set<Object>)

  datatype Gc = Idle | Marking(marked: set<Object>) | Scanning(todo: set<Object>)

  datatype Machine = Machine(store: Store, lock: Lock, gc: Gc)

  datatype Step =
    | Begin(job: Job)
    | Evict(id: VersionId)
    | Clean(gone: set<Object>, rows: set<Hash>)
    | Cleaned
    | StartWriting
    | Write(o: Object)
    | Commit
    | StartUndo
    | Release
    | Delete(id: VersionId)
    | Repair
    | GcStart
    | GcMark(page: set<Object>)
    | GcScan
    | GcBatch(batch: set<Object>)
    | GcBatchDone
    | GcEnd
    | GcFail
    | Crash

  // ---- The steps ----

  /** `verifyStagedReferences`: every blob is staged or already stored, at the entry's size. */
  ghost predicate ReferencesVerified(c: Codec, s: Store, job: Job) {
    forall e :: e in c.treeOf(job.row.tree) ==>
      (e.blob in job.staged || Blob(e.blob) in s.objects) && e.size == c.sizeOf(e.blob)
  }

  /** `PendingObjects`: the staged blobs and the tree that the object store lacks. */
  ghost function Pending(s: Store, job: Job): set<Object> {
    (set b | b in job.staged && Blob(b) !in s.objects :: Blob(b))
    + if Tree(job.row.tree) in s.objects then {} else {Tree(job.row.tree)}
  }

  /** A history-mode commit cannot move the old row to a name that is in use: every version row has a
      detection row, and copying the old one under a taken name violates that table's primary key. */
  ghost predicate TagTaken(s: Store, job: Job) {
    job.id in s.versions && job.mutation.History? && VersionId(job.id.key, job.mutation.tag) in s.versions
  }

  /** `commitPublish` and `publishTx` for a version that is new or has another tree. */
  ghost function Committed(c: Codec, s: Store, job: Job): Store
    requires job.id in s.versions && job.mutation.Overwrite? ==> CanDelete(c, s, job.id)
    requires !TagTaken(s, job)
  {
    var cleared :=
      if job.id !in s.versions then s
      else match job.mutation
        case Overwrite => DeleteRow(c, s, job.id)
        case History(tag) => RetireRow(s, job.id, VersionId(job.id.key, tag));
    InsertRow(c, cleared, job.id, job.row)
  }

  /** `repairBlobRefsLocked`: the counts rebuilt from the trees of all versions. */
  ghost function RebuiltRefs(c: Codec, vs: map<VersionId, Row>): map<Hash, BlobRef> {
    map b | b in (set id, e | id in vs && e in c.treeOf(vs[id].tree) :: e.blob) ::
      BlobRef(RefTotal(c, vs, b), c.sizeOf(b))
  }

  ghost function Reachable(c: Codec, s: Store): set<Object> {
    set id, o | id in s.versions && o in ObjectsOf(c, s.versions[id].tree) :: o
  }

  /** The objects a lock holder has decided to delete. */
  ghost function Doomed(lock: Lock): set<Object> {
    match lock
    case Sweeping(d) => d
    case GcSweeping(d) => d
    case Publishing(_, Evicting(_, d)) => d
    case Publishing(_, Undoing(d)) => d
    case Publishing(_, Superseding(d)) => d
    case _ => {}
  }

  ghost function LessDoomed(lock: Lock, gone: set<Object>): Lock {
    match lock
    case Sweeping(d) => Sweeping(d - gone)
    case GcSweeping(d) => GcSweeping(d - gone)
    case Publishing(job, Evicting(p, d)) => Publishing(job, Evicting(p, d - gone))
    case Publishing(job, Undoing(d)) => Publishing(job, Undoing(d - gone))
    case Publishing(job, Superseding(d)) => Publishing(job, Superseding(d - gone))
    case _ => lock
  }

  ghost predicate Next(c: Codec, m: Machine, step: Step, m': Machine) {
    var s := m.store;
    match step
    case Begin(job) =>
      && m.lock == Free && ReferencesVerified(c, s, job)
      && job.staged <= BlobsOf(c.treeOf(job.row.tree))
      && m' == m.(lock := Publishing(job, Admitted(Pending(s, job))))
    case Evict(id) =>
      && m.lock.Publishing? && m.lock.stage.Admitted?
      && CanDelete(c, s, id) && !SharesWith(c, s.versions[id].tree, m.lock.job.row.tree)
      && var s' := DeleteRow(c, s, id);
      m' == m.(store := s', lock := Publishing(m.lock.job, Evicting(m.lock.stage.pending, DeadObjects(c, s', s.versions[id].tree))))
    case Clean(gone, rows) =>
      && gone <= Doomed(m.lock)
      && (forall b :: b in rows ==> b in s.refs && s.refs[b].count == 0)
      && m' == m.(store := s.(objects := s.objects - gone, refs := s.refs - rows), lock := LessDoomed(m.lock, gone))
    case Cleaned =>
      && m.lock.Publishing? && m.lock.stage.Evicting?
      && m' == m.(lock := Publishing(m.lock.job, Admitted(m.lock.stage.pending)))
    case StartWriting =>
      && m.lock.Publishing? && m.lock.stage.Admitted?
      && m' == m.(lock := Publishing(m.lock.job, Writing(m.lock.stage.pending, {})))
    case Write(o) =>
      && m.lock.Publishing? && m.lock.stage.Writing?
      && o in m.lock.stage.pending - m.lock.stage.written
      && m' == m.(store := s.(objects := s.objects + {o}),
                  lock := Publishing(m.lock.job, Writing(m.lock.stage.pending, m.lock.stage.written + {o})))
    case Commit =>
      && m.lock.Publishing? && m.lock.stage.Writing? && m.lock.stage.pending == m.lock.stage.written
      && var job := m.lock.job;
      if job.id in s.versions && s.versions[job.id].tree == job.row.tree then m' == m.(lock := Free)
      else
        && (job.id in s.versions && job.mutation.Overwrite? ==> CanDelete(c, s, job.id))
        && !TagTaken(s, job)
        && var s' := Committed(c, s, job);
        m' == m.(store := s',
                 lock := if job.id in s.versions && job.mutation.Overwrite?
                         then Publishing(job, Superseding(DeadObjects(c, s', s.versions[job.id].tree)))
                         else Free)
    case StartUndo =>
      && m.lock.Publishing? && m.lock.stage.Writing?
      && m' == m.(lock := Publishing(m.lock.job, Undoing(set o | o in m.lock.stage.pending && !Referenced(s, o))))
    case Release =>
      !m.lock.GcSweeping? && m' == m.(lock := Free)
    case Delete(id) =>
      && m.lock == Free && CanDelete(c, s, id)
      && var s' := DeleteRow(c, s, id);
      m' == m.(store := s', lock := Sweeping(DeadObjects(c, s', s.versions[id].tree)))
    case Repair =>
      && m.lock == Free
      && m' == m.(store := s.(refs := RebuiltRefs(c, s.versions)), lock := Sweeping(s.objects - Reachable(c, s)))
    case GcStart =>
      m.gc == Idle && m' == m.(gc := Marking({}))
    case GcMark(page) =>
      && m.gc.Marking? && (forall o :: o in page ==> Referenced(s, o))
      && m' == m.(gc := Marking(m.gc.marked + page))
    case GcScan =>
      m.gc.Marking? && m' == m.(gc := Scanning(s.objects - m.gc.marked))
    case GcBatch(batch) =>
      && m.gc.Scanning? && m.lock == Free && batch <= m.gc.todo
      && m' == m.(gc := Scanning(m.gc.todo - batch), lock := GcSweeping(set o | o in batch && !Referenced(s, o)))
    case GcBatchDone =>
      m.lock == GcSweeping({}) && m' == m.(lock := Free)
    case GcEnd =>
      m.gc == Scanning({}) && !m.lock.GcSweeping? && m' == m.(gc := Idle)
    case GcFail =>
      m' == m.(gc := Idle, lock := if m.lock.GcSweeping? then Free else m.lock)
    case Crash =>
      m' == m.(gc := Idle, lock := Free)
  }

  // ---- The invariant ----

  /** A publish between its reference check and its commit: what the object store lacks of the
      incoming tree is exactly what is still to be written. */
  ghost predicate Ready(c: Codec, s: Store, job: Job, missing: set<Object>) {
    && missing == ObjectsOf(c, job.row.tree) - s.objects
    && forall e :: e in c.treeOf(job.row.tree) ==> e.size == c.sizeOf(e.blob)
  }

  ghost predicate LockInv(c: Codec, s: Store, lock: Lock) {
    && (forall o :: o in Doomed(lock) ==> !Named(c, s, o))
    && (lock.Publishing? ==>
          match lock.stage
          case Admitted(p) => Ready(c, s, lock.job, p)
          case Evicting(p, d) => Ready(c, s, lock.job, p) && d !! ObjectsOf(c, lock.job.row.tree)
          case Writing(p, w) => w <= p && Ready(c, s, lock.job, p - w)
          case _ => true)
  }

  ghost predicate Inv(c: Codec, m: Machine) {
    Healthy(c, m.store) && LockInv(c, m.store, m.lock)
  }

  lemma BeginKeeps(c: Codec, m: Machine, job: Job, m': Machine)
    requires Inv(c, m) && Next(c, m, Begin(job), m')
    ensures Inv(c, m')
  {
    var t := c.treeOf(job.row.tree);
    forall o | o in ObjectsOf(c, job.row.tree) - m.store.objects ensures o in Pending(m.store, job) {
      if o.Blob? {
        var e :| e in t && e.blob == o.hash;
      }
    }
  }

  lemma EvictKeeps(c: Codec, m: Machine, id: VersionId, m': Machine)
    requires Inv(c, m) && Next(c, m, Evict(id), m')
    ensures Inv(c, m')
  {
    var h := m.store.versions[id].tree;
    DeleteRowKeeps(c, m.store, id);
    forall o | o in DeadObjects(c, m'.store, h) ensures !Named(c, m'.store, o) {
      DeadIsUnnamed(c, m'.store, h, o);
    }
  }

  lemma CleanKeeps(c: Codec, m: Machine, gone: set<Object>, rows: set<Hash>, m': Machine)
    requires Inv(c, m) && Next(c, m, Clean(gone, rows), m')
    ensures Inv(c, m')
  {
    DropUnnamed(c, m.store, gone);
    forall o ensures Named(c, m'.store, o) <==> Named(c, m.store, o) {
      assert m'.store.versions == m.store.versions;
    }
    forall b ensures CountOf(m'.store.refs, b) == CountOf(m.store.refs, b) {
    }
    var lean := m.store.(objects := m.store.objects - gone);
    forall id | id in lean.versions ensures TreeStored(c, m'.store.objects, m'.store.versions[id].tree) {
      assert TreeStored(c, lean.objects, lean.versions[id].tree);
    }
  }

  lemma WriteKeeps(c: Codec, m: Machine, o: Object, m': Machine)
    requires Inv(c, m) && Next(c, m, Write(o), m')
    ensures Inv(c, m')
  {
    forall id | id in m'.store.versions ensures TreeStored(c, m'.store.objects, m'.store.versions[id].tree) {
      assert TreeStored(c, m.store.objects, m.store.versions[id].tree);
    }
    var p, w, all := m.lock.stage.pending, m.lock.stage.written, ObjectsOf(c, m.lock.job.row.tree);
    assert Ready(c, m.store, m.lock.job, p - w);
    assert p - (w + {o}) == (p - w) - {o} == all - (m.store.objects + {o});
  }

  /** The commit: the old row leaves by deletion or retirement, the new one enters with every
      object present; nothing underflows. */
  lemma CommittedKeeps(c: Codec, s: Store, job: Job)
    requires Healthy(c, s) && TreeStored(c, s.objects, job.row.tree) && !TagTaken(s, job)
    ensures job.id in s.versions ==> CanDelete(c, s, job.id)
    ensures Healthy(c, Committed(c, s, job))
    ensures Exact(c, s) ==> Exact(c, Committed(c, s, job))
  {
    if job.id !in s.versions {
      InsertRowKeeps(c, s, job.id, job.row);
    } else if job.mutation.Overwrite? {
      DeleteRowKeeps(c, s, job.id);
      InsertRowKeeps(c, DeleteRow(c, s, job.id), job.id, job.row);
    } else {
      NeverUnderflows(c, s, job.id);
      var historical := VersionId(job.id.key, job.mutation.tag);
      RetireKeeps(c, s, job.id, historical);
      InsertRowKeeps(c, RetireRow(s, job.id, historical), job.id, job.row);
    }
  }

  lemma NothingMissing(c: Codec, s: Store, job: Job)
    requires Ready(c, s, job, {})
    ensures TreeStored(c, s.objects, job.row.tree)
  {
    forall o | o in ObjectsOf(c, job.row.tree) ensures o in s.objects {
      assert o !in ObjectsOf(c, job.row.tree) - s.objects;
    }
    assert Tree(job.row.tree) in ObjectsOf(c, job.row.tree);
    forall e | e in c.treeOf(job.row.tree) ensures Blob(e.blob) in s.objects {
      assert Blob(e.blob) in ObjectsOf(c, job.row.tree);
    }
  }

  lemma CommitKeeps(c: Codec, m: Machine, m': Machine)
    requires Inv(c, m) && Next(c, m, Commit, m')
    ensures Inv(c, m')
    ensures Exact(c, m.store) ==> Exact(c, m'.store)
  {
    var s, job := m.store, m.lock.job;
    assert m.lock.stage.pending - m.lock.stage.written == {};
    NothingMissing(c, s, job);
    if m'.store != s {
      CommittedKeeps(c, s, job);
    }
    if m'.lock.Publishing? {
      var prior := s.versions[job.id].tree;
      forall o | o in DeadObjects(c, m'.store, prior) ensures !Named(c, m'.store, o) {
        DeadIsUnnamed(c, m'.store, prior, o);
      }
    }
  }

  lemma DeleteKeeps(c: Codec, m: Machine, id: VersionId, m': Machine)
    requires Inv(c, m) && Next(c, m, Delete(id), m')
    ensures Inv(c, m')
  {
    var h := m.store.versions[id].tree;
    DeleteRowKeeps(c, m.store, id);
    forall o | o in DeadObjects(c, m'.store, h) ensures !Named(c, m'.store, o) {
      DeadIsUnnamed(c, m'.store, h, o);
    }
  }

  /** Repair makes the counts exact whatever they were. */
  lemma RebuiltIsExact(c: Codec, s: Store)
    ensures var s' := s.(refs := RebuiltRefs(c, s.versions)); Exact(c, s') && Covered(c, s')
  {
    var refs := RebuiltRefs(c, s.versions);
    forall b ensures RefTotal(c, s.versions, b) == CountOf(refs, b) {
      TotalZero(c, s.versions, b);
      if RefTotal(c, s.versions, b) != 0 {
        var id :| id in s.versions && b in BlobsOf(c.treeOf(s.versions[id].tree));
        var e :| e in c.treeOf(s.versions[id].tree) && e.blob == b;
        assert b in refs;
      }
    }
  }

  lemma RepairKeeps(c: Codec, m: Machine, m': Machine)
    requires Inv(c, m) && Next(c, m, Repair, m')
    ensures Inv(c, m')
  {
    RebuiltIsExact(c, m.store);
    forall id | id in m'.store.versions ensures TreeStored(c, m'.store.objects, m'.store.versions[id].tree) {
      assert TreeStored(c, m.store.objects, m.store.versions[id].tree);
    }
  }

  lemma RecheckedIsUnnamed(c: Codec, s: Store, candidates: set<Object>)
    requires Covered(c, s)
    ensures forall o :: o in candidates && !Referenced(s, o) ==> !Named(c, s, o)
  {
    forall o | o in candidates && Named(c, s, o) ensures Referenced(s, o) {
      NamedIsReferenced(c, s, o);
    }
  }

  lemma StepKeepsInv(c: Codec, m: Machine, step: Step, m': Machine)
    requires Inv(c, m) && Next(c, m, step, m')
    ensures Inv(c, m')
  {
    match step
    case Begin(job) => BeginKeeps(c, m, job, m');
    case Evict(id) => EvictKeeps(c, m, id, m');
    case Clean(gone, rows) => CleanKeeps(c, m, gone, rows, m');
    case Write(o) => WriteKeeps(c, m, o, m');
    case Commit => CommitKeeps(c, m, m');
    case StartUndo => RecheckedIsUnnamed(c, m.store, m.lock.stage.pending);
    case Delete(id) => DeleteKeeps(c, m, id, m');
    case Repair => RepairKeeps(c, m, m');
    case GcBatch(batch) => RecheckedIsUnnamed(c, m.store, batch);
    case _ =>
  }

  // ---- Runs ----

  ghost predicate Run(c: Codec, ms: seq<Machine>, steps: seq<Step>) {
    && |ms| == |steps| + 1
    && forall i :: 0 <= i < |steps| ==> Next(c, ms[i], steps[i], ms[i + 1])
  }

  /** Main safety result: in every interleaving, from any healthy start, every version the index
      holds has its tree object and every blob of that tree in the object store. */
  lemma {:induction false} NothingDanglesInAnyInterleaving(c: Codec, ms: seq<Machine>, steps: seq<Step>, i: nat)
    requires Run(c, ms, steps) && Healthy(c, ms[0].store) && ms[0].lock == Free
    requires i < |ms|
    ensures Inv(c, ms[i]) && NoDangling(c, ms[i].store)
  {
    if i > 0 {
      NothingDanglesInAnyInterleaving(c, ms, steps, i - 1);
      StepKeepsInv(c, ms[i - 1], steps[i - 1], ms[i]);
    }
  }

  /** No step ever takes away an object that some version names before or after it. */
  lemma NamedObjectsAreNeverDeleted(c: Codec, m: Machine, step: Step, m': Machine, o: Object)
    requires Inv(c, m) && Next(c, m, step, m')
    requires o in m.store.objects && o !in m'.store.objects
    ensures !Named(c, m.store, o) && !Named(c, m'.store, o)
  {
    StepKeepsInv(c, m, step, m');
    if Named(c, m'.store, o) {
      StoredObjects(c, m'.store, o);
    }
  }

  /** The missing set computed before eviction is exact when writing starts, whatever was evicted
      in between: nothing of the incoming tree was deleted, and nothing is written twice. */
  lemma MissingSetStaysExact(c: Codec, ms: seq<Machine>, steps: seq<Step>, i: nat)
    requires Run(c, ms, steps) && Healthy(c, ms[0].store) && ms[0].lock == Free
    requires i < |steps| && steps[i] == StartWriting
    ensures ms[i + 1].lock.stage.pending == ObjectsOf(c, ms[i + 1].lock.job.row.tree) - ms[i + 1].store.objects
  {
    NothingDanglesInAnyInterleaving(c, ms, steps, i);
  }

  lemma StepKeepsExact(c: Codec, m: Machine, step: Step, m': Machine)
    requires Inv(c, m) && Next(c, m, step, m') && Exact(c, m.store)
    ensures Exact(c, m'.store)
  {
    match step
    case Evict(id) => DeleteRowKeeps(c, m.store, id);
    case Delete(id) => DeleteRowKeeps(c, m.store, id);
    case Clean(gone, rows) =>
      forall b ensures CountOf(m'.store.refs, b) == CountOf(m.store.refs, b) {}
    case Commit => CommitKeeps(c, m, m');
    case Repair => RebuiltIsExact(c, m.store);
    case _ =>
  }

  /** Reference counts stay exact along every run. */
  lemma {:induction false} CountsStayExact(c: Codec, ms: seq<Machine>, steps: seq<Step>, i: nat)
    requires Run(c, ms, steps) && Healthy(c, ms[0].store) && ms[0].lock == Free && Exact(c, ms[0].store)
    requires i < |ms|
    ensures Exact(c, ms[i].store)
  {
    if i > 0 {
      CountsStayExact(c, ms, steps, i - 1);
      NothingDanglesInAnyInterleaving(c, ms, steps, i - 1);
      StepKeepsExact(c, ms[i - 1], steps[i - 1], ms[i]);
    }
  }

  // ---- The collector collects ----

  /** Where an orphan that was never referenced must be during a collection pass. */
  ghost predicate StillDue(m: Machine, o: Object) {
    o in m.store.objects ==>
      match m.gc
      case Idle => false
      case Marking(marked) => o !in marked
      case Scanning(todo) => o in todo || (m.lock.GcSweeping? && o in m.lock.doomed)
  }

  lemma {:induction false} OrphanStaysDue(c: Codec, ms: seq<Machine>, steps: seq<Step>, o: Object, i: nat)
    requires Run(c, ms, steps) && |steps| > 0 && steps[0] == GcStart
    requires forall k :: 0 < k < |ms| - 1 ==> ms[k].gc != Idle
    requires forall k :: 0 <= k < |ms| ==> !Referenced(ms[k].store, o)
    requires forall k :: 0 <= k < |steps| ==> steps[k] != Write(o)
    requires 0 < i < |ms| - 1
    ensures StillDue(ms[i], o)
  {
    if i > 1 {
      OrphanStaysDue(c, ms, steps, o, i - 1);
      assert Next(c, ms[i - 1], steps[i - 1], ms[i]);
    } else {
      assert Next(c, ms[0], steps[0], ms[1]);
    }
  }

  /** Completeness of a pass that ends normally: an object that stays unreferenced for the whole
      pass, and that no publish writes meanwhile, is gone when the pass ends. */
  lemma CollectionIsComplete(c: Codec, ms: seq<Machine>, steps: seq<Step>, o: Object)
    requires Run(c, ms, steps) && |steps| > 1 && steps[0] == GcStart && steps[|steps| - 1] == GcEnd
    requires forall k :: 0 < k < |ms| - 1 ==> ms[k].gc != Idle
    requires forall k :: 0 <= k < |ms| ==> !Referenced(ms[k].store, o)
    requires forall k :: 0 <= k < |steps| ==> steps[k] != Write(o)
    ensures o !in ms[|ms| - 1].store.objects
  {
    var last := |steps| - 1;
    OrphanStaysDue(c, ms, steps, o, last);
    assert Next(c, ms[last], steps[last], ms[last + 1]);
  }
}
