/** The durable state of mod/storage as values: the SQLite index (version rows and
    blob reference counts) and the Pebble object store (trees and blobs by hash). */
module ObjectModel {
  import Sums

  type Hash = string

  datatype Mode = File | Symlink

  datatype Entry = Entry(path: string, mode: Mode, size: nat, blob: Hash)

  /** Content addressing: a hash names at most one content, so the object store is a set
      of hashes and the codec says what each hash names. */
  datatype Codec = Codec(treeOf: Hash -> seq<Entry>, sizeOf: Hash -> nat, treeBytes: Hash -> nat)

  datatype Object = Tree(hash: Hash) | Blob(hash: Hash)

  datatype VersionId = VersionId(key: string, version: string)

  datatype Row = Row(tree: Hash, upstreamSeq: nat, ingest: nat)

  datatype BlobRef = BlobRef(count: nat, size: nat)

  datatype Store = Store(versions: map<VersionId, Row>, refs: map<Hash, BlobRef>, objects: set<Object>)

  // ---- Counting references ----

  /** How many entries of a tree name a blob. */
  ghost function Occ(t: seq<Entry>, b: Hash): nat {
    if t == [] then 0
    else Occ(t[..|t| - 1], b) + if t[|t| - 1].blob == b then 1 else 0
  }

  ghost function BlobsOf(t: seq<Entry>): set<Hash> {
    set e | e in t :: e.blob
  }

  lemma {:induction false} OccPositive(t: seq<Entry>, b: Hash)
    ensures Occ(t, b) > 0 <==> b in BlobsOf(t)
  {
    if t != [] {
      var init, last := t[..|t| - 1], t[|t| - 1];
      assert t == init + [last];
      OccPositive(init, b);
    }
  }

  lemma OneMore(t: seq<Entry>, i: nat)
    requires i < |t|
    ensures BlobsOf(t[..i + 1]) == BlobsOf(t[..i]) + {t[i].blob}
    ensures forall b :: Occ(t[..i + 1], b) == Occ(t[..i], b) + if t[i].blob == b then 1 else 0
  {
    assert t[..i + 1] == t[..i] + [t[i]] && t[..i + 1][..i] == t[..i];
  }

  ghost function OccIn(c: Codec, vs: map<VersionId, Row>, b: Hash, id: VersionId): nat {
    if id in vs then Occ(c.treeOf(vs[id].tree), b) else 0
  }

  ghost function RowOcc(c: Codec, vs: map<VersionId, Row>, b: Hash): VersionId -> nat {
    id => OccIn(c, vs, b, id)
  }

  /** The number of tree entries naming `b`, summed over all versions. */
  ghost function RefTotal(c: Codec, vs: map<VersionId, Row>, b: Hash): nat {
    Sums.Sum(vs.Keys, RowOcc(c, vs, b))
  }

  lemma TotalRemove(c: Codec, vs: map<VersionId, Row>, id: VersionId, b: Hash)
    requires id in vs
    ensures RefTotal(c, vs, b) == RefTotal(c, vs - {id}, b) + Occ(c.treeOf(vs[id].tree), b)
  {
    Sums.Remove(vs.Keys, RowOcc(c, vs, b), id);
    Sums.Congruent(vs.Keys - {id}, RowOcc(c, vs, b), RowOcc(c, vs - {id}, b));
    assert (vs - {id}).Keys == vs.Keys - {id};
  }

  lemma TotalInsert(c: Codec, vs: map<VersionId, Row>, id: VersionId, row: Row, b: Hash)
    requires id !in vs
    ensures RefTotal(c, vs[id := row], b) == RefTotal(c, vs, b) + Occ(c.treeOf(row.tree), b)
  {
    var ws := vs[id := row];
    TotalRemove(c, ws, id, b);
    assert ws - {id} == vs;
  }

  /** No entry of any version names `b` exactly when the total is zero. */
  lemma TotalZero(c: Codec, vs: map<VersionId, Row>, b: Hash)
    ensures RefTotal(c, vs, b) == 0 <==> forall id :: id in vs ==> b !in BlobsOf(c.treeOf(vs[id].tree))
  {
    Sums.Zero(vs.Keys, RowOcc(c, vs, b));
    forall id | id in vs
      ensures RowOcc(c, vs, b)(id) == 0 <==> b !in BlobsOf(c.treeOf(vs[id].tree))
    {
      OccPositive(c.treeOf(vs[id].tree), b);
    }
  }

  ghost function CountOf(refs: map<Hash, BlobRef>, b: Hash): nat {
    if b in refs then refs[b].count else 0
  }

  ghost predicate SizesAgree(t: seq<Entry>) {
    forall i, j :: 0 <= i < |t| && 0 <= j < |t| && t[i].blob == t[j].blob ==> t[i].size == t[j].size
  }

  /** `AddBlobRefs`: every blob of the tree gains its occurrences and takes its size from the tree. */
  ghost function AddRefs(c: Codec, refs: map<Hash, BlobRef>, t: seq<Entry>): map<Hash, BlobRef> {
    map b | b in refs.Keys + BlobsOf(t) ::
      BlobRef(CountOf(refs, b) + Occ(t, b), if b in BlobsOf(t) then c.sizeOf(b) else refs[b].size)
  }

  ghost predicate CanSubtract(refs: map<Hash, BlobRef>, t: seq<Entry>) {
    forall b :: b in BlobsOf(t) ==> b in refs && refs[b].count >= Occ(t, b)
  }

  /** `SubtractBlobRefs`: rows that reach zero stay until cleanup. */
  ghost function SubtractRefs(refs: map<Hash, BlobRef>, t: seq<Entry>): map<Hash, BlobRef>
    requires CanSubtract(refs, t)
  {
    map b | b in refs :: refs[b].(count := if b in BlobsOf(t) then refs[b].count - Occ(t, b) else refs[b].count)
  }

  // ---- What a healthy store is ----

  ghost predicate TreeStored(c: Codec, objects: set<Object>, h: Hash) {
    && Tree(h) in objects
    && forall e :: e in c.treeOf(h) ==> Blob(e.blob) in objects && e.size == c.sizeOf(e.blob)
  }

  /** Every indexed version has its tree object and every blob of that tree, at the recorded size. */
  ghost predicate NoDangling(c: Codec, s: Store) {
    forall id :: id in s.versions ==> TreeStored(c, s.objects, s.versions[id].tree)
  }

  /** Reference counts never fall below the truth, and sizes are true. */
  ghost predicate Covered(c: Codec, s: Store) {
    && (forall b :: RefTotal(c, s.versions, b) <= CountOf(s.refs, b))
    && forall b :: b in s.refs ==> s.refs[b].size == c.sizeOf(b)
  }

  ghost predicate Exact(c: Codec, s: Store) {
    forall b :: RefTotal(c, s.versions, b) == CountOf(s.refs, b)
  }

  ghost predicate Healthy(c: Codec, s: Store) {
    NoDangling(c, s) && Covered(c, s)
  }

  ghost function ObjectsOf(c: Codec, h: Hash): set<Object> {
    {Tree(h)} + set b | b in BlobsOf(c.treeOf(h)) :: Blob(b)
  }

  /** The two trees share an object: they are the same tree or have a blob in common. */
  ghost predicate SharesWith(c: Codec, h: Hash, other: Hash) {
    h == other || exists b :: b in BlobsOf(c.treeOf(h)) && b in BlobsOf(c.treeOf(other))
  }

  /** Some version names the object, as its tree or as a blob of its tree. */
  ghost predicate Named(c: Codec, s: Store, o: Object) {
    exists id :: id in s.versions && o in ObjectsOf(c, s.versions[id].tree)
  }

  lemma StoredObjects(c: Codec, s: Store, o: Object)
    requires NoDangling(c, s) && Named(c, s, o)
    ensures o in s.objects
  {
    var id :| id in s.versions && o in ObjectsOf(c, s.versions[id].tree);
    assert TreeStored(c, s.objects, s.versions[id].tree);
  }

  /** Deleting objects no version names leaves no version dangling. */
  lemma DropUnnamed(c: Codec, s: Store, gone: set<Object>)
    requires Healthy(c, s)
    requires forall o :: o in gone ==> !Named(c, s, o)
    ensures Healthy(c, s.(objects := s.objects - gone))
  {
    forall id | id in s.versions
      ensures TreeStored(c, s.objects - gone, s.versions[id].tree)
    {
      var h := s.versions[id].tree;
      assert TreeStored(c, s.objects, h);
      forall o | o in ObjectsOf(c, h) ensures o !in gone {
        assert Named(c, s, o);
      }
      assert Tree(h) in ObjectsOf(c, h);
      forall e | e in c.treeOf(h) ensures Blob(e.blob) !in gone {
        assert Blob(e.blob) in ObjectsOf(c, h);
      }
    }
  }

  // ---- The checks that decide what may be deleted ----

  ghost predicate TreeReferenced(s: Store, h: Hash) {
    exists id :: id in s.versions && s.versions[id].tree == h
  }

  /** `pendingObjectReferenced`: what the index alone says about an object. */
  ghost predicate Referenced(s: Store, o: Object) {
    match o
    case Tree(h) => TreeReferenced(s, h)
    case Blob(b) => CountOf(s.refs, b) > 0
  }

  /** With covered counts the index check never lets a named object go. */
  lemma NamedIsReferenced(c: Codec, s: Store, o: Object)
    requires Covered(c, s) && Named(c, s, o)
    ensures Referenced(s, o)
  {
    var id :| id in s.versions && o in ObjectsOf(c, s.versions[id].tree);
    if o.Blob? {
      TotalZero(c, s.versions, o.hash);
    }
  }

  /** With exact counts it also never keeps an unnamed one. */
  lemma ExactlyNamed(c: Codec, s: Store, o: Object)
    requires Exact(c, s)
    ensures Referenced(s, o) <==> Named(c, s, o)
  {
    if o.Blob? {
      TotalZero(c, s.versions, o.hash);
      if Referenced(s, o) {
        var id :| id in s.versions && o.hash in BlobsOf(c.treeOf(s.versions[id].tree));
        assert o in ObjectsOf(c, s.versions[id].tree);
      }
    } else {
      if Referenced(s, o) {
        var id :| id in s.versions && s.versions[id].tree == o.hash;
        assert o in ObjectsOf(c, s.versions[id].tree);
      }
    }
  }

  /** `cleanupDeletedObjectsLocked`: the blobs of a superseded tree whose count is down to zero. */
  ghost function DeadBlobs(c: Codec, s: Store, h: Hash): set<Hash> {
    set b | b in BlobsOf(c.treeOf(h)) && b in s.refs && s.refs[b].count == 0
  }

  ghost function DeadObjects(c: Codec, s: Store, h: Hash): set<Object> {
    (if TreeReferenced(s, h) then {} else {Tree(h)}) + set b | b in DeadBlobs(c, s, h) :: Blob(b)
  }

  lemma DeadIsUnnamed(c: Codec, s: Store, h: Hash, o: Object)
    requires Covered(c, s) && o in DeadObjects(c, s, h)
    ensures !Named(c, s, o)
  {
    if Named(c, s, o) {
      NamedIsReferenced(c, s, o);
    }
  }

  /** A cleanup of tree `h` that may have stopped anywhere. */
  ghost predicate PartlySwept(c: Codec, s: Store, s': Store, h: Hash) {
    && s'.versions == s.versions
    && s.objects - DeadObjects(c, s, h) <= s'.objects <= s.objects
    && (forall b :: b in s'.refs ==> b in s.refs && s'.refs[b] == s.refs[b])
    && s.refs.Keys - s'.refs.Keys <= DeadBlobs(c, s, h)
  }

  ghost function Swept(c: Codec, s: Store, h: Hash): Store {
    s.(refs := s.refs - DeadBlobs(c, s, h), objects := s.objects - DeadObjects(c, s, h))
  }

  lemma PartlySweptKeeps(c: Codec, s: Store, s': Store, h: Hash)
    requires Healthy(c, s) && PartlySwept(c, s, s', h)
    ensures Healthy(c, s')
    ensures Exact(c, s') <==> Exact(c, s)
  {
    var gone := s.objects - s'.objects;
    forall o | o in gone ensures !Named(c, s, o) {
      DeadIsUnnamed(c, s, h, o);
    }
    DropUnnamed(c, s, gone);
    var lean := s.(objects := s.objects - gone);
    assert lean.objects == s'.objects;
    forall id | id in s'.versions ensures TreeStored(c, s'.objects, s'.versions[id].tree) {
      assert TreeStored(c, lean.objects, lean.versions[id].tree);
    }
    forall b ensures CountOf(s'.refs, b) == CountOf(s.refs, b) {
      assert b in s.refs && b !in s'.refs ==> b in s.refs.Keys - s'.refs.Keys;
    }
  }

  // ---- Index transactions ----

  ghost predicate CanDelete(c: Codec, s: Store, id: VersionId) {
    id in s.versions && CanSubtract(s.refs, c.treeOf(s.versions[id].tree))
  }

  /** `deleteVersionTx`. */
  ghost function DeleteRow(c: Codec, s: Store, id: VersionId): Store
    requires CanDelete(c, s, id)
  {
    s.(versions := s.versions - {id}, refs := SubtractRefs(s.refs, c.treeOf(s.versions[id].tree)))
  }

  /** A covered store never reports a refcount underflow. */
  lemma NeverUnderflows(c: Codec, s: Store, id: VersionId)
    requires Covered(c, s) && id in s.versions
    ensures CanDelete(c, s, id)
  {
    var t := c.treeOf(s.versions[id].tree);
    forall b | b in BlobsOf(t) ensures b in s.refs && s.refs[b].count >= Occ(t, b) {
      TotalRemove(c, s.versions, id, b);
      OccPositive(t, b);
    }
  }

  lemma DeleteRowKeeps(c: Codec, s: Store, id: VersionId)
    requires Healthy(c, s) && id in s.versions
    ensures CanDelete(c, s, id)
    ensures Healthy(c, DeleteRow(c, s, id))
    ensures Exact(c, s) ==> Exact(c, DeleteRow(c, s, id))
  {
    NeverUnderflows(c, s, id);
    var t := c.treeOf(s.versions[id].tree);
    var s' := DeleteRow(c, s, id);
    forall b
      ensures CountOf(s.refs, b) - RefTotal(c, s.versions, b) == CountOf(s'.refs, b) - RefTotal(c, s'.versions, b)
    {
      TotalRemove(c, s.versions, id, b);
      OccPositive(t, b);
    }
  }

  ghost function InsertRow(c: Codec, s: Store, id: VersionId, row: Row): Store {
    s.(versions := s.versions[id := row], refs := AddRefs(c, s.refs, c.treeOf(row.tree)))
  }

  lemma InsertRowKeeps(c: Codec, s: Store, id: VersionId, row: Row)
    requires Healthy(c, s) && id !in s.versions && TreeStored(c, s.objects, row.tree)
    ensures Healthy(c, InsertRow(c, s, id, row))
    ensures Exact(c, InsertRow(c, s, id, row)) <==> Exact(c, s)
  {
    var t := c.treeOf(row.tree);
    var s' := InsertRow(c, s, id, row);
    forall b
      ensures CountOf(s'.refs, b) - RefTotal(c, s'.versions, b) == CountOf(s.refs, b) - RefTotal(c, s.versions, b)
    {
      TotalInsert(c, s.versions, id, row, b);
      OccPositive(t, b);
    }
  }

  /** History mode: the old row is moved under a historical name that no version of the key has;
      reference counts are left alone. */
  ghost function RetireRow(s: Store, id: VersionId, historical: VersionId): Store
    requires id in s.versions && historical !in s.versions
  {
    s.(versions := s.versions[historical := s.versions[id].(upstreamSeq := 0)] - {id})
  }

  lemma RetireKeeps(c: Codec, s: Store, id: VersionId, historical: VersionId)
    requires Healthy(c, s) && id in s.versions && historical !in s.versions
    ensures Healthy(c, RetireRow(s, id, historical))
    ensures Exact(c, RetireRow(s, id, historical)) <==> Exact(c, s)
  {
    var row, s' := s.versions[id].(upstreamSeq := 0), RetireRow(s, id, historical);
    forall b ensures RefTotal(c, s'.versions, b) == RefTotal(c, s.versions, b) {
      TotalInsert(c, s.versions, historical, row, b);
      TotalRemove(c, s.versions[historical := row], id, b);
    }
    forall k | k in s'.versions ensures TreeStored(c, s'.objects, s'.versions[k].tree) {
      assert TreeStored(c, s.objects, s.versions[if k == historical then id else k].tree);
    }
  }
}
