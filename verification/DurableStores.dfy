/** The storage object: the index and the object store as fields, and what deletes a version. */
module DurableStores {
  // Reads and writes may fail at any point (an I/O error or a cancelled context); each contract
  // says what holds in that case too.

  import opened ObjectModel
  import opened Options
  import Sums

  ghost function SizeIn(m: map<Hash, BlobRef>): Hash -> nat {
    b => if b in m then m[b].size else 0
  }

  /** The map holds each blob of the tree with its occurrences and its one size. */
  ghost predicate Counted(t: seq<Entry>, m: map<Hash, BlobRef>) {
    && m.Keys == BlobsOf(t)
    && (forall b :: b in m ==> m[b].count == Occ(t, b))
    && (forall e :: e in t ==> e.blob in m && m[e.blob].size == e.size)
  }

  lemma CountOne(t: seq<Entry>, i: nat, m: map<Hash, BlobRef>)
    requires i < |t| && Counted(t[..i], m)
    requires t[i].blob in m ==> m[t[i].blob].size == t[i].size
    ensures var b := t[i].blob;
            Counted(t[..i + 1], m[b := BlobRef((if b in m then m[b].count else 0) + 1, t[i].size)])
  {
    OneMore(t, i);
    OccPositive(t[..i], t[i].blob);
    assert t[..i + 1] == t[..i] + [t[i]];
  }

  lemma UpsertAdds(c: Codec, refs: map<Hash, BlobRef>, t: seq<Entry>, delta: map<Hash, BlobRef>, next: map<Hash, BlobRef>)
    requires Counted(t, delta) && next.Keys == refs.Keys + delta.Keys
    requires forall b :: b in delta ==> next[b] == BlobRef(CountOf(refs, b) + delta[b].count, delta[b].size)
    requires forall b :: b in refs && b !in delta ==> next[b] == refs[b]
    ensures (forall e :: e in t ==> e.size == c.sizeOf(e.blob)) ==> next == AddRefs(c, refs, t)
  {
    if forall e :: e in t ==> e.size == c.sizeOf(e.blob) {
      forall b | b in delta ensures next[b] == AddRefs(c, refs, t)[b] {
        var e :| e in t && e.blob == b;
        assert delta[b].size == e.size == c.sizeOf(b);
      }
      forall b | b in refs && b !in delta ensures next[b] == AddRefs(c, refs, t)[b] {
        OccPositive(t, b);
      }
    }
  }

  class DurableStore {
    const codec: Codec
    /** No read or write fails, and space does not run out. */
    const reliable: bool
    var versions: map<VersionId, Row>
    var refs: map<Hash, BlobRef>
    var objects: set<Object>

    ghost function State(): Store
      reads this
    {
      Store(versions, refs, objects)
    }

    constructor (codec: Codec, reliable: bool)
      ensures this.codec == codec && this.reliable == reliable && State() == Store(map[], map[], {})
    {
      this.codec, this.reliable := codec, reliable;
      versions, refs, objects := map[], map[], {};
    }

    /** Whether the next read or write fails. */
    method Fault() returns (fault: bool)
      ensures reliable ==> !fault
    {
      fault := *;
      fault := fault && !reliable;
    }

    /** `CountBlobRefs`: occurrences and size per blob; refused when one blob has two sizes. */
    static method CountBlobRefs(t: seq<Entry>) returns (r: Option<map<Hash, BlobRef>>)
      ensures r.Some? <==> SizesAgree(t)
      ensures r.Some? ==> Counted(t, r.value)
    {
      var m: map<Hash, BlobRef> := map[];
      for i := 0 to |t|
        invariant Counted(t[..i], m)
      {
        var e := t[i];
        if e.blob in m && m[e.blob].size != e.size {
          var j :| 0 <= j < i && t[..i][j].blob == e.blob;
          assert t[j].size != t[i].size;
          return None;
        }
        CountOne(t, i, m);
        m := m[e.blob := BlobRef((if e.blob in m then m[e.blob].count else 0) + 1, e.size)];
      }
      assert t[..|t|] == t;
      forall i, j | 0 <= i < |t| && 0 <= j < |t| && t[i].blob == t[j].blob ensures t[i].size == t[j].size {
        assert t[i] in t && t[j] in t;
      }
      return Some(m);
    }

    /** `treePayloadEstimate`: the bytes of the tree's distinct blobs. */
    static method TreePayloadEstimate(m: map<Hash, BlobRef>) returns (bytes: nat)
      ensures bytes == Sums.Sum(m.Keys, SizeIn(m))
    {
      bytes := 0;
      var todo := m.Keys;
      while todo != {}
        invariant todo <= m.Keys
        invariant bytes + Sums.Sum(todo, SizeIn(m)) == Sums.Sum(m.Keys, SizeIn(m))
        decreases todo
      {
        var b :| b in todo;
        Sums.Remove(todo, SizeIn(m), b);
        bytes := bytes + m[b].size;
        todo := todo - {b};
      }
    }

    /** `SubtractBlobRefs` in its transaction: all rows or, on an underflow, none. */
    method SubtractBlobRefs(t: seq<Entry>) returns (ok: bool)
      modifies this`refs
      ensures ok <==> SizesAgree(t) && CanSubtract(old(refs), t)
      ensures refs == if ok then SubtractRefs(old(refs), t) else old(refs)
    {
      var counted := CountBlobRefs(t);
      if counted.None? {
        return false;
      }
      var delta, next := counted.value, refs;
      var todo := delta.Keys;
      while todo != {}
        invariant todo <= delta.Keys && next.Keys == refs.Keys
        invariant forall b :: b in delta && b !in todo ==>
                    b in refs && refs[b].count >= delta[b].count && next[b] == refs[b].(count := refs[b].count - delta[b].count)
        invariant forall b :: b in refs && (b !in delta || b in todo) ==> next[b] == refs[b]
        decreases todo
      {
        var b :| b in todo;
        if b !in next || next[b].count < delta[b].count {
          assert b in BlobsOf(t);
          return false;
        }
        next := next[b := next[b].(count := next[b].count - delta[b].count)];
        todo := todo - {b};
      }
      assert next == SubtractRefs(refs, t);
      refs := next;
      return true;
    }

    /** `AddBlobRefs`: an upsert that adds counts and takes the tree's sizes. */
    method AddBlobRefs(t: seq<Entry>) returns (ok: bool)
      modifies this`refs
      ensures ok <==> SizesAgree(t)
      ensures !ok ==> refs == old(refs)
      ensures ok && (forall e :: e in t ==> e.size == codec.sizeOf(e.blob)) ==> refs == AddRefs(codec, old(refs), t)
    {
      var counted := CountBlobRefs(t);
      if counted.None? {
        return false;
      }
      var delta, next := counted.value, refs;
      var todo := delta.Keys;
      while todo != {}
        invariant todo <= delta.Keys && next.Keys == refs.Keys + (delta.Keys - todo)
        invariant forall b :: b in delta && b !in todo ==> next[b] == BlobRef(CountOf(refs, b) + delta[b].count, delta[b].size)
        invariant forall b :: b in refs && (b !in delta || b in todo) ==> next[b] == refs[b]
        decreases todo
      {
        var b :| b in todo;
        next := next[b := BlobRef((if b in next then next[b].count else 0) + delta[b].count, delta[b].size)];
        todo := todo - {b};
      }
      UpsertAdds(codec, refs, t, delta, next);
      refs := next;
      return true;
    }

    /** `DeleteObjects`: batches, each of which may be the last. */
    method DeleteObjects(gone: set<Object>) returns (failed: bool)
      modifies this`objects
      ensures old(objects) - gone <= objects <= old(objects)
      ensures !failed ==> objects == old(objects) - gone
      ensures reliable ==> !failed
    {
      var todo := gone;
      while todo != {}
        invariant todo <= gone && objects == old(objects) - (gone - todo)
        decreases todo
      {
        var fault := Fault();
        if fault {
          return true;
        }
        var o :| o in todo;
        objects := objects - {o};
        todo := todo - {o};
      }
      return false;
    }

    /** `cleanupDeletedObjectsLocked`: what the superseded tree leaves unreferenced. */
    method CleanupDeletedObjects(h: Hash) returns (failed: bool)
      modifies this`refs, this`objects
      ensures PartlySwept(codec, old(State()), State(), h)
      ensures !failed ==> State() == Swept(codec, old(State()), h)
      ensures reliable ==> !failed
    {
      var treeReferenced := exists id :: id in versions && versions[id].tree == h;
      var gone: set<Object> := if treeReferenced then {} else {Tree(h)};
      var hashes := set e | e in codec.treeOf(h) :: e.blob;
      var unreferenced := set b | b in hashes && b in refs && refs[b].count == 0;
      gone := gone + set b | b in unreferenced :: Blob(b);
      assert gone == DeadObjects(codec, State(), h);
      var fault := Fault();
      if fault {
        return true;
      }
      refs := refs - unreferenced;
      failed := DeleteObjects(gone);
    }

    /** `deleteVersionLocked`: the row and its references go in one transaction, then the objects
        nothing references any more. */
    method DeleteVersion(id: VersionId) returns (deleted: bool, estimate: nat, failed: bool)
      modifies this
      ensures !deleted ==> State() == old(State())
      ensures deleted ==> CanDelete(codec, old(State()), id)
      ensures deleted ==> PartlySwept(codec, DeleteRow(codec, old(State()), id), State(), old(versions)[id].tree)
      ensures deleted && !failed ==> State() == Swept(codec, DeleteRow(codec, old(State()), id), old(versions)[id].tree)
      ensures id !in old(versions) ==> !deleted && !failed
      ensures !failed && id in old(versions) ==> deleted
      ensures reliable && Healthy(codec, old(State())) && id in old(versions) ==> deleted && !failed
      ensures deleted && Healthy(codec, old(State())) ==> estimate == PayloadOf(codec, old(versions)[id].tree)
    {
      if id !in versions {
        return false, 0, false;
      }
      var h := versions[id].tree;
      HealthyIsDeletable(codec, State(), id);
      var fault := Fault();
      if fault || Tree(h) !in objects {
        return false, 0, true;
      }
      var counted := CountBlobRefs(codec.treeOf(h));
      if counted.None? {
        return false, 0, true;
      }
      estimate := TreePayloadEstimate(counted.value);
      PayloadCounted(codec, State(), id, counted.value);
      var ok := SubtractBlobRefs(codec.treeOf(h));
      if !ok {
        return false, 0, true;
      }
      versions := versions - {id};
      failed := CleanupDeletedObjects(h);
      deleted := true;
    }

    /** `ReferencedBytes`: the sizes of all live rows. */
    method ReferencedBytes() returns (bytes: nat)
      ensures bytes == LiveBytes(refs)
    {
      bytes := 0;
      var todo := refs.Keys;
      while todo != {}
        invariant todo <= refs.Keys
        invariant bytes + Sums.Sum(todo, LiveSize(refs)) == LiveBytes(refs)
        decreases todo
      {
        var b :| b in todo;
        Sums.Remove(todo, LiveSize(refs), b);
        if refs[b].count > 0 {
          bytes := bytes + refs[b].size;
        }
        todo := todo - {b};
      }
    }
  }

  /** The bytes of a tree's distinct blobs. */
  ghost function PayloadOf(c: Codec, h: Hash): nat {
    Sums.Sum(BlobsOf(c.treeOf(h)), b => c.sizeOf(b))
  }

  lemma PayloadCounted(c: Codec, s: Store, id: VersionId, m: map<Hash, BlobRef>)
    requires id in s.versions && Counted(c.treeOf(s.versions[id].tree), m)
    ensures Healthy(c, s) ==> Sums.Sum(m.Keys, SizeIn(m)) == PayloadOf(c, s.versions[id].tree)
  {
    if Healthy(c, s) {
      var t := c.treeOf(s.versions[id].tree);
      assert TreeStored(c, s.objects, s.versions[id].tree);
      forall b | b in m ensures m[b].size == c.sizeOf(b) {
        var e :| e in t && e.blob == b;
      }
      Sums.Congruent(m.Keys, SizeIn(m), b => c.sizeOf(b));
    }
  }

  /** In a healthy store nothing but a fault stands in the way of deleting a version. */
  lemma HealthyIsDeletable(c: Codec, s: Store, id: VersionId)
    requires id in s.versions
    ensures Healthy(c, s) ==> var h := s.versions[id].tree; Tree(h) in s.objects && SizesAgree(c.treeOf(h)) && CanDelete(c, s, id)
  {
    if Healthy(c, s) {
      assert TreeStored(c, s.objects, s.versions[id].tree);
      NeverUnderflows(c, s, id);
    }
  }

  ghost function LiveSize(refs: map<Hash, BlobRef>): Hash -> nat {
    b => if b in refs && refs[b].count > 0 then refs[b].size else 0
  }

  /** Logical durable bytes: the sum of sizes over blobs with live references. */
  ghost function LiveBytes(refs: map<Hash, BlobRef>): nat {
    Sums.Sum(refs.Keys, LiveSize(refs))
  }

  /** A healthy store always deletes what it is asked to: the tree is readable, its sizes agree
      and no count underflows; what is left is healthy, and no count goes astray. */
  lemma DeleteVersionKeeps(c: Codec, s: Store, s': Store, id: VersionId)
    requires Healthy(c, s) && id in s.versions
    requires CanDelete(c, s, id) && PartlySwept(c, DeleteRow(c, s, id), s', s.versions[id].tree)
    ensures Healthy(c, s') && s'.versions == s.versions - {id}
    ensures Exact(c, s) ==> Exact(c, s')
    ensures forall o :: o in s.objects && o !in s'.objects ==>
              o in ObjectsOf(c, s.versions[id].tree) && !Named(c, s', o)
  {
    var h := s.versions[id].tree;
    var mid := DeleteRow(c, s, id);
    DeleteRowKeeps(c, s, id);
    PartlySweptKeeps(c, mid, s', h);
    forall o | o in s.objects && o !in s'.objects
      ensures o in ObjectsOf(c, h) && !Named(c, s', o)
    {
      DeadIsUnnamed(c, mid, h, o);
      assert Named(c, s', o) <==> Named(c, mid, o);
    }
  }

  /** And nothing of its tree is left over: with exact counts a deletion whose clean-up ran to its end keeps
      an object of the tree, or a row for a blob of it, only if some other version names it. */
  lemma DeletedLeavesNothing(c: Codec, s: Store, id: VersionId, o: Object)
    requires Healthy(c, s) && Exact(c, s) && id in s.versions
    requires o in ObjectsOf(c, s.versions[id].tree)
    ensures CanDelete(c, s, id)
    ensures var s' := Swept(c, DeleteRow(c, s, id), s.versions[id].tree);
            && (o in s'.objects <==> Named(c, s', o))
            && (o.Blob? && o.hash in s'.refs ==> s'.refs[o.hash].count > 0)
  {
    var h := s.versions[id].tree;
    DeleteRowKeeps(c, s, id);
    var mid := DeleteRow(c, s, id);
    var s' := Swept(c, mid, h);
    assert o.Blob? ==> o.hash in s.refs;
    PartlySweptKeeps(c, mid, s', h);
    ExactlyNamed(c, mid, o);
    assert Named(c, s', o) <==> Named(c, mid, o);
    if Named(c, s', o) {
      StoredObjects(c, s', o);
    }
  }
}
