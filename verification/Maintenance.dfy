/** Garbage collection, rebuilding the reference counts, and the integrity scan. */
module Maintenance {
  import opened ObjectModel
  import opened DurableStores
  import opened Options
  import opened Paging
  import Lex
  import Protocol = StoreProtocol

  const GC_BATCH: nat := 512
  const REACHABLE_PAGE: nat := 4096

  lemma HashOrder()
    ensures StrictTotal(Lex.Less)
  {
    Lex.StrictOrder();
  }

  // ---- Paged collection of hash sets ----

  ghost function HashesPast(s: set<Hash>, after: Option<Hash>): set<Hash> {
    set h | h in s && Past(Lex.Less, after, h)
  }

  lemma PageConsumes(s: set<Hash>, after: Option<Hash>, limit: nat, page: seq<Hash>)
    requires IsPage(s, Lex.Less, after, limit, page) && page != []
    ensures var next := Some(page[|page| - 1]);
            && HashesPast(s, next) < HashesPast(s, after)
            && s - HashesPast(s, next) == (s - HashesPast(s, after)) + (set h | h in page)
  {
    HashOrder();
    var last := page[|page| - 1];
    assert last in page && last in HashesPast(s, after) && last !in HashesPast(s, Some(last));
    forall h | h in s && Past(Lex.Less, after, h) && !Lex.Less(last, h) ensures h in page {
    }
    forall h | h in page ensures !Lex.Less(last, h) {
      var i :| 0 <= i < |page| && page[i] == h;
    }
    forall h | h in s && !Past(Lex.Less, after, h) ensures !Lex.Less(last, h) {
      assert Past(Lex.Less, after, last);
    }
  }

  /** `collectHashSetPaged`: the pages together are the whole set. */
  method CollectPaged(s: set<Hash>) returns (all: set<Hash>)
    ensures all == s
  {
    HashOrder();
    all := {};
    var after: Option<Hash> := None;
    while true
      invariant all == s - HashesPast(s, after)
      decreases HashesPast(s, after)
    {
      var page := Page(s, Lex.Less, after, REACHABLE_PAGE);
      for i := 0 to |page|
        invariant all == (s - HashesPast(s, after)) + set j | 0 <= j < i :: page[j]
      {
        assert page[i] in page;
        all := all + {page[i]};
      }
      if |page| < REACHABLE_PAGE {
        forall h | h in HashesPast(s, after) ensures h in page {
        }
        return;
      }
      PageConsumes(s, after, REACHABLE_PAGE, page);
      after := Some(page[|page| - 1]);
    }
  }

  // ---- Garbage collection ----

  /** `deleteOrphanBatchChecked`: under `writeMu`, each candidate is checked again. */
  method DeleteOrphanBatch(s: DurableStore, batch: set<Object>) returns (failed: bool)
    modifies s`objects
    ensures forall o :: o in old(s.objects) && o !in s.objects ==> o in batch && !Referenced(s.State(), o)
    ensures s.objects <= old(s.objects)
    ensures !failed ==> s.objects == old(s.objects) - (set o | o in batch && !Referenced(old(s.State()), o))
    ensures s.reliable ==> !failed
  {
    var confirmed: set<Object> := {};
    var todo := batch;
    while todo != {}
      invariant todo <= batch && s.objects == old(s.objects)
      invariant confirmed == set o | o in batch - todo && !Referenced(s.State(), o)
      decreases todo
    {
      var fault := s.Fault();
      if fault {
        return true;
      }
      var o :| o in todo;
      var referenced :=
        match o
        case Tree(h) => exists id :: id in s.versions && s.versions[id].tree == h
        case Blob(b) => b in s.refs && s.refs[b].count > 0;
      assert referenced <==> Referenced(s.State(), o);
      if !referenced {
        confirmed := confirmed + {o};
      }
      todo := todo - {o};
    }
    failed := s.DeleteObjects(confirmed);
  }

  /** `OrphanCandidates`: blobs, then trees, in key order; the batch runs on across the two. */
  method SweepCandidates(s: DurableStore, scan: seq<Object>, marked: set<Object>) returns (failed: bool)
    modifies s`objects
    ensures s.objects <= old(s.objects)
    ensures forall o :: o in old(s.objects) && o !in s.objects ==> o !in marked && !Referenced(s.State(), o)
    ensures !failed ==> forall o :: o in scan && o in s.objects ==> o in marked || Referenced(s.State(), o)
    ensures s.reliable ==> !failed
  {
    var batch: set<Object> := {};
    for i := 0 to |scan|
      invariant s.objects <= old(s.objects) && batch !! marked
      invariant forall o :: o in old(s.objects) && o !in s.objects ==> o !in marked && !Referenced(s.State(), o)
      invariant forall j :: 0 <= j < i && scan[j] in s.objects ==> scan[j] in marked || scan[j] in batch || Referenced(s.State(), scan[j])
    {
      if scan[i] !in marked {
        batch := batch + {scan[i]};
        if |batch| >= GC_BATCH {
          failed := DeleteOrphanBatch(s, batch);
          if failed {
            return;
          }
          batch := {};
        }
      }
    }
    failed := DeleteOrphanBatch(s, batch);
  }

  /** The key order of the object store: blobs before trees, each by hash. */
  method ScanOrder(objects: set<Object>) returns (scan: seq<Object>)
    ensures forall o :: o in objects ==> o in scan
  {
    HashOrder();
    var blobOrder := SortAll(set o | o in objects && o.Blob? :: o.hash, Lex.Less);
    var treeOrder := SortAll(set o | o in objects && o.Tree? :: o.hash, Lex.Less);
    scan := seq(|blobOrder|, i requires 0 <= i < |blobOrder| => Blob(blobOrder[i]))
          + seq(|treeOrder|, i requires 0 <= i < |treeOrder| => Tree(treeOrder[i]));
    forall o | o in objects ensures o in scan {
      if o.Blob? {
        assert o.hash in blobOrder;
        var i :| 0 <= i < |blobOrder| && blobOrder[i] == o.hash;
        assert scan[i] == o;
      } else {
        assert o.hash in treeOrder;
        var i :| 0 <= i < |treeOrder| && treeOrder[i] == o.hash;
        assert scan[|blobOrder| + i] == o;
      }
    }
  }

  /** `collectGarbage` with no writer in between: only unreferenced objects go, and when it
      succeeds all of them have gone. */
  method CollectGarbage(s: DurableStore) returns (failed: bool)
    modifies s`objects
    ensures s.objects <= old(s.objects)
    ensures forall o :: o in old(s.objects) && o !in s.objects ==> !Referenced(s.State(), o)
    ensures !failed ==> s.objects == set o | o in old(s.objects) && Referenced(old(s.State()), o)
    ensures s.reliable ==> !failed
  {
    var liveBlobs := set b | b in s.refs && s.refs[b].count > 0;
    var markedBlobs := CollectPaged(liveBlobs);
    var markedTrees := CollectPaged(set id | id in s.versions :: s.versions[id].tree);
    var marked := (set b | b in markedBlobs :: Blob(b)) + set h | h in markedTrees :: Tree(h);
    var scan := ScanOrder(s.objects);
    assert forall o :: o in marked ==> Referenced(s.State(), o);
    failed := SweepCandidates(s, scan, marked);
  }

  /** On a healthy store with exact counts a successful collection leaves exactly the objects of
      the indexed versions. */
  lemma CollectionLeavesExactlyTheReachable(c: Codec, s: Store)
    requires Healthy(c, s) && Exact(c, s)
    ensures (set o | o in s.objects && Referenced(s, o)) == Protocol.Reachable(c, s)
  {
    forall o ensures o in s.objects && Referenced(s, o) <==> o in Protocol.Reachable(c, s) {
      ExactlyNamed(c, s, o);
      if o in Protocol.Reachable(c, s) {
        assert Named(c, s, o);
        StoredObjects(c, s, o);
      }
    }
  }
}
