/** What a reference count counts: the places at which versions name a blob. */
module ReferenceCounts {
  import opened ObjectModel
  import Sums

  /** The positions at which a tree names a blob. */
  ghost function PlacesIn(t: seq<Entry>, b: Hash): set<int> {
    set i | 0 <= i < |t| && t[i].blob == b
  }

  /** The versions and positions at which a blob is named. */
  ghost function Places(c: Codec, vs: map<VersionId, Row>, b: Hash): set<(VersionId, int)> {
    set id, i | id in vs && i in PlacesIn(c.treeOf(vs[id].tree), b) :: (id, i)
  }

  lemma {:induction false} OccIsPlaces(t: seq<Entry>, b: Hash)
    ensures Occ(t, b) == |PlacesIn(t, b)|
  {
    if t != [] {
      var n := |t| - 1;
      OccIsPlaces(t[..n], b);
      var before := PlacesIn(t[..n], b);
      assert PlacesIn(t, b) == before + if t[n].blob == b then {n} else {};
    }
  }

  ghost function Paired<A, B>(id: A, at: set<B>): set<(A, B)> {
    set i | i in at :: (id, i)
  }

  lemma {:induction false} PairedSize<A, B>(id: A, at: set<B>)
    ensures |Paired(id, at)| == |at|
  {
    if at == {} {
      assert Paired(id, at) == {};
    } else {
      var i :| i in at;
      PairedSize(id, at - {i});
      assert Paired(id, at) == Paired(id, at - {i}) + {(id, i)};
    }
  }

  lemma PlacesRemove(c: Codec, vs: map<VersionId, Row>, b: Hash, id: VersionId)
    requires id in vs
    ensures |Places(c, vs, b)| == |Places(c, vs - {id}, b)| + Occ(c.treeOf(vs[id].tree), b)
  {
    var t := c.treeOf(vs[id].tree);
    var own, rest := Paired(id, PlacesIn(t, b)), Places(c, vs - {id}, b);
    OccIsPlaces(t, b);
    PairedSize(id, PlacesIn(t, b));
    assert Places(c, vs, b) == rest + own;
    assert rest !! own;
  }

  /** The total of a blob is the number of places at which versions name it. */
  lemma {:induction false} TotalIsPlaces(c: Codec, vs: map<VersionId, Row>, b: Hash)
    ensures RefTotal(c, vs, b) == |Places(c, vs, b)|
    decreases |vs|
  {
    if vs.Keys == {} {
      assert Places(c, vs, b) == {};
      Sums.Zero(vs.Keys, RowOcc(c, vs, b));
    } else {
      var id :| id in vs.Keys;
      TotalRemove(c, vs, id, b);
      PlacesRemove(c, vs, b, id);
      assert (vs - {id}).Keys == vs.Keys - {id};
      TotalIsPlaces(c, vs - {id}, b);
    }
  }

  /** Exact counts are these numbers, and zero for a blob without a row. */
  lemma ExactCountsPlaces(c: Codec, s: Store)
    ensures Exact(c, s) <==> forall b :: |Places(c, s.versions, b)| == if b in s.refs then s.refs[b].count else 0
  {
    forall b ensures RefTotal(c, s.versions, b) == |Places(c, s.versions, b)| {
      TotalIsPlaces(c, s.versions, b);
    }
  }
}
