/** Rebuilding the reference counts from the trees. */
module Integrity {
  import opened ObjectModel
  import opened DurableStores
  import opened Maintenance
  import opened Options
  import opened Paging
  import Lex
  import Protocol = StoreProtocol
  import Sums

  // ---- Counting by tree ----

  function VersionsOfTree(vs: map<VersionId, Row>, h: Hash): set<VersionId> {
    set id | id in vs && vs[id].tree == h
  }

  function TreesOf(vs: map<VersionId, Row>): set<Hash> {
    set id | id in vs :: vs[id].tree
  }

  ghost function WeightOf(c: Codec, vs: map<VersionId, Row>, b: Hash, h: Hash): nat {
    Times(|VersionsOfTree(vs, h)|, Occ(c.treeOf(h), b))
  }

  function Times(m: nat, n: nat): nat {
    m * n
  }

  ghost function Weight(c: Codec, vs: map<VersionId, Row>, b: Hash): Hash -> nat {
    h => WeightOf(c, vs, b, h)
  }

  ghost function IdsIn(vs: map<VersionId, Row>, trees: set<Hash>): set<VersionId> {
    set id | id in vs && vs[id].tree in trees
  }

  ghost function Weighted(c: Codec, vs: map<VersionId, Row>, done: set<Hash>, b: Hash): nat {
    Sums.Sum(done, Weight(c, vs, b))
  }

  /** Grouping versions by tree loses nothing: counting each distinct tree once, times the number
      of its versions, is counting the entries of all versions. */
  lemma {:induction false} GroupedCount(c: Codec, vs: map<VersionId, Row>, done: set<Hash>, b: Hash)
    ensures Weighted(c, vs, done, b) == Sums.Sum(IdsIn(vs, done), RowOcc(c, vs, b))
    decreases done
  {
    if done == {} {
      assert IdsIn(vs, done) == {};
    } else {
      var h :| h in done;
      Sums.Remove(done, Weight(c, vs, b), h);
      GroupedCount(c, vs, done - {h}, b);
      SplitIds(c, vs, done, h, b);
    }
  }

  lemma SplitIds(c: Codec, vs: map<VersionId, Row>, done: set<Hash>, h: Hash, b: Hash)
    requires h in done
    ensures Sums.Sum(IdsIn(vs, done), RowOcc(c, vs, b)) == WeightOf(c, vs, b, h) + Sums.Sum(IdsIn(vs, done - {h}), RowOcc(c, vs, b))
  {
    var own, others := VersionsOfTree(vs, h), IdsIn(vs, done - {h});
    assert IdsIn(vs, done) == others + own;
    Sums.Union(others, own, RowOcc(c, vs, b));
    Sums.Constant(own, RowOcc(c, vs, b), Occ(c.treeOf(h), b));
  }

  lemma AllTreesCounted(c: Codec, vs: map<VersionId, Row>, b: Hash)
    ensures Weighted(c, vs, TreesOf(vs), b) == RefTotal(c, vs, b)
  {
    GroupedCount(c, vs, TreesOf(vs), b);
    assert IdsIn(vs, TreesOf(vs)) == vs.Keys;
  }

  /** The counts and sizes collected from the trees in `done`. */
  ghost predicate Tallied(c: Codec, vs: map<VersionId, Row>, done: set<Hash>, m: map<Hash, BlobRef>) {
    && (forall b :: CountOf(m, b) == Weighted(c, vs, done, b))
    && (forall b :: b in m ==> m[b].count > 0)
    && (forall h, e :: h in done && e in c.treeOf(h) ==> e.blob in m && m[e.blob].size == e.size)
  }

  /** Entries of all trees agree on the size of every blob. */
  ghost predicate TreesAgree(c: Codec, trees: set<Hash>) {
    forall g, h, d, e :: g in trees && h in trees && d in c.treeOf(g) && e in c.treeOf(h) && d.blob == e.blob ==> d.size == e.size
  }

  // ---- One page of a paged loop ----

  /** What a loop has seen after `i` elements of a page. */
  ghost function Seen(start: set<Hash>, page: seq<Hash>, i: nat): set<Hash>
    requires i <= |page|
  {
    start + set h | h in page[..i]
  }

  lemma SeeNext(start: set<Hash>, page: seq<Hash>, i: nat)
    requires i < |page| && Sorted(Lex.Less, page) && forall h :: h in page ==> h !in start
    ensures page[i] in page && page[i] !in Seen(start, page, i)
    ensures Seen(start, page, i + 1) == Seen(start, page, i) + {page[i]}
  {
    HashOrder();
    assert page[..i + 1] == page[..i] + [page[i]];
  }

  lemma PageSeen(s: set<Hash>, after: Option<Hash>, page: seq<Hash>)
    requires IsPage(s, Lex.Less, after, REACHABLE_PAGE, page)
    ensures var start := s - HashesPast(s, after);
            && Seen(start, page, 0) == start
            && (forall h :: h in page ==> h !in start && h in s)
            && if |page| < REACHABLE_PAGE then Seen(start, page, |page|) == s
               else var next := Some(page[|page| - 1]);
                    && HashesPast(s, next) < HashesPast(s, after)
                    && Seen(start, page, |page|) == s - HashesPast(s, next)
  {
    HashOrder();
    assert page[..|page|] == page;
    if |page| == REACHABLE_PAGE {
      PageConsumes(s, after, REACHABLE_PAGE, page);
    }
  }

  // ---- Rebuilding the counts ----

  ghost predicate FitsTally(t: seq<Entry>, m: map<Hash, BlobRef>) {
    SizesAgree(t) && forall e :: e in t && e.blob in m ==> m[e.blob].size == e.size
  }

  ghost predicate PositiveCounts(m: map<Hash, BlobRef>) {
    forall b :: b in m ==> m[b].count > 0
  }

  /** `m` after every entry of a tree shared by `count` versions was added to `m0`. */
  ghost predicate TreeAdded(t: seq<Entry>, count: nat, m0: map<Hash, BlobRef>, m: map<Hash, BlobRef>) {
    EntriesCounted(t, count, m0, m) && EntriesSized(t, m0, m)
  }

  ghost predicate EntriesCounted(t: seq<Entry>, count: nat, m0: map<Hash, BlobRef>, m: map<Hash, BlobRef>) {
    forall b :: CountOf(m, b) == CountOf(m0, b) + Times(count, Occ(t, b))
  }

  ghost predicate EntriesSized(t: seq<Entry>, m0: map<Hash, BlobRef>, m: map<Hash, BlobRef>) {
    && PositiveCounts(m)
    && (forall b :: b in m0 ==> b in m && m[b].size == m0[b].size)
    && (forall e :: e in t ==> e.blob in m && m[e.blob].size == e.size)
  }

  /** Every size in `m` comes from `m0` or from an entry of `t`. */
  ghost predicate SizesFrom(t: seq<Entry>, m0: map<Hash, BlobRef>, m: map<Hash, BlobRef>) {
    forall b :: b in m && b !in m0 ==> exists e :: e in t && e.blob == b && e.size == m[b].size
  }

  function CountEntry(m: map<Hash, BlobRef>, e: Entry, count: nat): map<Hash, BlobRef> {
    m[e.blob := BlobRef((if e.blob in m then m[e.blob].count else 0) + count, e.size)]
  }

  lemma NoneAdded(m: map<Hash, BlobRef>, count: nat)
    requires PositiveCounts(m)
    ensures TreeAdded([], count, m, m) && SizesFrom([], m, m)
  {
  }

  lemma EntryCounted(t: seq<Entry>, i: nat, count: nat, m0: map<Hash, BlobRef>, m: map<Hash, BlobRef>)
    requires i < |t| && count > 0 && EntriesCounted(t[..i], count, m0, m)
    ensures EntriesCounted(t[..i + 1], count, m0, CountEntry(m, t[i], count))
  {
    OneMore(t, i);
    forall b ensures CountOf(CountEntry(m, t[i], count), b) == CountOf(m0, b) + Times(count, Occ(t[..i + 1], b)) {
      TimesNext(count, Occ(t[..i], b));
    }
  }

  lemma EntrySized(t: seq<Entry>, i: nat, count: nat, m0: map<Hash, BlobRef>, m: map<Hash, BlobRef>)
    requires i < |t| && count > 0 && EntriesSized(t[..i], m0, m) && SizesFrom(t[..i], m0, m)
    requires t[i].blob in m ==> m[t[i].blob].size == t[i].size
    ensures EntriesSized(t[..i + 1], m0, CountEntry(m, t[i], count))
    ensures SizesFrom(t[..i + 1], m0, CountEntry(m, t[i], count))
  {
    var m1 := CountEntry(m, t[i], count);
    assert t[..i + 1] == t[..i] + [t[i]];
    forall b | b in m1 && b !in m0 ensures exists e :: e in t[..i + 1] && e.blob == b && e.size == m1[b].size {
      if b == t[i].blob {
        assert t[i] in t[..i + 1];
      } else {
        var e :| e in t[..i] && e.blob == b && e.size == m[b].size;
        assert e in t[..i + 1];
      }
    }
  }

  lemma AddEntry(t: seq<Entry>, i: nat, count: nat, m0: map<Hash, BlobRef>, m: map<Hash, BlobRef>)
    requires i < |t| && count > 0 && TreeAdded(t[..i], count, m0, m) && SizesFrom(t[..i], m0, m)
    requires t[i].blob in m ==> m[t[i].blob].size == t[i].size
    ensures TreeAdded(t[..i + 1], count, m0, CountEntry(m, t[i], count))
    ensures SizesFrom(t[..i + 1], m0, CountEntry(m, t[i], count))
  {
    EntryCounted(t, i, count, m0, m);
    EntrySized(t, i, count, m0, m);
  }

  lemma TimesNext(m: nat, n: nat)
    ensures Times(m, n + 1) == Times(m, n) + m
  {
  }

  /** An entry whose size differs from the tally's is one that does not fit. */
  lemma Misfit(t: seq<Entry>, i: nat, count: nat, m0: map<Hash, BlobRef>, m: map<Hash, BlobRef>)
    requires i < |t| && t[i].blob in m && m[t[i].blob].size != t[i].size
    ensures TreeAdded(t[..i], count, m0, m) && SizesFrom(t[..i], m0, m) ==> !FitsTally(t, m0)
  {
    assert t[i] in t;
    if SizesFrom(t[..i], m0, m) && t[i].blob !in m0 {
      var e :| e in t[..i] && e.blob == t[i].blob && e.size == m[e.blob].size;
      assert e in t;
    }
  }

  lemma AllFit(t: seq<Entry>, count: nat, m0: map<Hash, BlobRef>, m: map<Hash, BlobRef>)
    requires TreeAdded(t, count, m0, m)
    ensures FitsTally(t, m0)
  {
    forall i, j | 0 <= i < |t| && 0 <= j < |t| && t[i].blob == t[j].blob ensures t[i].size == t[j].size {
      assert t[i] in t && t[j] in t;
    }
  }

  /** One tree of `reachableObjectSet`, refused exactly when some size disagrees. */
  method TallyTree(t: seq<Entry>, count: nat, m0: map<Hash, BlobRef>) returns (r: Option<map<Hash, BlobRef>>)
    requires count > 0 && PositiveCounts(m0)
    ensures r.Some? <==> FitsTally(t, m0)
    ensures r.Some? ==> TreeAdded(t, count, m0, r.value)
  {
    var m := m0;
    NoneAdded(m, count);
    assert t[..0] == [];
    for i := 0 to |t|
      invariant TreeAdded(t[..i], count, m0, m) && SizesFrom(t[..i], m0, m)
    {
      if t[i].blob in m && m[t[i].blob].size != t[i].size {
        Misfit(t, i, count, m0, m);
        return None;
      }
      AddEntry(t, i, count, m0, m);
      m := CountEntry(m, t[i], count);
    }
    assert t[..|t|] == t;
    AllFit(t, count, m0, m);
    return Some(m);
  }

  lemma TallyGrows(c: Codec, vs: map<VersionId, Row>, done: set<Hash>, h: Hash, m0: map<Hash, BlobRef>, m: map<Hash, BlobRef>)
    requires h !in done && Tallied(c, vs, done, m0) && TreeAdded(c.treeOf(h), |VersionsOfTree(vs, h)|, m0, m)
    ensures Tallied(c, vs, done + {h}, m)
  {
    forall b ensures CountOf(m, b) == Weighted(c, vs, done + {h}, b) {
      Sums.Add(done, Weight(c, vs, b), h);
    }
    forall g, e | g in done + {h} && e in c.treeOf(g) ensures e.blob in m && m[e.blob].size == e.size {
      if g != h {
        assert e.blob in m0;
      }
    }
  }

  lemma TreeHasVersions(vs: map<VersionId, Row>, h: Hash)
    requires h in TreesOf(vs)
    ensures |VersionsOfTree(vs, h)| > 0
  {
    var id :| id in vs && vs[id].tree == h;
    assert id in VersionsOfTree(vs, h);
  }

  lemma NothingTallied(c: Codec, vs: map<VersionId, Row>)
    ensures Tallied(c, vs, {}, map[])
  {
  }

  ghost predicate TreesStored(s: DurableStore, trees: set<Hash>)
    reads s
  {
    forall h :: h in trees ==> Tree(h) in s.objects
  }

  /** A tallied blob is named, with its size, by a counted tree. */
  lemma TallyHasSource(c: Codec, vs: map<VersionId, Row>, done: set<Hash>, m: map<Hash, BlobRef>, b: Hash) returns (g: Hash, d: Entry)
    requires Tallied(c, vs, done, m) && b in m
    ensures g in done && d in c.treeOf(g) && d.blob == b
  {
    var w := Weight(c, vs, b);
    assert CountOf(m, b) > 0 && Sums.Sum(done, w) > 0;
    if forall x :: x in done ==> w(x) == 0 {
      Sums.Zero(done, w);
    }
    g :| g in done && w(g) > 0;
    PositiveFactor(|VersionsOfTree(vs, g)|, Occ(c.treeOf(g), b));
    OccPositive(c.treeOf(g), b);
    d :| d in c.treeOf(g) && d.blob == b;
  }

  lemma PositiveFactor(m: nat, n: nat)
    requires Times(m, n) > 0
    ensures n > 0
  {
  }

  lemma AgreeingTreesFit(c: Codec, vs: map<VersionId, Row>, done: set<Hash>, h: Hash, m: map<Hash, BlobRef>)
    requires TreesAgree(c, TreesOf(vs)) && done <= TreesOf(vs) && h in TreesOf(vs) && Tallied(c, vs, done, m)
    ensures FitsTally(c.treeOf(h), m)
  {
    var t := c.treeOf(h);
    forall i, j | 0 <= i < |t| && 0 <= j < |t| && t[i].blob == t[j].blob ensures t[i].size == t[j].size {
      assert t[i] in t && t[j] in t;
    }
    forall e | e in t && e.blob in m ensures m[e.blob].size == e.size {
      var g, d := TallyHasSource(c, vs, done, m, e.blob);
    }
  }

  /** Every tree is readable, and all trees agree on sizes. */
  ghost predicate Sound(s: DurableStore)
    reads s
  {
    TreesStored(s, TreesOf(s.versions)) && TreesAgree(s.codec, TreesOf(s.versions))
  }

  /** One page of `reachableObjectSet`. */
  method TallyPage(s: DurableStore, page: seq<Hash>, ghost start: set<Hash>, m0: map<Hash, BlobRef>)
    returns (r: Option<map<Hash, BlobRef>>)
    requires Sorted(Lex.Less, page) && forall h :: h in page ==> h !in start && h in TreesOf(s.versions)
    requires Tallied(s.codec, s.versions, start, m0) && TreesStored(s, start) && start <= TreesOf(s.versions)
    ensures Sound(s) ==> r.Some?
    ensures r.Some? ==> Tallied(s.codec, s.versions, Seen(start, page, |page|), r.value)
    ensures r.Some? ==> TreesStored(s, Seen(start, page, |page|))
  {
    var m := m0;
    assert Seen(start, page, 0) == start;
    for i := 0 to |page|
      invariant Tallied(s.codec, s.versions, Seen(start, page, i), m) && TreesStored(s, Seen(start, page, i))
      invariant Seen(start, page, i) <= TreesOf(s.versions)
    {
      var h := page[i];
      SeeNext(start, page, i);
      if Sound(s) {
        AgreeingTreesFit(s.codec, s.versions, Seen(start, page, i), h, m);
      }
      if Tree(h) !in s.objects {
        return None;
      }
      TreeHasVersions(s.versions, h);
      var next := TallyTree(s.codec.treeOf(h), |VersionsOfTree(s.versions, h)|, m);
      if next.None? {
        return None;
      }
      TallyGrows(s.codec, s.versions, Seen(start, page, i), h, m, next.value);
      m := next.value;
    }
    return Some(m);
  }

  /** `reachableObjectSet`: all trees of the index, in pages. It succeeds exactly when every tree is stored
      and the trees agree on sizes. */
  method ReachableObjectSet(s: DurableStore) returns (r: Option<map<Hash, BlobRef>>)
    ensures r.Some? <==> Sound(s)
    ensures r.Some? ==> Tallied(s.codec, s.versions, TreesOf(s.versions), r.value)
    ensures r.Some? ==> TreesStored(s, TreesOf(s.versions))
  {
    var trees := TreesOf(s.versions);
    var m: map<Hash, BlobRef> := map[];
    var after: Option<Hash> := None;
    assert trees - HashesPast(trees, after) == {};
    NothingTallied(s.codec, s.versions);
    while true
      invariant Tallied(s.codec, s.versions, trees - HashesPast(trees, after), m)
      invariant TreesStored(s, trees - HashesPast(trees, after))
      decreases HashesPast(trees, after)
    {
      HashOrder();
      var page := Page(trees, Lex.Less, after, REACHABLE_PAGE);
      PageSeen(trees, after, page);
      r := TallyPage(s, page, trees - HashesPast(trees, after), m);
      if r.None? || |page| < REACHABLE_PAGE {
        if r.Some? {
          TalliedAgree(s.codec, s.versions, r.value);
        }
        return;
      }
      m, after := r.value, Some(page[|page| - 1]);
    }
  }

  lemma TalliedAgree(c: Codec, vs: map<VersionId, Row>, m: map<Hash, BlobRef>)
    requires Tallied(c, vs, TreesOf(vs), m)
    ensures TreesAgree(c, TreesOf(vs))
  {
  }

  lemma TalliedIsExact(c: Codec, vs: map<VersionId, Row>, m: map<Hash, BlobRef>, objects: set<Object>)
    requires Tallied(c, vs, TreesOf(vs), m)
    ensures Exact(c, Store(vs, m, objects))
  {
    forall b ensures RefTotal(c, vs, b) == CountOf(m, b) {
      AllTreesCounted(c, vs, b);
    }
  }

  /** `repairBlobRefsLocked`: replaced counts, then a sweep of everything unreachable. Without faults it
      succeeds exactly when every tree is stored and the trees agree on sizes. */
  method RepairBlobRefs(s: DurableStore) returns (rebuilt: bool, failed: bool)
    modifies s`refs, s`objects
    ensures !rebuilt ==> s.State() == old(s.State()) && failed
    ensures rebuilt ==> old(Sound(s))
    ensures s.reliable ==> (rebuilt <==> old(Sound(s))) && (rebuilt ==> !failed)
    ensures rebuilt ==> Tallied(s.codec, s.versions, TreesOf(s.versions), s.refs) && Exact(s.codec, s.State())
    ensures rebuilt ==> TreesStored(s, TreesOf(s.versions))
    ensures s.objects <= old(s.objects)
    ensures forall o :: o in old(s.objects) && o !in s.objects ==> o !in Protocol.Reachable(s.codec, s.State())
    ensures !failed ==> forall o :: o in s.objects ==> o in Protocol.Reachable(s.codec, s.State())
  {
    var r := ReachableObjectSet(s);
    ghost var sound := Sound(s);
    var fault := s.Fault();
    if r.None? || fault {
      return false, true;
    }
    s.refs := r.value;
    var marked := (set b | b in s.refs :: Blob(b)) + set h | h in TreesOf(s.versions) :: Tree(h);
    TalliedIsExact(s.codec, s.versions, s.refs, s.objects);
    assert marked == Protocol.Reachable(s.codec, s.State()) by {
      MarkedIsReachable(s.codec, s.State(), marked);
    }
    rebuilt := true;
    failed := s.DeleteObjects(s.objects - marked);
  }

  lemma MarkedIsReachable(c: Codec, s: Store, marked: set<Object>)
    requires Tallied(c, s.versions, TreesOf(s.versions), s.refs) && Exact(c, s)
    requires marked == (set b | b in s.refs :: Blob(b)) + set h | h in TreesOf(s.versions) :: Tree(h)
    ensures marked == Protocol.Reachable(c, s)
  {
    forall o ensures o in marked <==> o in Protocol.Reachable(c, s) {
      ExactlyNamed(c, s, o);
      assert o in marked <==> Referenced(s, o);
      assert o in Protocol.Reachable(c, s) <==> Named(c, s, o);
    }
  }

  lemma TallyIsUnique(c: Codec, vs: map<VersionId, Row>, m: map<Hash, BlobRef>, n: map<Hash, BlobRef>)
    requires Tallied(c, vs, TreesOf(vs), m) && Tallied(c, vs, TreesOf(vs), n)
    ensures m == n
  {
    forall b ensures (b in m <==> b in n) && (b in m ==> m[b] == n[b]) {
      assert CountOf(m, b) == CountOf(n, b);
      if b in m {
        var g, d := TallyHasSource(c, vs, TreesOf(vs), m, b);
      }
    }
  }
}
