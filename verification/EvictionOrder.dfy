/** Evicting by ingest order, as values: what is evictable, in which order it goes, and where the
    paged candidate loop stops although something evictable is left. */
module EvictionOrder {
  import opened ObjectModel
  import opened Paging
  import opened Options
  import Lex

  const PAGE_SIZE: nat := 1024

  datatype Ingested = Ingested(ingest: nat, id: VersionId)

  /** `VersionsByIngest`: oldest ingest first. */
  predicate Earlier(a: Ingested, b: Ingested) {
    || a.ingest < b.ingest
    || (a.ingest == b.ingest && Lex.Less(a.id.key, b.id.key))
    || (a.ingest == b.ingest && a.id.key == b.id.key && Lex.Less(a.id.version, b.id.version))
  }

  lemma EarlierIsTotal()
    ensures StrictTotal(Earlier)
  {
    Lex.StrictOrder();
  }

  datatype Candidate = Candidate(id: VersionId, tree: Hash)

  ghost predicate Evictable(c: Codec, vs: map<VersionId, Row>, retained: set<VersionId>, incoming: Hash, id: VersionId) {
    id in vs && id !in retained && !SharesWith(c, vs[id].tree, incoming)
  }

  ghost predicate EvictableBatch(c: Codec, vs: map<VersionId, Row>, retained: set<VersionId>, incoming: Hash, batch: seq<Candidate>) {
    forall x :: x in batch ==> Evictable(c, vs, retained, incoming, x.id) && x.tree == vs[x.id].tree
  }

  function RowAt(vs: map<VersionId, Row>, id: VersionId): Ingested
    requires id in vs
  {
    Ingested(vs[id].ingest, id)
  }

  /** The batch is what is evictable between two cursors: all of it, and in ingest order. */
  ghost predicate Gathered(c: Codec, vs: map<VersionId, Row>, retained: set<VersionId>, incoming: Hash,
                           after: Option<Ingested>, cursor: Option<Ingested>, batch: seq<Candidate>) {
    && EvictableBatch(c, vs, retained, incoming, batch)
    && (forall i, j :: 0 <= i < j < |batch| ==> batch[i].id in vs && batch[j].id in vs && Earlier(RowAt(vs, batch[i].id), RowAt(vs, batch[j].id)))
    && (forall x :: x in batch ==> x.id in vs && Past(Earlier, after, RowAt(vs, x.id)) && !Past(Earlier, cursor, RowAt(vs, x.id)))
    && forall id :: Evictable(c, vs, retained, incoming, id) && Past(Earlier, after, RowAt(vs, id)) && !Past(Earlier, cursor, RowAt(vs, id)) ==>
         Candidate(id, vs[id].tree) in batch
  }

  /** The batch, with the row if it is evictable. */
  ghost function WithRow(c: Codec, vs: map<VersionId, Row>, retained: set<VersionId>, incoming: Hash, batch: seq<Candidate>, id: VersionId): seq<Candidate> {
    if Evictable(c, vs, retained, incoming, id) then batch + [Candidate(id, vs[id].tree)] else batch
  }

  /** One more row, the only one between two cursors, joins the batch exactly when it is evictable. */
  lemma GatherOne(c: Codec, vs: map<VersionId, Row>, retained: set<VersionId>, incoming: Hash, after: Option<Ingested>,
                  prior: Option<Ingested>, id: VersionId, batch: seq<Candidate>)
    requires id in vs && Past(Earlier, after, RowAt(vs, id)) && Past(Earlier, prior, RowAt(vs, id))
    requires forall k :: k in vs && Past(Earlier, prior, RowAt(vs, k)) && !Past(Earlier, Some(RowAt(vs, id)), RowAt(vs, k)) ==> k == id
    requires Gathered(c, vs, retained, incoming, after, prior, batch)
    ensures Gathered(c, vs, retained, incoming, after, Some(RowAt(vs, id)), WithRow(c, vs, retained, incoming, batch, id))
  {
    var next, row := WithRow(c, vs, retained, incoming, batch, id), RowAt(vs, id);
    forall x | x in batch ensures x.id in vs && !Earlier(row, RowAt(vs, x.id)) && Earlier(RowAt(vs, x.id), row) {
      assert !Past(Earlier, prior, RowAt(vs, x.id));
      BehindCursor(prior, row, RowAt(vs, x.id));
    }
    forall i, j | 0 <= i < j < |next|
      ensures next[i].id in vs && next[j].id in vs && Earlier(RowAt(vs, next[i].id), RowAt(vs, next[j].id))
    {
      if j == |batch| {
        assert next[i] in batch;
      }
    }
    BehindItself(row);
  }

  lemma BehindCursor(prior: Option<Ingested>, row: Ingested, x: Ingested)
    requires Past(Earlier, prior, row) && !Past(Earlier, prior, x)
    ensures Earlier(x, row) && !Earlier(row, x)
  {
    EarlierIsTotal();
  }

  lemma BehindItself(row: Ingested)
    ensures !Earlier(row, row)
  {
    Lex.StrictOrder();
  }

  /** What the page says about its row `k`. */
  lemma RowOnPage(vs: map<VersionId, Row>, after: Option<Ingested>, start: Option<Ingested>, page: seq<Ingested>, k: nat)
    requires IsPage(RowsOf(vs), Earlier, start, PAGE_SIZE, page) && k < |page|
    requires start == after || (start.Some? && Past(Earlier, after, start.value))
    ensures page[k].id in vs && page[k] == RowAt(vs, page[k].id) && Past(Earlier, after, page[k])
    ensures var prior := if k == 0 then start else Some(page[k - 1]);
            && Past(Earlier, prior, page[k])
            && forall id :: id in vs && Past(Earlier, prior, RowAt(vs, id)) && !Past(Earlier, Some(page[k]), RowAt(vs, id)) ==> id == page[k].id
  {
    EarlierIsTotal();
    NextOnPage(RowsOf(vs), Earlier, start, PAGE_SIZE, page, k);
    assert page[k] in page;
    forall id | id in vs ensures RowAt(vs, id) in RowsOf(vs) {
    }
  }

  /** The batch after the first `n` rows of a page. */
  ghost function ScanOf(c: Codec, vs: map<VersionId, Row>, retained: set<VersionId>, incoming: Hash, page: seq<Ingested>, n: nat,
                        batch0: seq<Candidate>): seq<Candidate>
    requires n <= |page|
  {
    if n == 0 then batch0 else WithRow(c, vs, retained, incoming, ScanOf(c, vs, retained, incoming, page, n - 1, batch0), page[n - 1].id)
  }

  lemma {:induction false} ScanIsExact(c: Codec, vs: map<VersionId, Row>, retained: set<VersionId>, incoming: Hash, after: Option<Ingested>,
                                       start: Option<Ingested>, page: seq<Ingested>, n: nat, batch0: seq<Candidate>)
    requires IsPage(RowsOf(vs), Earlier, start, PAGE_SIZE, page) && n <= |page|
    requires start == after || (start.Some? && Past(Earlier, after, start.value))
    requires Gathered(c, vs, retained, incoming, after, start, batch0)
    ensures Gathered(c, vs, retained, incoming, after, if n == 0 then start else Some(page[n - 1]), ScanOf(c, vs, retained, incoming, page, n, batch0))
    decreases n
  {
    if n > 0 {
      var prior := if n == 1 then start else Some(page[n - 2]);
      ScanIsExact(c, vs, retained, incoming, after, start, page, n - 1, batch0);
      RowOnPage(vs, after, start, page, n - 1);
      GatherOne(c, vs, retained, incoming, after, prior, page[n - 1].id, ScanOf(c, vs, retained, incoming, page, n - 1, batch0));
    }
  }

  function RowsOf(vs: map<VersionId, Row>): set<Ingested> {
    set id | id in vs :: Ingested(vs[id].ingest, id)
  }

  ghost function RowsPast(vs: map<VersionId, Row>, after: Option<Ingested>): set<Ingested> {
    set r | r in RowsOf(vs) && Past(Earlier, after, r)
  }

  lemma CursorAdvances(vs: map<VersionId, Row>, after: Option<Ingested>, page: seq<Ingested>, k: nat)
    requires IsPage(RowsOf(vs), Earlier, after, PAGE_SIZE, page) && k < |page|
    ensures RowsPast(vs, Some(page[k])) < RowsPast(vs, after)
  {
    EarlierIsTotal();
    assert page[k] in page;
    assert page[k] in RowsPast(vs, after) && page[k] !in RowsPast(vs, Some(page[k]));
  }

  lemma {:induction false} RowsAreAsMany(vs: map<VersionId, Row>, ids: set<VersionId>)
    requires ids <= vs.Keys
    ensures |set id | id in ids :: Ingested(vs[id].ingest, id)| == |ids|
    decreases ids
  {
    if ids != {} {
      var k :| k in ids;
      RowsAreAsMany(vs, ids - {k});
      assert (set id | id in ids :: Ingested(vs[id].ingest, id))
          == (set id | id in ids - {k} :: Ingested(vs[id].ingest, id)) + {Ingested(vs[k].ingest, k)};
    }
  }

  ghost function EvictablePast(c: Codec, vs: map<VersionId, Row>, retained: set<VersionId>, incoming: Hash, after: Option<Ingested>): set<VersionId> {
    set id | id in vs && Evictable(c, vs, retained, incoming, id) && Past(Earlier, after, RowAt(vs, id))
  }

  ghost predicate WholePages(n: nat) {
    n % PAGE_SIZE == 0
  }

  /** The rows past the cursor end with a full page, and what is evictable among them does not fill a batch. */
  ghost predicate StallsFrom(c: Codec, vs: map<VersionId, Row>, retained: set<VersionId>, incoming: Hash, after: Option<Ingested>) {
    WholePagesPast(vs, after) && |EvictablePast(c, vs, retained, incoming, after)| < PAGE_SIZE
  }

  ghost function EvictableIds(c: Codec, vs: map<VersionId, Row>, retained: set<VersionId>, incoming: Hash): set<VersionId> {
    set id | id in vs && Evictable(c, vs, retained, incoming, id)
  }

  /** The number of versions is a multiple of the page size, and fewer than a page of them are evictable. */
  ghost predicate Stalls(c: Codec, vs: map<VersionId, Row>, retained: set<VersionId>, incoming: Hash) {
    WholePages(|vs|) && |EvictableIds(c, vs, retained, incoming)| < PAGE_SIZE
  }

  lemma StallsFromStart(c: Codec, vs: map<VersionId, Row>, retained: set<VersionId>, incoming: Hash)
    ensures StallsFrom(c, vs, retained, incoming, None) <==> Stalls(c, vs, retained, incoming)
    ensures EvictablePast(c, vs, retained, incoming, None) == EvictableIds(c, vs, retained, incoming)
  {
    RowsAreAsMany(vs, vs.Keys);
    assert RowsPast(vs, None) == set id | id in vs.Keys :: Ingested(vs[id].ingest, id);
    assert |vs| == |vs.Keys|;
    assert EvictablePast(c, vs, retained, incoming, None) == EvictableIds(c, vs, retained, incoming);
  }

  ghost function Listed(page: seq<Ingested>): set<Ingested> {
    set r | r in page
  }

  lemma ListedSize(vs: map<VersionId, Row>, cursor: Option<Ingested>, page: seq<Ingested>)
    requires IsPage(RowsOf(vs), Earlier, cursor, PAGE_SIZE, page)
    ensures |Listed(page)| == |page|
  {
    EarlierIsTotal();
    SortedHasNoDuplicates(Earlier, page);
  }

  /** A page takes as many rows off what lies past the cursor as it has; a short one takes them all. */
  ghost predicate Takes(vs: map<VersionId, Row>, cursor: Option<Ingested>, last: Ingested, n: nat) {
    && |RowsPast(vs, cursor)| == |RowsPast(vs, Some(last))| + n
    && (n < PAGE_SIZE ==> RowsPast(vs, Some(last)) == {})
  }

  lemma PageTakes(vs: map<VersionId, Row>, cursor: Option<Ingested>, page: seq<Ingested>)
    requires IsPage(RowsOf(vs), Earlier, cursor, PAGE_SIZE, page) && page != []
    ensures Takes(vs, cursor, page[|page| - 1], |page|)
  {
    var last := page[|page| - 1];
    var rest, listed := RowsPast(vs, Some(last)), Listed(page);
    ListedSize(vs, cursor, page);
    forall r ensures (r in RowsPast(vs, cursor) <==> r in rest || r in listed) && (r in listed || |page| < PAGE_SIZE ==> r !in rest) {
      TakenOrLeft(vs, cursor, page, r);
    }
    assert RowsPast(vs, cursor) == rest + listed;
  }

  /** A full page does not change whether whole pages are left, and a short one was the end of a part page. */
  ghost predicate PageLeaves(vs: map<VersionId, Row>, cursor: Option<Ingested>, last: Ingested, full: bool) {
    if full then WholePagesPast(vs, Some(last)) == WholePagesPast(vs, cursor)
    else !WholePagesPast(vs, cursor) && RowsPast(vs, Some(last)) == {}
  }

  ghost predicate WholePagesPast(vs: map<VersionId, Row>, cursor: Option<Ingested>) {
    WholePages(|RowsPast(vs, cursor)|)
  }

  lemma PagesLeft(vs: map<VersionId, Row>, cursor: Option<Ingested>, last: Ingested, n: nat)
    requires Takes(vs, cursor, last, n) && 0 < n <= PAGE_SIZE
    ensures PageLeaves(vs, cursor, last, n == PAGE_SIZE)
  {
  }

  lemma TakenOrLeft(vs: map<VersionId, Row>, cursor: Option<Ingested>, page: seq<Ingested>, r: Ingested)
    requires IsPage(RowsOf(vs), Earlier, cursor, PAGE_SIZE, page) && page != []
    ensures r in RowsPast(vs, cursor) <==> r in RowsPast(vs, Some(page[|page| - 1])) || r in page
    ensures r in page || |page| < PAGE_SIZE ==> r !in RowsPast(vs, Some(page[|page| - 1]))
  {
    EarlierIsTotal();
    assert page[|page| - 1] in page;
    if r in page {
      var j :| 0 <= j < |page| && page[j] == r;
    }
  }

  lemma {:induction false} DistinctIds(batch: seq<Candidate>)
    requires forall i, j :: 0 <= i < j < |batch| ==> batch[i].id != batch[j].id
    ensures |IdsOf(batch)| == |batch|
  {
    if batch != [] {
      var n := |batch| - 1;
      DistinctIds(batch[..n]);
      IdsOfNext(batch, n);
      assert batch[..n + 1] == batch;
    } else {
      assert IdsOf(batch) == {};
    }
  }

  /** What was gathered is evictable and past the cursor it started from; with no row left, it is all of that. */
  lemma GatheredCounts(c: Codec, vs: map<VersionId, Row>, retained: set<VersionId>, incoming: Hash, after: Option<Ingested>,
                       cursor: Option<Ingested>, batch: seq<Candidate>)
    requires Gathered(c, vs, retained, incoming, after, cursor, batch)
    ensures |batch| <= |EvictablePast(c, vs, retained, incoming, after)|
    ensures RowsPast(vs, cursor) == {} ==> |batch| == |EvictablePast(c, vs, retained, incoming, after)|
  {
    var all := EvictablePast(c, vs, retained, incoming, after);
    DistinctBatch(vs, batch);
    DistinctIds(batch);
    assert IdsOf(batch) <= all;
    SmallerSet(IdsOf(batch), all);
    if RowsPast(vs, cursor) == {} {
      forall id | id in all ensures id in IdsOf(batch) {
        assert RowAt(vs, id) in RowsOf(vs);
        assert RowAt(vs, id) !in RowsPast(vs, cursor);
        assert Candidate(id, vs[id].tree) in batch;
      }
      assert IdsOf(batch) == all;
    }
  }

  /** What a turn that read a page comes to: the cursor moved on, and either the loop goes on with whole pages
      as before, or the batch is full, or the rows have ended with a part page. */
  ghost predicate Turn(vs: map<VersionId, Row>, after: Option<Ingested>, cursor0: Option<Ingested>, cursor: Option<Ingested>, size: nat, last: bool) {
    && cursor.Some? && Past(Earlier, after, cursor.value) && RowsPast(vs, cursor) < RowsPast(vs, cursor0)
    && if last then size == PAGE_SIZE || (RowsPast(vs, cursor) == {} && !WholePagesPast(vs, cursor0))
       else size < PAGE_SIZE && WholePagesPast(vs, cursor) == WholePagesPast(vs, cursor0)
  }

  lemma TurnOver(vs: map<VersionId, Row>, after: Option<Ingested>, cursor: Option<Ingested>, page: seq<Ingested>, n: nat, size: nat)
    requires 0 < n <= |page| <= PAGE_SIZE && size <= PAGE_SIZE && (n < |page| ==> size == PAGE_SIZE)
    requires MovesOn(vs, after, cursor, page[n - 1]) && PageLeaves(vs, cursor, page[|page| - 1], |page| == PAGE_SIZE)
    ensures Turn(vs, after, cursor, Some(page[n - 1]), size, |page| < PAGE_SIZE || size >= PAGE_SIZE)
  {
  }

  ghost predicate MovesOn(vs: map<VersionId, Row>, after: Option<Ingested>, cursor: Option<Ingested>, row: Ingested) {
    Past(Earlier, after, row) && RowsPast(vs, Some(row)) < RowsPast(vs, cursor)
  }

  ghost function IdsOf(batch: seq<Candidate>): set<VersionId> {
    set x | x in batch :: x.id
  }

  lemma IdsOfNext(batch: seq<Candidate>, i: nat)
    requires i < |batch| && forall k, j :: 0 <= k < j < |batch| ==> batch[k].id != batch[j].id
    ensures IdsOf(batch[..i + 1]) == IdsOf(batch[..i]) + {batch[i].id} && batch[i].id !in IdsOf(batch[..i])
  {
    assert batch[..i + 1] == batch[..i] + [batch[i]];
  }

  /** Whatever went, every evictable version of an earlier ingest went as well. */
  ghost predicate OldestFirst(c: Codec, before: map<VersionId, Row>, vs: map<VersionId, Row>, retained: set<VersionId>, incoming: Hash) {
    forall id, other ::
      (id in before && id !in vs && Evictable(c, before, retained, incoming, other) && Earlier(RowAt(before, other), RowAt(before, id)))
      ==> other !in vs
  }

  /** Up to the cursor everything evictable is gone; past it nothing is. */
  ghost predicate EvictedUpTo(c: Codec, before: map<VersionId, Row>, vs: map<VersionId, Row>, retained: set<VersionId>, incoming: Hash,
                              after: Option<Ingested>) {
    && (forall id :: id in vs ==> id in before && vs[id] == before[id])
    && (forall id :: id in before && id !in vs ==> !Past(Earlier, after, RowAt(before, id)))
    && (forall id :: id in vs && Evictable(c, before, retained, incoming, id) ==> Past(Earlier, after, RowAt(before, id)))
  }

  lemma UpToIsOldestFirst(c: Codec, before: map<VersionId, Row>, vs: map<VersionId, Row>, retained: set<VersionId>, incoming: Hash,
                          after: Option<Ingested>)
    requires EvictedUpTo(c, before, vs, retained, incoming, after)
    ensures OldestFirst(c, before, vs, retained, incoming)
  {
    EarlierIsTotal();
  }

  /** Evicting a batch from its front keeps to the order, and evicting all of it moves the cursor on. */
  lemma BatchIsOldestFirst(c: Codec, before: map<VersionId, Row>, vs: map<VersionId, Row>, next: map<VersionId, Row>, retained: set<VersionId>,
                           incoming: Hash, after: Option<Ingested>, cursor: Option<Ingested>, batch: seq<Candidate>, n: nat)
    requires EvictedUpTo(c, before, vs, retained, incoming, after) && Gathered(c, vs, retained, incoming, after, cursor, batch)
    requires cursor.Some? && Past(Earlier, after, cursor.value)
    requires n <= |batch| && next == vs - IdsOf(batch[..n])
    ensures OldestFirst(c, before, next, retained, incoming)
    ensures n == |batch| ==> EvictedUpTo(c, before, next, retained, incoming, cursor)
  {
    EarlierIsTotal();
    forall id | id in before && id !in next ensures !Past(Earlier, cursor, RowAt(before, id)) {
      if id in vs {
        var x :| x in batch[..n] && x.id == id;
        assert x in batch;
      }
    }
    forall id, other | id in before && id !in next && Evictable(c, before, retained, incoming, other) && Earlier(RowAt(before, other), RowAt(before, id))
      ensures other !in next
    {
      if other in vs {
        assert Past(Earlier, after, RowAt(before, other));
        assert Evictable(c, vs, retained, incoming, other);
        assert id in vs;
        InFront(vs, batch, n, id, other);
      }
    }
    if n == |batch| {
      assert batch[..n] == batch;
      forall id | id in vs && Evictable(c, before, retained, incoming, id) && !Past(Earlier, cursor, RowAt(before, id))
        ensures id in IdsOf(batch)
      {
        assert Evictable(c, vs, retained, incoming, id);
        assert Candidate(id, vs[id].tree) in batch;
      }
    }
  }

  lemma NotBoth(a: Ingested, b: Ingested)
    ensures !(Earlier(a, b) && Earlier(b, a))
  {
    Lex.StrictOrder();
  }

  /** In a batch in ingest order, what comes before an element of the front is in the front. */
  lemma InFront(vs: map<VersionId, Row>, batch: seq<Candidate>, n: nat, id: VersionId, other: VersionId)
    requires n <= |batch| && id in IdsOf(batch[..n]) && id in vs && other in vs && Candidate(other, vs[other].tree) in batch
    requires forall i, j :: 0 <= i < j < |batch| ==> batch[i].id in vs && batch[j].id in vs && Earlier(RowAt(vs, batch[i].id), RowAt(vs, batch[j].id))
    requires Earlier(RowAt(vs, other), RowAt(vs, id))
    ensures other in IdsOf(batch[..n])
  {
    NotBoth(RowAt(vs, id), RowAt(vs, other));
    var x :| x in batch[..n] && x.id == id;
    var m :| 0 <= m < n && batch[..n][m] == x;
    var l :| 0 <= l < |batch| && batch[l] == Candidate(other, vs[other].tree);
    if l < m {
      assert batch[..n][l] == batch[l];
    }
  }

  lemma DistinctBatch(vs: map<VersionId, Row>, batch: seq<Candidate>)
    requires forall i, j :: 0 <= i < j < |batch| ==> batch[i].id in vs && batch[j].id in vs && Earlier(RowAt(vs, batch[i].id), RowAt(vs, batch[j].id))
    ensures forall i, j :: 0 <= i < j < |batch| ==> batch[i].id != batch[j].id
  {
    EarlierIsTotal();
  }

  /** Ingest order, written out: the earlier time first, then by key and by version. */
  predicate IngestedFirst(vs: map<VersionId, Row>, id: VersionId, other: VersionId)
    requires id in vs && other in vs
  {
    var i, j := vs[id].ingest, vs[other].ingest;
    i <= j && (i == j ==> id.key == other.key || Lex.Less(id.key, other.key))
           && (i == j && id.key == other.key ==> id.version == other.version || Lex.Less(id.version, other.version))
  }

  /** Of what may be evicted, what went was ingested before what stayed. */
  ghost predicate OldestWent(c: Codec, before: map<VersionId, Row>, vs: map<VersionId, Row>, retained: set<VersionId>, incoming: Hash) {
    forall id, other :: id in before && id !in vs && other in before && other in vs && Evictable(c, before, retained, incoming, other) ==>
      IngestedFirst(before, id, other)
  }

  lemma OldestIsFirst(c: Codec, before: map<VersionId, Row>, vs: map<VersionId, Row>, retained: set<VersionId>, incoming: Hash)
    requires OldestFirst(c, before, vs, retained, incoming)
    ensures OldestWent(c, before, vs, retained, incoming)
  {
    Lex.StrictOrder();
    EarlierIsTotal();
    forall id, other | id in before && id !in vs && other in vs && Evictable(c, before, retained, incoming, other)
      ensures IngestedFirst(before, id, other)
    {
      assert !Earlier(RowAt(before, other), RowAt(before, id));
    }
  }

  lemma LessIsOther(vs: map<VersionId, Row>, before: map<VersionId, Row>)
    requires LessThan(vs, before)
    ensures vs != before
  {
  }

  lemma StillLess(vs: map<VersionId, Row>, next: map<VersionId, Row>, before: map<VersionId, Row>)
    requires LessThan(vs, before) && forall id :: id in next ==> id in vs
    ensures LessThan(next, before)
  {
    var id :| id in before && id !in vs;
    assert id !in next;
  }

  lemma NothingEvictedYet(c: Codec, vs: map<VersionId, Row>, retained: set<VersionId>, incoming: Hash)
    ensures EvictedUpTo(c, vs, vs, retained, incoming, None) && OldestFirst(c, vs, vs, retained, incoming)
  {
  }

  lemma SomeGathered(c: Codec, vs: map<VersionId, Row>, retained: set<VersionId>, incoming: Hash, after: Option<Ingested>,
                     cursor: Option<Ingested>, batch: seq<Candidate>)
    requires Gathered(c, vs, retained, incoming, after, cursor, batch) && batch != []
    ensures EvictablePast(c, vs, retained, incoming, after) != {}
  {
    assert batch[0] in batch;
    assert batch[0].id in EvictablePast(c, vs, retained, incoming, after);
  }

  lemma FewerRows(vs: map<VersionId, Row>, next: map<VersionId, Row>, cursor: Option<Ingested>)
    requires forall id :: id in next ==> id in vs && next[id] == vs[id]
    ensures RowsPast(next, cursor) <= RowsPast(vs, cursor)
  {
  }

  /** Some version is gone. */
  ghost predicate LessThan(vs: map<VersionId, Row>, before: map<VersionId, Row>) {
    exists id :: id in before && id !in vs
  }

  lemma FewerLeft(before: map<VersionId, Row>, vs: map<VersionId, Row>, next: map<VersionId, Row>, batch: seq<Candidate>, n: nat)
    requires 0 < n <= |batch| && next == vs - IdsOf(batch[..n]) && batch[0].id in vs
    requires forall id :: id in vs ==> id in before
    ensures LessThan(next, before)
  {
    assert batch[..n][0] == batch[0];
    assert batch[0].id in before && batch[0].id !in next;
  }

  // ---- What eviction leaves ----

  /** The versions among `ids` that were ingested before `id`. */
  ghost function EarlierIn(vs: map<VersionId, Row>, ids: set<VersionId>, id: VersionId): set<VersionId>
    requires ids <= vs.Keys && id in vs
  {
    set o | o in ids && Earlier(RowAt(vs, o), RowAt(vs, id))
  }

  /** The versions listed after the last whole batch of `ids`. */
  ghost function AfterWholeBatches(vs: map<VersionId, Row>, ids: set<VersionId>): set<VersionId>
    requires ids <= vs.Keys
  {
    set id | id in vs && |EarlierIn(vs, ids, id)| >= |ids| - |ids| % PAGE_SIZE
  }

  /** What the candidate loop can never reach: the evictable versions after the last whole batch, when the
      listing goes on from there for a whole number of pages. */
  ghost function Stranded(c: Codec, vs: map<VersionId, Row>, retained: set<VersionId>, incoming: Hash): set<VersionId> {
    var ids := EvictableIds(c, vs, retained, incoming);
    var rest := AfterWholeBatches(vs, ids);
    if WholePages(|rest|) then ids * rest else {}
  }

  lemma {:induction false} FirstIn(vs: map<VersionId, Row>, ids: set<VersionId>) returns (first: VersionId)
    requires ids != {} && ids <= vs.Keys
    ensures first in ids && forall id :: id in ids && id != first ==> Earlier(RowAt(vs, first), RowAt(vs, id))
    decreases ids
  {
    EarlierIsTotal();
    first :| first in ids;
    if ids != {first} {
      var other := FirstIn(vs, ids - {first});
      if Earlier(RowAt(vs, other), RowAt(vs, first)) {
        first := other;
      }
    }
  }

  /** All but `q` of the versions have at least `q` before them. */
  lemma {:induction false} HighRanks(vs: map<VersionId, Row>, ids: set<VersionId>, q: nat)
    requires ids <= vs.Keys && q <= |ids|
    ensures |set id | id in ids && |EarlierIn(vs, ids, id)| >= q| == |ids| - q
    decreases q
  {
    var high := set id | id in ids && |EarlierIn(vs, ids, id)| >= q;
    if q == 0 {
      assert high == ids;
    } else {
      var first := FirstIn(vs, ids);
      var rest := ids - {first};
      HighRanks(vs, rest, q - 1);
      forall id | id in rest ensures |EarlierIn(vs, ids, id)| == |EarlierIn(vs, rest, id)| + 1 {
        assert EarlierIn(vs, ids, id) == EarlierIn(vs, rest, id) + {first};
      }
      NothingBefore(vs, ids, first);
      assert high == set id | id in rest && |EarlierIn(vs, rest, id)| >= q - 1;
    }
  }

  lemma NothingBefore(vs: map<VersionId, Row>, ids: set<VersionId>, first: VersionId)
    requires ids <= vs.Keys && first in ids && forall id :: id in ids && id != first ==> Earlier(RowAt(vs, first), RowAt(vs, id))
    ensures EarlierIn(vs, ids, first) == {}
  {
    EarlierIsTotal();
  }

  /** Less than a batch is ever stranded: nothing, or what whole batches leave over. */
  lemma StrandedIsPartOfABatch(c: Codec, vs: map<VersionId, Row>, retained: set<VersionId>, incoming: Hash)
    ensures var ids := EvictableIds(c, vs, retained, incoming);
            |Stranded(c, vs, retained, incoming)| == if WholePages(|AfterWholeBatches(vs, ids)|) then |ids| % PAGE_SIZE else 0
  {
    var ids := EvictableIds(c, vs, retained, incoming);
    var q: nat := |ids| - |ids| % PAGE_SIZE;
    HighRanks(vs, ids, q);
    assert ids * AfterWholeBatches(vs, ids) == set id | id in ids && |EarlierIn(vs, ids, id)| >= q;
  }

  /** Nothing goes in the first round exactly when less than a batch is evictable and all of that is stranded. */
  lemma StallsIsStranded(c: Codec, vs: map<VersionId, Row>, retained: set<VersionId>, incoming: Hash)
    ensures var ids := EvictableIds(c, vs, retained, incoming);
            Stalls(c, vs, retained, incoming) && ids != {} <==> Stranded(c, vs, retained, incoming) == ids && ids != {}
  {
    var ids := EvictableIds(c, vs, retained, incoming);
    if |ids| < PAGE_SIZE {
      assert |ids| - |ids| % PAGE_SIZE == 0;
      assert AfterWholeBatches(vs, ids) == vs.Keys;
      assert ids * vs.Keys == ids;
      assert |vs| == |vs.Keys|;
    } else {
      StrandedIsPartOfABatch(c, vs, retained, incoming);
      assert |Stranded(c, vs, retained, incoming)| < PAGE_SIZE;
    }
  }

  /** The cursor stands on an evictable version, where a full batch ended, or at the start. */
  ghost predicate AtEvictable(c: Codec, vs: map<VersionId, Row>, retained: set<VersionId>, incoming: Hash, after: Option<Ingested>) {
    after.Some? ==> Evictable(c, vs, retained, incoming, after.value.id) && after.value == RowAt(vs, after.value.id)
  }

  /** Between two rounds either nothing evictable is ahead and nothing was stranded, or whole batches went. */
  ghost predicate Steady(c: Codec, before: map<VersionId, Row>, retained: set<VersionId>, incoming: Hash, after: Option<Ingested>) {
    var ahead := EvictablePast(c, before, retained, incoming, after);
    || (ahead == {} && Stranded(c, before, retained, incoming) == {})
    || (AtEvictable(c, before, retained, incoming, after) && |ahead| % PAGE_SIZE == |EvictableIds(c, before, retained, incoming)| % PAGE_SIZE)
  }

  /** Evictable versions up to a cursor and past it. */
  ghost function EvictableTo(c: Codec, vs: map<VersionId, Row>, retained: set<VersionId>, incoming: Hash, after: Option<Ingested>): set<VersionId> {
    EvictableIds(c, vs, retained, incoming) - EvictablePast(c, vs, retained, incoming, after)
  }

  lemma RankPast(c: Codec, vs: map<VersionId, Row>, retained: set<VersionId>, incoming: Hash, after: Option<Ingested>, id: VersionId)
    requires AtEvictable(c, vs, retained, incoming, after) && id in vs
    ensures var ids := EvictableIds(c, vs, retained, incoming);
            Past(Earlier, after, RowAt(vs, id)) <==> |EarlierIn(vs, ids, id)| >= |EvictableTo(c, vs, retained, incoming, after)|
  {
    EarlierIsTotal();
    var ids, behind := EvictableIds(c, vs, retained, incoming), EvictableTo(c, vs, retained, incoming, after);
    if Past(Earlier, after, RowAt(vs, id)) {
      assert behind <= EarlierIn(vs, ids, id);
      SmallerSet(behind, EarlierIn(vs, ids, id));
    } else {
      assert after.value.id in behind;
      assert EarlierIn(vs, ids, id) <= behind - {after.value.id};
      SmallerSet(EarlierIn(vs, ids, id), behind - {after.value.id});
    }
  }

  lemma AheadAndBehind(c: Codec, vs: map<VersionId, Row>, retained: set<VersionId>, incoming: Hash, after: Option<Ingested>)
    ensures |EvictableIds(c, vs, retained, incoming)|
            == |EvictablePast(c, vs, retained, incoming, after)| + |EvictableTo(c, vs, retained, incoming, after)|
  {
    var ids, ahead := EvictableIds(c, vs, retained, incoming), EvictablePast(c, vs, retained, incoming, after);
    assert ids == ahead + (ids - ahead);
  }

  /** Where whole batches went and less than one is ahead, the rows ahead are those after the last whole batch. */
  lemma TailIsAhead(c: Codec, vs: map<VersionId, Row>, retained: set<VersionId>, incoming: Hash, after: Option<Ingested>)
    requires AtEvictable(c, vs, retained, incoming, after)
    requires |EvictablePast(c, vs, retained, incoming, after)| == |EvictableIds(c, vs, retained, incoming)| % PAGE_SIZE
    ensures var ids := EvictableIds(c, vs, retained, incoming);
            && |AfterWholeBatches(vs, ids)| == |RowsPast(vs, after)|
            && ids * AfterWholeBatches(vs, ids) == EvictablePast(c, vs, retained, incoming, after)
  {
    var ids := EvictableIds(c, vs, retained, incoming);
    var rest := AfterWholeBatches(vs, ids);
    AheadAndBehind(c, vs, retained, incoming, after);
    forall id | id in vs ensures id in rest <==> Past(Earlier, after, RowAt(vs, id)) {
      RankPast(c, vs, retained, incoming, after, id);
    }
    RowsAreAsMany(vs, rest);
    var rows := set id | id in rest :: Ingested(vs[id].ingest, id);
    forall r ensures r in rows <==> r in RowsPast(vs, after) {
      if r in RowsPast(vs, after) {
        assert r.id in vs && r == RowAt(vs, r.id);
      }
    }
    assert rows == RowsPast(vs, after);
    assert ids * rest == EvictablePast(c, vs, retained, incoming, after);
  }

  /** The rows ahead of the cursor are the same before and after what is behind it was evicted. */
  lemma SameAhead(c: Codec, before: map<VersionId, Row>, vs: map<VersionId, Row>, retained: set<VersionId>, incoming: Hash, after: Option<Ingested>)
    requires EvictedUpTo(c, before, vs, retained, incoming, after)
    ensures EvictablePast(c, vs, retained, incoming, after) == EvictablePast(c, before, retained, incoming, after)
    ensures EvictablePast(c, vs, retained, incoming, after) == EvictableIds(c, vs, retained, incoming)
    ensures RowsPast(vs, after) == RowsPast(before, after)
  {
    forall r ensures r in RowsPast(vs, after) <==> r in RowsPast(before, after) {
      if r in RowsPast(before, after) {
        assert r.id in before && r == RowAt(before, r.id);
        assert r.id in vs && r == RowAt(vs, r.id);
      }
      if r in RowsPast(vs, after) {
        assert r.id in vs && r == RowAt(vs, r.id);
        assert r == RowAt(before, r.id);
      }
    }
    forall id ensures id in EvictablePast(c, vs, retained, incoming, after) <==> id in EvictablePast(c, before, retained, incoming, after) {
    }
    assert EvictablePast(c, vs, retained, incoming, after) == EvictableIds(c, vs, retained, incoming);
  }

  /** When the rounds end for want of candidates, exactly what was stranded from the start is left to evict. */
  lemma LeftIsStranded(c: Codec, before: map<VersionId, Row>, vs: map<VersionId, Row>, retained: set<VersionId>, incoming: Hash, after: Option<Ingested>)
    requires EvictedUpTo(c, before, vs, retained, incoming, after) && Steady(c, before, retained, incoming, after)
    requires StallsFrom(c, vs, retained, incoming, after) || EvictablePast(c, vs, retained, incoming, after) == {}
    ensures EvictableIds(c, vs, retained, incoming) == Stranded(c, before, retained, incoming)
  {
    SameAhead(c, before, vs, retained, incoming, after);
    if !(EvictablePast(c, before, retained, incoming, after) == {} && Stranded(c, before, retained, incoming) == {}) {
      TailIsAhead(c, before, retained, incoming, after);
    }
  }

  /** A batch is what is evictable between the two cursors. */
  lemma BatchIsBetween(c: Codec, vs: map<VersionId, Row>, retained: set<VersionId>, incoming: Hash, after: Option<Ingested>,
                       cursor: Option<Ingested>, batch: seq<Candidate>)
    requires Gathered(c, vs, retained, incoming, after, cursor, batch) && cursor.Some? && Past(Earlier, after, cursor.value)
    ensures |EvictablePast(c, vs, retained, incoming, after)| == |batch| + |EvictablePast(c, vs, retained, incoming, cursor)|
  {
    EarlierIsTotal();
    var ahead, next := EvictablePast(c, vs, retained, incoming, after), EvictablePast(c, vs, retained, incoming, cursor);
    DistinctBatch(vs, batch);
    DistinctIds(batch);
    forall id ensures id in ahead <==> id in IdsOf(batch) || id in next {
      if id in ahead && id !in next {
        assert Candidate(id, vs[id].tree) in batch;
      }
    }
    assert ahead == IdsOf(batch) + next;
    assert IdsOf(batch) !! next;
  }

  /** A full batch ends where it got full; any other ends with the listing. */
  ghost predicate EndsWell(vs: map<VersionId, Row>, cursor: Option<Ingested>, batch: seq<Candidate>) {
    if |batch| == PAGE_SIZE then batch[|batch| - 1].id in vs && cursor == Some(RowAt(vs, batch[|batch| - 1].id))
    else RowsPast(vs, cursor) == {}
  }

  lemma FullEndsWell(vs: map<VersionId, Row>, after: Option<Ingested>, start: Option<Ingested>, page: seq<Ingested>, k: nat, batch: seq<Candidate>)
    requires IsPage(RowsOf(vs), Earlier, start, PAGE_SIZE, page) && k < |page|
    requires start == after || (start.Some? && Past(Earlier, after, start.value))
    ensures |batch| == PAGE_SIZE && batch[|batch| - 1].id == page[k].id ==> EndsWell(vs, Some(page[k]), batch)
  {
    RowOnPage(vs, after, start, page, k);
  }

  lemma SteadyRound(c: Codec, before: map<VersionId, Row>, vs: map<VersionId, Row>, retained: set<VersionId>, incoming: Hash,
                    after: Option<Ingested>, cursor: Option<Ingested>, batch: seq<Candidate>)
    requires EvictedUpTo(c, before, vs, retained, incoming, after) && Steady(c, before, retained, incoming, after)
    requires Gathered(c, vs, retained, incoming, after, cursor, batch) && cursor.Some? && Past(Earlier, after, cursor.value)
    requires 0 < |batch| <= PAGE_SIZE && EndsWell(vs, cursor, batch) && !StallsFrom(c, vs, retained, incoming, after)
    ensures Steady(c, before, retained, incoming, cursor)
  {
    SameAhead(c, before, vs, retained, incoming, after);
    BatchIsBetween(c, vs, retained, incoming, after, cursor, batch);
    PastBoth(c, before, vs, retained, incoming, after, cursor);
    if |batch| == PAGE_SIZE {
      assert batch[|batch| - 1] in batch;
    } else {
      GatheredCounts(c, vs, retained, incoming, after, cursor, batch);
      TailIsAhead(c, before, retained, incoming, after);
    }
  }

  lemma SteadyAtFirst(c: Codec, vs: map<VersionId, Row>, retained: set<VersionId>, incoming: Hash)
    ensures Steady(c, vs, retained, incoming, None)
  {
    StallsFromStart(c, vs, retained, incoming);
  }

  lemma PastBoth(c: Codec, before: map<VersionId, Row>, vs: map<VersionId, Row>, retained: set<VersionId>, incoming: Hash,
                 after: Option<Ingested>, cursor: Option<Ingested>)
    requires EvictedUpTo(c, before, vs, retained, incoming, after) && cursor.Some? && Past(Earlier, after, cursor.value)
    ensures EvictablePast(c, vs, retained, incoming, cursor) == EvictablePast(c, before, retained, incoming, cursor)
  {
    EarlierIsTotal();
    forall id ensures id in EvictablePast(c, vs, retained, incoming, cursor) <==> id in EvictablePast(c, before, retained, incoming, cursor) {
    }
  }
}
