/** The integrity scan: trees and their blobs, then the reference counts. */
module IntegrityScan {
  import opened ObjectModel
  import opened DurableStores
  import opened Integrity
  import opened Maintenance
  import opened Options
  import opened Paging
  import Lex
  import Protocol = StoreProtocol

  datatype Issue =
    | TreeUnreadable(tree: Hash)
    | SizeMismatch(blob: Hash, tree: Hash)
    | BlobBad(blob: Hash)
    | UnexpectedRow(blob: Hash)
    | RowMismatch(blob: Hash)
    | MissingRow(blob: Hash)

  predicate AboutRows(i: Issue) {
    i.UnexpectedRow? || i.RowMismatch? || i.MissingRow?
  }

  datatype Scan = Scan(expected: map<Hash, BlobRef>, checked: set<Hash>, failed: set<Hash>, issues: set<Issue>)

  // ---- Trees and blobs ----

  /** A blob that was checked is stored at the size counted for it; one that failed was reported. */
  ghost predicate ChecksHold(s: DurableStore, scan: Scan)
    reads s
  {
    && (forall b :: b in scan.checked ==> Blob(b) in s.objects && b in scan.expected && scan.expected[b].size == s.codec.sizeOf(b))
    && (forall b :: b in scan.failed ==> BlobBad(b) in scan.issues)
  }

  /** An entry is either reported, itself or its blob, or found stored at its size. */
  ghost predicate Accounted(s: DurableStore, scan: Scan, h: Hash, e: Entry)
    reads s
  {
    || SizeMismatch(e.blob, h) in scan.issues
    || e.blob in scan.failed
    || (Blob(e.blob) in s.objects && e.size == s.codec.sizeOf(e.blob))
  }

  /** A tree of some version has the entry. */
  ghost predicate Indexed(s: DurableStore, h: Hash, e: Entry)
    reads s
  {
    h in TreesOf(s.versions) && e in s.codec.treeOf(h)
  }

  ghost predicate RecordedSize(s: DurableStore, b: Hash, size: nat)
    reads s
  {
    exists h, e :: Indexed(s, h, e) && e.blob == b && e.size == size
  }

  ghost predicate BadEntry(s: DurableStore, h: Hash, e: Entry)
    reads s
  {
    Indexed(s, h, e) && (Blob(e.blob) !in s.objects || e.size != s.codec.sizeOf(e.blob))
  }

  /** What a report about a tree or a blob means. A blob may also be reported because reading it failed. */
  ghost predicate Founded(s: DurableStore, x: Issue)
    reads s
  {
    match x
    case TreeUnreadable(h) => h in TreesOf(s.versions) && Tree(h) !in s.objects
    case SizeMismatch(b, h) => exists e, size :: Indexed(s, h, e) && e.blob == b && RecordedSize(s, b, size) && size != e.size
    case BlobBad(b) => s.reliable ==> exists h, e :: BadEntry(s, h, e) && e.blob == b
    case _ => true
  }

  /** Everything reported is so, and every size counted so far was read from an entry. */
  ghost predicate Truthful(s: DurableStore, scan: Scan)
    reads s
  {
    && (forall b :: b in scan.expected ==> RecordedSize(s, b, scan.expected[b].size))
    && forall x :: x in scan.issues ==> Founded(s, x)
  }

  ghost predicate Grew(scan0: Scan, scan: Scan) {
    && scan0.issues <= scan.issues && scan0.failed <= scan.failed
    && forall x :: x in scan.issues - scan0.issues ==> !AboutRows(x)
  }

  /** One entry of `verifyIntegrityLocked`. When its size disagrees it is reported and not counted; each
      blob's content is checked once. */
  method ScanEntry(s: DurableStore, h: Hash, e: Entry, count: nat, scan0: Scan) returns (scan: Scan)
    requires ChecksHold(s, scan0) && Indexed(s, h, e) && Truthful(s, scan0)
    ensures ChecksHold(s, scan) && Accounted(s, scan, h, e) && Grew(scan0, scan) && Truthful(s, scan)
    ensures scan.expected == if e.blob in scan0.expected && scan0.expected[e.blob].size != e.size then scan0.expected
                             else CountEntry(scan0.expected, e, count)
    ensures s.reliable && Blob(e.blob) in s.objects && e.size == s.codec.sizeOf(e.blob)
            && (e.blob in scan0.expected ==> scan0.expected[e.blob].size == e.size)
            ==> scan.issues == scan0.issues && scan.failed == scan0.failed
  {
    if e.blob in scan0.expected && scan0.expected[e.blob].size != e.size {
      assert Founded(s, SizeMismatch(e.blob, h));
      return scan0.(issues := scan0.issues + {SizeMismatch(e.blob, h)});
    }
    scan := scan0.(expected := CountEntry(scan0.expected, e, count));
    if e.blob !in scan.checked && e.blob !in scan.failed {
      var fault := s.Fault();
      if fault || Blob(e.blob) !in s.objects || s.codec.sizeOf(e.blob) != e.size {
        assert !fault ==> BadEntry(s, h, e);
        scan := scan.(issues := scan.issues + {BlobBad(e.blob)}, failed := scan.failed + {e.blob});
      } else {
        scan := scan.(checked := scan.checked + {e.blob});
      }
    }
  }

  /** What the entries seen so far mean for the expected counts. */
  ghost predicate CountedSoFar(t: seq<Entry>, i: nat, count: nat, m0: map<Hash, BlobRef>, m: map<Hash, BlobRef>)
    requires i <= |t|
  {
    PositiveCounts(m) && (FitsTally(t, m0) ==> TreeAdded(t[..i], count, m0, m) && SizesFrom(t[..i], m0, m))
  }

  lemma CountedStart(t: seq<Entry>, count: nat, m: map<Hash, BlobRef>)
    requires PositiveCounts(m)
    ensures CountedSoFar(t, 0, count, m, m)
  {
    NoneAdded(m, count);
    assert t[..0] == [];
  }

  /** An entry that fits is counted; in a tree that fits, all do. */
  lemma CountedNext(t: seq<Entry>, i: nat, count: nat, m0: map<Hash, BlobRef>, m: map<Hash, BlobRef>)
    requires i < |t| && count > 0 && CountedSoFar(t, i, count, m0, m)
    ensures FitsTally(t, m0) && t[i].blob in m ==> m[t[i].blob].size == t[i].size
    ensures CountedSoFar(t, i + 1, count, m0, if t[i].blob in m && m[t[i].blob].size != t[i].size then m else CountEntry(m, t[i], count))
  {
    if FitsTally(t, m0) {
      if t[i].blob in m && m[t[i].blob].size != t[i].size {
        Misfit(t, i, count, m0, m);
      }
      AddEntry(t, i, count, m0, m);
    }
  }

  /** One tree of `verifyIntegrityLocked`. */
  method ScanTree(s: DurableStore, h: Hash, count: nat, scan0: Scan) returns (scan: Scan)
    requires count > 0 && PositiveCounts(scan0.expected) && ChecksHold(s, scan0) && h in TreesOf(s.versions) && Truthful(s, scan0)
    ensures PositiveCounts(scan.expected) && ChecksHold(s, scan) && Grew(scan0, scan) && Truthful(s, scan)
    ensures FitsTally(s.codec.treeOf(h), scan0.expected) ==> TreeAdded(s.codec.treeOf(h), count, scan0.expected, scan.expected)
    ensures forall e :: e in s.codec.treeOf(h) ==> Accounted(s, scan, h, e)
    ensures s.reliable && TreeStored(s.codec, s.objects, h) && FitsTally(s.codec.treeOf(h), scan0.expected)
            ==> scan.issues == scan0.issues && scan.failed == scan0.failed
  {
    var t := s.codec.treeOf(h);
    scan := scan0;
    CountedStart(t, count, scan0.expected);
    for i := 0 to |t|
      invariant ChecksHold(s, scan) && Grew(scan0, scan) && Truthful(s, scan) && CountedSoFar(t, i, count, scan0.expected, scan.expected)
      invariant forall j :: 0 <= j < i ==> Accounted(s, scan, h, t[j])
      invariant s.reliable && TreeStored(s.codec, s.objects, h) && FitsTally(t, scan0.expected)
                ==> scan.issues == scan0.issues && scan.failed == scan0.failed
    {
      assert t[i] in t;
      CountedNext(t, i, count, scan0.expected, scan.expected);
      scan := ScanEntry(s, h, t[i], count, scan);
    }
    assert t[..|t|] == t;
  }

  /** The row issues found once the rows in `done` were compared. */
  ghost predicate RowsScanned(refs: map<Hash, BlobRef>, expected: map<Hash, BlobRef>, failed: set<Hash>, done: set<Hash>,
                              remaining: map<Hash, BlobRef>, issues: set<Issue>) {
    && done <= refs.Keys
    && remaining == expected - done
    && issues == UnexpectedRows(refs, expected, failed, done) + MismatchedRows(refs, expected, failed, done)
  }

  ghost function UnexpectedRows(refs: map<Hash, BlobRef>, expected: map<Hash, BlobRef>, failed: set<Hash>, done: set<Hash>): set<Issue> {
    set b | b in done && b !in expected && b !in failed :: UnexpectedRow(b)
  }

  ghost function MismatchedRows(refs: map<Hash, BlobRef>, expected: map<Hash, BlobRef>, failed: set<Hash>, done: set<Hash>): set<Issue>
    requires done <= refs.Keys
  {
    set b | b in done && b in expected && b !in failed && refs[b] != expected[b] :: RowMismatch(b)
  }

  ghost function MissingRows(refs: map<Hash, BlobRef>, expected: map<Hash, BlobRef>, failed: set<Hash>): set<Issue> {
    set b | b in expected && b !in refs && b !in failed :: MissingRow(b)
  }

  /** Every row that differs from the expected counts, other than those of a blob that failed to read. */
  ghost function RowIssues(refs: map<Hash, BlobRef>, expected: map<Hash, BlobRef>, failed: set<Hash>): set<Issue> {
    UnexpectedRows(refs, expected, failed, refs.Keys) + MismatchedRows(refs, expected, failed, refs.Keys) + MissingRows(refs, expected, failed)
  }

  lemma RowScanned(refs: map<Hash, BlobRef>, expected: map<Hash, BlobRef>, failed: set<Hash>, done: set<Hash>,
                   remaining: map<Hash, BlobRef>, issues: set<Issue>, b: Hash)
    requires RowsScanned(refs, expected, failed, done, remaining, issues) && b in refs && b !in done
    ensures b in remaining <==> b in expected
    ensures b in expected ==> remaining[b] == expected[b]
    ensures RowsScanned(refs, expected, failed, done + {b}, remaining - {b},
              if b in failed then issues
              else if b !in expected then issues + {UnexpectedRow(b)}
              else if refs[b] != expected[b] then issues + {RowMismatch(b)} else issues)
  {
  }

  method ScanRowsPage(refs: map<Hash, BlobRef>, ghost expected: map<Hash, BlobRef>, failed: set<Hash>, page: seq<Hash>,
                      ghost start: set<Hash>, remaining0: map<Hash, BlobRef>, issues0: set<Issue>)
    returns (remaining: map<Hash, BlobRef>, issues: set<Issue>)
    requires Sorted(Lex.Less, page) && forall h :: h in page ==> h !in start && h in refs
    requires RowsScanned(refs, expected, failed, start, remaining0, issues0)
    ensures RowsScanned(refs, expected, failed, Seen(start, page, |page|), remaining, issues)
  {
    remaining, issues := remaining0, issues0;
    assert Seen(start, page, 0) == start;
    for i := 0 to |page|
      invariant RowsScanned(refs, expected, failed, Seen(start, page, i), remaining, issues)
    {
      var b := page[i];
      SeeNext(start, page, i);
      RowScanned(refs, expected, failed, Seen(start, page, i), remaining, issues, b);
      if b !in remaining {
        if b !in failed {
          issues := issues + {UnexpectedRow(b)};
        }
      } else {
        if b !in failed && refs[b] != remaining[b] {
          issues := issues + {RowMismatch(b)};
        }
      }
      remaining := remaining - {b};
    }
  }

  /** `blob_refs` against the expected counts: rows in pages, then what no row accounted for. */
  method ScanRows(refs: map<Hash, BlobRef>, expected: map<Hash, BlobRef>, failed: set<Hash>) returns (issues: set<Issue>)
    ensures issues == RowIssues(refs, expected, failed)
  {
    issues := {};
    var remaining := expected;
    var rows := refs.Keys;
    var after: Option<Hash> := None;
    var last := false;
    assert rows - HashesPast(rows, after) == {};
    while !last
      invariant RowsScanned(refs, expected, failed, if last then rows else rows - HashesPast(rows, after), remaining, issues)
      decreases !last, HashesPast(rows, after)
    {
      HashOrder();
      var page := Page(rows, Lex.Less, after, REACHABLE_PAGE);
      PageSeen(rows, after, page);
      remaining, issues := ScanRowsPage(refs, expected, failed, page, rows - HashesPast(rows, after), remaining, issues);
      if |page| < REACHABLE_PAGE {
        last := true;
      } else {
        after := Some(page[|page| - 1]);
      }
    }
    issues := issues + set b | b in remaining && b !in failed :: MissingRow(b);
  }

  /** A tree is either reported as unreadable, or all its entries are accounted for. */
  ghost predicate TreeAccounted(s: DurableStore, scan: Scan, h: Hash)
    reads s
  {
    if Tree(h) in s.objects then forall e :: e in s.codec.treeOf(h) ==> Accounted(s, scan, h, e) else TreeUnreadable(h) in scan.issues
  }

  /** Every tree has its object and every blob, at the recorded sizes. */
  ghost predicate AllStored(s: DurableStore)
    reads s
  {
    forall h :: h in TreesOf(s.versions) ==> TreeStored(s.codec, s.objects, h)
  }

  lemma StoredIsSound(s: DurableStore)
    ensures AllStored(s) ==> Sound(s)
    ensures AllStored(s) <==> NoDangling(s.codec, s.State())
  {
    if AllStored(s) {
      forall g, h, d, e | g in TreesOf(s.versions) && h in TreesOf(s.versions) && d in s.codec.treeOf(g) && e in s.codec.treeOf(h) && d.blob == e.blob
        ensures d.size == e.size
      {
        assert TreeStored(s.codec, s.objects, g) && TreeStored(s.codec, s.objects, h);
      }
    }
    if NoDangling(s.codec, s.State()) {
      forall h | h in TreesOf(s.versions) ensures TreeStored(s.codec, s.objects, h) {
        var id :| id in s.versions && s.versions[id].tree == h;
      }
    }
  }

  ghost predicate ScanInv(s: DurableStore, scan: Scan, done: set<Hash>)
    reads s
  {
    && PositiveCounts(scan.expected) && ChecksHold(s, scan) && Truthful(s, scan)
    && (forall x :: x in scan.issues ==> !AboutRows(x))
    && (Sound(s) ==> Tallied(s.codec, s.versions, done, scan.expected))
    && (forall h :: h in done ==> TreeAccounted(s, scan, h))
    && (s.reliable && AllStored(s) ==> scan.issues == {} && scan.failed == {})
  }

  lemma StaysAccounted(s: DurableStore, scan0: Scan, scan: Scan, h: Hash)
    requires TreeAccounted(s, scan0, h) && Grew(scan0, scan)
    ensures TreeAccounted(s, scan, h)
  {
  }

  /** One step of the tree loop of `verifyIntegrityLocked`. */
  method ScanOneTree(s: DurableStore, h: Hash, ghost done: set<Hash>, scan0: Scan) returns (scan: Scan)
    requires done <= TreesOf(s.versions) && h in TreesOf(s.versions) && h !in done && ScanInv(s, scan0, done)
    ensures ScanInv(s, scan, done + {h})
  {
    StoredIsSound(s);
    if Tree(h) !in s.objects {
      scan := scan0.(issues := scan0.issues + {TreeUnreadable(h)});
    } else {
      TreeHasVersions(s.versions, h);
      if Sound(s) {
        AgreeingTreesFit(s.codec, s.versions, done, h, scan0.expected);
      }
      scan := ScanTree(s, h, |VersionsOfTree(s.versions, h)|, scan0);
      if Sound(s) {
        TallyGrows(s.codec, s.versions, done, h, scan0.expected, scan.expected);
      }
    }
    forall g | g in done ensures TreeAccounted(s, scan, g) {
      StaysAccounted(s, scan0, scan, g);
    }
  }

  method ScanTreesPage(s: DurableStore, page: seq<Hash>, ghost start: set<Hash>, scan0: Scan) returns (scan: Scan)
    requires Sorted(Lex.Less, page) && forall h :: h in page ==> h !in start && h in TreesOf(s.versions)
    requires start <= TreesOf(s.versions) && ScanInv(s, scan0, start)
    ensures ScanInv(s, scan, Seen(start, page, |page|))
  {
    scan := scan0;
    assert Seen(start, page, 0) == start;
    for i := 0 to |page|
      invariant Seen(start, page, i) <= TreesOf(s.versions) && ScanInv(s, scan, Seen(start, page, i))
    {
      SeeNext(start, page, i);
      scan := ScanOneTree(s, page[i], Seen(start, page, i), scan);
    }
  }

  /** The tree loop of `verifyIntegrityLocked`. */
  method ScanTrees(s: DurableStore) returns (scan: Scan)
    ensures ScanInv(s, scan, TreesOf(s.versions))
  {
    var trees := TreesOf(s.versions);
    scan := Scan(map[], {}, {}, {});
    var after: Option<Hash> := None;
    assert trees - HashesPast(trees, after) == {};
    NothingTallied(s.codec, s.versions);
    while true
      invariant ScanInv(s, scan, trees - HashesPast(trees, after))
      decreases HashesPast(trees, after)
    {
      HashOrder();
      var page := Page(trees, Lex.Less, after, REACHABLE_PAGE);
      PageSeen(trees, after, page);
      scan := ScanTreesPage(s, page, trees - HashesPast(trees, after), scan);
      if |page| < REACHABLE_PAGE {
        return;
      }
      after := Some(page[|page| - 1]);
    }
  }

  /** Nothing dangles, and the rows are exactly the true counts and sizes, without leftover zero rows. */
  ghost predicate Clean(s: DurableStore)
    reads s
  {
    Healthy(s.codec, s.State()) && Exact(s.codec, s.State()) && PositiveCounts(s.refs)
  }

  /** True counts and sizes without zero rows are the tally of the trees. */
  lemma CleanIsTallied(s: DurableStore, expected: map<Hash, BlobRef>)
    requires NoDangling(s.codec, s.State()) && Tallied(s.codec, s.versions, TreesOf(s.versions), expected)
    ensures Clean(s) <==> s.refs == expected
  {
    TalliedIsExact(s.codec, s.versions, expected, s.objects);
    StoredIsSound(s);
    forall b ensures CountOf(expected, b) == RefTotal(s.codec, s.versions, b) {
      assert Exact(s.codec, Store(s.versions, expected, s.objects));
    }
    forall b | b in expected ensures expected[b].size == s.codec.sizeOf(b) {
      var g, d := TallyHasSource(s.codec, s.versions, TreesOf(s.versions), expected, b);
      assert TreeStored(s.codec, s.objects, g);
    }
    if Clean(s) {
      forall b ensures (b in s.refs <==> b in expected) && (b in s.refs ==> s.refs[b] == expected[b]) {
        assert CountOf(s.refs, b) == CountOf(expected, b);
      }
    }
  }

  /** A scan that reports nothing about trees and blobs has found every version's objects. */
  lemma NothingReported(s: DurableStore, scan: Scan)
    requires ScanInv(s, scan, TreesOf(s.versions)) && scan.issues == {}
    ensures NoDangling(s.codec, s.State()) && Sound(s) && scan.failed == {}
  {
    assert forall b :: b in scan.failed ==> BlobBad(b) in scan.issues;
    forall h | h in TreesOf(s.versions) ensures TreeStored(s.codec, s.objects, h) {
      assert TreeAccounted(s, scan, h);
      forall e | e in s.codec.treeOf(h) ensures Blob(e.blob) in s.objects && e.size == s.codec.sizeOf(e.blob) {
        assert Accounted(s, scan, h, e);
      }
    }
    StoredIsSound(s);
  }

  lemma NoRowIssues(refs: map<Hash, BlobRef>, expected: map<Hash, BlobRef>)
    ensures RowIssues(refs, expected, {}) == {} <==> refs == expected
  {
    if RowIssues(refs, expected, {}) == {} {
      forall b ensures (b in refs <==> b in expected) && (b in refs ==> refs[b] == expected[b]) {
        assert UnexpectedRow(b) !in RowIssues(refs, expected, {});
        assert RowMismatch(b) !in RowIssues(refs, expected, {});
        assert MissingRow(b) !in RowIssues(refs, expected, {});
      }
    }
  }

  /** The row issues of a blob: a row that no tree accounts for, a missing one, or a wrong one. */
  ghost predicate RowReported(c: Codec, s: Store, issues: set<Issue>, b: Hash) {
    var n := RefTotal(c, s.versions, b);
    && (UnexpectedRow(b) in issues <==> b in s.refs && n == 0)
    && (MissingRow(b) in issues <==> b !in s.refs && n > 0)
    && (RowMismatch(b) in issues <==> b in s.refs && n > 0 && s.refs[b] != BlobRef(n, c.sizeOf(b)))
  }

  lemma TalliedRow(s: DurableStore, expected: map<Hash, BlobRef>, b: Hash)
    requires NoDangling(s.codec, s.State()) && Tallied(s.codec, s.versions, TreesOf(s.versions), expected)
    ensures b in expected <==> RefTotal(s.codec, s.versions, b) > 0
    ensures b in expected ==> expected[b] == BlobRef(RefTotal(s.codec, s.versions, b), s.codec.sizeOf(b))
  {
    TalliedIsExact(s.codec, s.versions, expected, s.objects);
    StoredIsSound(s);
    assert Exact(s.codec, Store(s.versions, expected, s.objects));
    assert CountOf(expected, b) == RefTotal(s.codec, s.versions, b);
    if b in expected {
      var g, d := TallyHasSource(s.codec, s.versions, TreesOf(s.versions), expected, b);
      assert TreeStored(s.codec, s.objects, g);
    }
  }

  /** The report of a scan: what it found in trees and blobs, and the rows. */
  ghost predicate Report(s: DurableStore, scan: Scan, issues: set<Issue>)
    reads s
  {
    ScanInv(s, scan, TreesOf(s.versions)) && issues == scan.issues + RowIssues(s.refs, scan.expected, scan.failed)
  }

  lemma ReportOfRows(s: DurableStore, scan: Scan, issues: set<Issue>)
    requires Report(s, scan, issues)
    ensures (set x | x in issues && AboutRows(x)) == RowIssues(s.refs, scan.expected, scan.failed)
  {
  }

  lemma ReportIsFounded(s: DurableStore, scan: Scan, issues: set<Issue>)
    requires Report(s, scan, issues)
    ensures forall x :: x in issues ==> Founded(s, x)
  {
  }

  lemma ReportOfTrees(s: DurableStore, scan: Scan, issues: set<Issue>)
    requires Report(s, scan, issues)
    ensures forall h :: h in TreesOf(s.versions) && Tree(h) !in s.objects ==> TreeUnreadable(h) in issues
    ensures forall h, e :: BadEntry(s, h, e) && Tree(h) in s.objects ==> BlobBad(e.blob) in issues || SizeMismatch(e.blob, h) in issues
  {
    forall h | h in TreesOf(s.versions) && Tree(h) !in s.objects ensures TreeUnreadable(h) in issues {
      assert TreeAccounted(s, scan, h);
    }
    forall h, e | BadEntry(s, h, e) && Tree(h) in s.objects ensures BlobBad(e.blob) in issues || SizeMismatch(e.blob, h) in issues {
      assert TreeAccounted(s, scan, h);
      assert Accounted(s, scan, h, e);
    }
  }

  lemma EmptyReport(s: DurableStore, scan: Scan, issues: set<Issue>)
    requires Report(s, scan, issues)
    ensures issues == {} ==> Clean(s)
    ensures s.reliable && Clean(s) ==> issues == {}
  {
    StoredIsSound(s);
    if issues == {} {
      NothingReported(s, scan);
      NoRowIssues(s.refs, scan.expected);
      CleanIsTallied(s, scan.expected);
    } else if s.reliable && Clean(s) {
      NoRowIssues(s.refs, scan.expected);
      CleanIsTallied(s, scan.expected);
    }
  }

  lemma ReportOfRow(s: DurableStore, scan: Scan, issues: set<Issue>, b: Hash)
    requires Report(s, scan, issues) && scan.failed == {} && NoDangling(s.codec, s.State())
    requires Tallied(s.codec, s.versions, TreesOf(s.versions), scan.expected)
    ensures RowReported(s.codec, s.State(), issues, b)
  {
    TalliedRow(s, scan.expected, b);
    ReportOfRows(s, scan, issues);
    var rows := RowIssues(s.refs, scan.expected, {});
    assert forall x :: AboutRows(x) ==> (x in issues <==> x in rows);
  }

  lemma ReportWhenStored(s: DurableStore, scan: Scan, issues: set<Issue>)
    requires Report(s, scan, issues) && s.reliable && NoDangling(s.codec, s.State())
    ensures forall x :: x in issues ==> AboutRows(x)
    ensures forall b :: RowReported(s.codec, s.State(), issues, b)
  {
    StoredIsSound(s);
    forall b ensures RowReported(s.codec, s.State(), issues, b) {
      ReportOfRow(s, scan, issues, b);
    }
  }

  /** `verifyIntegrityLocked`: trees, then rows. Everything reported is so, and every tree, entry or row that
      is not as it should be is reported. When every tree is readable and the trees agree on sizes, the row
      issues are exactly the rows that differ from the true counts. An empty report means a clean store,
      and without faults a clean store gets an empty report. */
  method VerifyIntegrity(s: DurableStore) returns (issues: set<Issue>, failed: set<Hash>, ghost expected: map<Hash, BlobRef>)
    ensures Sound(s) ==> Tallied(s.codec, s.versions, TreesOf(s.versions), expected)
    ensures (set x | x in issues && AboutRows(x)) == RowIssues(s.refs, expected, failed)
    ensures forall h :: h in TreesOf(s.versions) && Tree(h) !in s.objects ==> TreeUnreadable(h) in issues
    ensures forall h, e :: BadEntry(s, h, e) && Tree(h) in s.objects ==> BlobBad(e.blob) in issues || SizeMismatch(e.blob, h) in issues
    ensures forall x :: x in issues ==> Founded(s, x)
    ensures issues == {} ==> Clean(s)
    ensures s.reliable && Clean(s) ==> issues == {}
    ensures s.reliable && NoDangling(s.codec, s.State()) ==> forall x :: x in issues ==> AboutRows(x)
    ensures s.reliable && NoDangling(s.codec, s.State()) ==> forall b :: RowReported(s.codec, s.State(), issues, b)
  {
    var scan := ScanTrees(s);
    var rowIssues := ScanRows(s.refs, scan.expected, scan.failed);
    issues, failed, expected := scan.issues + rowIssues, scan.failed, scan.expected;
    ReportOfRows(s, scan, issues);
    ReportIsFounded(s, scan, issues);
    ReportOfTrees(s, scan, issues);
    EmptyReport(s, scan, issues);
    if s.reliable && NoDangling(s.codec, s.State()) {
      ReportWhenStored(s, scan, issues);
    }
  }

  /** After a successful rebuild the scan finds no unexpected, mismatched or missing row: both
      computations arrive at the same counts and sizes. On a store where nothing dangles, and without
      faults, repair succeeds and the scan then finds nothing at all. */
  method RepairThenVerify(s: DurableStore) returns (rebuilt: bool, issues: set<Issue>)
    modifies s`refs, s`objects
    ensures rebuilt ==> forall x :: x in issues ==> !AboutRows(x)
    ensures s.reliable && old(NoDangling(s.codec, s.State())) ==> rebuilt && issues == {} && Clean(s)
  {
    ghost var stored := NoDangling(s.codec, s.State());
    ghost var before := s.State();
    StoredIsSound(s);
    var sweepFailed, failed;
    ghost var expected;
    rebuilt, sweepFailed := RepairBlobRefs(s);
    if rebuilt && stored {
      StillStored(s.codec, before, s.State());
    }
    issues, failed, expected := VerifyIntegrity(s);
    if rebuilt {
      TalliedAgree(s.codec, s.versions, s.refs);
      TallyIsUnique(s.codec, s.versions, s.refs, expected);
      assert RowIssues(s.refs, s.refs, failed) == {};
      assert issues - (set x | x in issues && AboutRows(x)) == issues;
      if stored {
        CleanIsTallied(s, expected);
      }
    }
  }

  lemma StillStored(c: Codec, s: Store, s': Store)
    requires NoDangling(c, s) && s'.versions == s.versions
    requires forall o :: o in s.objects && o !in s'.objects ==> o !in Protocol.Reachable(c, s')
    ensures NoDangling(c, s')
  {
    forall id | id in s'.versions ensures TreeStored(c, s'.objects, s'.versions[id].tree) {
      var h := s'.versions[id].tree;
      assert TreeStored(c, s.objects, h);
      assert forall o :: o in ObjectsOf(c, h) ==> o in Protocol.Reachable(c, s');
      assert Tree(h) in ObjectsOf(c, h);
      forall e | e in c.treeOf(h) ensures Blob(e.blob) in s'.objects {
        assert Blob(e.blob) in ObjectsOf(c, h);
      }
    }
  }
}
