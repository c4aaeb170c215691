/** What extraction delivers, told record by record: which entries the files and symlinks of an archive stand
    for, which symlinks point outside, and that what the extractor computes step by step is just that. */
module ArchiveContents {
  import opened ArchiveExtract
  import opened ArchivePaths
  import opened ObjectModel
  import opened Options

  /** The entry that a record stands for. */
  predicate WrittenAs(x: Rules, r: Record, e: Entry) {
    && x.clean(r.name) == Some(e.path)
    && match r
       case Regular(_, chunks) => e.mode == File && e.size == |Concat(chunks)| && e.blob == x.hash(Concat(chunks))
       case Link(_, target) => e.mode == Symlink && e.size == |target| && e.blob == x.hash(target)
       case _ => false
  }

  ghost predicate Stands(x: Rules, a: Archive, e: Entry) {
    exists i :: 0 <= i < |a| && WrittenAs(x, a[i], e)
  }

  ghost predicate StoodFor(x: Rules, r: Record, es: seq<Entry>) {
    exists e :: e in es && WrittenAs(x, r, e)
  }

  /** The entries are those of the files and symlinks of the archive. */
  ghost predicate Recorded(x: Rules, a: Archive, es: seq<Entry>) {
    && (forall e :: e in es ==> Stands(x, a, e))
    && (forall r :: r in a && (r.Regular? || r.Link?) ==> StoodFor(x, r, es))
  }

  predicate IsLink(x: Rules, r: Record, h: Hash) {
    r.Link? && x.hash(r.target) == h
  }

  /** The last symlink of the archive with that content. */
  predicate LastLinkAt(x: Rules, a: Archive, i: int, h: Hash) {
    0 <= i < |a| && IsLink(x, a[i], h) && forall j :: i < j < |a| ==> !IsLink(x, a[j], h)
  }

  /** The entry is a symlink, and the last one of the archive with that content has a target that lies
      outside from where the entry stands. */
  ghost predicate PointsOutside(x: Rules, a: Archive, e: Entry) {
    e.mode == Symlink && exists i :: LastLinkAt(x, a, i, e.blob) && !x.InRoot(e.path, a[i].target)
  }

  /** The paths at certain places of a listing, in order. */
  predicate PathsAt(es: seq<Entry>, at: seq<nat>, paths: seq<string>) {
    && |at| == |paths|
    && (forall k :: 0 <= k < |at| ==> at[k] < |es| && paths[k] == es[at[k]].path)
    && (forall j, k :: 0 <= j < k < |at| ==> at[j] < at[k])
  }

  ghost predicate OutsideAt(x: Rules, a: Archive, es: seq<Entry>, at: seq<nat>) {
    forall i :: 0 <= i < |es| ==> (i in at <==> PointsOutside(x, a, es[i]))
  }

  /** The paths of the symlinks that point outside, in the order of the entries. */
  ghost predicate PathsOutside(x: Rules, a: Archive, es: seq<Entry>, gone: seq<string>) {
    exists at :: PathsAt(es, at, gone) && OutsideAt(x, a, es, at)
  }

  /** The recorded entries, taken from below their common directory, without the symlinks that point outside. */
  ghost predicate Remain(x: Rules, a: Archive, all: seq<Entry>, below: seq<Entry>, es: seq<Entry>) {
    Recorded(x, a, all) && TopTakenOff(all, below) && forall e :: e in es <==> e in below && !PointsOutside(x, a, e)
  }

  /** What comes out: what remains, and a list of the paths that do not. */
  ghost predicate ComesOut(x: Rules, a: Archive, es: seq<Entry>, gone: seq<string>) {
    exists all, below :: Remain(x, a, all, below, es) && PathsOutside(x, a, below, gone)
  }

  /** The pieces of a file are joined in the order in which they arrive. */
  lemma {:induction false} ConcatAppends(chunks: seq<string>, more: seq<string>)
    ensures Concat(chunks + more) == Concat(chunks) + Concat(more)
    decreases |more|
  {
    if more == [] {
      assert chunks + more == chunks;
    } else {
      var init, last := more[..|more| - 1], more[|more| - 1];
      ConcatAppends(chunks, init);
      assert (chunks + more)[..|chunks + more| - 1] == chunks + init;
    }
  }

  // ---- What the extractor collects ----

  lemma RecordedNext(x: Rules, a: Archive, es: seq<Entry>, r: Record)
    requires Recorded(x, a, es) && x.clean(r.name).Some?
    ensures Recorded(x, a + [r], es + if HasContent(r) then [EntryOf(x, r)] else [])
  {
    var es', a' := es + if HasContent(r) then [EntryOf(x, r)] else [], a + [r];
    assert HasContent(r) ==> WrittenAs(x, r, EntryOf(x, r));
    forall e | e in es' ensures Stands(x, a', e) {
      if e in es {
        var i :| 0 <= i < |a| && WrittenAs(x, a[i], e);
        assert a'[i] == a[i];
      } else {
        assert a'[|a|] == r;
      }
    }
    forall q | q in a' && (q.Regular? || q.Link?) ensures StoodFor(x, q, es') {
      if q in a {
        var e :| e in es && WrittenAs(x, q, e);
        assert e in es';
      }
    }
  }

  lemma {:induction false} GatheredIsRecorded(x: Rules, a: Archive)
    requires forall i :: 0 <= i < |a| ==> x.clean(a[i].name).Some?
    ensures Recorded(x, a, Gathered(x, a))
  {
    if a != [] {
      var init, last := a[..|a| - 1], a[|a| - 1];
      GatheredIsRecorded(x, init);
      RecordedNext(x, init, Gathered(x, init), last);
      assert a == init + [last];
    }
  }

  lemma {:induction false} TargetsAreLast(x: Rules, a: Archive, h: Hash)
    ensures h in Targets(x, a) ==> exists i :: LastLinkAt(x, a, i, h) && a[i].target == Targets(x, a)[h]
    ensures h !in Targets(x, a) ==> forall i :: 0 <= i < |a| ==> !IsLink(x, a[i], h)
  {
    if a != [] {
      var n := |a| - 1;
      var init, last := a[..n], a[n];
      TargetsAreLast(x, init, h);
      if IsLink(x, last, h) {
        assert LastLinkAt(x, a, n, h);
      } else if h in Targets(x, init) {
        var i :| LastLinkAt(x, init, i, h) && init[i].target == Targets(x, init)[h];
        assert LastLinkAt(x, a, i, h);
      }
    }
  }

  lemma LinkOfEntry(x: Rules, a: Archive, e: Entry)
    requires Stands(x, a, e) && e.mode == Symlink
    ensures e.blob in Targets(x, a)
  {
    TargetsAreLast(x, a, e.blob);
    var j :| 0 <= j < |a| && WrittenAs(x, a[j], e);
    assert IsLink(x, a[j], e.blob);
  }

  lemma LastLinkIsOne(x: Rules, a: Archive, i: int, j: int, h: Hash)
    requires LastLinkAt(x, a, i, h) && LastLinkAt(x, a, j, h)
    ensures i == j
  {
  }

  /** An entry of the archive, wherever it stands, escapes exactly when it is a symlink that points outside. */
  lemma EscapesIsOutside(x: Rules, a: Archive, e: Entry, path: string)
    requires Stands(x, a, e)
    ensures var d := e.(path := path); Escapes(x, Targets(x, a), d) <==> PointsOutside(x, a, d)
  {
    if e.mode == Symlink {
      LinkOfEntry(x, a, e);
      TargetsAreLast(x, a, e.blob);
      var last :| LastLinkAt(x, a, last, e.blob) && a[last].target == Targets(x, a)[e.blob];
      forall k | LastLinkAt(x, a, k, e.blob) ensures k == last {
        LastLinkIsOne(x, a, k, last, e.blob);
      }
    }
  }

  // ---- What the extractor drops ----

  ghost predicate EscapeAt(x: Rules, targets: map<Hash, string>, es: seq<Entry>, at: seq<nat>) {
    forall i :: 0 <= i < |es| ==> (i in at <==> Escapes(x, targets, es[i]))
  }

  lemma PathsAtNext(es: seq<Entry>, at: seq<nat>, paths: seq<string>, e: Entry)
    requires PathsAt(es, at, paths)
    ensures PathsAt(es + [e], at, paths) && PathsAt(es + [e], at + [|es|], paths + [e.path]) && |es| !in at
  {
    assert forall k :: 0 <= k < |at| ==> at[k] < |es|;
  }

  lemma {:induction false} DroppedPathsAt(x: Rules, targets: map<Hash, string>, es: seq<Entry>) returns (at: seq<nat>)
    ensures PathsAt(es, at, DroppedPaths(x, targets, es)) && EscapeAt(x, targets, es, at)
  {
    at := [];
    if es != [] {
      var n := |es| - 1;
      var init, last := es[..n], es[n];
      at := DroppedPathsAt(x, targets, init);
      assert es == init + [last];
      PathsAtNext(init, at, DroppedPaths(x, targets, init), last);
      if Escapes(x, targets, last) {
        ghost var before := at;
        at := at + [n];
        forall i | 0 <= i < |es| ensures i in at <==> Escapes(x, targets, es[i]) {
          assert i < n ==> es[i] == init[i] && (i in at <==> i in before);
        }
      } else {
        assert forall i :: 0 <= i < n ==> es[i] == init[i];
      }
    }
  }

  lemma DroppedAreOutside(x: Rules, a: Archive, targets: map<Hash, string>, es: seq<Entry>)
    requires forall i :: 0 <= i < |es| ==> (Escapes(x, targets, es[i]) <==> PointsOutside(x, a, es[i]))
    ensures PathsOutside(x, a, es, DroppedPaths(x, targets, es))
  {
    var at := DroppedPathsAt(x, targets, es);
    assert OutsideAt(x, a, es, at);
  }

  lemma StrippedStands(x: Rules, a: Archive, es: seq<Entry>, i: nat)
    requires (forall e :: e in es ==> Stands(x, a, e)) && i < |es|
    ensures |Stripped(es)| == |es| && (Escapes(x, Targets(x, a), Stripped(es)[i]) <==> PointsOutside(x, a, Stripped(es)[i]))
  {
    EscapesIsOutside(x, a, es[i], Stripped(es)[i].path);
    assert Stripped(es)[i] == es[i].(path := Stripped(es)[i].path);
  }

  lemma KeptRemain(x: Rules, a: Archive, targets: map<Hash, string>, below: seq<Entry>, es: seq<Entry>)
    requires forall i :: 0 <= i < |below| ==> (Escapes(x, targets, below[i]) <==> PointsOutside(x, a, below[i]))
    requires multiset(es) == multiset(Kept(x, targets, below))
    ensures forall e :: e in es <==> e in below && !PointsOutside(x, a, e)
  {
    KeptItems(x, targets, below);
    forall e ensures e in es <==> e in below && !PointsOutside(x, a, e) {
      assert (e in es <==> e in multiset(es)) && (e in Kept(x, targets, below) <==> e in multiset(Kept(x, targets, below)));
      if e in below {
        var i :| 0 <= i < |below| && below[i] == e;
      }
    }
  }

  /** What the extractor computes is what comes out. */
  lemma UnpackedComesOut(x: Rules, a: Archive, es: seq<Entry>)
    requires forall i :: 0 <= i < |a| ==> x.clean(a[i].name).Some?
    requires multiset(es) == multiset(Unpacked(x, a))
    ensures ComesOut(x, a, es, DroppedPaths(x, Targets(x, a), Stripped(Gathered(x, a))))
  {
    var all, targets := Gathered(x, a), Targets(x, a);
    var below := Stripped(all);
    GatheredIsRecorded(x, a);
    StrippedTakesTopOff(all);
    forall i | 0 <= i < |below| ensures Escapes(x, targets, below[i]) <==> PointsOutside(x, a, below[i]) {
      StrippedStands(x, a, all, i);
    }
    DroppedAreOutside(x, a, targets, below);
    KeptRemain(x, a, targets, below, es);
    assert Remain(x, a, all, below, es);
  }
}
