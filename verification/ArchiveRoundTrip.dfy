/** Packing a stored tree under `<key>-<version>/` and unpacking it again. */
module ArchiveRoundTrip {
  import opened ArchiveExtract
  import opened ArchivePaths
  import opened ArchiveSpool
  import opened ObjectModel
  import opened Options
  import Lex
  import SymlinkRule

  const COPY_BUFFER_BYTES: nat := 0x1_0000

  type Content = Hash -> string

  // ---- Writing ----

  function TotalSize(es: seq<Entry>): nat {
    if es == [] then 0 else TotalSize(es[..|es| - 1]) + es[|es| - 1].size
  }

  predicate EntryWritable(x: Rules, lim: Limits, e: Entry) {
    WithinLimit(lim.maxPathBytes, |e.path|) && Canonical(x.clean, e.path) && WithinLimit(lim.maxFileBytes, e.size)
  }

  ghost predicate Writable(x: Rules, lim: Limits, es: seq<Entry>) {
    && es != [] && |es| <= MAX_ENTRIES && WithinLimit(lim.maxFiles, |es|)
    && (forall e :: e in es ==> EntryWritable(x, lim, e))
    && (lim.maxUnpacked > 0 ==> TotalSize(es) <= lim.maxUnpacked && TotalSize(es) <= MAX_U64)
    && TreeShaped(es)
  }

  /** The rule for symlink targets, at publish and when an archive is written. */
  predicate TargetAllowed(x: Rules, lim: Limits, path: string, target: string) {
    WithinLimit(lim.maxPathBytes, |target|) && x.InRoot(path, target)
  }

  predicate ContentWritable(x: Rules, lim: Limits, content: Content, e: Entry) {
    var d := content(e.blob);
    |d| == e.size && (e.mode == Symlink ==> TargetAllowed(x, lim, e.path, d))
  }

  lemma {:induction false} TotalSizePrefix(es: seq<Entry>, i: nat)
    requires i <= |es|
    ensures TotalSize(es[..i]) <= TotalSize(es)
    decreases |es| - i
  {
    if i == |es| {
      assert es[..i] == es;
    } else {
      TotalSizePrefix(es, i + 1);
      assert es[..i + 1][..i] == es[..i];
    }
  }

  /** The checks of `validateWriteEntries` on one entry after another, in path order. */
  method CheckEntries(x: Rules, lim: Limits, es: seq<Entry>) returns (ok: bool)
    ensures ok <==> (forall e :: e in es ==> EntryWritable(x, lim, e))
                    && (lim.maxUnpacked > 0 ==> TotalSize(es) <= lim.maxUnpacked && TotalSize(es) <= MAX_U64)
  {
    var total: nat := 0;
    for i := 0 to |es|
      invariant forall j :: 0 <= j < i ==> EntryWritable(x, lim, es[j])
      invariant total == Saturated(TotalSize(es[..i]))
      invariant lim.maxUnpacked > 0 ==> TotalSize(es[..i]) <= lim.maxUnpacked && TotalSize(es[..i]) <= MAX_U64
    {
      if !EntryWritable(x, lim, es[i]) {
        assert es[i] in es;
        return false;
      }
      assert es[..i + 1][..i] == es[..i];
      TotalSizePrefix(es, i + 1);
      var overflow := total + es[i].size > MAX_U64;
      var next := if overflow then MAX_U64 else total + es[i].size;
      if lim.maxUnpacked > 0 && (overflow || next > lim.maxUnpacked) {
        return false;
      }
      total := next;
    }
    assert es[..|es|] == es;
    return true;
  }

  lemma {:induction false} TotalSizeSplit(es: seq<Entry>, k: nat)
    requires k < |es|
    ensures TotalSize(es) == TotalSize(es[..k] + es[k + 1..]) + es[k].size
  {
    var last := |es| - 1;
    if k == last {
      assert es[..k] + es[k + 1..] == es[..last];
    } else {
      TotalSizeSplit(es[..last], k);
      var less := es[..k] + es[k + 1..];
      assert less[..|less| - 1] == es[..last][..k] + es[..last][k + 1..];
      assert less[|less| - 1] == es[last];
    }
  }

  lemma OneElsewhere(b: seq<Entry>, k: nat)
    requires k < |b|
    ensures multiset(b[..k] + b[k + 1..]) == multiset(b) - multiset{b[k]}
  {
    assert b == b[..k] + [b[k]] + b[k + 1..];
  }

  lemma WithoutLast(a: seq<Entry>, b: seq<Entry>) returns (k: nat)
    requires multiset(a) == multiset(b) && a != []
    ensures k < |b| && b[k] == a[|a| - 1] && multiset(a[..|a| - 1]) == multiset(b[..k] + b[k + 1..])
  {
    assert a[|a| - 1] in multiset(b);
    k :| 0 <= k < |b| && b[k] == a[|a| - 1];
    OneElsewhere(a, |a| - 1);
    OneElsewhere(b, k);
    assert a[..|a| - 1] + a[|a|..] == a[..|a| - 1];
  }

  /** The total does not depend on the order. */
  lemma {:induction false} SameTotal(a: seq<Entry>, b: seq<Entry>)
    requires multiset(a) == multiset(b)
    ensures TotalSize(a) == TotalSize(b) && |a| == |b|
    decreases |a|
  {
    if a == [] {
      assert |multiset(b)| == 0;
    } else {
      var k := WithoutLast(a, b);
      TotalSizeSplit(b, k);
      SameTotal(a[..|a| - 1], b[..k] + b[k + 1..]);
    }
  }

  /** `validateWriteEntries`: accepted exactly when everything is within the limits and the paths make
      a tree; the result is in path order. */
  method ValidateWriteEntries(x: Rules, lim: Limits, es: seq<Entry>) returns (r: Option<seq<Entry>>)
    ensures r.Some? <==> Writable(x, lim, es)
    ensures r.Some? ==> Ascending(r.value) && multiset(r.value) == multiset(es)
  {
    if es == [] || |es| > MAX_ENTRIES || (lim.maxFiles > 0 && |es| > lim.maxFiles) {
      return None;
    }
    var sorted := SortEntries(es);
    SameTree(es, sorted);
    SameTotal(es, sorted);
    var fits := CheckEntries(x, lim, sorted);
    if !fits {
      return None;
    }
    var ok := ScanInOrder(sorted);
    return if ok then Some(sorted) else None;
  }

  /** `writeBlobBytes`: in pieces of at most 64 KiB. */
  method WriteBlobBytes(d: string) returns (chunks: seq<string>)
    ensures Concat(chunks) == d && forall i :: 0 <= i < |chunks| ==> 0 < |chunks[i]| <= COPY_BUFFER_BYTES
  {
    chunks := [];
    var rest := d;
    while rest != []
      invariant Concat(chunks) + rest == d
      invariant forall i :: 0 <= i < |chunks| ==> 0 < |chunks[i]| <= COPY_BUFFER_BYTES
      decreases |rest|
    {
      var n := if |rest| > COPY_BUFFER_BYTES then COPY_BUFFER_BYTES else |rest|;
      assert (chunks + [rest[..n]])[..|chunks|] == chunks;
      chunks := chunks + [rest[..n]];
      assert rest == rest[..n] + rest[n..];
      rest := rest[n..];
    }
  }

  /** A record stands for an entry: name, kind and content, however the content was cut. */
  predicate StandsFor(content: Content, r: Record, e: Entry) {
    HasContent(r) && r.name == e.path && (r.Regular? <==> e.mode == File) && Data(r) == content(e.blob)
  }

  predicate Packs(content: Content, a: Archive, es: seq<Entry>) {
    |a| == |es| && forall i :: 0 <= i < |es| ==> StandsFor(content, a[i], es[i])
  }

  /** One entry of the write loops. */
  method WriteOne(x: Rules, lim: Limits, content: Content, e: Entry) returns (r: Option<Record>)
    ensures r.Some? ==> StandsFor(content, r.value, e) && ContentWritable(x, lim, content, e)
    ensures r.None? ==> !x.reliable || !ContentWritable(x, lim, content, e)
  {
    var fault := Fault(x);
    if fault {
      return None;
    }
    var d := content(e.blob);
    if |d| != e.size {
      return None;
    }
    if e.mode == Symlink {
      if (lim.maxPathBytes > 0 && |d| > lim.maxPathBytes) || !x.InRoot(e.path, d) {
        return None;
      }
      return Some(Link(e.path, d));
    }
    var chunks := WriteBlobBytes(d);
    return Some(Regular(e.path, chunks));
  }

  /** The entries, in the order given, each with its blob. */
  method WriteSorted(x: Rules, lim: Limits, content: Content, order: seq<Entry>) returns (r: Option<Archive>)
    ensures r.Some? ==> Packs(content, r.value, order) && forall e :: e in order ==> ContentWritable(x, lim, content, e)
    ensures r.None? ==> !x.reliable || exists e :: e in order && !ContentWritable(x, lim, content, e)
  {
    var a: Archive := [];
    for i := 0 to |order|
      invariant |a| == i
      invariant forall j :: 0 <= j < i ==> StandsFor(content, a[j], order[j]) && ContentWritable(x, lim, content, order[j])
    {
      var record;
      record := WriteOne(x, lim, content, order[i]);
      if record.None? {
        assert order[i] in order;
        return None;
      }
      a := a + [record.value];
    }
    return Some(a);
  }

  lemma OneOrder(es: seq<Entry>, order: seq<Entry>)
    requires Ascending(order) && multiset(order) == multiset(es)
    ensures forall other :: Ascending(other) && multiset(other) == multiset(es) ==> other == order
    ensures forall e :: e in order <==> e in es
  {
    forall other | Ascending(other) && multiset(other) == multiset(es) ensures other == order {
      AscendingIsUnique(other, order);
    }
    assert forall e :: e in order <==> e in multiset(order);
    assert forall e :: e in es <==> e in multiset(es);
  }

  /** `Write`: the entries in path order, each with its blob. */
  method WriteArchive(x: Rules, lim: Limits, content: Content, es: seq<Entry>) returns (r: Option<Archive>)
    ensures r.Some? ==> Writable(x, lim, es) && forall e :: e in es ==> ContentWritable(x, lim, content, e)
    ensures r.None? ==> !x.reliable || !Writable(x, lim, es) || exists e :: e in es && !ContentWritable(x, lim, content, e)
    ensures r.Some? ==> forall order :: Ascending(order) && multiset(order) == multiset(es) ==> Packs(content, r.value, order)
  {
    var sorted := ValidateWriteEntries(x, lim, es);
    if sorted.None? {
      return None;
    }
    OneOrder(es, sorted.value);
    r := WriteSorted(x, lim, content, sorted.value);
  }

  // ---- The prefix ----

  function TopDir(key: string, version: string): string {
    key + "-" + version
  }

  function Prefixed(top: string, es: seq<Entry>): seq<Entry> {
    seq(|es|, i requires 0 <= i < |es| => es[i].(path := top + "/" + es[i].path))
  }

  /** Stripping takes off the prefix and nothing else, even from a tree with a top directory of its own. */
  lemma StripUndoesPrefix(top: string, es: seq<Entry>)
    requires '/' !in top
    ensures Stripped(Prefixed(top, es)) == es
  {
    var ps := Prefixed(top, es);
    forall i | 0 <= i < |es| ensures TopSegment(ps[i].path) == Some(top) && ps[i].path[|top| + 1..] == es[i].path {
      assert ps[i].path == (top + "/") + es[i].path;
      TopSegmentIs(ps[i].path, top);
    }
    if es != [] {
      assert CommonTop(ps, top);
      assert TrimTop(ps, top) == es;
    }
  }

  lemma PrefixKeepsOrder(top: string, es: seq<Entry>)
    requires Ascending(es)
    ensures Ascending(Prefixed(top, es))
  {
    var ps := Prefixed(top, es);
    forall i, j | 0 <= i < j < |ps| ensures Lex.Less(ps[i].path, ps[j].path) {
      Lex.SharedPrefix(top + "/", es[i].path, es[j].path);
      assert ps[i].path == (top + "/") + es[i].path && ps[j].path == (top + "/") + es[j].path;
    }
  }

  // ---- Unpacking what was packed ----

  /** What publishing makes sure of: content addressing, true sizes, and symlinks that stay in the tree. */
  predicate Stored(x: Rules, lim: Limits, content: Content, es: seq<Entry>) {
    forall i :: 0 <= i < |es| ==> x.hash(content(es[i].blob)) == es[i].blob && ContentWritable(x, lim, content, es[i])
  }

  lemma EntryOfPacked(x: Rules, content: Content, r: Record, e: Entry)
    requires StandsFor(content, r, e) && x.hash(content(e.blob)) == e.blob && |content(e.blob)| == e.size && Canonical(x.clean, e.path)
    ensures EntryOf(x, r) == e
  {
  }

  lemma PackedNames(x: Rules, content: Content, a: Archive, es: seq<Entry>)
    requires Packs(content, a, es) && forall i :: 0 <= i < |es| ==> Canonical(x.clean, es[i].path)
    ensures forall i :: 0 <= i < |a| ==> x.clean(a[i].name).Some?
  {
    forall i | 0 <= i < |a| ensures x.clean(a[i].name).Some? {
      assert StandsFor(content, a[i], es[i]);
    }
  }

  lemma OneMoreEntry(es: seq<Entry>, n: nat)
    requires n < |es|
    ensures es[..n + 1] == es[..n] + [es[n]] && TotalSize(es[..n + 1]) == TotalSize(es[..n]) + es[n].size
  {
    assert es[..n + 1][..n] == es[..n];
  }

  lemma {:induction false} PackedIsGathered(x: Rules, lim: Limits, content: Content, a: Archive, es: seq<Entry>, n: nat)
    requires Packs(content, a, es) && Stored(x, lim, content, es) && n <= |a|
    requires forall i :: 0 <= i < |es| ==> Canonical(x.clean, es[i].path)
    requires forall i :: 0 <= i < |a| ==> x.clean(a[i].name).Some?
    ensures Gathered(x, a[..n]) == es[..n] && TotalBytes(a[..n]) == TotalSize(es[..n])
    decreases n
  {
    if n > 0 {
      PackedIsGathered(x, lim, content, a, es, n - 1);
      EntryOfPacked(x, content, a[n - 1], es[n - 1]);
      GatheredNext(x, a, n - 1);
      OneMoreEntry(es, n - 1);
    }
  }

  /** The recorded targets are the contents of the tree's symlinks. */
  lemma {:induction false} PackedTargets(x: Rules, lim: Limits, content: Content, a: Archive, es: seq<Entry>)
    requires Packs(content, a, es) && Stored(x, lim, content, es)
    ensures var t := Targets(x, a);
            && (forall h :: h in t ==> t[h] == content(h))
            && forall i :: 0 <= i < |es| && es[i].mode == Symlink ==> es[i].blob in t
  {
    if a != [] {
      var n := |a| - 1;
      PackedTargets(x, lim, content, a[..n], es[..n]);
      assert forall i :: 0 <= i < n ==> es[..n][i] == es[i];
    }
  }

  lemma StoredSizesAgree(x: Rules, lim: Limits, content: Content, es: seq<Entry>)
    requires Stored(x, lim, content, es)
    ensures SizesAgree(es)
  {
  }

  lemma PackedIsAllowed(x: Rules, lim: Limits, content: Content, a: Archive, ps: seq<Entry>)
    requires Writable(x, lim, ps) && Packs(content, a, ps) && Stored(x, lim, content, ps) && lim.maxPathBytes > 0
    ensures Allowed(x, lim, a) && Gathered(x, a) == ps
  {
    forall i | 0 <= i < |ps| ensures Canonical(x.clean, ps[i].path) && RecordAllowed(x, lim, a[i]) {
      assert ps[i] in ps && EntryWritable(x, lim, ps[i]) && ContentWritable(x, lim, content, ps[i]);
    }
    PackedNames(x, content, a, ps);
    PackedIsGathered(x, lim, content, a, ps, |a|);
    assert a[..|a|] == a && ps[..|a|] == ps;
    StoredSizesAgree(x, lim, content, ps);
  }

  /** A stored tree can be moved below a directory: its symlinks stay in it. */
  lemma PrefixStored(x: Rules, lim: Limits, content: Content, top: string, es: seq<Entry>)
    requires SymlinkRule.PlainName(top) && Stored(x, lim, content, es)
    ensures Stored(x, lim, content, Prefixed(top, es))
    ensures forall e :: e in Prefixed(top, es) ==> ContentWritable(x, lim, content, e)
  {
    forall i | 0 <= i < |es| && es[i].mode == Symlink ensures x.InRoot(Prefixed(top, es)[i].path, content(es[i].blob)) {
      SymlinkRule.StaysUnderPrefix(x.hygienic, top, es[i].path, content(es[i].blob));
    }
  }

  /** An archive of a published tree under a prefix unpacks to that tree, with all its symlinks: same
      paths, modes, sizes and hashes, even when the tree has a single top directory itself. */
  lemma UnpackUndoesPack(x: Rules, lim: Limits, content: Content, top: string, es: seq<Entry>, a: Archive)
    requires SymlinkRule.PlainName(top) && Stored(x, lim, content, es)
    requires Writable(x, lim, Prefixed(top, es)) && Packs(content, a, Prefixed(top, es)) && lim.maxPathBytes > 0
    ensures Allowed(x, lim, a) && Unpacked(x, a) == es
  {
    var ps := Prefixed(top, es);
    PrefixStored(x, lim, content, top, es);
    PackedIsAllowed(x, lim, content, a, ps);
    StripUndoesPrefix(top, es);
    PackedTargets(x, lim, content, a, ps);
    var t := Targets(x, a);
    forall e | e in es ensures !Escapes(x, t, e) {
      var i :| 0 <= i < |es| && es[i] == e;
      assert ps[i].blob == e.blob && ps[i].mode == e.mode;
    }
    KeptItems(x, t, es);
  }

  // ---- The builder and the extractor together ----

  predicate ValidRefSegment(text: string) {
    0 < |text| <= 256 && text != "." && text != ".." && '/' !in text && '\\' !in text
    && forall i :: 0 <= i < |text| ==> text[i] as int >= 32 && text[i] as int != 127
  }

  lemma TopDirIsPlain(key: string, version: string)
    requires ValidRefSegment(key) && ValidRefSegment(version)
    ensures SymlinkRule.PlainName(TopDir(key, version))
  {
    assert TopDir(key, version)[|key|] == '-';
    assert |TopDir(key, version)| >= 3;
  }

  /** Each file of the tree is there, in order, below `<key>-<version>/`, with its content. */
  predicate PackedBelow(content: Content, a: Archive, key: string, version: string, tree: seq<Entry>) {
    |a| == |tree| && forall i :: 0 <= i < |tree| ==>
      && a[i].name == key + "-" + version + "/" + tree[i].path
      && match a[i]
         case Regular(_, chunks) => tree[i].mode == File && Concat(chunks) == content(tree[i].blob)
         case Link(_, target) => tree[i].mode == Symlink && target == content(tree[i].blob)
         case _ => false
  }

  lemma PacksBelow(content: Content, a: Archive, key: string, version: string, tree: seq<Entry>)
    requires Packs(content, a, Prefixed(TopDir(key, version), tree))
    ensures PackedBelow(content, a, key, version, tree)
  {
    var ps := Prefixed(TopDir(key, version), tree);
    forall i | 0 <= i < |tree| ensures a[i].name == key + "-" + version + "/" + tree[i].path && a[i].Regular? == (tree[i].mode == File) {
      assert StandsFor(content, a[i], ps[i]);
    }
  }

  /** `universalRawBuilderObj.Build`: a published tree is packed whenever the limits allow it. */
  method Build(x: Rules, lim: Limits, content: Content, key: string, version: string, tree: seq<Entry>)
    returns (r: Option<Archive>)
    ensures r.Some? ==> ValidRefSegment(key) && ValidRefSegment(version)
    ensures r.Some? ==> var ps := Prefixed(TopDir(key, version), tree);
      Writable(x, lim, ps) && (forall e :: e in ps ==> ContentWritable(x, lim, content, e))
    ensures r.Some? && Ascending(tree) ==> Packs(content, r.value, Prefixed(TopDir(key, version), tree))
    ensures r.Some? && Ascending(tree) ==> PackedBelow(content, r.value, key, version, tree)
    ensures r.None? ==> !x.reliable || !ValidRefSegment(key) || !ValidRefSegment(version) || var ps := Prefixed(TopDir(key, version), tree);
      !Writable(x, lim, ps) || exists e :: e in ps && !ContentWritable(x, lim, content, e)
    ensures x.reliable && ValidRefSegment(key) && ValidRefSegment(version) && Stored(x, lim, content, tree) ==>
      (r.Some? <==> Writable(x, lim, Prefixed(TopDir(key, version), tree)))
  {
    if !ValidRefSegment(key) || !ValidRefSegment(version) {
      return None;
    }
    var top := TopDir(key, version);
    TopDirIsPlain(key, version);
    if Stored(x, lim, content, tree) {
      PrefixStored(x, lim, content, top, tree);
    }
    var prefixed: seq<Entry> := [];
    for i := 0 to |tree|
      invariant |prefixed| == i && forall j :: 0 <= j < i ==> prefixed[j] == tree[j].(path := top + "/" + tree[j].path)
    {
      prefixed := prefixed + [tree[i].(path := top + "/" + tree[i].path)];
    }
    assert prefixed == Prefixed(top, tree);
    r := WriteArchive(x, lim, content, prefixed);
    if r.Some? && Ascending(tree) {
      PrefixKeepsOrder(top, tree);
      PacksBelow(content, r.value, key, version, tree);
    }
  }

  /** What the expected-tree check of a rescan relies on: an archive built from a published tree, read
      back in any pieces under the same limits, gives exactly that tree, unless reading fails. */
  method ExtractBuilt(x: Rules, lim: Limits, content: Content, key: string, version: string, tree: seq<Entry>, spool: Spool, a: Archive)
    returns (r: Option<Unpacking>)
    requires spool.Valid() && lim.maxPathBytes > 0 && ValidRefSegment(key) && ValidRefSegment(version)
    requires ValidTree(x.clean, tree) && Ascending(tree) && Stored(x, lim, content, tree)
    requires var ps := Prefixed(TopDir(key, version), tree); Writable(x, lim, ps) && Packs(content, a, ps)
    modifies spool
    ensures r.None? ==> !x.reliable
    ensures r.Some? ==> r.value.entries == tree
  {
    TopDirIsPlain(key, version);
    UnpackUndoesPack(x, lim, content, TopDir(key, version), tree, a);
    r := Extract(x, lim, spool, a);
    if r.Some? {
      AscendingIsUnique(r.value.entries, tree);
    }
  }
}
