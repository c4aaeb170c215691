/** The Go module zip: which blobs are rewritten, and the files it delivers through a bounded cache. */
module GoZip {
  import opened ObjectModel
  import opened Options
  import opened Paging
  import opened Rewrite
  import Lex
  import Sums

  const MAX_CACHED_REWRITE_BYTES: nat := 0x40_0000
  const FALLBACK_BUDGET: nat := 0x400_0000

  // ---- Detection: the rewrite set ----

  function Base(path: string): (name: string)
    ensures |name| <= |path|
  {
    if path == "" then ""
    else if path[|path| - 1] == '/' then ""
    else Base(path[..|path| - 1]) + [path[|path| - 1]]
  }

  predicate HasSuffix(s: string, suffix: string) {
    |s| >= |suffix| && s[|s| - |suffix|..] == suffix
  }

  predicate IsGoSource(path: string) {
    HasSuffix(path, ".go") || Base(path) == "go.mod"
  }

  /** A slash with `n` characters behind it. */
  predicate SlashBefore(path: string, n: nat) {
    n < |path| && path[|path| - n - 1] == '/'
  }

  /** The name is the whole path, or what follows one of its slashes. */
  predicate NameAtEnd(path: string, name: string) {
    HasSuffix(path, name) && (|name| < |path| ==> SlashBefore(path, |name|))
  }

  lemma {:induction false} BaseIsAtEnd(path: string)
    ensures NameAtEnd(path, Base(path)) && '/' !in Base(path)
  {
    if path != "" && path[|path| - 1] != '/' {
      var n := |path| - 1;
      BaseIsAtEnd(path[..n]);
      var k := n - |Base(path[..n])|;
      assert path[k..] == path[..n][k..] + [path[n]];
    }
  }

  lemma NoSlashWithin(path: string, name: string)
    requires HasSuffix(path, name) && '/' !in name
    ensures forall n: nat :: n < |name| ==> !SlashBefore(path, n)
  {
    forall n: nat | n < |name| ensures !SlashBefore(path, n) {
      assert name[|name| - n - 1] == path[|path| - n - 1];
    }
  }

  /** `Base` is the one name without a slash there. */
  lemma BaseIs(path: string, name: string)
    requires '/' !in name
    ensures Base(path) == name <==> NameAtEnd(path, name)
  {
    BaseIsAtEnd(path);
    NoSlashWithin(path, Base(path));
    if NameAtEnd(path, name) {
      NoSlashWithin(path, name);
    }
  }

  lemma EndsIn(path: string, suffix: string)
    ensures HasSuffix(path, suffix) <==> exists front: string :: path == front + suffix
  {
    if HasSuffix(path, suffix) {
      assert path == path[..|path| - |suffix|] + suffix;
    }
    forall front: string | path == front + suffix ensures HasSuffix(path, suffix) {
      assert path[|front|..] == suffix;
    }
  }

  lemma GoModAtEnd(path: string)
    ensures NameAtEnd(path, "go.mod") <==> path == "go.mod" || HasSuffix(path, "/go.mod")
  {
    var name, k := "go.mod", |path| - 6;
    assert "/" + name == "/go.mod";
    if k > 0 {
      assert path[k - 1..] == [path[k - 1]] + path[k..];
    }
  }

  /** Go source is every path that ends in `.go`, and `go.mod` at the top or in a directory. */
  lemma GoSourceIs(path: string)
    ensures IsGoSource(path) <==> path == "go.mod" || (exists front: string :: path == front + ".go") || exists dir: string :: path == dir + "/go.mod"
  {
    BaseIs(path, "go.mod");
    GoModAtEnd(path);
    EndsIn(path, ".go");
    EndsIn(path, "/go.mod");
  }

  predicate IsGoFile(e: Entry) {
    e.mode == File && IsGoSource(e.path)
  }

  ghost predicate Contains(d: Bytes, needle: Bytes) {
    needle != [] && exists s: nat :: BoundaryAt(d, needle, s)
  }

  /** The blobs that a rewrite is meant to touch: those of Go source files that contain the path. */
  ghost predicate InRewriteSet(tree: seq<Entry>, read: Hash -> Bytes, path: Bytes, h: Hash) {
    Contains(read(h), path) && exists e :: e in tree && IsGoFile(e) && e.blob == h
  }

  /** Whether the next read fails; with `reliable` none does. */
  method Fault(reliable: bool) returns (fault: bool)
    ensures reliable ==> !fault
  {
    fault := *;
    fault := fault && !reliable;
  }

  /** `scanRewriteBlobs`: each blob is read once; the result is sorted. */
  method ScanRewriteBlobs(tree: seq<Entry>, read: Hash -> Bytes, path: Bytes, reliable: bool) returns (r: Option<seq<Hash>>)
    ensures reliable ==> r.Some?
    ensures r.Some? ==> Sorted(Lex.Less, r.value)
    ensures r.Some? ==> forall h :: h in r.value <==> InRewriteSet(tree, read, path, h)
  {
    var scanned: set<Hash> := {};
    var matched: set<Hash> := {};
    for i := 0 to |tree|
      invariant forall h :: h in scanned <==> exists e :: e in tree[..i] && IsGoFile(e) && e.blob == h
      invariant forall h :: h in matched <==> h in scanned && Contains(read(h), path)
    {
      var e := tree[i];
      assert tree[..i + 1] == tree[..i] + [e];
      if e.mode == File && IsGoSource(e.path) && e.blob !in scanned {
        var fault := Fault(reliable);
        if fault {
          return None;
        }
        scanned := scanned + {e.blob};
        var found := ContainsModulePath(read(e.blob), path);
        if found {
          matched := matched + {e.blob};
        }
      }
    }
    assert tree[..|tree|] == tree;
    Lex.StrictOrder();
    var sorted := SortAll(matched, Lex.Less);
    return Some(sorted);
  }

  // ---- What the zip delivers ----

  function Delivered(read: Hash -> Bytes, rewriteSet: set<Hash>, path: Bytes, target: Bytes, h: Hash): Bytes {
    if h in rewriteSet then Scanned(read(h), path, target) else read(h)
  }

  /** Leaving the other blobs out of the rewrite set changes nothing: every Go source file has the
      content that rewriting it would give. */
  lemma GoFilesAreRewritten(tree: seq<Entry>, read: Hash -> Bytes, rewriteSet: set<Hash>, path: Bytes, target: Bytes, e: Entry)
    requires forall h :: h in rewriteSet <==> InRewriteSet(tree, read, path, h)
    requires e in tree && IsGoFile(e)
    ensures Delivered(read, rewriteSet, path, target, e.blob) == Scanned(read(e.blob), path, target)
  {
    var d := read(e.blob);
    if e.blob !in rewriteSet && path != [] && path != target {
      assert !Contains(d, path);
      forall s: nat ensures !BoundaryAt(d, path, s) {
      }
      NothingToRewrite(d, path, target, 0);
      assert d[0..] == d;
    }
  }

  /** The set is one of blobs, not of files: another file keeps its content exactly when no Go source
      file with the same blob contains the path. */
  lemma OtherFilesAreKept(tree: seq<Entry>, read: Hash -> Bytes, rewriteSet: set<Hash>, path: Bytes, target: Bytes, e: Entry)
    requires forall h :: h in rewriteSet <==> InRewriteSet(tree, read, path, h)
    requires path != [] && AllModule(path) && path != target
    ensures Delivered(read, rewriteSet, path, target, e.blob) == read(e.blob) <==>
      !(Contains(read(e.blob), path) && exists g :: g in tree && IsGoFile(g) && g.blob == e.blob)
  {
    if e.blob in rewriteSet {
      var s: nat :| BoundaryAt(read(e.blob), path, s);
      SomethingToRewrite(read(e.blob), path, target, s);
    }
  }

  /** A text file that happens to have the content of a Go source file is rewritten with it. */
  lemma NotesAreRewritten(h: Hash, path: Bytes, target: Bytes) returns (tree: seq<Entry>, read: Hash -> Bytes)
    requires path != [] && AllModule(path) && path != target
    ensures tree == [Entry("NOTES", File, |path|, h), Entry("a.go", File, |path|, h)] && read(h) == path
    ensures IsGoFile(tree[1]) && !IsGoFile(tree[0]) && InRewriteSet(tree, read, path, h)
    ensures Delivered(read, {h}, path, target, tree[0].blob) == target
  {
    tree, read := [Entry("NOTES", File, |path|, h), Entry("a.go", File, |path|, h)], x => path;
    assert tree[1] in tree;
    assert BoundaryAt(path, path, 0);
    GreedyAt(path, path, target, 0);
    assert Greedy(path, path, target, |path|) == [];
  }

  // ---- The cache ----

  ghost function SizeIn(m: map<Hash, Bytes>, h: Hash): nat {
    if h in m then |m[h]| else 0
  }

  ghost function TotalSize(m: map<Hash, Bytes>): nat {
    Sums.Sum(m.Keys, h => SizeIn(m, h))
  }

  lemma TotalGrows(m: map<Hash, Bytes>, h: Hash, d: Bytes)
    requires h !in m
    ensures TotalSize(m[h := d]) == TotalSize(m) + |d|
  {
    var n := m[h := d];
    assert n.Keys == m.Keys + {h};
    Sums.Add(m.Keys, x => SizeIn(n, x), h);
    Sums.Congruent(m.Keys, x => SizeIn(n, x), x => SizeIn(m, x));
  }

  class RewriteCache {
    const budget: nat
    var entryMap: map<Hash, Bytes>
    var usedBytes: nat

    ghost predicate Valid()
      reads this
    {
      usedBytes == TotalSize(entryMap) && usedBytes <= budget
    }

    constructor (budget: nat)
      ensures Valid() && entryMap == map[] && this.budget == if budget == 0 then FALLBACK_BUDGET else budget
    {
      this.budget := if budget == 0 then FALLBACK_BUDGET else budget;
      entryMap, usedBytes := map[], 0;
    }

    predicate Fits(n: nat)
      reads this
    {
      usedBytes + n <= budget
    }

    method Put(h: Hash, d: Bytes)
      requires Valid()
      modifies this
      ensures Valid()
      ensures entryMap == if h in old(entryMap) || !old(Fits(|d|)) then old(entryMap) else old(entryMap)[h := d]
    {
      if h in entryMap || !Fits(|d|) {
        return;
      }
      TotalGrows(entryMap, h, d);
      entryMap := entryMap[h := d];
      usedBytes := usedBytes + |d|;
    }
  }

  // ---- The files ----

  datatype ZipFile = ZipFile(path: string, size: nat, content: Bytes)

  class ZipBuilder {
    const read: Hash -> Bytes
    const rewriteSet: set<Hash>
    const path: Bytes
    const target: Bytes
    const cache: RewriteCache
    const reliable: bool

    /** What is cached is what would be delivered. */
    ghost predicate Valid()
      reads this, cache
    {
      cache.Valid() && forall h :: h in cache.entryMap ==> h in rewriteSet && cache.entryMap[h] == Scanned(read(h), path, target)
    }

    constructor (read: Hash -> Bytes, rewriteSet: set<Hash>, path: Bytes, target: Bytes, budget: nat, reliable: bool)
      ensures Valid() && fresh(cache) && this.reliable == reliable
      ensures this.read == read && this.rewriteSet == rewriteSet && this.path == path && this.target == target
    {
      this.read, this.rewriteSet, this.path, this.target, this.reliable := read, rewriteSet, path, target, reliable;
      cache := new RewriteCache(budget);
    }

    /** `goFileObj.content` and `Open`. */
    method Open(e: Entry) returns (r: Option<Bytes>)
      requires Valid()
      ensures r.Some? ==> r.value == Delivered(read, rewriteSet, path, target, e.blob)
      ensures reliable ==> r.Some?
    {
      if e.blob in rewriteSet && e.blob in cache.entryMap {
        return Some(cache.entryMap[e.blob]);
      }
      var fault := Fault(reliable);
      if fault {
        return None;
      }
      var d := read(e.blob);
      if e.blob in rewriteSet {
        d := RewriteContent(d, path, target);
      }
      return Some(d);
    }

    /** `goFileObj.Lstat`: the size is that of the content `Open` will deliver, whatever the cache
        holds; a small rewritten content is cached on the way. */
    method Lstat(e: Entry) returns (r: Option<nat>)
      requires Valid() && e.size == |read(e.blob)|
      modifies cache
      ensures Valid()
      ensures r.Some? ==> r.value == |Delivered(read, rewriteSet, path, target, e.blob)|
      ensures reliable ==> r.Some?
    {
      if e.blob !in rewriteSet {
        return Some(e.size);
      }
      if e.blob in cache.entryMap {
        return Some(|cache.entryMap[e.blob]|);
      }
      var fault := Fault(reliable);
      if fault {
        return None;
      }
      var d := read(e.blob);
      var size := RewrittenSize(d, path, target);
      if size <= MAX_CACHED_REWRITE_BYTES && cache.Fits(size) {
        var rewritten := RewriteContent(d, path, target);
        cache.Put(e.blob, rewritten);
      }
      return Some(size);
    }

    /** `goZipBuilderObj.Build`: a symlink refuses the module; otherwise every entry is delivered, in
        order, at the size announced for it. */
    method Build(tree: seq<Entry>) returns (r: Option<seq<ZipFile>>)
      requires Valid() && forall e :: e in tree ==> e.size == |read(e.blob)|
      modifies cache
      ensures Valid()
      ensures (exists e :: e in tree && e.mode != File) ==> r.None?
      ensures reliable && (forall e :: e in tree ==> e.mode == File) ==> r.Some?
      ensures r.Some? ==> |r.value| == |tree| && forall i :: 0 <= i < |tree| ==>
        var content := Delivered(read, rewriteSet, path, target, tree[i].blob);
        r.value[i] == ZipFile(tree[i].path, |content|, content)
    {
      for i := 0 to |tree|
        invariant forall j :: 0 <= j < i ==> tree[j].mode == File
      {
        if tree[i].mode != File {
          return None;
        }
      }
      var sizes: seq<nat> := [];
      for i := 0 to |tree|
        invariant Valid() && |sizes| == i
        invariant forall j :: 0 <= j < i ==> sizes[j] == |Delivered(read, rewriteSet, path, target, tree[j].blob)|
      {
        var size := Lstat(tree[i]);
        if size.None? {
          return None;
        }
        sizes := sizes + [size.value];
      }
      var files: seq<ZipFile> := [];
      for i := 0 to |tree|
        invariant Valid() && |files| == i
        invariant forall j :: 0 <= j < i ==>
          files[j] == ZipFile(tree[j].path, |Delivered(read, rewriteSet, path, target, tree[j].blob)|, Delivered(read, rewriteSet, path, target, tree[j].blob))
      {
        var content := Open(tree[i]);
        if content.None? {
          return None;
        }
        files := files + [ZipFile(tree[i].path, sizes[i], content.value)];
      }
      return Some(files);
    }
  }
}
