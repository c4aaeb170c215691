/** The extractor itself: temporary files in the spool, and what is left of them.

    The spool is a set of file names. `Recoverable` is what every step keeps, even a failing
    one, and is enough for the clean-up to restore the spool; `SpoolExact` says that there
    is exactly one file for each distinct content; `BlobsExact` that the blobs are those of
    the entries. The functions that say what an archive unpacks to are in module
    ArchiveExtract. */
module ArchiveSpool {
  import opened ArchiveContents
  import opened ArchiveExtract
  import opened ArchivePaths
  import opened ObjectModel
  import opened Options
  import opened Paging
  import Lex

  /** Temporary files are numbered; a new one gets a name never used before. */
  type FileName = nat

  datatype Staged = Staged(size: nat, file: FileName)

  datatype Unpacking = Unpacking(entries: seq<Entry>, blobs: seq<(Hash, Staged)>, dropped: seq<string>)

  ghost function FilesOf(blobs: map<Hash, Staged>): set<FileName> {
    set h | h in blobs :: blobs[h].file
  }

  predicate OwnFiles(blobs: map<Hash, Staged>) {
    forall g, h :: g in blobs && h in blobs && blobs[g].file == blobs[h].file ==> g == h
  }

  class Spool {
    var files: set<FileName>
    var next: FileName

    ghost predicate Valid()
      reads this
    {
      forall f :: f in files ==> f < next
    }

    constructor ()
      ensures Valid() && files == {}
    {
      files, next := {}, 0;
    }

    /** `os.CreateTemp`. */
    method CreateTemp() returns (f: FileName)
      requires Valid()
      modifies this
      ensures Valid() && f !in old(files) && files == old(files) + {f} && f == old(next) && next == f + 1
    {
      f := next;
      files, next := files + {f}, next + 1;
    }

    method Remove(f: FileName)
      requires Valid()
      modifies this`files
      ensures Valid() && files == old(files) - {f}
    {
      files := files - {f};
    }
  }

  class Extractor {
    const x: Rules
    const lim: Limits
    const spool: Spool
    ghost const base: set<FileName>
    var headerCount: nat
    var unpackedBytes: nat
    var entries: seq<Entry>
    var blobs: map<Hash, Staged>
    var targets: map<Hash, string>
    var dropped: seq<string>
    var created: set<FileName>

    /** Enough for the clean-up after a failure: nothing but created files was added to the spool. */
    ghost predicate Recoverable()
      reads this`created, spool
    {
      spool.Valid() && base <= spool.files <= base + created && base !! created && forall f :: f in created ==> f < spool.next
    }

    /** The spool holds exactly one own file for each distinct content. */
    ghost predicate SpoolExact()
      reads this`blobs, this`created, spool
    {
      && Recoverable()
      && spool.files == base + FilesOf(blobs) && FilesOf(blobs) <= created && OwnFiles(blobs)
    }

    /** The blobs are those of the entries, at their sizes. */
    ghost predicate BlobsExact()
      reads this`entries, this`blobs
    {
      blobs.Keys == BlobsOf(entries) && forall e :: e in entries ==> blobs[e.blob].size == e.size
    }

    constructor (x: Rules, lim: Limits, spool: Spool)
      requires spool.Valid()
      ensures SpoolExact() && BlobsExact() && entries == [] && targets == map[] && dropped == []
      ensures headerCount == 0 && unpackedBytes == 0 && base == spool.files
      ensures this.x == x && this.lim == lim && this.spool == spool
    {
      this.x, this.lim, this.spool := x, lim, spool;
      base := spool.files;
      headerCount, unpackedBytes, entries, blobs, targets, dropped, created := 0, 0, [], map[], map[], [], {};
    }

    /** `cleanupCreated`. */
    method CleanupCreated()
      requires Recoverable()
      modifies spool`files
      ensures spool.Valid() && spool.files == base
    {
      spool.files := spool.files - created;
    }

    /** `countHeader`. */
    method CountHeader() returns (ok: bool)
      modifies this`headerCount
      ensures headerCount == old(headerCount) + 1
      ensures ok <==> headerCount <= MAX_ENTRIES && WithinLimit(lim.maxFiles, headerCount)
    {
      headerCount := headerCount + 1;
      ok := headerCount <= MAX_ENTRIES && !(lim.maxFiles > 0 && headerCount > lim.maxFiles);
    }

    predicate FitsUnpacked(size: nat)
      reads this`unpackedBytes
    {
      lim.maxUnpacked > 0 ==> unpackedBytes + size <= lim.maxUnpacked && unpackedBytes + size <= MAX_U64
    }

    /** `addUnpacked`: a saturating sum. */
    method AddUnpacked(size: nat) returns (ok: bool)
      modifies this`unpackedBytes
      ensures ok <==> old(FitsUnpacked(size))
      ensures unpackedBytes == if !ok then old(unpackedBytes) else if old(unpackedBytes) + size > MAX_U64 then MAX_U64 else old(unpackedBytes) + size
    {
      var overflow := unpackedBytes + size > MAX_U64;
      var attempted := if overflow then MAX_U64 else unpackedBytes + size;
      if lim.maxUnpacked > 0 && (overflow || attempted > lim.maxUnpacked) {
        return false;
      }
      unpackedBytes := attempted;
      ok := true;
    }

    predicate SizeFits(h: Hash, size: nat)
      reads this`blobs
    {
      h in blobs ==> blobs[h].size == size
    }

    /** `addEntry`: a second file with the same content is removed at once. */
    method AddEntry(e: Entry, file: FileName) returns (ok: bool)
      requires SpoolPlus(file) && BlobsExact()
      modifies this`entries, this`blobs, spool`files
      ensures ok <==> old(SizeFits(e.blob, e.size))
      ensures ok ==> SpoolExact() && BlobsExact() && entries == old(entries) + [e]
      ensures !ok ==> Recoverable()
    {
      if e.blob in blobs {
        if blobs[e.blob].size != e.size {
          return false;
        }
        spool.Remove(file);
      } else {
        FilesAdded(blobs, e.blob, Staged(e.size, file));
        blobs := blobs[e.blob := Staged(e.size, file)];
      }
      entries := entries + [e];
      ok := true;
    }

    /** An exact spool with one more file, just created and recorded. */
    ghost predicate SpoolPlus(file: FileName)
      reads this`blobs, this`created, spool
    {
      && Recoverable()
      && file in created && file !in base && file !in FilesOf(blobs)
      && spool.files == base + FilesOf(blobs) + {file} && FilesOf(blobs) <= created && OwnFiles(blobs)
    }

    /** `writeReaderEntry` up to the entry: the content is copied piece by piece into a temporary file,
        which is removed again when a limit or a failure ends the copy. */
    method CopyToTemp(chunks: seq<string>) returns (file: Option<FileName>)
      requires SpoolExact()
      modifies this`created, this`unpackedBytes, spool
      ensures file.None? ==> SpoolExact()
      ensures file.Some? ==> SpoolPlus(file.value) && created == old(created) + {file.value}
      ensures file.Some? ==> WithinLimit(lim.maxFileBytes, |Concat(chunks)|) && old(FitsUnpacked(|Concat(chunks)|))
      ensures file.Some? ==> unpackedBytes == Saturated(old(unpackedBytes) + |Concat(chunks)|)
      ensures file.None? ==> !x.reliable || !WithinLimit(lim.maxFileBytes, |Concat(chunks)|) || !old(FitsUnpacked(|Concat(chunks)|))
    {
      if lim.maxFileBytes > 0 && |Concat(chunks)| > lim.maxFileBytes {
        return None;
      }
      var fault := Fault(x);
      if fault {
        return None;
      }
      var f := spool.CreateTemp();
      var copied := CopyChunks(chunks);
      var ok := false;
      if copied {
        ok := AddUnpacked(|Concat(chunks)|);
      }
      fault := Fault(x);
      if !ok || fault {
        spool.Remove(f);
        assert spool.files == old(spool.files);
        return None;
      }
      created := created + {f};
      return Some(f);
    }

    /** The copying loop, with its checks before every write. */
    method CopyChunks(chunks: seq<string>) returns (copied: bool)
      ensures !copied ==> !x.reliable || !WithinLimit(lim.maxFileBytes, |Concat(chunks)|) || !FitsUnpacked(|Concat(chunks)|)
    {
      var size: nat := 0;
      for i := 0 to |chunks|
        invariant size == |Concat(chunks[..i])|
      {
        var fault := Fault(x);
        if fault {
          return false;
        }
        assert chunks[..i + 1][..i] == chunks[..i];
        var nextSize := size + |chunks[i]|;
        ConcatPrefix(chunks, i + 1);
        if (lim.maxFileBytes > 0 && nextSize > lim.maxFileBytes) || !FitsUnpacked(nextSize) {
          return false;
        }
        size := nextSize;
      }
      assert chunks[..|chunks|] == chunks;
      copied := true;
    }

    /** `writeReaderEntry`, and `writeBytesEntry` for a symlink target. */
    method WriteEntry(r: Record) returns (ok: bool)
      requires SpoolExact() && BlobsExact() && HasContent(r) && x.clean(r.name).Some?
      modifies this`created, this`unpackedBytes, this`entries, this`blobs, this`targets, spool
      ensures ok ==> SpoolExact() && BlobsExact() && entries == old(entries) + [EntryOf(x, r)]
      ensures ok ==> WithinLimit(lim.maxFileBytes, |Data(r)|) && old(FitsUnpacked(|Data(r)|)) && old(SizeFits(x.hash(Data(r)), |Data(r)|))
      ensures ok ==> unpackedBytes == Saturated(old(unpackedBytes) + |Data(r)|)
      ensures ok ==> targets == if r.Link? then old(targets)[x.hash(r.target) := r.target] else old(targets)
      ensures !ok ==> Recoverable()
      ensures !ok ==> !x.reliable || !WithinLimit(lim.maxFileBytes, |Data(r)|) || !old(FitsUnpacked(|Data(r)|)) || !old(SizeFits(x.hash(Data(r)), |Data(r)|))
    {
      var chunks := if r.Regular? then r.chunks else [r.target];
      assert [Data(r)][..0] == [];
      assert r.Link? ==> Concat([r.target]) == Concat([]) + r.target == r.target;
      var file;
      file := CopyToTemp(chunks);
      if file.None? {
        return false;
      }
      if r.Link? {
        targets := targets[x.hash(r.target) := r.target];
      }
      ok := AddEntry(EntryOf(x, r), file.value);
    }

    /** What a record must meet to be taken, given those before it. */
    predicate Takes(r: Record)
      reads this`headerCount, this`unpackedBytes, this`blobs
    {
      && headerCount < MAX_ENTRIES && WithinLimit(lim.maxFiles, headerCount + 1)
      && RecordAllowed(x, lim, r)
      && (HasContent(r) ==> FitsUnpacked(|Data(r)|) && SizeFits(x.hash(Data(r)), |Data(r)|))
    }

    /** The checks on one header, then its content. */
    method TakeRecord(r: Record) returns (ok: bool)
      requires SpoolExact() && BlobsExact()
      modifies this`headerCount, this`created, this`unpackedBytes, this`entries, this`blobs, this`targets, spool
      ensures ok ==> SpoolExact() && BlobsExact() && RecordAllowed(x, lim, r) && headerCount == old(headerCount) + 1
      ensures ok ==> old(Takes(r))
      ensures ok && !HasContent(r) ==> entries == old(entries) && targets == old(targets) && unpackedBytes == old(unpackedBytes)
      ensures ok && HasContent(r) ==>
        && entries == old(entries) + [EntryOf(x, r)]
        && targets == (if r.Link? then old(targets)[x.hash(r.target) := r.target] else old(targets))
        && unpackedBytes == Saturated(old(unpackedBytes) + |Data(r)|)
      ensures !ok ==> Recoverable()
      ensures !ok ==> !x.reliable || !old(Takes(r))
    {
      ok := CountHeader();
      if !ok || |r.name| > lim.maxPathBytes || x.clean(r.name).None? || r.Unsupported? {
        return false;
      }
      if r.Directory? {
        return true;
      }
      if r.Link? && |r.target| > lim.maxPathBytes {
        return false;
      }
      ok := WriteEntry(r);
    }

    /** What has been taken is an allowed prefix of the archive. */
    ghost predicate Took(a: Archive, i: nat)
      reads this`headerCount, this`unpackedBytes, this`entries, this`targets
      requires i <= |a|
    {
      && headerCount == i && Allowed(x, lim, a[..i])
      && entries == Gathered(x, a[..i]) && targets == Targets(x, a[..i])
      && unpackedBytes == Saturated(TotalBytes(a[..i]))
    }

    /** Being taken is being allowed. */
    lemma TakesIsAllowed(a: Archive, i: nat)
      requires i < |a| && Took(a, i) && BlobsExact()
      ensures Takes(a[i]) <==> Allowed(x, lim, a[..i + 1])
    {
      var r := a[i];
      assert a[..i + 1] == a[..i] + [r];
      if RecordAllowed(x, lim, r) {
        assert forall j :: 0 <= j < i ==> RecordAllowed(x, lim, a[..i][j]);
        GatheredNext(x, a, i);
        if HasContent(r) {
          AgreeOneMore(entries, EntryOf(x, r));
          SizeFitsIsAgreement(EntryOf(x, r));
        }
      } else {
        assert a[..i + 1][i] == r;
      }
    }

    lemma SizeFitsIsAgreement(e: Entry)
      requires BlobsExact()
      ensures SizeFits(e.blob, e.size) <==> forall d :: d in entries && d.blob == e.blob ==> d.size == e.size
    {
      if e.blob in blobs {
        var d :| d in entries && d.blob == e.blob;
      }
    }

    method TakeNext(a: Archive, i: nat) returns (ok: bool)
      requires SpoolExact() && BlobsExact() && i < |a| && Took(a, i)
      modifies this`headerCount, this`created, this`unpackedBytes, this`entries, this`blobs, this`targets, spool
      ensures ok ==> SpoolExact() && BlobsExact() && Took(a, i + 1)
      ensures !ok ==> Recoverable() && (!x.reliable || !Allowed(x, lim, a))
    {
      TakesIsAllowed(a, i);
      ghost var allowed := Allowed(x, lim, a[..i + 1]);
      ok := TakeRecord(a[i]);
      if ok {
        assert allowed;
        GatheredNext(x, a, i);
      } else if Allowed(x, lim, a) {
        AllowedPrefix(x, lim, a, i + 1);
      }
    }

    /** The header loop of `extractZip` and `extractTar`. */
    method TakeAll(a: Archive) returns (ok: bool)
      requires SpoolExact() && BlobsExact() && entries == [] && targets == map[] && headerCount == 0 && unpackedBytes == 0
      modifies this`headerCount, this`created, this`unpackedBytes, this`entries, this`blobs, this`targets, spool
      ensures ok ==> SpoolExact() && BlobsExact() && Took(a, |a|)
      ensures ok ==> Allowed(x, lim, a) && entries == Gathered(x, a) && targets == Targets(x, a)
      ensures !ok ==> Recoverable() && (!x.reliable || !Allowed(x, lim, a))
    {
      assert a[..0] == [];
      for i := 0 to |a|
        invariant SpoolExact() && BlobsExact() && Took(a, i)
      {
        ok := TakeNext(a, i);
        if !ok {
          return;
        }
      }
      assert a[..|a|] == a;
      ok := true;
    }

    /** `dropOrphanBlobs`: the files of blobs that no kept entry names are removed. */
    method DropOrphanBlobs(kept: seq<Entry>)
      requires SpoolExact() && BlobsOf(kept) <= blobs.Keys
      modifies this`blobs, this`targets, spool`files
      ensures SpoolExact() && blobs.Keys == BlobsOf(kept)
      ensures forall h :: h in blobs ==> h in old(blobs) && blobs[h] == old(blobs)[h]
    {
      var used := set i | 0 <= i < |kept| :: kept[i].blob;
      assert used == BlobsOf(kept);
      var todo := blobs.Keys;
      while todo != {}
        invariant todo <= blobs.Keys && SpoolExact() && used <= blobs.Keys && blobs.Keys <= used + todo
        invariant forall h :: h in blobs ==> h in old(blobs) && blobs[h] == old(blobs)[h]
        decreases todo
      {
        var h :| h in todo;
        todo := todo - {h};
        if h !in used {
          FilesDropped(blobs, h);
          spool.Remove(blobs[h].file);
          blobs, targets := blobs - {h}, targets - {h};
        }
      }
    }

    /** The loop of `filterEscapingSymlinks`. */
    method SortOutSymlinks(es: seq<Entry>) returns (kept: seq<Entry>, gone: seq<string>)
      ensures kept == Kept(x, targets, es) && gone == DroppedPaths(x, targets, es)
    {
      kept, gone := [], [];
      for i := 0 to |es|
        invariant kept == Kept(x, targets, es[..i]) && gone == DroppedPaths(x, targets, es[..i])
      {
        assert es[..i + 1][..i] == es[..i];
        var e := es[i];
        if e.mode == Symlink && !x.InRoot(e.path, if e.blob in targets then targets[e.blob] else "") {
          gone := gone + [e.path];
        } else {
          kept := kept + [e];
        }
      }
      assert es[..|es|] == es;
    }

    /** `filterEscapingSymlinks`. */
    method FilterEscapingSymlinks(es: seq<Entry>) returns (kept: seq<Entry>)
      requires SpoolExact() && blobs.Keys == BlobsOf(es)
      modifies this`blobs, this`targets, this`dropped, spool`files
      ensures kept == Kept(x, old(targets), es)
      ensures dropped == old(dropped) + DroppedPaths(x, old(targets), es)
      ensures SpoolExact() && blobs.Keys == BlobsOf(kept)
      ensures forall h :: h in blobs ==> h in old(blobs) && blobs[h] == old(blobs)[h]
    {
      var gone;
      kept, gone := SortOutSymlinks(es);
      KeptItems(x, targets, es);
      NothingDropped(x, targets, es);
      dropped := dropped + gone;
      if gone == [] {
        return es;
      }
      DropOrphanBlobs(kept);
    }

    /** `result`. */
    method Result() returns (r: Option<Unpacking>)
      requires SpoolExact() && BlobsExact()
      modifies this`blobs, this`targets, this`dropped, spool`files
      ensures Recoverable()
      ensures r.None? ==> !x.reliable || !ValidTree(x.clean, Kept(x, old(targets), Stripped(entries)))
      ensures r.Some? ==> ValidTree(x.clean, Kept(x, old(targets), Stripped(entries)))
      ensures r.Some? ==> Ascending(r.value.entries) && multiset(r.value.entries) == multiset(Kept(x, old(targets), Stripped(entries)))
      ensures r.Some? ==> r.value.dropped == old(dropped) + DroppedPaths(x, old(targets), Stripped(entries))
      ensures r.Some? ==> Inventory(r.value, spool.files, base)
    {
      var fault := Fault(x);
      if fault {
        return None;
      }
      var es := StripCommonTopDir(entries);
      StrippedBlobs(entries);
      var kept := FilterEscapingSymlinks(es);
      var sorted := ValidateFinalEntries(x.clean, kept);
      if sorted.None? {
        return None;
      }
      SameBlobs(kept, sorted.value);
      var u := Listing(sorted.value);
      return Some(u);
    }

    method Listing(es: seq<Entry>) returns (u: Unpacking)
      requires SpoolExact() && blobs.Keys == BlobsOf(es)
      ensures u.entries == es && u.dropped == dropped && Inventory(u, spool.files, base)
    {
      Lex.StrictOrder();
      var order := SortAll(blobs.Keys, Lex.Less);
      var m := blobs;
      var list := seq(|order|, i requires 0 <= i < |order| && order[i] in m => (order[i], m[order[i]]));
      u := Unpacking(es, list, dropped);
      InventoryOf(u, order, blobs, spool.files, base);
    }

  }

  /** The returned blobs are those of the returned entries, in hash order, each with a file of its own;
      and those files are all that was added to the spool. */
  ghost predicate Inventory(u: Unpacking, files: set<FileName>, base: set<FileName>) {
    && (forall i, j :: 0 <= i < j < |u.blobs| ==> Lex.Less(u.blobs[i].0, u.blobs[j].0) && u.blobs[i].1.file != u.blobs[j].1.file)
    && (forall h :: h in BlobsOf(u.entries) <==> exists i :: 0 <= i < |u.blobs| && u.blobs[i].0 == h)
    && (forall f :: f in files <==> f in base || exists i :: 0 <= i < |u.blobs| && u.blobs[i].1.file == f)
    && forall i :: 0 <= i < |u.blobs| ==> u.blobs[i].1.file !in base
  }

  lemma InventoryOf(u: Unpacking, order: seq<Hash>, blobs: map<Hash, Staged>, files: set<FileName>, base: set<FileName>)
    requires Sorted(Lex.Less, order) && (forall h :: h in order <==> h in blobs)
    requires |u.blobs| == |order| && forall i :: 0 <= i < |order| ==> order[i] in blobs && u.blobs[i] == (order[i], blobs[order[i]])
    requires blobs.Keys == BlobsOf(u.entries) && OwnFiles(blobs) && files == base + FilesOf(blobs) && FilesOf(blobs) !! base
    ensures Inventory(u, files, base)
  {
    Lex.StrictOrder();
    forall i, j | 0 <= i < j < |u.blobs| ensures Lex.Less(u.blobs[i].0, u.blobs[j].0) && u.blobs[i].1.file != u.blobs[j].1.file {
      assert order[i] != order[j];
    }
    forall h ensures h in BlobsOf(u.entries) <==> exists i :: 0 <= i < |u.blobs| && u.blobs[i].0 == h {
      if h in order {
        var i :| 0 <= i < |order| && order[i] == h;
        assert u.blobs[i].0 == h;
      }
    }
    forall f ensures f in FilesOf(blobs) <==> exists i :: 0 <= i < |u.blobs| && u.blobs[i].1.file == f {
      if f in FilesOf(blobs) {
        var h :| h in blobs && blobs[h].file == f;
        assert h in order;
        var i :| 0 <= i < |order| && order[i] == h;
        assert u.blobs[i].1.file == f;
      }
    }
    forall i | 0 <= i < |u.blobs| ensures u.blobs[i].1.file !in base {
      assert blobs[order[i]].file in FilesOf(blobs);
    }
  }

  lemma SameBlobs(a: seq<Entry>, b: seq<Entry>)
    requires multiset(a) == multiset(b)
    ensures BlobsOf(a) == BlobsOf(b)
  {
    assert forall e :: e in a <==> e in multiset(a);
    assert forall e :: e in b <==> e in multiset(b);
  }

  lemma StrippedBlobs(es: seq<Entry>)
    ensures BlobsOf(Stripped(es)) == BlobsOf(es)
  {
    var ts := Stripped(es);
    assert |ts| == |es| && forall i :: 0 <= i < |es| ==> ts[i].blob == es[i].blob;
    forall h ensures h in BlobsOf(ts) <==> h in BlobsOf(es) {
      if h in BlobsOf(ts) {
        var i :| 0 <= i < |ts| && ts[i].blob == h;
        assert es[i] in es;
      }
      if h in BlobsOf(es) {
        var i :| 0 <= i < |es| && es[i].blob == h;
        assert ts[i] in ts;
      }
    }
  }

  lemma FilesDropped(blobs: map<Hash, Staged>, h: Hash)
    requires h in blobs && OwnFiles(blobs)
    ensures FilesOf(blobs - {h}) == FilesOf(blobs) - {blobs[h].file} && blobs[h].file in FilesOf(blobs)
  {
    var less := blobs - {h};
    forall f ensures f in FilesOf(less) <==> f in FilesOf(blobs) - {blobs[h].file} {
      if f in FilesOf(blobs) && f != blobs[h].file {
        var g :| g in blobs && blobs[g].file == f;
        assert g in less;
      }
    }
  }

  /** `Extract`. On success the spool gained exactly one file for each distinct content of a returned
      entry; on any failure nothing that was created remains. Without a failure of input or output it
      succeeds exactly for the archives that are within the limits and unpack to a valid tree. */
  method Extract(x: Rules, lim: Limits, spool: Spool, a: Archive) returns (r: Option<Unpacking>)
    requires spool.Valid()
    modifies spool
    ensures spool.Valid()
    ensures r.None? ==> spool.files == old(spool.files)
    ensures r.None? ==> !x.reliable || !Extractable(x, lim, a)
    ensures r.Some? ==> Extractable(x, lim, a)
    ensures r.Some? ==> Ascending(r.value.entries) && multiset(r.value.entries) == multiset(Unpacked(x, a))
    ensures r.Some? ==> ComesOut(x, a, r.value.entries, r.value.dropped)
    ensures r.Some? ==> Inventory(r.value, spool.files, old(spool.files))
  {
    var state := new Extractor(x, lim, spool);
    var ok;
    ok := state.TakeAll(a);
    if !ok {
      state.CleanupCreated();
      return None;
    }
    r := state.Result();
    if r.None? {
      state.CleanupCreated();
    } else {
      UnpackedComesOut(x, a, r.value.entries);
    }
  }

  lemma AgreeOneMore(es: seq<Entry>, e: Entry)
    ensures SizesAgree(es + [e]) <==> SizesAgree(es) && forall d :: d in es && d.blob == e.blob ==> d.size == e.size
  {
    var more := es + [e];
    if SizesAgree(more) {
      forall i, j | 0 <= i < |es| && 0 <= j < |es| && es[i].blob == es[j].blob ensures es[i].size == es[j].size {
        assert more[i] == es[i] && more[j] == es[j];
      }
      forall d | d in es && d.blob == e.blob ensures d.size == e.size {
        var i :| 0 <= i < |es| && es[i] == d;
        assert more[i] == d && more[|es|] == e;
      }
    } else {
      assert forall i :: 0 <= i < |es| ==> es[i] in es;
    }
  }

  lemma FilesAdded(blobs: map<Hash, Staged>, h: Hash, s: Staged)
    requires h !in blobs && s.file !in FilesOf(blobs) && OwnFiles(blobs)
    ensures FilesOf(blobs[h := s]) == FilesOf(blobs) + {s.file} && OwnFiles(blobs[h := s])
  {
    var more := blobs[h := s];
    forall f ensures f in FilesOf(more) <==> f in FilesOf(blobs) + {s.file} {
      if f in FilesOf(blobs) {
        var g :| g in blobs && blobs[g].file == f;
        assert g in more && more[g].file == f;
      }
      if f == s.file {
        assert more[h].file == f;
      }
    }
    forall g | g in blobs ensures blobs[g].file != s.file {
      assert blobs[g].file in FilesOf(blobs);
    }
  }

  function Saturated(n: nat): nat {
    if n > MAX_U64 then MAX_U64 else n
  }

  lemma {:induction false} ConcatPrefix(chunks: seq<string>, i: nat)
    requires i <= |chunks|
    ensures |Concat(chunks[..i])| <= |Concat(chunks)|
    decreases |chunks| - i
  {
    if i == |chunks| {
      assert chunks[..i] == chunks;
    } else {
      ConcatPrefix(chunks, i + 1);
      assert chunks[..i + 1][..i] == chunks[..i];
    }
  }
}
