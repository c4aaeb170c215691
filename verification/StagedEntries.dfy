/** Staged entries as a caller hands them in, and the canonical tree they stand for. */
module StagedEntries {
  import opened ArchiveExtract
  import opened ArchivePaths
  import opened ArchiveRoundTrip
  import opened ArchiveSpool
  import opened ObjectModel
  import opened Options
  import TreeCodec

  datatype StagedEntry = StagedEntry(path: string, mode: string, size: nat, blob: Hash)

  function ModeOf(text: string): Option<Mode> {
    if text == "" || text == "file" then Some(File) else if text == "symlink" then Some(Symlink) else None
  }

  predicate EntryAccepted(clean: Cleaner, lim: Limits, e: StagedEntry) {
    && WithinLimit(lim.maxPathBytes, |e.path|) && clean(e.path).Some?
    && ModeOf(e.mode).Some? && !TreeCodec.IsZero(e.blob) && WithinLimit(lim.maxFileBytes, e.size)
  }

  /** The tree entry that an accepted staged entry becomes. */
  function Normalized(clean: Cleaner, e: StagedEntry): Entry
    requires clean(e.path).Some? && ModeOf(e.mode).Some?
  {
    Entry(clean(e.path).value, ModeOf(e.mode).value, e.size, e.blob)
  }

  function NormalizedAll(clean: Cleaner, es: seq<StagedEntry>): (t: seq<Entry>)
    requires forall i :: 0 <= i < |es| ==> clean(es[i].path).Some? && ModeOf(es[i].mode).Some?
    ensures |t| == |es| && forall i :: 0 <= i < |es| ==> t[i] == Normalized(clean, es[i])
  {
    seq(|es|, i requires 0 <= i < |es| => Normalized(clean, es[i]))
  }

  function StagedBytes(es: seq<StagedEntry>): nat {
    if es == [] then 0 else StagedBytes(es[..|es| - 1]) + es[|es| - 1].size
  }

  predicate BytesAccepted(lim: Limits, bytes: nat) {
    lim.maxUnpacked > 0 ==> bytes <= lim.maxUnpacked && bytes <= MAX_U64
  }

  ghost predicate Accepted(clean: Cleaner, lim: Limits, es: seq<StagedEntry>) {
    && es != [] && |es| <= MAX_ENTRIES && WithinLimit(lim.maxFiles, |es|)
    && (forall i :: 0 <= i < |es| ==> EntryAccepted(clean, lim, es[i]))
    && BytesAccepted(lim, StagedBytes(es))
  }

  ghost function SymlinkBlobs(t: seq<Entry>): set<Hash> {
    set e | e in t && e.mode == Symlink :: e.blob
  }

  datatype Staging = Staging(entries: seq<Entry>, used: set<Hash>, symlinks: set<Hash>)

  lemma {:induction false} StagedBytesPrefix(es: seq<StagedEntry>, i: nat)
    requires i <= |es|
    ensures StagedBytes(es[..i]) <= StagedBytes(es)
    decreases |es| - i
  {
    if i == |es| {
      assert es[..i] == es;
    } else {
      StagedBytesPrefix(es, i + 1);
      assert es[..i + 1][..i] == es[..i];
    }
  }

  /** The saturating sum of sizes, against its limit. */
  method AddBytes(lim: Limits, ghost sum: nat, total: nat, size: nat) returns (attempted: nat, fits: bool)
    requires total == Saturated(sum) && BytesAccepted(lim, sum)
    ensures fits <==> BytesAccepted(lim, sum + size)
    ensures attempted == Saturated(sum + size)
  {
    var overflow := total + size > MAX_U64;
    attempted := if overflow then MAX_U64 else total + size;
    fits := !(lim.maxUnpacked > 0 && (overflow || attempted > lim.maxUnpacked));
  }

  lemma OneMoreStaged(clean: Cleaner, es: seq<StagedEntry>, i: nat)
    requires i < |es| && forall j :: 0 <= j <= i ==> clean(es[j].path).Some? && ModeOf(es[j].mode).Some?
    ensures NormalizedAll(clean, es[..i + 1]) == NormalizedAll(clean, es[..i]) + [Normalized(clean, es[i])]
  {
  }

  lemma OneMoreSize(es: seq<StagedEntry>, i: nat)
    requires i < |es|
    ensures StagedBytes(es[..i]) + es[i].size == StagedBytes(es[..i + 1]) <= StagedBytes(es)
  {
    assert es[..i + 1][..i] == es[..i];
    StagedBytesPrefix(es, i + 1);
  }

  ghost predicate Collected(s: Staging) {
    s.used == BlobsOf(s.entries) && s.symlinks == SymlinkBlobs(s.entries)
  }

  /** One entry of `normalizeStagedEntries`. */
  method TakeStaged(clean: Cleaner, lim: Limits, e: StagedEntry, s: Staging) returns (r: Option<Staging>)
    requires Collected(s)
    ensures r.Some? <==> EntryAccepted(clean, lim, e)
    ensures r.Some? ==> Collected(r.value) && r.value.entries == s.entries + [Normalized(clean, e)]
  {
    if !EntryAccepted(clean, lim, e) {
      return None;
    }
    var n := Normalized(clean, e);
    OneMoreBlob(s.entries, n);
    return Some(Staging(s.entries + [n], s.used + {e.blob}, if n.mode == Symlink then s.symlinks + {e.blob} else s.symlinks));
  }

  /** `normalizeStagedEntries`: refused exactly when some entry is malformed or a limit is exceeded; each
      entry becomes its normal form, and the blobs in use and those of symlinks are collected. */
  method NormalizeStaged(clean: Cleaner, lim: Limits, es: seq<StagedEntry>) returns (r: Option<Staging>)
    ensures r.Some? <==> Accepted(clean, lim, es)
    ensures r.Some? ==> r.value.entries == NormalizedAll(clean, es) && Collected(r.value)
  {
    if es == [] || |es| > MAX_ENTRIES || (lim.maxFiles > 0 && |es| > lim.maxFiles) {
      return None;
    }
    var s := Staging([], {}, {});
    var total: nat := 0;
    for i := 0 to |es|
      invariant forall j :: 0 <= j < i ==> EntryAccepted(clean, lim, es[j])
      invariant s.entries == NormalizedAll(clean, es[..i]) && Collected(s)
      invariant total == Saturated(StagedBytes(es[..i])) && BytesAccepted(lim, StagedBytes(es[..i]))
    {
      var next := TakeStaged(clean, lim, es[i], s);
      if next.None? {
        return None;
      }
      OneMoreStaged(clean, es, i);
      OneMoreSize(es, i);
      var fits;
      total, fits := AddBytes(lim, StagedBytes(es[..i]), total, es[i].size);
      if !fits {
        return None;
      }
      s := next.value;
    }
    assert es[..|es|] == es;
    return Some(s);
  }

  lemma OneMoreBlob(t: seq<Entry>, e: Entry)
    ensures BlobsOf(t + [e]) == BlobsOf(t) + {e.blob}
    ensures SymlinkBlobs(t + [e]) == SymlinkBlobs(t) + if e.mode == Symlink then {e.blob} else {}
  {
  }

  /** `CanonicalTree`: the normal forms, and the hash of their tree object, whatever order they came in. */
  method CanonicalTree(clean: Cleaner, lim: Limits, hash: string -> Hash, es: seq<StagedEntry>) returns (r: Option<(seq<Entry>, Hash)>)
    requires TreeCodec.Bounded(clean)
    requires forall i :: 0 <= i < |es| ==> es[i].size <= MAX_U64 && |es[i].blob| == TreeCodec.HASH_SIZE
    ensures r.Some? ==> Accepted(clean, lim, es) && r.value.0 == NormalizedAll(clean, es) && TreeCodec.Valid(clean, r.value.0)
    ensures r.Some? ==> exists data :: TreeCodec.EncodesTo(r.value.0, data) && r.value.1 == hash(data)
    ensures r.None? ==> !Accepted(clean, lim, es) || forall data ::
      TreeCodec.Valid(clean, NormalizedAll(clean, es)) && TreeCodec.EncodesTo(NormalizedAll(clean, es), data) ==> |data| > TreeCodec.MAX_OBJECT_BYTES
  {
    var tree := NormalizeStaged(clean, lim, es);
    if tree.None? {
      return None;
    }
    forall e | e in tree.value.entries ensures TreeCodec.Representable(e) {
      var i :| 0 <= i < |es| && tree.value.entries[i] == e;
    }
    var data := TreeCodec.Encode(clean, tree.value.entries);
    if data.None? {
      return None;
    }
    return Some((tree.value.entries, hash(data.value)));
  }

  /** Two listings that are accepted get one tree hash exactly when they stand for the same entries,
      provided the hash tells their tree objects apart: this is what lets a rescan skip a version whose
      tree it knows. */
  lemma SameHashSameTree(clean: Cleaner, hash: string -> Hash, a: seq<Entry>, b: seq<Entry>, data: string, other: string)
    requires TreeCodec.Valid(clean, a) && TreeCodec.Valid(clean, b) && TreeCodec.EncodesTo(a, data) && TreeCodec.EncodesTo(b, other)
    requires hash(data) == hash(other) ==> data == other
    ensures hash(data) == hash(other) <==> multiset(a) == multiset(b)
  {
    TreeCodec.SameBytesSameTree(clean, a, b, data, other);
  }

  // ---- The symlink check under `writeMu` ----

  /** One of the first `i` entries is a symlink with this content. */
  predicate LinkedBefore(t: seq<Entry>, i: nat, h: Hash)
    requires i <= |t|
  {
    exists j :: 0 <= j < i && t[j].mode == Symlink && t[j].blob == h
  }

  lemma LinkedNext(t: seq<Entry>, i: nat)
    requires i < |t|
    ensures forall h :: LinkedBefore(t, i + 1, h) <==> LinkedBefore(t, i, h) || (t[i].mode == Symlink && t[i].blob == h)
  {
    forall h ensures LinkedBefore(t, i + 1, h) <==> LinkedBefore(t, i, h) || (t[i].mode == Symlink && t[i].blob == h) {
      if LinkedBefore(t, i + 1, h) {
        var j :| 0 <= j < i + 1 && t[j].mode == Symlink && t[j].blob == h;
      }
      if LinkedBefore(t, i, h) {
        var j :| 0 <= j < i && t[j].mode == Symlink && t[j].blob == h;
      }
    }
  }

  /** A symlink whose target is allowed where it stands, and which has the size of the first one read. */
  predicate LinkVerified(x: Rules, lim: Limits, content: Content, t: seq<Entry>, i: nat)
    requires i < |t|
  {
    t[i].mode == Symlink ==>
      && TargetAllowed(x, lim, t[i].path, content(t[i].blob))
      && (!LinkedBefore(t, i, t[i].blob) ==> |content(t[i].blob)| == t[i].size)
  }

  /** `verifySymlinkTargets`: each target is loaded once and checked for every symlink that has it. */
  method VerifySymlinkTargets(x: Rules, lim: Limits, content: Content, t: seq<Entry>) returns (ok: bool)
    ensures ok ==> forall i :: 0 <= i < |t| ==> LinkVerified(x, lim, content, t, i)
    ensures !ok ==> !x.reliable || exists i :: 0 <= i < |t| && !LinkVerified(x, lim, content, t, i)
  {
    var loaded: map<Hash, string> := map[];
    for i := 0 to |t|
      invariant forall j :: 0 <= j < i ==> LinkVerified(x, lim, content, t, j)
      invariant forall h :: h in loaded ==> loaded[h] == content(h)
      invariant forall h :: h in loaded <==> LinkedBefore(t, i, h)
    {
      LinkedNext(t, i);
      if t[i].mode == Symlink {
        if t[i].blob !in loaded {
          var fault := Fault(x);
          if fault || |content(t[i].blob)| != t[i].size {
            assert fault || !LinkVerified(x, lim, content, t, i);
            return false;
          }
          loaded := loaded[t[i].blob := content(t[i].blob)];
        }
        if !TargetAllowed(x, lim, t[i].path, loaded[t[i].blob]) {
          assert !LinkVerified(x, lim, content, t, i);
          return false;
        }
      }
    }
    return true;
  }

  /** With content addressing and the sizes that the reference check compared, a tree that passes it is
      one that can be packed and unpacked unchanged. */
  lemma VerifiedIsStored(x: Rules, lim: Limits, content: Content, t: seq<Entry>)
    requires forall e :: e in t ==> x.hash(content(e.blob)) == e.blob && |content(e.blob)| == e.size
    ensures Stored(x, lim, content, t) <==> forall i :: 0 <= i < |t| ==> LinkVerified(x, lim, content, t, i)
  {
    forall i | 0 <= i < |t| ensures ContentWritable(x, lim, content, t[i]) <==> LinkVerified(x, lim, content, t, i) {
      assert t[i] in t;
    }
  }
}
