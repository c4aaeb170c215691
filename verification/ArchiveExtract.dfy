/** Extraction into a spool directory: entries, deduplicated blobs, and the files left behind. */
module ArchiveExtract {
  import opened ArchivePaths
  import opened ObjectModel
  import opened Options
  import SymlinkRule

  const MAX_ENTRIES: nat := 1_000_000
  const MAX_U64: nat := 0xFFFF_FFFF_FFFF_FFFF

  datatype Limits = Limits(maxFiles: nat, maxFileBytes: nat, maxUnpacked: nat, maxPathBytes: nat)

  /** An archive as its records; the content of a regular file arrives in arbitrary pieces. */
  datatype Record = Directory(name: string) | Regular(name: string, chunks: seq<string>) | Link(name: string, target: string) | Unsupported(name: string)

  type Archive = seq<Record>

  /** What the model takes as given: path normalisation, the characters a symlink target may have, content
      hashing, and whether reading and writing can fail. */
  datatype Rules = Rules(clean: Cleaner, hygienic: string -> bool, hash: string -> Hash, reliable: bool) {
    predicate InRoot(path: string, target: string) {
      SymlinkRule.WithinRoot(hygienic, path, target)
    }
  }

  /** Whether the next read or write fails. */
  method Fault(x: Rules) returns (fault: bool)
    ensures x.reliable ==> !fault
  {
    fault := *;
    fault := fault && !x.reliable;
  }

  function Concat(chunks: seq<string>): string {
    if chunks == [] then "" else Concat(chunks[..|chunks| - 1]) + chunks[|chunks| - 1]
  }

  function Data(r: Record): string {
    match r
    case Regular(_, chunks) => Concat(chunks)
    case Link(_, target) => target
    case _ => ""
  }

  predicate HasContent(r: Record) {
    r.Regular? || r.Link?
  }

  // ---- What an archive unpacks to ----

  predicate WithinLimit(limit: nat, n: nat) {
    limit == 0 || n <= limit
  }

  predicate RecordAllowed(x: Rules, lim: Limits, r: Record) {
    && !r.Unsupported? && |r.name| <= lim.maxPathBytes && x.clean(r.name).Some?
    && (HasContent(r) ==> WithinLimit(lim.maxFileBytes, |Data(r)|))
    && (r.Link? ==> |r.target| <= lim.maxPathBytes)
  }

  function EntryOf(x: Rules, r: Record): Entry
    requires HasContent(r) && x.clean(r.name).Some?
  {
    Entry(x.clean(r.name).value, if r.Regular? then File else Symlink, |Data(r)|, x.hash(Data(r)))
  }

  function Gathered(x: Rules, a: Archive): seq<Entry>
    requires forall i :: 0 <= i < |a| ==> x.clean(a[i].name).Some?
  {
    if a == [] then []
    else
      var last := a[|a| - 1];
      Gathered(x, a[..|a| - 1]) + if HasContent(last) then [EntryOf(x, last)] else []
  }

  /** The target recorded for each symlink content; a later one with the same hash takes its place. */
  function Targets(x: Rules, a: Archive): map<Hash, string> {
    if a == [] then map[]
    else
      var last := a[|a| - 1];
      var before := Targets(x, a[..|a| - 1]);
      if last.Link? then before[x.hash(last.target) := last.target] else before
  }

  function TotalBytes(a: Archive): nat {
    if a == [] then 0 else TotalBytes(a[..|a| - 1]) + |Data(a[|a| - 1])|
  }

  ghost predicate Allowed(x: Rules, lim: Limits, a: Archive) {
    && |a| <= MAX_ENTRIES && WithinLimit(lim.maxFiles, |a|)
    && (forall i :: 0 <= i < |a| ==> RecordAllowed(x, lim, a[i]))
    && (lim.maxUnpacked > 0 ==> TotalBytes(a) <= lim.maxUnpacked && TotalBytes(a) <= MAX_U64)
    && SizesAgree(Gathered(x, a))
  }

  // ---- The common top directory ----

  function TopSegment(path: string): (r: Option<string>)
    ensures r.Some? ==> |r.value| < |path| && path[..|r.value|] == r.value && path[|r.value|] == '/' && '/' !in r.value
    ensures r.None? ==> '/' !in path
  {
    if path == "" then None
    else if path[0] == '/' then Some("")
    else match TopSegment(path[1..])
      case None => None
      case Some(rest) => Some([path[0]] + rest)
  }

  predicate CommonTop(es: seq<Entry>, top: string) {
    forall i :: 0 <= i < |es| ==> TopSegment(es[i].path) == Some(top)
  }

  function TrimTop(es: seq<Entry>, top: string): seq<Entry>
    requires CommonTop(es, top)
  {
    seq(|es|, i requires 0 <= i < |es| => es[i].(path := es[i].path[|top| + 1..]))
  }

  function Stripped(es: seq<Entry>): seq<Entry> {
    if es == [] then es
    else match TopSegment(es[0].path)
      case None => es
      case Some(top) => if CommonTop(es, top) then TrimTop(es, top) else es
  }

  /** One directory holds every entry. */
  predicate AllUnder(es: seq<Entry>, top: string) {
    '/' !in top && forall i :: 0 <= i < |es| ==> top + "/" <= es[i].path
  }

  /** The entries with their paths relative to that directory. */
  predicate RelativeTo(es: seq<Entry>, top: string, r: seq<Entry>) {
    |r| == |es| && forall i :: 0 <= i < |es| ==> es[i] == r[i].(path := top + "/" + r[i].path)
  }

  /** Nothing but a directory that holds every entry is taken off. */
  ghost predicate TopTakenOff(es: seq<Entry>, r: seq<Entry>) {
    && (es == [] ==> r == [])
    && (forall top :: es != [] && AllUnder(es, top) ==> RelativeTo(es, top, r))
    && ((forall top :: !AllUnder(es, top)) ==> r == es)
  }

  lemma {:induction false} TopSegmentIs(path: string, top: string)
    requires '/' !in top && top + "/" <= path
    ensures TopSegment(path) == Some(top)
  {
    if top == "" {
      assert path[0] == "/"[0];
    } else {
      assert path[0] == (top + "/")[0] == top[0];
      assert (top + "/")[1..] == top[1..] + "/" && top == [top[0]] + top[1..];
      TopSegmentIs(path[1..], top[1..]);
    }
  }

  /** A top directory is common exactly when it holds every entry. */
  lemma CommonTopHoldsAll(es: seq<Entry>, top: string)
    requires es != []
    ensures CommonTop(es, top) <==> AllUnder(es, top)
  {
    if AllUnder(es, top) {
      forall i | 0 <= i < |es| ensures TopSegment(es[i].path) == Some(top) {
        TopSegmentIs(es[i].path, top);
      }
    }
    if CommonTop(es, top) {
      assert TopSegment(es[0].path) == Some(top);
      forall i | 0 <= i < |es| ensures top + "/" <= es[i].path {
        assert TopSegment(es[i].path) == Some(top);
        assert es[i].path[..|top| + 1] == top + "/";
      }
    }
  }

  lemma StrippedTakesTopOff(es: seq<Entry>)
    ensures TopTakenOff(es, Stripped(es))
  {
    forall top | es != [] && AllUnder(es, top) ensures RelativeTo(es, top, Stripped(es)) {
      CommonTopHoldsAll(es, top);
      assert TopSegment(es[0].path) == Some(top);
      forall i | 0 <= i < |es| ensures es[i].path == top + "/" + Stripped(es)[i].path {
        assert es[i].path == (top + "/") + es[i].path[|top| + 1..];
      }
    }
    if es != [] && TopSegment(es[0].path).Some? {
      CommonTopHoldsAll(es, TopSegment(es[0].path).value);
    }
  }

  method CutTop(es: seq<Entry>, n: nat) returns (r: seq<Entry>)
    requires forall i :: 0 <= i < |es| ==> n <= |es[i].path|
    ensures |r| == |es| && forall i :: 0 <= i < |es| ==> r[i] == es[i].(path := es[i].path[n..])
  {
    r := [];
    for i := 0 to |es|
      invariant |r| == i && forall j :: 0 <= j < i ==> r[j] == es[j].(path := es[j].path[n..])
    {
      r := r + [es[i].(path := es[i].path[n..])];
    }
  }

  /** The top directory of the first entry, if it is that of all. */
  method SharedTop(es: seq<Entry>) returns (top: Option<string>)
    ensures top.Some? ==> es != [] && CommonTop(es, top.value)
    ensures top.None? ==> es == [] || TopSegment(es[0].path).None? || !CommonTop(es, TopSegment(es[0].path).value)
  {
    if es == [] {
      return None;
    }
    top := TopSegment(es[0].path);
    if top.None? {
      return;
    }
    for i := 1 to |es|
      invariant forall j :: 0 <= j < i ==> TopSegment(es[j].path) == top
    {
      if TopSegment(es[i].path) != top {
        return None;
      }
    }
  }

  /** `stripCommonTopDir`. */
  method StripCommonTopDir(es: seq<Entry>) returns (r: seq<Entry>)
    ensures r == Stripped(es)
    ensures TopTakenOff(es, r)
  {
    var top := SharedTop(es);
    if top.None? {
      r := es;
    } else {
      assert TopSegment(es[0].path) == top;
      r := CutTop(es, |top.value| + 1);
      assert r == TrimTop(es, top.value);
    }
    StrippedTakesTopOff(es);
  }

  // ---- Escaping symlinks ----

  predicate Escapes(x: Rules, targets: map<Hash, string>, e: Entry) {
    e.mode == Symlink && !x.InRoot(e.path, if e.blob in targets then targets[e.blob] else "")
  }

  function Kept(x: Rules, targets: map<Hash, string>, es: seq<Entry>): seq<Entry> {
    if es == [] then []
    else Kept(x, targets, es[..|es| - 1]) + if Escapes(x, targets, es[|es| - 1]) then [] else [es[|es| - 1]]
  }

  lemma {:induction false} KeptItems(x: Rules, targets: map<Hash, string>, es: seq<Entry>)
    ensures forall e :: e in Kept(x, targets, es) <==> e in es && !Escapes(x, targets, e)
    ensures |Kept(x, targets, es)| == |es| <==> forall e :: e in es ==> !Escapes(x, targets, e)
    ensures |Kept(x, targets, es)| <= |es|
    ensures (forall e :: e in es ==> !Escapes(x, targets, e)) ==> Kept(x, targets, es) == es
  {
    if es != [] {
      var init, last := es[..|es| - 1], es[|es| - 1];
      assert es == init + [last];
      KeptItems(x, targets, init);
    }
  }

  /** The paths of what is dropped. */
  function DroppedPaths(x: Rules, targets: map<Hash, string>, es: seq<Entry>): seq<string> {
    if es == [] then []
    else DroppedPaths(x, targets, es[..|es| - 1]) + if Escapes(x, targets, es[|es| - 1]) then [es[|es| - 1].path] else []
  }

  lemma {:induction false} NothingDropped(x: Rules, targets: map<Hash, string>, es: seq<Entry>)
    ensures DroppedPaths(x, targets, es) == [] ==> Kept(x, targets, es) == es
  {
    if es != [] {
      NothingDropped(x, targets, es[..|es| - 1]);
    }
  }

  ghost function Unpacked(x: Rules, a: Archive): seq<Entry>
    requires forall i :: 0 <= i < |a| ==> x.clean(a[i].name).Some?
  {
    Kept(x, Targets(x, a), Stripped(Gathered(x, a)))
  }

  /** Everything that can make extraction refuse an archive, apart from input and output failures. */
  ghost predicate Extractable(x: Rules, lim: Limits, a: Archive) {
    Allowed(x, lim, a) && ValidTree(x.clean, Unpacked(x, a))
  }

  // ---- Prefixes of an archive ----

  lemma GatheredNext(x: Rules, a: Archive, i: nat)
    requires i < |a| && forall j :: 0 <= j <= i ==> x.clean(a[j].name).Some?
    ensures Gathered(x, a[..i + 1]) == Gathered(x, a[..i]) + if HasContent(a[i]) then [EntryOf(x, a[i])] else []
    ensures Targets(x, a[..i + 1]) == if a[i].Link? then Targets(x, a[..i])[x.hash(a[i].target) := a[i].target] else Targets(x, a[..i])
    ensures TotalBytes(a[..i + 1]) == TotalBytes(a[..i]) + |Data(a[i])|
  {
    assert a[..i + 1][..i] == a[..i] && a[..i + 1][i] == a[i];
  }

  lemma {:induction false} AllowedPrefix(x: Rules, lim: Limits, a: Archive, i: nat)
    requires Allowed(x, lim, a) && i <= |a|
    ensures Allowed(x, lim, a[..i])
    decreases |a| - i
  {
    if i == |a| {
      assert a[..i] == a;
    } else {
      AllowedPrefix(x, lim, a, i + 1);
      var longer := a[..i + 1];
      assert longer[..i] == a[..i];
      assert forall j :: 0 <= j < i ==> a[..i][j] == longer[j];
      assert forall j :: 0 <= j <= i ==> longer[j] == a[j];
      GatheredNext(x, a, i);
      SizesAgreePrefix(Gathered(x, a[..i]), Gathered(x, longer));
    }
  }

  lemma SizesAgreePrefix(p: seq<Entry>, q: seq<Entry>)
    requires p <= q && SizesAgree(q)
    ensures SizesAgree(p)
  {
    assert forall i :: 0 <= i < |p| ==> p[i] == q[i];
  }
}
