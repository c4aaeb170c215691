/** What the state object keeps per mirror key, and the availability machine that gates a change of
    its classification. */
module Availability {

  datatype Class = Unclassified | Git | Brother

  datatype Reach = Unknown | Available | TemporaryDown | PermanentDown

  /** Times are integers; 0 is the zero time. */
  datatype Shown = Shown(kind: Class, sourceURL: string, brotherURL: string, remoteKey: string,
                         reach: Reach, cycles: nat, lastScan: int, present: bool,
                         latestVersion: string, versionCount: nat, lastPublish: int)

  datatype Key = Key(shown: Shown, reclassAllowed: bool)

  datatype Scan = Scan(available: bool, present: bool, at: int)

  predicate StaleScan(k: Key, at: int) {
    if k.shown.lastScan == 0 then at == 0 && k.shown.reach != Unknown else at < k.shown.lastScan
  }

  predicate SameCycleReplay(k: Key, at: int) {
    k.shown.lastScan != 0 && at == k.shown.lastScan && k.shown.reach != Available
  }

  predicate Ignored(k: Key, at: int) {
    StaleScan(k, at) || SameCycleReplay(k, at)
  }

  function ApplyAvailable(k: Key, scan: Scan): Key {
    if Ignored(k, scan.at) then k
    else Key(k.shown.(reach := Available, cycles := 0, present := scan.present, lastScan := scan.at),
             k.reclassAllowed || k.shown.reach == PermanentDown)
  }

  function ApplyUnavailable(k: Key, scan: Scan, permanentAt: nat): Key {
    if Ignored(k, scan.at) then k
    else
      var n := if k.shown.cycles < permanentAt then k.shown.cycles + 1 else k.shown.cycles;
      Key(k.shown.(reach := if n >= permanentAt then PermanentDown else TemporaryDown, cycles := n, present := false, lastScan := scan.at), false)
  }

  function Apply(k: Key, scan: Scan, permanentAt: nat): Key {
    if scan.available then ApplyAvailable(k, scan) else ApplyUnavailable(k, scan, permanentAt)
  }

  /** A scan counts when it is later than the last one, or as late while the source is up; without a last
      one, when it has a time or nothing is known yet. */
  predicate ScanCounts(b: Shown, at: int) {
    if b.lastScan != 0 then at > b.lastScan || (at == b.lastScan && b.reach == Available)
    else at != 0 || b.reach == Unknown
  }

  /** What a scan does to a key. One that counts is shown with its time and whether it found anything; an
      available one clears the counter, and permits a change of class after a full outage; an unavailable
      one counts up to the limit, where the outage is full, and takes the permission back. */
  predicate ScanShown(k: Key, k': Key, scan: Scan, permanentAt: nat) {
    var a, b := k.shown, k'.shown;
    if !ScanCounts(a, scan.at) then k' == k
    else
      && b.lastScan == scan.at && b.present == (scan.available && scan.present)
      && b == a.(reach := b.reach, cycles := b.cycles, present := b.present, lastScan := b.lastScan)
      && if scan.available then
           b.reach == Available && b.cycles == 0 && (k'.reclassAllowed <==> k.reclassAllowed || a.reach == PermanentDown)
         else
           && (a.cycles < permanentAt ==> b.cycles == a.cycles + 1) && (a.cycles >= permanentAt ==> b.cycles == a.cycles)
           && b.reach in {TemporaryDown, PermanentDown} && (b.reach == PermanentDown <==> b.cycles >= permanentAt)
           && !k'.reclassAllowed
  }

  lemma ScanIsShown(k: Key, scan: Scan, permanentAt: nat)
    ensures ScanShown(k, Apply(k, scan, permanentAt), scan, permanentAt)
  {
  }

  /** What recording a class changes of a key: the class and the addresses that go with it, and a changed
      class uses up the permission to change it. */
  predicate ClassShown(k: Key, k': Key, c: Class, sourceURL: string, brotherURL: string) {
    var a, b := k.shown, k'.shown;
    && b.kind == c && (sourceURL == "" ==> b.sourceURL == a.sourceURL) && (sourceURL != "" ==> b.sourceURL == sourceURL)
    && (c == Brother ==> b.brotherURL == brotherURL) && (c != Brother ==> b.brotherURL == "")
    && b == a.(kind := b.kind, sourceURL := b.sourceURL, brotherURL := b.brotherURL)
    && (a.kind == c ==> k'.reclassAllowed == k.reclassAllowed) && (a.kind != c ==> !k'.reclassAllowed)
  }

  lemma ClassIsShown(k: Key, c: Class, sourceURL: string, brotherURL: string)
    ensures ClassShown(k, Classified(k, c, sourceURL, brotherURL), c, sourceURL, brotherURL)
  {
  }

  predicate ClassChange(k: Key, c: Class) {
    k.shown.kind != c
  }

  predicate ReclassRefused(k: Key, c: Class) {
    ClassChange(k, c) && k.shown.kind != Unclassified && !k.reclassAllowed
  }

  /** `SetClassification` when it is not refused. */
  function Classified(k: Key, c: Class, sourceURL: string, brotherURL: string): Key {
    Key(k.shown.(kind := c,
                 sourceURL := if sourceURL != "" then sourceURL else k.shown.sourceURL,
                 brotherURL := if c == Brother then brotherURL else ""),
        k.reclassAllowed && !ClassChange(k, c))
  }

  // ---- Runs of one key ----

  datatype Event = Scanned(scan: Scan) | Classify(c: Class, sourceURL: string, brotherURL: string)

  function After(k: Key, e: Event, permanentAt: nat): Key {
    match e
    case Scanned(scan) => Apply(k, scan, permanentAt)
    case Classify(c, s, b) => if ReclassRefused(k, c) then k else Classified(k, c, s, b)
  }

  /** Scan timestamps are never the zero time (it is refused before it gets here), and only real
      classes are recorded. */
  predicate Allowed(e: Event) {
    match e
    case Scanned(scan) => scan.at != 0
    case Classify(c, _, _) => c != Unclassified
  }

  ghost predicate Run(ks: seq<Key>, es: seq<Event>, permanentAt: nat) {
    && permanentAt >= 1
    && |ks| == |es| + 1
    && IsNew(ks[0])
    && forall i :: 0 <= i < |es| ==> Allowed(es[i]) && ks[i + 1] == After(ks[i], es[i], permanentAt)
  }

  predicate IsNew(k: Key) {
    k.shown.kind == Unclassified && k.shown.reach == Unknown && k.shown.cycles == 0 && k.shown.lastScan == 0 && !k.reclassAllowed
  }

  /** The counter is capped at the limit and determines the status; a key that was never scanned is unknown. */
  predicate CounterExact(k: Key, permanentAt: nat) {
    && k.shown.cycles <= permanentAt
    && (k.shown.reach == PermanentDown <==> k.shown.cycles == permanentAt)
    && (k.shown.reach == TemporaryDown <==> 0 < k.shown.cycles < permanentAt)
    && (k.shown.reach == Unknown <==> k.shown.lastScan == 0)
    && (k.shown.reach == Unknown ==> k.shown.cycles == 0)
    && (k.reclassAllowed ==> k.shown.reach == Available)
  }

  lemma {:induction false} CounterDeterminesStatus(ks: seq<Key>, es: seq<Event>, permanentAt: nat, i: nat)
    requires Run(ks, es, permanentAt) && i < |ks|
    ensures CounterExact(ks[i], permanentAt)
    decreases i
  {
    if i > 0 {
      CounterDeterminesStatus(ks, es, permanentAt, i - 1);
      assert ks[i] == After(ks[i - 1], es[i - 1], permanentAt);
    }
  }

  predicate Counted(ks: seq<Key>, es: seq<Event>, i: nat)
    requires |ks| == |es| + 1 && i < |es|
  {
    ks[i + 1].shown.cycles > ks[i].shown.cycles
  }

  /** A scan that is taken into account raises the counter by at most one. */
  lemma CounterRisesByOne(ks: seq<Key>, es: seq<Event>, permanentAt: nat, i: nat)
    requires Run(ks, es, permanentAt) && i < |es|
    ensures ks[i + 1].shown.cycles <= ks[i].shown.cycles + 1
    ensures Counted(ks, es, i) ==> es[i].Scanned? && !es[i].scan.available && es[i].scan.at == ks[i + 1].shown.lastScan
  {
    assert ks[i + 1] == After(ks[i], es[i], permanentAt);
  }

  lemma {:induction false} LastScanGrows(ks: seq<Key>, es: seq<Event>, permanentAt: nat, i: nat, j: nat)
    requires Run(ks, es, permanentAt) && i <= j < |ks| && ks[i].shown.lastScan != 0
    ensures ks[i].shown.lastScan <= ks[j].shown.lastScan && ks[j].shown.lastScan != 0
    decreases j
  {
    if i < j {
      LastScanGrows(ks, es, permanentAt, i, j - 1);
      CounterDeterminesStatus(ks, es, permanentAt, j - 1);
      assert ks[j] == After(ks[j - 1], es[j - 1], permanentAt);
    }
  }

  /** At a scan time that already counted, a later scan is a replay until the time moves on. */
  lemma {:induction false} DownUntilTimeMoves(ks: seq<Key>, es: seq<Event>, permanentAt: nat, i: nat, j: nat)
    requires Run(ks, es, permanentAt) && i < j < |ks| && Counted(ks, es, i)
    requires ks[j].shown.lastScan == ks[i + 1].shown.lastScan
    ensures ks[j].shown.reach == ks[i + 1].shown.reach && ks[j].shown.cycles == ks[i + 1].shown.cycles
    decreases j
  {
    assert ks[i + 1] == After(ks[i], es[i], permanentAt);
    CounterRisesByOne(ks, es, permanentAt, i);
    CounterDeterminesStatus(ks, es, permanentAt, i + 1);
    if i + 1 < j {
      LastScanGrows(ks, es, permanentAt, i + 1, j - 1);
      LastScanGrows(ks, es, permanentAt, j - 1, j);
      DownUntilTimeMoves(ks, es, permanentAt, i, j - 1);
      CounterDeterminesStatus(ks, es, permanentAt, j - 1);
      assert ks[j] == After(ks[j - 1], es[j - 1], permanentAt);
    }
  }

  /** The counter rises at most once for each scan timestamp. */
  lemma OneRisePerTimestamp(ks: seq<Key>, es: seq<Event>, permanentAt: nat, i: nat, j: nat)
    requires Run(ks, es, permanentAt) && i < j < |es| && Counted(ks, es, i) && Counted(ks, es, j)
    ensures es[i].scan.at < es[j].scan.at
  {
    CounterRisesByOne(ks, es, permanentAt, i);
    CounterRisesByOne(ks, es, permanentAt, j);
    LastScanGrows(ks, es, permanentAt, i + 1, j);
    LastScanGrows(ks, es, permanentAt, j, j + 1);
    assert ks[j + 1] == After(ks[j], es[j], permanentAt);
    if ks[j].shown.lastScan == ks[i + 1].shown.lastScan {
      DownUntilTimeMoves(ks, es, permanentAt, i, j);
      CounterDeterminesStatus(ks, es, permanentAt, i + 1);
    }
  }

  // ---- What a change of class costs ----

  /** A change of class of a key that already has one. */
  predicate Reclassifies(ks: seq<Key>, es: seq<Event>, i: nat)
    requires |ks| == |es| + 1 && i < |es|
  {
    es[i].Classify? && ks[i].shown.kind != Unclassified && ks[i + 1].shown.kind != ks[i].shown.kind
  }

  /** Nothing that scans decide changed in step `i`. */
  predicate Quiet(ks: seq<Key>, i: nat)
    requires i + 1 < |ks|
  {
    var a, b := ks[i].shown, ks[i + 1].shown;
    a.reach == b.reach && a.cycles == b.cycles && a.lastScan == b.lastScan && a.present == b.present
  }

  /** The steps at which the counter went from 0 to `n`, one by one and with nothing in between. */
  ghost predicate Climb(ks: seq<Key>, es: seq<Event>, marks: seq<nat>, from: nat, end: nat, n: nat)
    requires |ks| == |es| + 1 && end < |ks|
  {
    && |marks| == n
    && (forall m :: 0 <= m < n ==> from <= marks[m] < end && Counted(ks, es, marks[m]) && ks[marks[m] + 1].shown.cycles == m + 1)
    && (forall m, l :: 0 <= m < l < n ==> marks[m] < marks[l])
    && (n > 0 ==> forall i :: marks[0] < i < marks[n - 1] && i !in marks ==> Quiet(ks, i))
  }

  lemma CounterStep(ks: seq<Key>, es: seq<Event>, permanentAt: nat, r: nat)
    requires Run(ks, es, permanentAt) && r < |es| && ks[r + 1].shown.cycles > 0
    ensures ks[r].shown.cycles == ks[r + 1].shown.cycles || (Counted(ks, es, r) && ks[r].shown.cycles + 1 == ks[r + 1].shown.cycles)
    ensures ks[r].shown.cycles == ks[r + 1].shown.cycles < permanentAt ==> Quiet(ks, r)
    ensures ks[r].shown.cycles <= permanentAt
  {
    assert ks[r + 1] == After(ks[r], es[r], permanentAt);
    CounterDeterminesStatus(ks, es, permanentAt, r);
  }

  lemma ClimbHigher(ks: seq<Key>, es: seq<Event>, lower: seq<nat>, from: nat, r: nat, n: nat)
    requires |ks| == |es| + 1 && from <= r < |es| && n > 0 && Climb(ks, es, lower, from, r, n - 1)
    requires Counted(ks, es, r) && ks[r + 1].shown.cycles == n
    requires n > 1 ==> forall i :: lower[n - 2] < i < r ==> Quiet(ks, i)
    ensures Climb(ks, es, lower + [r], from, r + 1, n)
  {
    var marks := lower + [r];
    assert forall m :: 0 <= m < n - 1 ==> marks[m] == lower[m];
    forall i | marks[0] < i < r && i !in marks ensures Quiet(ks, i) {
      assert i !in lower;
      if i < lower[n - 2] {
      } else {
        assert lower[n - 2] in lower;
      }
    }
  }

  lemma {:induction false} ClimbTo(ks: seq<Key>, es: seq<Event>, permanentAt: nat, from: nat, end: nat, n: nat) returns (marks: seq<nat>)
    requires Run(ks, es, permanentAt) && from <= end < |ks|
    requires ks[from].shown.cycles == 0 && ks[end].shown.cycles == n
    ensures Climb(ks, es, marks, from, end, n)
    ensures 0 < n < permanentAt ==> forall i :: marks[n - 1] < i < end ==> Quiet(ks, i)
    decreases end
  {
    if n == 0 {
      return [];
    }
    var r := end - 1;
    CounterStep(ks, es, permanentAt, r);
    if ks[r].shown.cycles == n {
      marks := ClimbTo(ks, es, permanentAt, from, r, n);
    } else {
      var lower := ClimbTo(ks, es, permanentAt, from, r, n - 1);
      CounterDeterminesStatus(ks, es, permanentAt, end);
      ClimbHigher(ks, es, lower, from, r, n);
      marks := lower + [r];
    }
  }

  /** A full outage: `permanentAt` unavailable scans in a row, each at a later time than the one before. */
  ghost predicate FullOutage(ks: seq<Key>, es: seq<Event>, permanentAt: nat, marks: seq<nat>, from: nat, end: nat)
    requires |ks| == |es| + 1 && end < |ks|
  {
    && Climb(ks, es, marks, from, end, permanentAt)
    && (forall m :: 0 <= m < permanentAt ==> es[marks[m]].Scanned? && !es[marks[m]].scan.available)
    && (forall m, l :: 0 <= m < l < permanentAt ==> es[marks[m]].scan.at < es[marks[l]].scan.at)
  }

  lemma {:induction false} WhenAllowed(ks: seq<Key>, es: seq<Event>, permanentAt: nat, from: nat, end: nat) returns (r: nat)
    requires Run(ks, es, permanentAt) && from <= end < |ks|
    requires !ks[from].reclassAllowed && ks[end].reclassAllowed
    ensures from <= r < end && ks[r].shown.cycles == permanentAt
    decreases end
  {
    r := end - 1;
    CounterDeterminesStatus(ks, es, permanentAt, r);
    assert ks[end] == After(ks[r], es[r], permanentAt);
    if ks[r].reclassAllowed {
      r := WhenAllowed(ks, es, permanentAt, from, r);
    }
  }

  lemma OutageFromTo(ks: seq<Key>, es: seq<Event>, permanentAt: nat, k: nat, r: nat) returns (marks: seq<nat>)
    requires Run(ks, es, permanentAt) && k <= r < |ks| && ks[k].shown.cycles == 0 && ks[r].shown.cycles == permanentAt
    ensures FullOutage(ks, es, permanentAt, marks, k, r)
  {
    marks := ClimbTo(ks, es, permanentAt, k, r, permanentAt);
    forall m | 0 <= m < permanentAt ensures es[marks[m]].Scanned? && !es[marks[m]].scan.available {
      CounterRisesByOne(ks, es, permanentAt, marks[m]);
    }
    forall m, l | 0 <= m < l < permanentAt ensures es[marks[m]].scan.at < es[marks[l]].scan.at {
      OneRisePerTimestamp(ks, es, permanentAt, marks[m], marks[l]);
    }
  }

  lemma OutageWithin(ks: seq<Key>, es: seq<Event>, permanentAt: nat, from: nat, end: nat) returns (marks: seq<nat>)
    requires Run(ks, es, permanentAt) && from <= end < |ks|
    requires ks[from].shown.cycles == 0 && !ks[from].reclassAllowed && ks[end].reclassAllowed
    ensures FullOutage(ks, es, permanentAt, marks, from, end)
  {
    var r := WhenAllowed(ks, es, permanentAt, from, end);
    marks := OutageFromTo(ks, es, permanentAt, from, r);
  }

  lemma ReclassificationResets(ks: seq<Key>, es: seq<Event>, permanentAt: nat, i: nat)
    requires Run(ks, es, permanentAt) && i < |es| && Reclassifies(ks, es, i)
    ensures ks[i].reclassAllowed && !ks[i + 1].reclassAllowed && ks[i + 1].shown.cycles == 0
  {
    CounterDeterminesStatus(ks, es, permanentAt, i);
    assert ks[i + 1] == After(ks[i], es[i], permanentAt);
  }

  /** A classified key changes class only after a full outage. */
  lemma ReclassificationNeedsOutage(ks: seq<Key>, es: seq<Event>, permanentAt: nat, j: nat) returns (marks: seq<nat>)
    requires Run(ks, es, permanentAt) && j < |es| && Reclassifies(ks, es, j)
    ensures FullOutage(ks, es, permanentAt, marks, 0, j)
  {
    ReclassificationResets(ks, es, permanentAt, j);
    marks := OutageWithin(ks, es, permanentAt, 0, j);
  }

  /** And each further change needs an outage of its own, entirely after the previous change. */
  lemma EachReclassificationNeedsItsOwn(ks: seq<Key>, es: seq<Event>, permanentAt: nat, i: nat, j: nat) returns (marks: seq<nat>)
    requires Run(ks, es, permanentAt) && i < j < |es| && Reclassifies(ks, es, i) && Reclassifies(ks, es, j)
    ensures FullOutage(ks, es, permanentAt, marks, i + 1, j)
  {
    ReclassificationResets(ks, es, permanentAt, i);
    ReclassificationResets(ks, es, permanentAt, j);
    marks := OutageWithin(ks, es, permanentAt, i + 1, j);
  }

  // ---- The first class, and the outage before it ----

  /** The key gets its first class in step `f`, which costs nothing. */
  predicate FirstClass(ks: seq<Key>, es: seq<Event>, f: nat)
    requires |ks| == |es| + 1 && f < |es|
  {
    es[f].Classify? && ks[f].shown.kind == Unclassified
  }

  ghost predicate OutageIn(ks: seq<Key>, es: seq<Event>, permanentAt: nat, from: nat, end: nat)
    requires |ks| == |es| + 1 && end < |ks|
  {
    exists marks: seq<nat> :: FullOutage(ks, es, permanentAt, marks, from, end)
  }

  /** The counter is 0 in one of these states and reaches the limit in a later one. */
  predicate FromZeroToLimit(ks: seq<Key>, permanentAt: nat, from: nat, end: nat)
    requires end <= |ks|
  {
    exists k, r :: from <= k <= r < end && ks[k].shown.cycles == 0 && ks[r].shown.cycles == permanentAt
  }

  lemma FirstClassCosts(ks: seq<Key>, es: seq<Event>, permanentAt: nat, f: nat)
    requires Run(ks, es, permanentAt) && f < |es| && FirstClass(ks, es, f)
    ensures ks[f + 1].shown.kind == es[f].c && ks[f + 1].shown.kind != Unclassified && !ks[f + 1].reclassAllowed
    ensures ks[f + 1].shown.cycles == ks[f].shown.cycles && ks[f + 1].shown.lastScan == ks[f].shown.lastScan
  {
    assert ks[f + 1] == After(ks[f], es[f], permanentAt);
  }

  /** A full outage starts at counter 0 and ends at the limit, and between such states there is one. */
  lemma OutageIsClimb(ks: seq<Key>, es: seq<Event>, permanentAt: nat, from: nat, end: nat)
    requires Run(ks, es, permanentAt) && from <= end < |ks|
    ensures OutageIn(ks, es, permanentAt, from, end) <==> FromZeroToLimit(ks, permanentAt, from, end + 1)
  {
    if OutageIn(ks, es, permanentAt, from, end) {
      var marks: seq<nat> :| FullOutage(ks, es, permanentAt, marks, from, end);
      var k, r := marks[0], marks[permanentAt - 1] + 1;
      assert from <= k <= r < end + 1 && ks[k].shown.cycles == 0 && ks[r].shown.cycles == permanentAt;
    }
    if FromZeroToLimit(ks, permanentAt, from, end + 1) {
      var k, r :| from <= k <= r < end + 1 && ks[k].shown.cycles == 0 && ks[r].shown.cycles == permanentAt;
      var marks := OutageFromTo(ks, es, permanentAt, k, r);
      assert FullOutage(ks, es, permanentAt, marks, from, end);
    }
  }

  /** Between its first class and a later change of class a key went through a full outage if and only
      if the counter was 0 after the first class and before the limit that allowed the change. */
  lemma OutageAfterFirstClass(ks: seq<Key>, es: seq<Event>, permanentAt: nat, f: nat, j: nat)
    requires Run(ks, es, permanentAt) && f < j < |es| && FirstClass(ks, es, f) && Reclassifies(ks, es, j)
    ensures OutageIn(ks, es, permanentAt, f + 1, j) <==> FromZeroToLimit(ks, permanentAt, f + 1, j)
    ensures ks[f].shown.cycles == 0 ==> OutageIn(ks, es, permanentAt, f + 1, j)
  {
    FirstClassCosts(ks, es, permanentAt, f);
    ReclassificationResets(ks, es, permanentAt, j);
    CounterDeterminesStatus(ks, es, permanentAt, j);
    OutageIsClimb(ks, es, permanentAt, f + 1, j);
    if ks[f].shown.cycles == 0 {
      var marks := OutageWithin(ks, es, permanentAt, f + 1, j);
    }
  }

  /** One run goes on as another. */
  ghost predicate GoesOnAs(ks: seq<Key>, es: seq<Event>, ks': seq<Key>, es': seq<Event>, permanentAt: nat) {
    Run(ks, es, permanentAt) && Run(ks', es', permanentAt) && ks <= ks' && es <= es'
  }

  lemma OneMore(ks: seq<Key>, es: seq<Event>, permanentAt: nat, e: Event) returns (ks': seq<Key>, es': seq<Event>)
    requires Run(ks, es, permanentAt) && Allowed(e)
    ensures GoesOnAs(ks, es, ks', es', permanentAt) && |es'| == |es| + 1 && es'[|es|] == e
    ensures ks'[|es'|] == After(ks[|es|], e, permanentAt)
  {
    ks', es' := ks + [After(ks[|es|], e, permanentAt)], es + [e];
  }

  /** Unavailable scans, each later than the one before, take a counter that is not 0 to the limit. */
  lemma {:induction false} StaysDown(ks: seq<Key>, es: seq<Event>, permanentAt: nat) returns (ks': seq<Key>, es': seq<Event>)
    requires Run(ks, es, permanentAt) && ks[|es|].shown.cycles > 0
    ensures GoesOnAs(ks, es, ks', es', permanentAt) && ks'[|es'|].shown.cycles == permanentAt
    ensures ks'[|es'|].shown.kind == ks[|es|].shown.kind
    ensures forall i :: |es| <= i < |ks'| ==> ks'[i].shown.cycles > 0
    decreases permanentAt - ks[|es|].shown.cycles
  {
    var k := ks[|es|];
    CounterDeterminesStatus(ks, es, permanentAt, |es|);
    if k.shown.cycles == permanentAt {
      return ks, es;
    }
    var at := if k.shown.lastScan == -1 then 1 else k.shown.lastScan + 1;
    var ks1, es1 := OneMore(ks, es, permanentAt, Scanned(Scan(false, false, at)));
    assert !Ignored(k, at) && ks1[|es1|].shown.cycles == k.shown.cycles + 1;
    ks', es' := StaysDown(ks1, es1, permanentAt);
    assert ks'[|es|] == ks[|es|];
  }

  /** A key that gets its first class while the counter is not 0 can change class with no full outage
      since: it stays down until the limit, comes back and is classified anew. */
  lemma OutageMayPrecedeFirstClass(ks: seq<Key>, es: seq<Event>, permanentAt: nat, f: nat) returns (ks': seq<Key>, es': seq<Event>)
    requires Run(ks, es, permanentAt) && |es| == f + 1 && FirstClass(ks, es, f) && ks[f].shown.cycles > 0
    ensures GoesOnAs(ks, es, ks', es', permanentAt) && f + 1 < |es'| && Reclassifies(ks', es', |es'| - 1)
    ensures !OutageIn(ks', es', permanentAt, f + 1, |es'| - 1)
  {
    FirstClassCosts(ks, es, permanentAt, f);
    var ks1, es1 := StaysDown(ks, es, permanentAt);
    var k := ks1[|es1|];
    CounterDeterminesStatus(ks1, es1, permanentAt, |es1|);
    var at := if k.shown.lastScan == -1 then 1 else k.shown.lastScan + 1;
    var ks2, es2 := OneMore(ks1, es1, permanentAt, Scanned(Scan(true, true, at)));
    ks', es' := OneMore(ks2, es2, permanentAt, Classify(if k.shown.kind == Git then Brother else Git, "", ""));
    assert ks2[|es2|].reclassAllowed && ks'[|es2|] == ks2[|es2|];
    OutageIsClimb(ks', es', permanentAt, f + 1, |es2|);
    assert forall i :: 0 <= i < |ks1| ==> ks'[i] == ks1[i];
  }

  /** Every change of class after this one needs a full outage of its own, however the run goes on. */
  ghost predicate Guards(ks: seq<Key>, es: seq<Event>, permanentAt: nat) {
    forall ks', es', j :: GoesOnAs(ks, es, ks', es', permanentAt) && |es| <= j < |es'| && Reclassifies(ks', es', j) ==>
      OutageIn(ks', es', permanentAt, |es|, j)
  }

  /** The first class guards against a change without an outage if and only if it is given while the
      counter is 0. */
  lemma FirstClassGuards(ks: seq<Key>, es: seq<Event>, permanentAt: nat, f: nat)
    requires Run(ks, es, permanentAt) && |es| == f + 1 && FirstClass(ks, es, f)
    ensures Guards(ks, es, permanentAt) <==> ks[f].shown.cycles == 0
  {
    if ks[f].shown.cycles == 0 {
      forall ks', es', j | GoesOnAs(ks, es, ks', es', permanentAt) && |es| <= j < |es'| && Reclassifies(ks', es', j)
        ensures OutageIn(ks', es', permanentAt, |es|, j)
      {
        assert ks'[f] == ks[f] && es'[f] == es[f];
        OutageAfterFirstClass(ks', es', permanentAt, f, j);
      }
    } else {
      var ks', es' := OutageMayPrecedeFirstClass(ks, es, permanentAt, f);
    }
  }

  /** For every limit there is a key whose first class does not guard it: one classified while it is down. */
  lemma FirstClassWhileDown(permanentAt: nat) returns (ks: seq<Key>, es: seq<Event>)
    requires permanentAt >= 1
    ensures Run(ks, es, permanentAt) && es == [Scanned(Scan(false, false, 1)), Classify(Git, "", "")]
    ensures FirstClass(ks, es, 1) && !Guards(ks, es, permanentAt)
  {
    var k0 := Key(Shown(Unclassified, "s", "", "", Unknown, 0, 0, false, "", 0, 0), false);
    es := [Scanned(Scan(false, false, 1)), Classify(Git, "", "")];
    var k1 := After(k0, es[0], permanentAt);
    ks := [k0, k1, After(k1, es[1], permanentAt)];
    assert Run(ks, es, permanentAt) && ks[1].shown.cycles == 1;
    FirstClassGuards(ks, es, permanentAt, 1);
  }
}
