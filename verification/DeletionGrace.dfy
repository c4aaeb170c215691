/** The grace period before a version that vanished upstream is removed.

    One scan of a key is a pass over its stored versions that moves their counters. The
    methods do this for a whole listing; the lemmas follow one version through any run of
    scans, in which it may be listed or not, stored or not, exempt or not, and in which
    listings may be incomplete. Versions do not influence each other. */
module DeletionGrace {

  /** A stored version as the scan sees it; `below` and `historical` are what the version rules say. */
  datatype Local = Local(version: string, seqNo: int, deleted: bool, raw: bool, below: bool, historical: bool)

  predicate Exempt(l: Local, minSeq: int) {
    l.below || (minSeq > 0 && l.raw && l.seqNo > 0 && l.seqNo < minSeq) || l.historical || l.deleted
  }

  function MissesOf(m: map<string, nat>, version: string): nat {
    if version in m then m[version] else 0
  }

  /** What one scan does to a version: `None` when it is not stored. */
  datatype Sight = Sight(listed: bool, exempt: bool, applied: bool)

  predicate Due(grace: nat, misses: nat, s: Sight) {
    !s.listed && !s.exempt && misses + 1 >= grace
  }

  function After(grace: nat, misses: nat, s: Sight): nat {
    if s.listed then 0
    else if s.exempt then misses
    else if Due(grace, misses, s) && s.applied then 0
    else misses + 1
  }

  predicate Removed(grace: nat, misses: nat, s: Sight) {
    Due(grace, misses, s) && s.applied
  }

  class Rescan {
    const grace: nat
    var missMap: map<string, nat>

    constructor (grace: nat)
      ensures missMap == map[] && this.grace == grace
    {
      this.grace := grace;
      missMap := map[];
    }

    /** Not listed, not kept back by a rule or a mark, and missed often enough with this scan. */
    predicate GoneLongEnough(l: Local, upstream: set<string>, minSeq: int, misses: nat) {
      && l.version !in upstream && misses + 1 >= grace
      && !l.below && !l.historical && !l.deleted && !(l.raw && 0 < l.seqNo < minSeq)
    }

    method IncMiss(version: string) returns (n: nat)
      modifies this
      ensures n == MissesOf(old(missMap), version) + 1 && missMap == old(missMap)[version := n]
    {
      n := (if version in missMap then missMap[version] else 0) + 1;
      missMap := missMap[version := n];
    }

    method ResetMiss(version: string)
      modifies this
      ensures missMap == old(missMap) - {version}
    {
      missMap := missMap - {version};
    }

    /** The checks on one stored version; `applied` is whether the removal or the tombstone succeeds. */
    method See(l: Local, upstream: set<string>, minSeq: int, applied: bool) returns (removed: bool)
      modifies this
      ensures var s := Sight(l.version in upstream, Exempt(l, minSeq), applied);
              && removed == Removed(grace, MissesOf(old(missMap), l.version), s)
              && MissesOf(missMap, l.version) == After(grace, MissesOf(old(missMap), l.version), s)
      ensures forall v :: v != l.version ==> MissesOf(missMap, v) == MissesOf(old(missMap), v)
    {
      if l.version in upstream {
        ResetMiss(l.version);
        return false;
      }
      if Exempt(l, minSeq) {
        return false;
      }
      var n := IncMiss(l.version);
      if n < grace || !applied {
        return false;
      }
      ResetMiss(l.version);
      return true;
    }

    /** `applyDeletionGrace`: each stored version once. */
    method ApplyDeletionGrace(locals: seq<Local>, upstream: set<string>, minSeq: int, applies: set<string>) returns (removed: set<string>)
      requires forall i, j :: 0 <= i < j < |locals| ==> locals[i].version != locals[j].version
      modifies this
      ensures forall i :: 0 <= i < |locals| ==>
        var l, s := locals[i], Sight(locals[i].version in upstream, Exempt(locals[i], minSeq), locals[i].version in applies);
        && MissesOf(missMap, l.version) == After(grace, MissesOf(old(missMap), l.version), s)
        && (l.version in removed <==> Removed(grace, MissesOf(old(missMap), l.version), s))
      ensures forall v :: (forall i :: 0 <= i < |locals| ==> locals[i].version != v) ==>
        MissesOf(missMap, v) == MissesOf(old(missMap), v) && v !in removed
      ensures forall i :: 0 <= i < |locals| ==>
        (locals[i].version in removed <==> GoneLongEnough(locals[i], upstream, minSeq, MissesOf(old(missMap), locals[i].version))
                                           && locals[i].version in applies)
    {
      removed := {};
      for i := 0 to |locals|
        invariant forall j :: 0 <= j < i ==>
          var l, s := locals[j], Sight(locals[j].version in upstream, Exempt(locals[j], minSeq), locals[j].version in applies);
          && MissesOf(missMap, l.version) == After(grace, MissesOf(old(missMap), l.version), s)
          && (l.version in removed <==> Removed(grace, MissesOf(old(missMap), l.version), s))
        invariant forall v :: (forall j :: 0 <= j < i ==> locals[j].version != v) ==>
          MissesOf(missMap, v) == MissesOf(old(missMap), v) && v !in removed
      {
        var gone := See(locals[i], upstream, minSeq, locals[i].version in applies);
        if gone {
          removed := removed + {locals[i].version};
        }
      }
    }
  }

  // ---- Runs of one version ----

  /** One scan of the key, as far as one version is concerned: whether the listing was complete enough
      for the grace rule to run, whether the version is listed, whether it is stored, and the rest. */
  datatype Event = Event(complete: bool, listed: bool, stored: bool, exempt: bool, applied: bool)

  function Sees(e: Event): Sight {
    Sight(e.listed, e.exempt, e.applied)
  }

  predicate Acts(e: Event) {
    e.complete && e.stored
  }

  function Next(grace: nat, misses: nat, e: Event): nat {
    if Acts(e) then After(grace, misses, Sees(e)) else misses
  }

  predicate RemovedBy(grace: nat, misses: nat, e: Event) {
    Acts(e) && Removed(grace, misses, Sees(e))
  }

  predicate CountedAbsence(e: Event) {
    Acts(e) && !e.listed && !e.exempt
  }

  ghost predicate Run(grace: nat, ms: seq<nat>, es: seq<Event>) {
    && |ms| == |es| + 1 && ms[0] == 0
    && forall i :: 0 <= i < |es| ==> ms[i + 1] == Next(grace, ms[i], es[i])
  }

  /** The counted absences in a stretch of scans. */
  function Absences(es: seq<Event>, from: nat, end: nat): nat
    requires from <= end <= |es|
    decreases end - from
  {
    if from == end then 0 else Absences(es, from, end - 1) + if CountedAbsence(es[end - 1]) then 1 else 0
  }

  /** No scan from `from` to `end` put the counter back. */
  predicate NoReset(grace: nat, ms: seq<nat>, es: seq<Event>, from: nat, end: nat)
    requires |ms| == |es| + 1 && from <= end <= |es|
  {
    forall i :: from <= i < end ==> !(Acts(es[i]) && es[i].listed) && !RemovedBy(grace, ms[i], es[i])
  }

  /** Between resets the counter counts the absences, and nothing else. */
  lemma {:induction false} CounterCountsAbsences(grace: nat, ms: seq<nat>, es: seq<Event>, from: nat, end: nat)
    requires Run(grace, ms, es) && from <= end <= |es| && NoReset(grace, ms, es, from, end)
    ensures ms[end] == ms[from] + Absences(es, from, end)
    decreases end - from
  {
    if from < end {
      CounterCountsAbsences(grace, ms, es, from, end - 1);
      assert ms[end] == Next(grace, ms[end - 1], es[end - 1]);
    }
  }

  /** A removal comes only after the configured number of absences since the counter last started from
      zero: since the version was last seen listed while stored, or since the beginning. */
  lemma RemovalNeedsGrace(grace: nat, ms: seq<nat>, es: seq<Event>, from: nat, j: nat)
    requires Run(grace, ms, es) && from <= j < |es| && RemovedBy(grace, ms[j], es[j])
    requires ms[from] == 0 && NoReset(grace, ms, es, from, j)
    ensures Absences(es, from, j + 1) >= grace && Absences(es, from, j + 1) >= 1
  {
    CounterCountsAbsences(grace, ms, es, from, j);
  }

  lemma {:induction false} MoreAbsences(es: seq<Event>, from: nat, later: nat, end: nat)
    requires from <= later <= end <= |es|
    ensures Absences(es, later, end) <= Absences(es, from, end)
    decreases end - later
  {
    if later < end {
      MoreAbsences(es, from, later, end - 1);
    }
  }

  ghost predicate RemovedBetween(grace: nat, ms: seq<nat>, es: seq<Event>, i: nat, j: nat)
    requires |ms| == |es| + 1 && j <= |es|
  {
    exists k :: i < k < j && RemovedBy(grace, ms[k], es[k])
  }

  lemma {:induction false} LastRemoval(grace: nat, ms: seq<nat>, es: seq<Event>, i: nat, j: nat) returns (k: nat)
    requires |ms| == |es| + 1 && j <= |es| && RemovedBetween(grace, ms, es, i, j)
    ensures i < k < j && RemovedBy(grace, ms[k], es[k]) && forall l :: k < l < j ==> !RemovedBy(grace, ms[l], es[l])
    decreases j
  {
    if RemovedBy(grace, ms[j - 1], es[j - 1]) {
      k := j - 1;
    } else {
      k := LastRemoval(grace, ms, es, i, j - 1);
    }
  }

  lemma GraceAfterRemoval(grace: nat, ms: seq<nat>, es: seq<Event>, i: nat, j: nat)
    requires Run(grace, ms, es) && i < j < |es| && (forall k :: i < k <= j ==> !es[k].listed)
    requires RemovedBy(grace, ms[j], es[j]) && RemovedBetween(grace, ms, es, i, j)
    ensures Absences(es, i + 1, j + 1) >= grace
  {
    var k := LastRemoval(grace, ms, es, i, j);
    assert ms[k + 1] == Next(grace, ms[k], es[k]) == 0;
    RemovalNeedsGrace(grace, ms, es, k + 1, j);
    MoreAbsences(es, i + 1, k + 1, j + 1);
  }

  /** What the counter says about the absences since the last listing before a removal. */
  lemma GraceSinceListing(grace: nat, ms: seq<nat>, es: seq<Event>, i: nat, j: nat)
    requires Run(grace, ms, es) && i < j < |es| && es[i].listed && (forall k :: i < k <= j ==> !es[k].listed)
    requires RemovedBy(grace, ms[j], es[j])
    ensures Absences(es, i + 1, j + 1) >= grace <==>
      Acts(es[i]) || RemovedBetween(grace, ms, es, i, j) || ms[i] + grace <= ms[j] + 1
  {
    if RemovedBetween(grace, ms, es, i, j) {
      GraceAfterRemoval(grace, ms, es, i, j);
    } else {
      assert ms[i + 1] == if Acts(es[i]) then 0 else ms[i];
      CounterCountsAbsences(grace, ms, es, i + 1, j);
      assert Absences(es, i + 1, j + 1) == ms[j] - ms[i + 1] + 1;
    }
  }

  /** The grace rule wants the version removed, whether or not that succeeds. */
  predicate DueBy(grace: nat, misses: nat, e: Event) {
    Acts(e) && Due(grace, misses, Sees(e))
  }

  /** Until a removal is due, only listings change the counter back. */
  lemma {:induction false} NothingDueYet(grace: nat, ms: seq<nat>, es: seq<Event>, from: nat, end: nat)
    requires Run(grace, ms, es) && from <= end < |es|
    requires forall k :: from <= k < end ==> !es[k].listed && !DueBy(grace, ms[k], es[k])
    ensures ms[end] == ms[from] + Absences(es, from, end)
    ensures ms[end] == ms[from] || ms[end] < grace
    decreases end - from
  {
    if from < end {
      NothingDueYet(grace, ms, es, from, end - 1);
      assert ms[end] == Next(grace, ms[end - 1], es[end - 1]);
    }
  }

  /** Counted from the last listing before a removal is first due, whatever failed before, the grace is
      full if and only if that listing put the counter back, or nothing had been counted by then, or one
      absence is grace enough. A listing does not put it back when the version was not stored at the time
      or the listing was cut short. */
  lemma GraceWhenFirstDue(grace: nat, ms: seq<nat>, es: seq<Event>, i: nat, j: nat)
    requires Run(grace, ms, es) && i < j < |es| && es[i].listed && DueBy(grace, ms[j], es[j])
    requires forall k :: i < k < j ==> !es[k].listed && !DueBy(grace, ms[k], es[k])
    ensures Absences(es, i + 1, j + 1) >= grace <==> Acts(es[i]) || ms[i] == 0 || grace <= 1
  {
    assert ms[i + 1] == Next(grace, ms[i], es[i]) == if Acts(es[i]) then 0 else ms[i];
    NothingDueYet(grace, ms, es, i + 1, j);
    assert Absences(es, i + 1, j + 1) == Absences(es, i + 1, j) + 1;
  }

  /** Counted from the last listing before a removal, the grace was full if and only if that listing put
      the counter back, or nothing had been counted by then, or an earlier removal intervened. A listing
      does not put it back when the version was not stored at the time or the listing was cut short. */
  lemma GraceSinceListingIfApplied(grace: nat, ms: seq<nat>, es: seq<Event>, i: nat, j: nat)
    requires grace > 0 && Run(grace, ms, es) && i < j < |es| && es[i].listed && (forall k :: i < k <= j ==> !es[k].listed)
    requires RemovedBy(grace, ms[j], es[j]) && forall k :: 0 <= k < |es| ==> es[k].applied
    ensures Absences(es, i + 1, j + 1) >= grace <==> Acts(es[i]) || RemovedBetween(grace, ms, es, i, j) || ms[i] == 0
  {
    GraceSinceListing(grace, ms, es, i, j);
    NeverPastGrace(grace, ms, es, j);
  }

  lemma {:induction false} NeverPastGrace(grace: nat, ms: seq<nat>, es: seq<Event>, j: nat)
    requires grace > 0 && Run(grace, ms, es) && j < |ms| && forall k :: 0 <= k < |es| ==> es[k].applied
    ensures ms[j] < grace
    decreases j
  {
    if j > 0 {
      NeverPastGrace(grace, ms, es, j - 1);
      assert ms[j] == Next(grace, ms[j - 1], es[j - 1]);
    }
  }

  /** So a version evicted after two misses, listed and stored again, can go after a single further miss. */
  lemma GraceCanBeShort() returns (ms: seq<nat>, es: seq<Event>)
    ensures Run(3, ms, es) && |es| == 4
    ensures es[2].listed && RemovedBy(3, ms[3], es[3]) && Absences(es, 3, 4) == 1
  {
    var absent := Event(true, false, true, false, true);
    es := [absent, absent, Event(true, true, false, false, true), absent];
    ms := [0, 1, 2, 2, 0];
    assert Absences(es, 3, 3) == 0;
  }
}
