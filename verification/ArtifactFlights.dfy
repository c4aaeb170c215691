/** Shared artifact builds: one build per identity, its waiters, and the reference count of a
    transient file that the last of them removes. */
module ArtifactFlights {
  import opened Options

  type Waiter = nat

  /** What a build produced: an error, a file kept in the hot cache, or a file that is removed after use. */
  datatype Outcome = Failed | Retained | Transient

  /** One flight. `due` counts callers that have decided to clean up and not yet done so; the last
      three fields say who is waiting, who has opened the file without being counted yet, and whose
      handle is open. */
  datatype Flight = Flight(
    waiters: nat, cancelled: bool, outcome: Option<Outcome>, refs: int, due: nat, removals: nat,
    inside: set<Waiter>, uncounted: set<Waiter>, handles: set<Waiter>)

  // ---- The atomic steps of one flight ----

  function Started(w: Waiter): Flight {
    Flight(1, false, None, 0, 0, 0, {w}, {}, {})
  }

  function Joined(f: Flight, w: Waiter): Flight {
    f.(waiters := f.waiters + 1, inside := f.inside + {w})
  }

  /** `leaveArtifactFlight`, up to the cleanup it may have decided on. */
  function LeftBy(f: Flight, w: Waiter): Flight {
    var n := if f.waiters > 0 then f.waiters - 1 else 0;
    var counted := f.outcome == Some(Transient);
    f.(waiters := n,
       cancelled := f.cancelled || (f.outcome.None? && n == 0),
       refs := if counted then f.refs - 1 else f.refs,
       due := if counted && f.refs - 1 == 0 then f.due + 1 else f.due,
       inside := f.inside - {w})
  }

  /** `finishArtifactFlight`. */
  function Finished(f: Flight, outcome: Outcome): Flight {
    f.(outcome := Some(outcome),
       cancelled := true,
       refs := if outcome.Transient? then f.refs + f.waiters else f.refs,
       due := if outcome.Transient? && f.waiters == 0 then f.due + 1 else f.due)
  }

  /** `hotFileObj` opens the file first and counts the handle afterwards. */
  function FileOpened(f: Flight, w: Waiter): Flight {
    f.(uncounted := f.uncounted + {w})
  }

  function HandleCounted(f: Flight, w: Waiter): Flight {
    f.(refs := f.refs + 1, uncounted := f.uncounted - {w}, handles := f.handles + {w})
  }

  /** The cleanup closure that `HotFileObj.Close` runs once. */
  function HandleClosed(f: Flight, w: Waiter): Flight {
    f.(refs := f.refs - 1,
       due := if f.outcome == Some(Transient) && f.refs - 1 <= 0 then f.due + 1 else f.due,
       handles := f.handles - {w})
  }

  /** `cleanupUnused`: only the first of several calls would remove the file. */
  function CleanedUp(f: Flight): Flight
    requires f.due > 0
  {
    f.(due := f.due - 1, removals := if f.removals == 0 then 1 else f.removals)
  }

  /** The caller that decided on the cleanup runs it next. */
  function Settled(f: Flight): Flight {
    if f.due > 0 then CleanedUp(f) else f
  }

  // ---- Every order of steps ----

  datatype Step =
    | Join(w: Waiter)
    | Leave(w: Waiter)
    | Finish(outcome: Outcome)
    | OpenFile(w: Waiter)
    | Count(w: Waiter)
    | Close(w: Waiter)
    | CleanUp

  /** What the calling goroutines respect: a waiter joins before the build ends and leaves once, after
      its own opening is complete; it opens only a finished file; a handle is closed once. */
  predicate Enabled(f: Flight, step: Step) {
    match step
    case Join(w) => f.outcome.None? && w !in f.inside
    case Leave(w) => w in f.inside && w !in f.uncounted
    case Finish(_) => f.outcome.None?
    case OpenFile(w) => f.outcome.Some? && f.outcome.value != Failed && w in f.inside && w !in f.uncounted && w !in f.handles
    case Count(w) => w in f.uncounted
    case Close(w) => w in f.handles
    case CleanUp => f.due > 0
  }

  function After(f: Flight, step: Step): Flight
    requires Enabled(f, step)
  {
    match step
    case Join(w) => Joined(f, w)
    case Leave(w) => LeftBy(f, w)
    case Finish(o) => Finished(f, o)
    case OpenFile(w) => FileOpened(f, w)
    case Count(w) => HandleCounted(f, w)
    case Close(w) => HandleClosed(f, w)
    case CleanUp => CleanedUp(f)
  }

  /** `waiters` counts those inside. Before the end nothing is counted or held, and a flight without
      waiters is cancelled. Afterwards a transient file is counted once for each waiter inside and
      each open handle, and its removal is due or done exactly when none is left. */
  predicate Sound(f: Flight) {
    && f.waiters == |f.inside|
    && f.uncounted <= f.inside && f.uncounted !! f.handles
    && match f.outcome
       case None => f.refs == 0 && f.due == 0 && f.removals == 0 && f.uncounted == {} && f.handles == {}
                    && (f.waiters == 0 ==> f.cancelled)
       case Some(Failed) => f.refs == 0 && f.due == 0 && f.removals == 0 && f.uncounted == {} && f.handles == {} && f.cancelled
       case Some(Retained) => f.refs == |f.handles| && f.due == 0 && f.removals == 0 && f.cancelled
       case Some(Transient) => f.refs == |f.inside| + |f.handles| && f.due + f.removals == (if f.refs == 0 then 1 else 0) && f.cancelled
  }

  lemma StepKeepsSound(f: Flight, step: Step)
    requires Sound(f) && Enabled(f, step)
    ensures Sound(After(f, step))
  {
    match step
    case Leave(w) => assert f.inside == (f.inside - {w}) + {w};
    case Close(w) => assert f.handles == (f.handles - {w}) + {w};
    case _ =>
  }

  ghost predicate Run(fs: seq<Flight>, steps: seq<Step>) {
    && |fs| == |steps| + 1
    && (exists w :: fs[0] == Started(w))
    && forall i :: 0 <= i < |steps| ==> Enabled(fs[i], steps[i]) && fs[i + 1] == After(fs[i], steps[i])
  }

  lemma {:induction false} RunIsSound(fs: seq<Flight>, steps: seq<Step>, i: nat)
    requires Run(fs, steps) && i < |fs|
    ensures Sound(fs[i])
    decreases i
  {
    if i > 0 {
      RunIsSound(fs, steps, i - 1);
      StepKeepsSound(fs[i - 1], steps[i - 1]);
    }
  }

  /** In any order of joining, cancelling, finishing, opening and closing, the count of a transient
      file is the waiters that have not left plus the open handles. */
  lemma RefsAreWaitersPlusHandles(fs: seq<Flight>, steps: seq<Step>, i: nat)
    requires Run(fs, steps) && i < |fs| && fs[i].outcome == Some(Transient)
    ensures fs[i].refs == |fs[i].inside| + |fs[i].handles|
  {
    RunIsSound(fs, steps, i);
  }

  /** No waiter opens the file after its removal, nor once a removal has been decided; while a handle
      is open the file stays. */
  lemma NobodyOpensARemovedFile(fs: seq<Flight>, steps: seq<Step>, i: nat)
    requires Run(fs, steps) && i < |fs|
    ensures i < |steps| && steps[i].OpenFile? ==> fs[i].removals == 0 && fs[i].due == 0
    ensures fs[i].handles + fs[i].uncounted != {} ==> fs[i].removals == 0 && fs[i].due == 0
  {
    RunIsSound(fs, steps, i);
    var f := fs[i];
    if f.handles + f.uncounted != {} {
      var w :| w in f.handles + f.uncounted;
      assert w in f.handles || w in f.inside;
    }
  }

  lemma RemovalsOnlyGrow(fs: seq<Flight>, steps: seq<Step>, i: nat, j: nat)
    requires Run(fs, steps) && i <= j < |fs|
    ensures fs[i].removals <= fs[j].removals
    decreases j
  {
    if i < j {
      RemovalsOnlyGrow(fs, steps, i, j - 1);
      assert fs[j] == After(fs[j - 1], steps[j - 1]);
    }
  }

  /** Cleanup runs only for a finished transient file that nobody waits for or holds, and it is the
      first to run. */
  lemma CleanupFindsNobody(fs: seq<Flight>, steps: seq<Step>, i: nat)
    requires Run(fs, steps) && i < |steps| && steps[i] == CleanUp
    ensures fs[i].outcome == Some(Transient) && fs[i].inside == {} && fs[i].handles == {}
    ensures fs[i].removals == 0 && fs[i + 1].removals == 1
  {
    RunIsSound(fs, steps, i);
    assert Enabled(fs[i], steps[i]) && fs[i + 1] == After(fs[i], steps[i]);
    assert |fs[i].inside| == 0 && |fs[i].handles| == 0;
  }

  /** Cleanup runs at most once in a run: its `once` guard is never needed. */
  lemma CleanupRunsOnce(fs: seq<Flight>, steps: seq<Step>, i: nat, j: nat)
    requires Run(fs, steps) && i <= j < |steps| && steps[i] == CleanUp && steps[j] == CleanUp
    ensures i == j
  {
    if i < j {
      RemovalsOnlyGrow(fs, steps, i + 1, j);
      CleanupFindsNobody(fs, steps, i);
      CleanupFindsNobody(fs, steps, j);
    }
  }

  /** When all have gone and no decided cleanup is outstanding, the transient file was removed exactly
      once; a file kept in the hot cache was not removed at all. */
  lemma NothingIsLeftOver(fs: seq<Flight>, steps: seq<Step>, i: nat)
    requires Run(fs, steps) && i < |fs|
    requires fs[i].outcome.Some? && fs[i].inside == {} && fs[i].handles == {} && fs[i].due == 0
    ensures fs[i].removals == if fs[i].outcome.value.Transient? then 1 else 0
  {
    RunIsSound(fs, steps, i);
  }

  /** Nobody was waiting in one of the first `i + 1` states. */
  predicate EmptiedBy(fs: seq<Flight>, i: nat)
    requires i < |fs|
  {
    exists k :: 0 <= k <= i && fs[k].inside == {}
  }

  /** An unfinished build is cancelled if and only if its waiters have all been gone at some time before. */
  lemma {:induction false} CancelledOnceEmptied(fs: seq<Flight>, steps: seq<Step>, i: nat)
    requires Run(fs, steps) && i < |fs| && fs[i].outcome.None?
    ensures fs[i].cancelled <==> EmptiedBy(fs, i)
    decreases i
  {
    RunIsSound(fs, steps, i);
    if i > 0 {
      assert fs[i] == After(fs[i - 1], steps[i - 1]);
      CancelledOnceEmptied(fs, steps, i - 1);
      assert EmptiedBy(fs, i) <==> EmptiedBy(fs, i - 1) || fs[i].inside == {};
    }
  }

  /** The build a caller joins is live for it if and only if the flight was never without waiters: once
      it was, everyone who joins inherits the cancelled context. */
  lemma JoinerInheritsCancellation(fs: seq<Flight>, steps: seq<Step>, i: nat, w: Waiter)
    requires Run(fs, steps) && i < |steps| && steps[i] == Join(w)
    ensures fs[i + 1].outcome.None? && w in fs[i + 1].inside
    ensures fs[i + 1].cancelled <==> EmptiedBy(fs, i)
  {
    CancelledOnceEmptied(fs, steps, i);
    assert fs[i + 1] == After(fs[i], steps[i]);
  }

  /** A run in which two callers join after the first one left: the last of them finds a waiter inside
      and still waits on a cancelled build. */
  lemma LateJoinersFindItCancelled() returns (fs: seq<Flight>, steps: seq<Step>)
    ensures Run(fs, steps) && steps == [Leave(0), Join(1), Join(2)]
    ensures fs[2].inside == {1} && fs[3].inside == {1, 2} && fs[3].cancelled && fs[3].outcome.None?
  {
    var f0 := Started(0);
    var f1 := LeftBy(f0, 0);
    var f2 := Joined(f1, 1);
    steps := [Leave(0), Join(1), Join(2)];
    fs := [f0, f1, f2, Joined(f2, 2)];
    assert f1.inside == {};
  }

  // ---- The objects ----

  /** `artifactFlightObj` with its shared file. */
  class FlightObj {
    var waiters: nat
    var cancelled: bool
    var outcome: Option<Outcome>
    var refs: int
    var due: nat
    var removals: nat
    ghost var inside: set<Waiter>
    ghost var uncounted: set<Waiter>
    ghost var handles: set<Waiter>

    ghost function View(): Flight
      reads this
    {
      Flight(waiters, cancelled, outcome, refs, due, removals, inside, uncounted, handles)
    }

    constructor (ghost w: Waiter)
      ensures View() == Started(w)
    {
      waiters, cancelled, outcome, refs, due, removals := 1, false, None, 0, 0, 0;
      inside, uncounted, handles := {w}, {}, {};
    }

    /** `hotFileObj`: a waiter that saw the end opens the file, which is then still there. */
    method Open(ghost w: Waiter) returns (ok: bool)
      requires Sound(View()) && Enabled(View(), OpenFile(w))
      modifies this
      ensures Sound(View()) && due == 0 && removals == 0
      ensures View() == if ok then HandleCounted(FileOpened(old(View()), w), w) else old(View())
    {
      assert w in inside;
      ok := *;
      if ok {
        StepKeepsSound(View(), OpenFile(w));
        uncounted := uncounted + {w};
        StepKeepsSound(View(), Count(w));
        refs := refs + 1;
        uncounted, handles := uncounted - {w}, handles + {w};
      }
    }

    method CloseHandle(ghost w: Waiter)
      requires Sound(View()) && Enabled(View(), Close(w))
      modifies this
      ensures Sound(View()) && View() == Settled(HandleClosed(old(View()), w))
    {
      StepKeepsSound(View(), Close(w));
      refs, handles := refs - 1, handles - {w};
      if outcome == Some(Transient) && refs <= 0 {
        due := due + 1;
        CleanupUnused();
      }
    }

    method CleanupUnused()
      requires Sound(View()) && due > 0
      modifies this
      ensures View() == CleanedUp(old(View())) && Sound(View())
    {
      StepKeepsSound(View(), CleanUp);
      due := due - 1;
      if removals == 0 {
        removals := 1;
      }
    }

    /** `leaveArtifactFlight`: the last waiter cancels an unfinished build; the last holder of a
        transient file removes it. */
    method Leave(ghost w: Waiter)
      requires Sound(View()) && Enabled(View(), Step.Leave(w))
      modifies this
      ensures Sound(View()) && View() == Settled(LeftBy(old(View()), w)) && outcome == old(outcome)
    {
      StepKeepsSound(View(), Step.Leave(w));
      if waiters > 0 {
        waiters := waiters - 1;
      }
      inside := inside - {w};
      if outcome.None? && waiters == 0 {
        cancelled := true;
      }
      if outcome == Some(Transient) {
        refs := refs - 1;
        if refs == 0 {
          due := due + 1;
          CleanupUnused();
        }
      }
    }

    /** The part of `finishArtifactFlight` that concerns the flight itself. */
    method Finish(result: Outcome)
      requires Sound(View()) && outcome.None?
      modifies this
      ensures Sound(View()) && View() == Settled(Finished(old(View()), result)) && outcome == Some(result)
    {
      StepKeepsSound(View(), Step.Finish(result));
      outcome, cancelled := Some(result), true;
      if result.Transient? {
        if waiters == 0 {
          due := due + 1;
          CleanupUnused();
        } else {
          refs := refs + waiters;
        }
      }
    }
  }

  /** The flight table of the storage object. */
  class Flights {
    var flightMap: map<string, FlightObj>
    ghost var keyOf: map<FlightObj, string>

    /** Every flight is sound; the table holds exactly the unfinished ones, each under its own key. */
    ghost predicate Valid()
      reads this, keyOf.Keys
    {
      && (forall f :: f in keyOf ==> Sound(f.View()))
      && (forall k :: k in flightMap ==> flightMap[k] in keyOf && keyOf[flightMap[k]] == k && flightMap[k].outcome.None?)
      && forall f :: f in keyOf && f.outcome.None? ==> keyOf[f] in flightMap && flightMap[keyOf[f]] == f
    }

    constructor ()
      ensures Valid() && keyOf == map[]
    {
      flightMap, keyOf := map[], map[];
    }

    /** `joinArtifactFlight`: the caller owns the build exactly when none is under way for the key. */
    method JoinFlight(key: string, ghost w: Waiter) returns (f: FlightObj, owner: bool)
      requires Valid() && forall g :: g in keyOf ==> w !in g.inside
      modifies this, keyOf.Keys
      ensures Valid() && f in keyOf && keyOf[f] == key && f.outcome.None?
      ensures owner <==> !exists g :: g in old(keyOf) && old(keyOf)[g] == key && old(g.outcome).None?
      ensures if owner then fresh(f) && keyOf == old(keyOf)[f := key] && f.View() == Started(w)
              else f in old(keyOf) && keyOf == old(keyOf) && f.View() == Joined(old(f.View()), w)
      ensures forall g :: g in old(keyOf) && g != f ==> unchanged(g)
    {
      if key in flightMap {
        f := flightMap[key];
        StepKeepsSound(f.View(), Join(w));
        f.waiters, f.inside := f.waiters + 1, f.inside + {w};
        return f, false;
      }
      f := new FlightObj(w);
      flightMap := flightMap[key := f];
      keyOf := keyOf[f := key];
      owner := true;
    }

    method LeaveFlight(f: FlightObj, ghost w: Waiter)
      requires Valid() && f in keyOf && Enabled(f.View(), Step.Leave(w))
      modifies f
      ensures Valid() && f.View() == Settled(LeftBy(old(f.View()), w))
    {
      f.Leave(w);
    }

    /** `finishArtifactFlight`: the flight leaves the table in the same critical section that fixes its
        result, so nobody joins a finished one. */
    method FinishFlight(key: string, f: FlightObj, outcome: Outcome)
      requires Valid() && f in keyOf && keyOf[f] == key && f.outcome.None?
      modifies this`flightMap, f
      ensures Valid() && flightMap == old(flightMap) - {key}
      ensures f.View() == Settled(Finished(old(f.View()), outcome))
    {
      if key in flightMap && flightMap[key] == f {
        flightMap := flightMap - {key};
      }
      f.Finish(outcome);
    }
  }
}
