/** Retained hot files: who holds a path, and deletions put off until the last holder lets go.

    The maps of the storage object count retains and remember deferred deletions. The
    model adds what they are about: which path each outstanding retain is for, and how
    often a deletion was deferred and carried out. `Sound` relates the two; it is kept by
    every critical section in every order, and the methods of the object are those
    critical sections. */
module HotPaths {

  type Token = nat

  /** `active` and `pending` are the two maps of the storage object; `holders` says which path each
      outstanding retain is for, and the multisets count every deferred deletion ever raised and ever
      discharged. */
  datatype Hot = Hot(active: map<string, nat>, pending: set<string>, holders: map<Token, string>,
                     raised: multiset<string>, discharged: multiset<string>)

  function CountOf(h: Hot, path: string): nat {
    if path in h.active then h.active[path] else 0
  }

  ghost function HoldersOf(holders: map<Token, string>, path: string): set<Token> {
    set t | t in holders && holders[t] == path
  }

  // ---- The critical sections ----

  function Retained(h: Hot, path: string, t: Token): Hot {
    h.(active := h.active[path := CountOf(h, path) + 1], holders := h.holders[t := path])
  }

  /** The closure that `retainHotPath` returns: the release that ends the count takes the deferred
      deletion with it. */
  function Released(h: Hot, t: Token): Hot
    requires t in h.holders
  {
    var path, rest := h.holders[t], h.holders - {t};
    if CountOf(h, path) > 1 then h.(active := h.active[path := CountOf(h, path) - 1], holders := rest)
    else if path in h.pending then
      h.(active := h.active - {path}, pending := h.pending - {path}, holders := rest, discharged := h.discharged + multiset{path})
    else h.(active := h.active - {path}, holders := rest)
  }

  predicate Discharges(h: Hot, t: Token)
    requires t in h.holders
  {
    CountOf(h, h.holders[t]) <= 1 && h.holders[t] in h.pending
  }

  /** `markHotDeletePending`. */
  function Marked(h: Hot, path: string): Hot {
    if CountOf(h, path) == 0 || path in h.pending then h
    else h.(pending := h.pending + {path}, raised := h.raised + multiset{path})
  }

  /** The count of a path is its outstanding retains, a deferred deletion has a live holder, and every
      deletion ever deferred is either still pending or was discharged once. */
  ghost predicate Sound(h: Hot) {
    && (forall p :: CountOf(h, p) == |HoldersOf(h.holders, p)|)
    && (forall p :: p in h.active ==> h.active[p] > 0)
    && (forall p :: p in h.pending ==> p in h.active)
    && h.raised == h.discharged + multiset(h.pending)
  }

  lemma RetainKeeps(h: Hot, path: string, t: Token)
    requires Sound(h) && t !in h.holders
    ensures Sound(Retained(h, path, t))
  {
    var h' := Retained(h, path, t);
    forall p ensures CountOf(h', p) == |HoldersOf(h'.holders, p)| {
      var before, after := HoldersOf(h.holders, p), HoldersOf(h'.holders, p);
      if p == path {
        assert after == before + {t} && t !in before;
      } else {
        assert after == before;
      }
    }
  }

  lemma ReleaseKeeps(h: Hot, t: Token)
    requires Sound(h) && t in h.holders
    ensures Sound(Released(h, t))
    ensures Discharges(h, t) <==> h.holders[t] in h.pending && HoldersOf(h.holders, h.holders[t]) == {t}
    ensures Discharges(h, t) ==> Released(h, t).discharged == h.discharged + multiset{h.holders[t]}
    ensures !Discharges(h, t) ==> Released(h, t).discharged == h.discharged
  {
    var path, h' := h.holders[t], Released(h, t);
    assert t in HoldersOf(h.holders, path);
    forall p ensures CountOf(h', p) == |HoldersOf(h'.holders, p)| {
      var before, after := HoldersOf(h.holders, p), HoldersOf(h'.holders, p);
      if p == path {
        assert after == before - {t};
      } else {
        assert after == before;
      }
    }
    if CountOf(h, path) <= 1 {
      assert |HoldersOf(h.holders, path) - {t}| == 0;
      assert HoldersOf(h.holders, path) == {t};
    }
    assert path in h.pending ==> multiset(h.pending) == multiset(h.pending - {path}) + multiset{path};
  }

  lemma MarkKeeps(h: Hot, path: string)
    requires Sound(h)
    ensures Sound(Marked(h, path))
    ensures CountOf(h, path) > 0 <==> path in Marked(h, path).pending
  {
    if CountOf(h, path) > 0 && path !in h.pending {
      assert multiset(h.pending + {path}) == multiset(h.pending) + multiset{path};
    }
  }

  // ---- Every order of steps ----

  datatype Step = Retain(path: string, t: Token) | Release(t: Token) | Mark(path: string)

  ghost predicate Next(h: Hot, step: Step, h': Hot) {
    match step
    case Retain(p, t) => t !in h.holders && h' == Retained(h, p, t)
    case Release(t) => t in h.holders && h' == Released(h, t)
    case Mark(p) => h' == Marked(h, p)
  }

  ghost predicate Run(hs: seq<Hot>, steps: seq<Step>) {
    && |hs| == |steps| + 1
    && hs[0] == Hot(map[], {}, map[], multiset{}, multiset{})
    && forall i :: 0 <= i < |steps| ==> Next(hs[i], steps[i], hs[i + 1])
  }

  lemma {:induction false} RunIsSound(hs: seq<Hot>, steps: seq<Step>, i: nat)
    requires Run(hs, steps) && i < |hs|
    ensures Sound(hs[i])
    decreases i
  {
    if i == 0 {
      assert forall p :: HoldersOf(hs[0].holders, p) == {};
    } else {
      RunIsSound(hs, steps, i - 1);
      assert Next(hs[i - 1], steps[i - 1], hs[i]);
      match steps[i - 1]
      case Retain(p, t) => RetainKeeps(hs[i - 1], p, t);
      case Release(t) => ReleaseKeeps(hs[i - 1], t);
      case Mark(p) => MarkKeeps(hs[i - 1], p);
    }
  }

  /** In every run: the count is the outstanding retains, a pending deletion has a live holder, and
      of the deletions ever deferred for a path all but the one still pending were discharged. */
  lemma EveryDeferredDeletionIsDischargedOnce(hs: seq<Hot>, steps: seq<Step>, i: nat, path: string)
    requires Run(hs, steps) && i < |hs|
    ensures CountOf(hs[i], path) == |HoldersOf(hs[i].holders, path)|
    ensures path in hs[i].pending ==> HoldersOf(hs[i].holders, path) != {}
    ensures hs[i].raised[path] == hs[i].discharged[path] + if path in hs[i].pending then 1 else 0
    ensures HoldersOf(hs[i].holders, path) == {} ==> hs[i].raised[path] == hs[i].discharged[path]
  {
    RunIsSound(hs, steps, i);
    assert CountOf(hs[i], path) == |HoldersOf(hs[i].holders, path)|;
  }

  /** Only the release of the last holder discharges, and it does so exactly when a deletion is pending. */
  lemma OnlyTheLastReleaseDischarges(hs: seq<Hot>, steps: seq<Step>, i: nat)
    requires Run(hs, steps) && i < |steps|
    ensures hs[i + 1].discharged != hs[i].discharged <==>
      steps[i].Release? && var p := hs[i].holders[steps[i].t]; p in hs[i].pending && HoldersOf(hs[i].holders, p) == {steps[i].t}
  {
    RunIsSound(hs, steps, i);
    assert Next(hs[i], steps[i], hs[i + 1]);
    if steps[i].Release? {
      var p := hs[i].holders[steps[i].t];
      ReleaseKeeps(hs[i], steps[i].t);
      assert (hs[i].discharged + multiset{p})[p] == hs[i].discharged[p] + 1;
    }
  }

  // ---- The object ----

  datatype Removal = Removed | Missing | Active | Fault

  class HotFiles {
    var active: map<string, nat>
    var pending: set<string>
    var files: set<string>
    ghost var holders: map<Token, string>
    ghost var raised: multiset<string>
    ghost var discharged: multiset<string>

    ghost function View(): Hot
      reads this
    {
      Hot(active, pending, holders, raised, discharged)
    }

    constructor ()
      ensures View() == Hot(map[], {}, map[], multiset{}, multiset{}) && Sound(View())
    {
      active, pending, files := map[], {}, {};
      holders, raised, discharged := map[], multiset{}, multiset{};
      new;
      assert forall p :: HoldersOf(holders, p) == {};
    }

    method RetainHotPath(path: string, ghost t: Token)
      requires Sound(View()) && t !in holders
      modifies this
      ensures Sound(View()) && View() == Retained(old(View()), path, t) && files == old(files)
    {
      RetainKeeps(View(), path, t);
      active := active[path := (if path in active then active[path] else 0) + 1];
      holders := holders[t := path];
    }

    /** `removeHotPath`: a missing file is no error. */
    method RemoveHotPath(path: string) returns (fault: bool)
      modifies this`files
      ensures files == if fault then old(files) else old(files) - {path}
    {
      fault := *;
      if !fault {
        files := files - {path};
      }
    }

    /** The release closure of `retainHotPath`. */
    method ReleaseHotPath(path: string, ghost t: Token) returns (fault: bool)
      requires Sound(View()) && t in holders && holders[t] == path
      modifies this
      ensures Sound(View()) && View() == Released(old(View()), t)
      ensures files == if Discharges(old(View()), t) && !fault then old(files) - {path} else old(files)
    {
      ReleaseKeeps(View(), t);
      var count := if path in active then active[path] else 0;
      var last := false;
      if count <= 1 {
        active := active - {path};
        if path in pending {
          pending, last := pending - {path}, true;
          discharged := discharged + multiset{path};
        }
      } else {
        active := active[path := count - 1];
      }
      holders := holders - {t};
      fault := false;
      if last {
        fault := RemoveHotPath(path);
      }
    }

    method MarkHotDeletePending(path: string) returns (marked: bool)
      requires Sound(View())
      modifies this`pending, this`raised
      ensures Sound(View()) && View() == Marked(old(View()), path)
      ensures marked <==> HoldersOf(holders, path) != {}
    {
      MarkKeeps(View(), path);
      assert CountOf(View(), path) == |HoldersOf(holders, path)|;
      if path !in active || active[path] <= 0 {
        return false;
      }
      if path !in pending {
        raised := raised + multiset{path};
      }
      pending := pending + {path};
      marked := true;
    }

    /** `removeBudgetFile`: a held file stays and is deferred; the running total follows what was removed. */
    method RemoveBudgetFile(path: string, size: nat, total: nat) returns (r: Removal, left: nat)
      requires Sound(View())
      modifies this`pending, this`raised, this`files
      ensures Sound(View()) && View() == Marked(old(View()), path)
      ensures r == Active <==> HoldersOf(holders, path) != {}
      ensures r == Removed ==> path in old(files) && files == old(files) - {path}
      ensures r != Removed ==> files == old(files)
      ensures left == if r == Removed then (if total >= size then total - size else 0) else total
    {
      left := total;
      var marked := MarkHotDeletePending(path);
      if marked {
        return Active, left;
      }
      var fault: bool := *;
      if path !in files {
        return Missing, left;
      }
      if fault {
        return Fault, left;
      }
      files := files - {path};
      left := if left >= size then left - size else 0;
      r := Removed;
    }

    /** `discardInvalidHotFile` for a retained file: the deletion is deferred to the release that
        follows, and happens in it exactly when nobody else holds the path. */
    method DiscardInvalidHotFile(path: string, ghost t: Token) returns (fault: bool)
      requires Sound(View()) && t in holders && holders[t] == path
      modifies this
      ensures Sound(View()) && View() == Released(Marked(old(View()), path), t)
      ensures HoldersOf(old(holders), path) == {t} ==> files == if fault then old(files) else old(files) - {path}
      ensures HoldersOf(old(holders), path) != {t} ==> files == old(files) && path in pending
    {
      assert t in HoldersOf(holders, path);
      var marked := MarkHotDeletePending(path);
      ReleaseKeeps(View(), t);
      assert HoldersOf(holders, path) == HoldersOf(old(holders), path);
      fault := ReleaseHotPath(path, t);
    }
  }
}
