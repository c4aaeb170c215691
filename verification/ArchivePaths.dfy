/** Paths of a tree: what makes a set of entries a tree, and the sorted scan that decides it. */
module ArchivePaths {
  import opened ObjectModel
  import opened Options
  import Lex

  /** `a` would have to be a directory for `b` to exist. */
  predicate Ancestor(a: string, b: string) {
    |a| < |b| && b[..|a|] == a && b[|a|] == '/'
  }

  function PathsOf(es: seq<Entry>): (ps: seq<string>)
    ensures |ps| == |es| && forall i :: 0 <= i < |es| ==> ps[i] == es[i].path
  {
    seq(|es|, i requires 0 <= i < |es| => es[i].path)
  }

  /** Paths are pairwise distinct and none is a directory of another. */
  ghost predicate TreeShaped(es: seq<Entry>) {
    && (forall p :: multiset(PathsOf(es))[p] <= 1)
    && (forall d, e :: d in es && e in es ==> !Ancestor(d.path, e.path))
  }

  predicate Ascending(es: seq<Entry>) {
    forall i, j :: 0 <= i < j < |es| ==> Lex.Less(es[i].path, es[j].path)
  }

  /** Byte order puts every directory before what is inside it. */
  lemma AncestorIsLess(a: string, b: string)
    requires Ancestor(a, b)
    ensures Lex.Less(a, b)
  {
    Lex.PrefixLess(a, b);
  }

  /** `hasSeenParent`: looks up every proper directory prefix. */
  method HasSeenParent(seen: set<string>, path: string) returns (parent: Option<string>)
    ensures parent.Some? <==> exists a :: a in seen && Ancestor(a, path)
    ensures parent.Some? ==> parent.value in seen && Ancestor(parent.value, path)
  {
    for i := 0 to |path|
      invariant forall a :: a in seen && Ancestor(a, path) ==> |a| >= i
    {
      if path[i] == '/' && path[..i] in seen {
        assert Ancestor(path[..i], path);
        return Some(path[..i]);
      }
    }
    return None;
  }

  // ---- Sorting by path ----

  predicate InOrder(es: seq<Entry>) {
    forall i, j :: 0 <= i < j < |es| ==> !Lex.Less(es[j].path, es[i].path)
  }

  lemma PathsAppend(es: seq<Entry>, e: Entry)
    ensures PathsOf(es + [e]) == PathsOf(es) + [e.path]
  {
  }

  lemma PathsInsert(es: seq<Entry>, k: nat, e: Entry)
    requires k <= |es|
    ensures multiset(es[..k] + [e] + es[k..]) == multiset(es) + multiset{e}
    ensures multiset(PathsOf(es[..k] + [e] + es[k..])) == multiset(PathsOf(es)) + multiset{e.path}
  {
    assert es == es[..k] + es[k..];
    var ps := PathsOf(es);
    assert PathsOf(es[..k] + [e] + es[k..]) == ps[..k] + [e.path] + ps[k..];
    assert ps == ps[..k] + ps[k..];
  }

  method InsertSorted(es: seq<Entry>, e: Entry) returns (r: seq<Entry>)
    requires InOrder(es)
    ensures InOrder(r) && multiset(r) == multiset(es) + multiset{e}
    ensures multiset(PathsOf(r)) == multiset(PathsOf(es)) + multiset{e.path}
  {
    var k: nat := |es|;
    while k > 0 && Lex.Less(e.path, es[k - 1].path)
      invariant k <= |es| && forall j :: k <= j < |es| ==> Lex.Less(e.path, es[j].path)
    {
      k := k - 1;
    }
    PathsInsert(es, k, e);
    r := es[..k] + [e] + es[k..];
    Lex.StrictOrder();
  }

  method SortEntries(es: seq<Entry>) returns (r: seq<Entry>)
    ensures InOrder(r) && multiset(r) == multiset(es) && multiset(PathsOf(r)) == multiset(PathsOf(es))
  {
    r := [];
    for i := 0 to |es|
      invariant InOrder(r) && multiset(r) == multiset(es[..i]) && multiset(PathsOf(r)) == multiset(PathsOf(es[..i]))
    {
      assert es[..i + 1] == es[..i] + [es[i]];
      PathsAppend(es[..i], es[i]);
      r := InsertSorted(r, es[i]);
    }
    assert es[..|es|] == es;
  }

  lemma SameTree(a: seq<Entry>, b: seq<Entry>)
    requires multiset(a) == multiset(b) && multiset(PathsOf(a)) == multiset(PathsOf(b))
    ensures TreeShaped(a) <==> TreeShaped(b)
    ensures forall e :: e in a <==> e in b
  {
    forall e ensures e in a <==> e in b {
      assert e in multiset(a) <==> e in a;
      assert e in multiset(b) <==> e in b;
    }
  }

  // ---- The scan ----

  lemma DuplicateCounts(es: seq<Entry>, j: nat, i: nat)
    requires j < i < |es| && es[j].path == es[i].path
    ensures multiset(PathsOf(es))[es[i].path] >= 2
  {
    var ps, p := PathsOf(es), es[i].path;
    assert ps == ps[..i] + [p] + ps[i + 1..];
    assert ps[..i][j] == p;
  }

  lemma {:induction false} AscendingIsDistinct(es: seq<Entry>)
    requires Ascending(es)
    ensures forall p :: multiset(PathsOf(es))[p] <= 1
  {
    if es != [] {
      var init, last := es[..|es| - 1], es[|es| - 1];
      assert es == init + [last];
      AscendingIsDistinct(init);
      PathsAppend(init, last);
      Lex.StrictOrder();
      assert last.path !in PathsOf(init);
    }
  }

  /** Accepted so far: strictly ascending, and no directory of a later entry. */
  ghost predicate Accepted(es: seq<Entry>) {
    Ascending(es) && forall i, j :: 0 <= i < j < |es| ==> !Ancestor(es[i].path, es[j].path)
  }

  /** In ascending order a conflict can only be with an earlier entry. */
  lemma AcceptedIsTree(es: seq<Entry>)
    requires Accepted(es)
    ensures TreeShaped(es)
  {
    AscendingIsDistinct(es);
    Lex.StrictOrder();
    forall d, e | d in es && e in es ensures !Ancestor(d.path, e.path) {
      var i :| 0 <= i < |es| && es[i] == d;
      var j :| 0 <= j < |es| && es[j] == e;
      if Ancestor(d.path, e.path) {
        AncestorIsLess(d.path, e.path);
      }
    }
  }

  lemma NextAscends(es: seq<Entry>, i: nat)
    requires i < |es| && InOrder(es) && Ascending(es[..i])
    requires forall j :: 0 <= j < i ==> es[j].path != es[i].path
    ensures Ascending(es[..i + 1])
  {
    forall j | 0 <= j < i ensures Lex.Less(es[j].path, es[i].path) {
      Lex.Total(es[j].path, es[i].path);
    }
    assert es[..i + 1] == es[..i] + [es[i]];
  }

  /** The scan shared by the extractor, the writer and the tree codec: over entries in path order it
      accepts exactly those whose paths are distinct and free of conflicts. */
  method ScanInOrder(es: seq<Entry>) returns (ok: bool)
    requires InOrder(es)
    ensures ok <==> TreeShaped(es)
    ensures ok ==> Ascending(es)
  {
    var seen: set<string> := {};
    for i := 0 to |es|
      invariant Accepted(es[..i])
      invariant forall p :: p in seen <==> exists j :: 0 <= j < i && es[j].path == p
    {
      var path := es[i].path;
      if path in seen {
        var j :| 0 <= j < i && es[j].path == path;
        DuplicateCounts(es, j, i);
        return false;
      }
      var parent := HasSeenParent(seen, path);
      if parent.Some? {
        var j :| 0 <= j < i && es[j].path == parent.value;
        assert es[j] in es && es[i] in es;
        return false;
      }
      NextAscends(es, i);
      assert es[..i + 1] == es[..i] + [es[i]];
      seen := seen + {path};
    }
    assert es[..|es|] == es;
    AcceptedIsTree(es);
    return true;
  }

  // ---- Final entries ----

  /** `CleanArchiveEntryPath` as far as the model needs it: a normal form or a refusal. */
  type Cleaner = string -> Option<string>

  predicate Canonical(clean: Cleaner, path: string) {
    clean(path) == Some(path)
  }

  ghost predicate ValidTree(clean: Cleaner, es: seq<Entry>) {
    es != [] && (forall e :: e in es ==> Canonical(clean, e.path)) && TreeShaped(es)
  }

  method AllCanonical(clean: Cleaner, es: seq<Entry>) returns (ok: bool)
    ensures ok <==> forall e :: e in es ==> Canonical(clean, e.path)
  {
    for i := 0 to |es|
      invariant forall j :: 0 <= j < i ==> Canonical(clean, es[j].path)
    {
      if !Canonical(clean, es[i].path) {
        assert es[i] in es;
        return false;
      }
    }
    return true;
  }

  /** `validateFinalEntries`, whatever the order of the input: accepted, and then sorted, exactly when
      the paths are canonical, distinct and free of conflicts. */
  method ValidateFinalEntries(clean: Cleaner, es: seq<Entry>) returns (r: Option<seq<Entry>>)
    ensures r.Some? <==> ValidTree(clean, es)
    ensures r.Some? ==> Ascending(r.value) && multiset(r.value) == multiset(es)
  {
    if es == [] {
      return None;
    }
    var sorted := SortEntries(es);
    SameTree(es, sorted);
    var canonical := AllCanonical(clean, sorted);
    if !canonical {
      return None;
    }
    var ok := ScanInOrder(sorted);
    return if ok then Some(sorted) else None;
  }

  /** `treecodec.validateParsed`: a decoded tree must already be in ascending order. */
  method ValidateParsed(clean: Cleaner, es: seq<Entry>) returns (ok: bool)
    ensures ok <==> ValidTree(clean, es) && Ascending(es)
  {
    if es == [] {
      return false;
    }
    var canonical := AllCanonical(clean, es);
    if !canonical {
      return false;
    }
    for i := 1 to |es|
      invariant forall j :: 0 < j < i ==> Lex.Less(es[j - 1].path, es[j].path)
    {
      if !Lex.Less(es[i - 1].path, es[i].path) {
        return false;
      }
    }
    StepwiseAscending(es, |es|);
    Lex.StrictOrder();
    ok := ScanInOrder(es);
  }

  lemma {:induction false} StepwiseAscending(es: seq<Entry>, n: nat)
    requires n <= |es| && forall j :: 0 < j < n ==> Lex.Less(es[j - 1].path, es[j].path)
    ensures forall i, j :: 0 <= i < j < n ==> Lex.Less(es[i].path, es[j].path)
  {
    if n > 1 {
      StepwiseAscending(es, n - 1);
      Lex.StrictOrder();
      forall i | 0 <= i < n - 1 ensures Lex.Less(es[i].path, es[n - 1].path) {
        assert Lex.Less(es[n - 2].path, es[n - 1].path);
      }
    }
  }

  lemma LastIsSame(a: seq<Entry>, b: seq<Entry>)
    requires Ascending(a) && Ascending(b) && multiset(a) == multiset(b) && a != [] && b != []
    ensures a[|a| - 1] == b[|b| - 1]
  {
    var la, lb := a[|a| - 1], b[|b| - 1];
    assert la in multiset(b) && lb in multiset(a);
    var i :| 0 <= i < |b| && b[i] == la;
    var j :| 0 <= j < |a| && a[j] == lb;
    if la != lb {
      assert Lex.Less(la.path, lb.path);
      Lex.Asymmetric(la.path, lb.path);
    }
  }

  lemma DropLast(a: seq<Entry>)
    requires a != []
    ensures multiset(a[..|a| - 1]) == multiset(a) - multiset{a[|a| - 1]} && |multiset(a)| == |a|
  {
    assert a == a[..|a| - 1] + [a[|a| - 1]];
  }

  /** One tree has one sorted form. */
  lemma {:induction false} AscendingIsUnique(a: seq<Entry>, b: seq<Entry>)
    requires Ascending(a) && Ascending(b) && multiset(a) == multiset(b)
    ensures a == b
  {
    assert |a| == |multiset(a)| == |multiset(b)| == |b|;
    if a != [] {
      LastIsSame(a, b);
      DropLast(a);
      DropLast(b);
      AscendingIsUnique(a[..|a| - 1], b[..|b| - 1]);
      assert a == a[..|a| - 1] + [a[|a| - 1]] && b == b[..|b| - 1] + [b[|b| - 1]];
    }
  }
}
