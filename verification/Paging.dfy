/** Keyset paging: `WHERE key > cursor ORDER BY key LIMIT n` over a set of rows.

    A page is described by what it contains, not by how the index finds it: sorted, past
    the cursor, and leaving something out only when it is full. One set, cursor and limit
    have one page; walking through a page skips nothing; a short page is the last one.
    The methods that produce pages and sorted listings are selection sorts, because only
    their result matters. */
module Paging {
  import opened Options

  ghost predicate StrictTotal<T(!new)>(less: (T, T) -> bool) {
    && (forall a :: !less(a, a))
    && (forall a, b, c :: less(a, b) && less(b, c) ==> less(a, c))
    && (forall a, b :: less(a, b) || a == b || less(b, a))
  }

  ghost predicate Past<T>(less: (T, T) -> bool, after: Option<T>, x: T) {
    after.Some? ==> less(after.value, x)
  }

  ghost predicate Sorted<T>(less: (T, T) -> bool, s: seq<T>) {
    forall i, j :: 0 <= i < j < |s| ==> less(s[i], s[j])
  }

  /** A page is sorted, lies in the set past the cursor, and leaves out an element past the cursor
      only if it is full and that element comes after the whole page. */
  ghost predicate IsPage<T>(s: set<T>, less: (T, T) -> bool, after: Option<T>, limit: nat, page: seq<T>) {
    && |page| <= limit
    && Sorted(less, page)
    && (forall x :: x in page ==> x in s && Past(less, after, x))
    && (forall x :: x in s && Past(less, after, x) && x !in page ==>
          |page| == limit && forall y :: y in page ==> less(y, x))
  }

  method Smallest<T(==,!new)>(s: set<T>, less: (T, T) -> bool) returns (least: T)
    requires s != {} && StrictTotal(less)
    ensures least in s && forall x :: x in s && x != least ==> less(least, x)
  {
    least :| least in s;
    var rest := s - {least};
    while rest != {}
      invariant least in s && rest <= s && least !in rest
      invariant forall x :: x in s && x !in rest && x != least ==> less(least, x)
      decreases rest
    {
      var x :| x in rest;
      if less(x, least) {
        least := x;
      }
      rest := rest - {x};
    }
  }

  method Page<T(==,!new)>(s: set<T>, less: (T, T) -> bool, after: Option<T>, limit: nat) returns (page: seq<T>)
    requires StrictTotal(less)
    ensures IsPage(s, less, after, limit, page)
  {
    page := [];
    var rest := set x | x in s && (after.None? || less(after.value, x));
    while |page| < limit && rest != {}
      invariant |page| <= limit && Sorted(less, page)
      invariant forall x :: x in page ==> x in s && Past(less, after, x)
      invariant rest == set x | x in s && Past(less, after, x) && x !in page
      invariant forall x, y :: x in rest && y in page ==> less(y, x)
      decreases limit - |page|
    {
      var x := Smallest(rest, less);
      page := page + [x];
      rest := rest - {x};
    }
    assert forall x :: x in s && Past(less, after, x) && x !in page ==> x in rest;
  }

  method SortAll<T(==,!new)>(s: set<T>, less: (T, T) -> bool) returns (r: seq<T>)
    requires StrictTotal(less)
    ensures Sorted(less, r) && forall x :: x in s <==> x in r
  {
    r := [];
    var rest := s;
    while rest != {}
      invariant rest <= s && Sorted(less, r)
      invariant forall x :: x in s <==> x in r || x in rest
      invariant forall x, y :: x in rest && y in r ==> less(y, x)
      decreases rest
    {
      var x := Smallest(rest, less);
      r := r + [x];
      rest := rest - {x};
    }
  }

  /** A page shorter than its limit is everything past the cursor. */
  lemma ShortPageIsLast<T>(s: set<T>, less: (T, T) -> bool, after: Option<T>, limit: nat, page: seq<T>)
    requires IsPage(s, less, after, limit, page) && |page| < limit
    ensures forall x :: x in s && Past(less, after, x) <==> x in page
  {
  }

  /** On a page nothing is skipped: past one element, the next one comes first. */
  lemma NextOnPage<T(!new)>(s: set<T>, less: (T, T) -> bool, after: Option<T>, limit: nat, page: seq<T>, k: nat)
    requires StrictTotal(less) && IsPage(s, less, after, limit, page) && k < |page|
    ensures var prior := if k == 0 then after else Some(page[k - 1]);
            && Past(less, after, page[k]) && Past(less, prior, page[k])
            && forall x :: x in s && Past(less, prior, x) && !Past(less, Some(page[k]), x) ==> x == page[k]
  {
    var prior := if k == 0 then after else Some(page[k - 1]);
    assert page[k] in page && (k > 0 ==> page[k - 1] in page);
    forall x | x in s && Past(less, prior, x) && !Past(less, Some(page[k]), x) ensures x == page[k] {
      assert Past(less, after, x);
      if x in page {
        var j :| 0 <= j < |page| && page[j] == x;
      }
    }
  }

  lemma {:induction false} SortedHasNoDuplicates<T(!new)>(less: (T, T) -> bool, s: seq<T>)
    requires StrictTotal(less) && Sorted(less, s)
    ensures |set x | x in s| == |s|
  {
    if s != [] {
      var init, last := s[..|s| - 1], s[|s| - 1];
      SortedHasNoDuplicates(less, init);
      assert s == init + [last];
      assert last !in init;
      assert (set x | x in s) == (set x | x in init) + {last};
    }
  }

  /** Two sorted sequences with the same elements are the same sequence. */
  lemma {:induction false} SortedIsUnique<T(!new)>(less: (T, T) -> bool, a: seq<T>, b: seq<T>)
    requires StrictTotal(less) && Sorted(less, a) && Sorted(less, b)
    requires forall x :: x in a <==> x in b
    ensures a == b
  {
    assert b != [] ==> b[0] in b;
    if a != [] {
      assert a[0] in a && b != [];
      assert a[0] == b[0];
      forall x | x in a[1..] ensures x in b[1..] {
        assert x in a && x != a[0];
      }
      forall x | x in b[1..] ensures x in a[1..] {
        assert x in b && x != b[0];
      }
      SortedIsUnique(less, a[1..], b[1..]);
      assert a == [a[0]] + a[1..] && b == [b[0]] + b[1..];
    }
  }

  /** A page is determined by the set, the cursor and the limit. */
  lemma PageIsUnique<T(!new)>(s: set<T>, less: (T, T) -> bool, after: Option<T>, limit: nat, a: seq<T>, b: seq<T>)
    requires StrictTotal(less) && IsPage(s, less, after, limit, a) && IsPage(s, less, after, limit, b)
    ensures a == b
  {
    forall x ensures x in a <==> x in b {
      if x in a && x !in b {
        PageHasNoHole(s, less, after, limit, a, b, x);
      } else if x in b && x !in a {
        PageHasNoHole(s, less, after, limit, b, a, x);
      }
    }
    SortedIsUnique(less, a, b);
  }

  lemma PageHasNoHole<T(!new)>(s: set<T>, less: (T, T) -> bool, after: Option<T>, limit: nat, a: seq<T>, b: seq<T>, x: T)
    requires StrictTotal(less) && IsPage(s, less, after, limit, a) && IsPage(s, less, after, limit, b)
    requires x in a
    ensures x in b
  {
    if x !in b {
      var inA, inB := set y | y in a, set y | y in b;
      SortedHasNoDuplicates(less, a);
      SortedHasNoDuplicates(less, b);
      forall y | y in b ensures y in a {
        assert less(y, x);
      }
      assert inB <= inA - {x};
      SmallerSet(inB, inA - {x});
    }
  }

  lemma {:induction false} SmallerSet<T>(s: set<T>, t: set<T>)
    requires s <= t
    ensures |s| <= |t|
    decreases s
  {
    if s != {} {
      var x :| x in s;
      SmallerSet(s - {x}, t - {x});
    }
  }
}
