/** Sums over finite sets, independent of the order in which elements are taken.

    The sum picks its elements in an unspecified order. `Remove` shows that any element may
    be taken first, and everything else follows from it: sums of equal summands are equal,
    sums over disjoint sets add up, a sum is zero exactly when every summand is. They
    stand for reference counts summed over versions and for bytes summed over blobs or
    cached entries. */
module Sums {

  ghost function Sum<T(!new)>(s: set<T>, f: T -> nat): nat {
    if s == {} then 0
    else
      var x :| x in s;
      f(x) + Sum(s - {x}, f)
  }

  lemma {:induction false} Remove<T(!new)>(s: set<T>, f: T -> nat, x: T)
    requires x in s
    ensures Sum(s, f) == f(x) + Sum(s - {x}, f)
    decreases s
  {
    var y :| y in s && Sum(s, f) == f(y) + Sum(s - {y}, f);
    if y != x {
      Remove(s - {y}, f, x);
      Remove(s - {x}, f, y);
      assert s - {y} - {x} == s - {x} - {y};
    }
  }

  lemma Add<T(!new)>(s: set<T>, f: T -> nat, x: T)
    requires x !in s
    ensures Sum(s + {x}, f) == f(x) + Sum(s, f)
  {
    Remove(s + {x}, f, x);
    assert s + {x} - {x} == s;
  }

  lemma {:induction false} Congruent<T(!new)>(s: set<T>, f: T -> nat, g: T -> nat)
    requires forall x :: x in s ==> f(x) == g(x)
    ensures Sum(s, f) == Sum(s, g)
  {
    if s != {} {
      var x :| x in s;
      Remove(s, f, x);
      Remove(s, g, x);
      Congruent(s - {x}, f, g);
    }
  }

  lemma {:induction false} Union<T(!new)>(s: set<T>, t: set<T>, f: T -> nat)
    requires s !! t
    ensures Sum(s + t, f) == Sum(s, f) + Sum(t, f)
    decreases t
  {
    if t == {} {
      assert s + t == s;
    } else {
      var x :| x in t;
      Remove(t, f, x);
      Remove(s + t, f, x);
      assert s + t - {x} == s + (t - {x});
      Union(s, t - {x}, f);
    }
  }

  lemma {:induction false} Distribute<T(!new)>(s: set<T>, f: T -> nat, g: T -> nat, h: T -> nat)
    requires forall x :: x in s ==> h(x) == f(x) + g(x)
    ensures Sum(s, h) == Sum(s, f) + Sum(s, g)
  {
    if s != {} {
      var x :| x in s;
      Remove(s, f, x);
      Remove(s, g, x);
      Remove(s, h, x);
      Distribute(s - {x}, f, g, h);
    }
  }

  lemma {:induction false} Constant<T(!new)>(s: set<T>, f: T -> nat, c: nat)
    requires forall x :: x in s ==> f(x) == c
    ensures Sum(s, f) == |s| * c
  {
    if s != {} {
      var x :| x in s;
      Remove(s, f, x);
      Constant(s - {x}, f, c);
    }
  }

  /** A sum is zero exactly when every summand is. */
  lemma {:induction false} Zero<T(!new)>(s: set<T>, f: T -> nat)
    ensures Sum(s, f) == 0 <==> forall x :: x in s ==> f(x) == 0
  {
    if s != {} {
      var x :| x in s;
      Remove(s, f, x);
      Zero(s - {x}, f);
    }
  }

  /** Replacing the summands in `n`, all zero before, by those of `g` adds their sum. */
  lemma Splice<T(!new)>(k: set<T>, k': set<T>, n: set<T>, f: T -> nat, f': T -> nat, g: T -> nat)
    requires n <= k' && k' - n == k - n
    requires forall x :: x in n ==> f'(x) == g(x)
    requires forall x :: x in k - n ==> f'(x) == f(x)
    requires forall x :: x in k * n ==> f(x) == 0
    ensures Sum(k', f') == Sum(k, f) + Sum(n, g)
  {
    Union(k' - n, n, f');
    assert k' - n + n == k';
    Congruent(k - n, f', f);
    Congruent(n, f', g);
    Union(k - n, k * n, f);
    assert (k - n) + (k * n) == k;
    Zero(k * n, f);
  }
}
