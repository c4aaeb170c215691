/** A fixed number of items, one behind the other, in a byte string.

    If reading one item undoes printing it, whatever follows, then reading the list undoes
    printing the list; if printing an item that was read gives back the bytes it was read
    from, then the same holds of the list. The functions that read and print one item are
    parameters. This is how the entries of a tree object sit behind their count, and the
    two facts are what makes the object canonical. */
module Repetition {
  import opened Options

  datatype Read<T> = Read(value: T, used: nat)

  /** `n` items and nothing behind them. */
  function ParseMany<T>(parse: string -> Option<Read<T>>, s: string, n: nat): Option<seq<T>>
    decreases n
  {
    if n == 0 then (if s == "" then Some([]) else None)
    else match parse(s)
      case None => None
      case Some(p) =>
        if p.used > |s| then None
        else match ParseMany(parse, s[p.used..], n - 1)
          case None => None
          case Some(rest) => Some([p.value] + rest)
  }

  function PrintMany<T>(show: T -> string, ts: seq<T>): string {
    if ts == [] then "" else show(ts[0]) + PrintMany(show, ts[1..])
  }

  ghost predicate ReadsPrinted<T(!new)>(parse: string -> Option<Read<T>>, show: T -> string, ok: T -> bool) {
    forall t, rest :: ok(t) ==> parse(show(t) + rest) == Some(Read(t, |show(t)|))
  }

  ghost predicate PrintsRead<T>(parse: string -> Option<Read<T>>, show: T -> string, ok: T -> bool) {
    forall s :: parse(s).Some? ==>
      var r := parse(s).value; r.used <= |s| && ok(r.value) && show(r.value) == s[..r.used]
  }

  lemma {:induction false} ManyPrinted<T(!new)>(parse: string -> Option<Read<T>>, show: T -> string, ok: T -> bool, ts: seq<T>)
    requires ReadsPrinted(parse, show, ok) && forall i :: 0 <= i < |ts| ==> ok(ts[i])
    ensures ParseMany(parse, PrintMany(show, ts), |ts|) == Some(ts)
    decreases |ts|
  {
    if ts != [] {
      var first, rest := show(ts[0]), PrintMany(show, ts[1..]);
      ManyPrinted(parse, show, ok, ts[1..]);
      assert (first + rest)[|first|..] == rest;
      assert [ts[0]] + ts[1..] == ts;
    }
  }

  lemma {:induction false} ManyReprint<T(!new)>(parse: string -> Option<Read<T>>, show: T -> string, ok: T -> bool, s: string, n: nat)
    requires PrintsRead(parse, show, ok) && ParseMany(parse, s, n).Some?
    ensures var ts := ParseMany(parse, s, n).value;
            |ts| == n && (forall i :: 0 <= i < n ==> ok(ts[i])) && PrintMany(show, ts) == s
    decreases n
  {
    if n > 0 {
      var p := parse(s).value;
      ManyReprint(parse, show, ok, s[p.used..], n - 1);
      assert ([p.value] + ParseMany(parse, s[p.used..], n - 1).value)[1..] == ParseMany(parse, s[p.used..], n - 1).value;
      assert s == s[..p.used] + s[p.used..];
    }
  }

  /** The reading loop. */
  method ReadMany<T>(parse: string -> Option<Read<T>>, s: string, n: nat) returns (r: Option<seq<T>>)
    ensures r == ParseMany(parse, s, n)
  {
    var ts: seq<T> := [];
    var rest := s;
    Behind([], ParseMany(parse, s, n));
    for i := 0 to n
      invariant ParseMany(parse, s, n) == Prepended(ts, ParseMany(parse, rest, n - i))
    {
      var p := parse(rest);
      if p.None? || p.value.used > |rest| {
        return None;
      }
      Behind(ts + [p.value.value], ParseMany(parse, rest[p.value.used..], n - i - 1));
      Between(ts, p.value.value, ParseMany(parse, rest[p.value.used..], n - i - 1));
      ts, rest := ts + [p.value.value], rest[p.value.used..];
    }
    assert ts + [] == ts;
    return if rest == "" then Some(ts) else None;
  }

  function Prepended<T>(ts: seq<T>, r: Option<seq<T>>): Option<seq<T>> {
    match r case None => None case Some(rest) => Some(ts + rest)
  }

  lemma Behind<T>(ts: seq<T>, r: Option<seq<T>>)
    ensures Prepended(ts, r).Some? <==> r.Some?
    ensures ts == [] ==> Prepended(ts, r) == r
  {
    if r.Some? && ts == [] {
      assert ts + r.value == r.value;
    }
  }

  lemma Between<T>(ts: seq<T>, t: T, r: Option<seq<T>>)
    ensures Prepended(ts, Prepended([t], r)) == Prepended(ts + [t], r)
  {
    if r.Some? {
      assert ts + ([t] + r.value) == (ts + [t]) + r.value;
    }
  }

  lemma {:induction false} PrintAppend<T>(show: T -> string, ts: seq<T>, t: T)
    ensures PrintMany(show, ts + [t]) == PrintMany(show, ts) + show(t)
    decreases |ts|
  {
    if ts == [] {
      assert [t][1..] == [];
      assert PrintMany(show, [t]) == show(t) + "";
      assert ts + [t] == [t];
    } else {
      assert (ts + [t])[1..] == ts[1..] + [t];
      PrintAppend(show, ts[1..], t);
    }
  }

  lemma PrintNext<T>(show: T -> string, ts: seq<T>, i: nat)
    requires i < |ts|
    ensures PrintMany(show, ts[..i + 1]) == PrintMany(show, ts[..i]) + show(ts[i])
  {
    assert ts[..i + 1] == ts[..i] + [ts[i]];
    PrintAppend(show, ts[..i], ts[i]);
  }

  lemma {:induction false} PrintGrows<T>(show: T -> string, ts: seq<T>, i: nat)
    requires i <= |ts|
    ensures |PrintMany(show, ts[..i])| <= |PrintMany(show, ts)|
    decreases |ts| - i
  {
    if i == |ts| {
      assert ts[..i] == ts;
    } else {
      PrintGrows(show, ts, i + 1);
      PrintNext(show, ts, i);
    }
  }

  lemma {:induction false} PrintLength<T>(show: T -> string, ts: seq<T>, least: nat)
    requires forall i :: 0 <= i < |ts| ==> |show(ts[i])| >= least
    ensures |PrintMany(show, ts)| >= least * |ts|
    decreases |ts|
  {
    if ts != [] {
      PrintLength(show, ts[1..], least);
    }
  }
}
