/** Rewriting run by run: between two path bytes nothing is rewritten, so the rewrite maps each maximal
    run of module path bytes by itself. This is what makes it invertible. */
module RewriteUndo {
  import opened Rewrite

  /** The length of the leading run of module path bytes. */
  function RunLength(d: Bytes): (n: nat)
    ensures n <= |d| && AllModule(d[..n]) && (n < |d| ==> !IsModulePathByte(d[n]))
  {
    if d == [] || !IsModulePathByte(d[0]) then 0
    else
      var n := 1 + RunLength(d[1..]);
      assert d[..n] == [d[0]] + d[1..][..n - 1];
      n
  }

  /** The path `p` is the run, or a directory prefix of it. */
  predicate PathPrefix(p: Bytes, run: Bytes) {
    p <= run && (|run| == |p| || run[|p|] == SLASH)
  }

  function RunRewritten(run: Bytes, path: Bytes, target: Bytes): Bytes {
    if PathPrefix(path, run) then target + run[|path|..] else run
  }

  function Runwise(d: Bytes, path: Bytes, target: Bytes): Bytes
    decreases |d|
  {
    if d == [] then []
    else if !IsModulePathByte(d[0]) then [d[0]] + Runwise(d[1..], path, target)
    else
      var n := RunLength(d);
      RunRewritten(d[..n], path, target) + Runwise(d[n..], path, target)
  }

  /** No run of `d` starts at a byte before `pos` and goes on behind it. */
  predicate AtEdge(d: Bytes, pos: nat) {
    pos <= |d| && (pos == 0 || pos == |d| || !IsModulePathByte(d[pos - 1]) || !IsModulePathByte(d[pos]))
  }

  predicate Path(p: Bytes) {
    p != [] && AllModule(p)
  }

  lemma OccurrenceFits(d: Bytes, p: Bytes, pos: nat)
    requires AllModule(p) && pos <= |d|
    ensures OccursAt(d, p, pos) ==> |p| <= RunLength(d[pos..])
  {
    var n := RunLength(d[pos..]);
    assert n < |d| - pos ==> d[pos..][n] == d[pos + n];
    if OccursAt(d, p, pos) {
      forall j | pos <= j < pos + |p| ensures IsModulePathByte(d[j]) {
        assert p[j - pos] == d[pos..pos + |p|][j - pos];
      }
    }
  }

  /** At the start of a run, a delimited occurrence is a directory prefix of the run. */
  lemma BoundaryIsPrefix(d: Bytes, p: Bytes, pos: nat)
    requires Path(p) && AtEdge(d, pos) && pos < |d|
    ensures BoundaryAt(d, p, pos) <==> PathPrefix(p, d[pos..][..RunLength(d[pos..])])
  {
    var n := RunLength(d[pos..]);
    var run := d[pos..][..n];
    OccurrenceFits(d, p, pos);
    if OccursAt(d, p, pos) {
      assert p == run[..|p|];
    }
    if p <= run {
      assert d[pos..pos + |p|] == run[..|p|];
      assert pos > 0 ==> !IsModulePathByte(d[pos - 1]) by {
        assert p[0] == d[pos];
      }
      if |p| < n {
        assert run[|p|] == d[pos + |p|];
      }
    }
  }

  /** Inside a run nothing is delimited on the left. */
  lemma InsideRun(d: Bytes, p: Bytes, pos: nat, s: nat)
    requires pos < |d| && pos < s < pos + RunLength(d[pos..])
    ensures !BoundaryAt(d, p, s)
  {
    assert d[s - 1] == d[pos..][..RunLength(d[pos..])][s - 1 - pos];
  }

  lemma NotInGap(d: Bytes, p: Bytes, pos: nat)
    requires Path(p) && pos < |d| && !IsModulePathByte(d[pos])
    ensures !BoundaryAt(d, p, pos)
  {
    assert d[pos..][0] == d[pos];
    OccurrenceFits(d, p, pos);
  }

  lemma ReplacedHit(d: Bytes, path: Bytes, target: Bytes, pos: nat, end: nat)
    requires path != [] && pos + |path| <= end <= |d| && BoundaryAt(d, path, pos)
    requires forall s :: pos < s < end ==> !BoundaryAt(d, path, s)
    ensures Replaced(d, path, target, pos) == target + d[pos + |path|..end] + Replaced(d, path, target, end)
  {
    ReplacedCopies(d, path, target, pos + |path|, end);
    var tail := Replaced(d, path, target, end);
    assert target + d[pos + |path|..end] + tail == target + (d[pos + |path|..end] + tail);
  }

  lemma ReplacedRun(d: Bytes, path: Bytes, target: Bytes, pos: nat)
    requires Path(path) && AtEdge(d, pos) && pos < |d| && IsModulePathByte(d[pos])
    ensures var n := RunLength(d[pos..]);
            Replaced(d, path, target, pos) == RunRewritten(d[pos..][..n], path, target) + Replaced(d, path, target, pos + n)
  {
    var n := RunLength(d[pos..]);
    var run, end := d[pos..][..n], pos + n;
    assert run == d[pos..end];
    BoundaryIsPrefix(d, path, pos);
    forall s | pos < s < end ensures !BoundaryAt(d, path, s) {
      InsideRun(d, path, pos, s);
    }
    if BoundaryAt(d, path, pos) {
      assert run[|path|..] == d[pos + |path|..end];
      ReplacedHit(d, path, target, pos, end);
    } else {
      ReplacedCopies(d, path, target, pos, end);
    }
  }

  lemma RunwiseGap(d: Bytes, path: Bytes, target: Bytes, pos: nat)
    requires pos < |d| && !IsModulePathByte(d[pos])
    ensures Runwise(d[pos..], path, target) == [d[pos]] + Runwise(d[pos + 1..], path, target)
  {
    assert d[pos..][1..] == d[pos + 1..];
  }

  lemma RunwiseRun(d: Bytes, path: Bytes, target: Bytes, pos: nat)
    requires pos < |d| && IsModulePathByte(d[pos])
    ensures var n := RunLength(d[pos..]);
            Runwise(d[pos..], path, target) == RunRewritten(d[pos..][..n], path, target) + Runwise(d[pos + n..], path, target)
  {
    assert d[pos..][RunLength(d[pos..])..] == d[pos + RunLength(d[pos..])..];
  }

  lemma ReplacedGap(d: Bytes, path: Bytes, target: Bytes, pos: nat)
    requires Path(path) && pos < |d| && !IsModulePathByte(d[pos])
    ensures Replaced(d, path, target, pos) == [d[pos]] + Replaced(d, path, target, pos + 1)
  {
    NotInGap(d, path, pos);
  }

  lemma NextEdge(d: Bytes, pos: nat)
    requires pos < |d| && IsModulePathByte(d[pos])
    ensures var n := RunLength(d[pos..]); n > 0 && AtEdge(d, pos + n)
  {
    var n := RunLength(d[pos..]);
    assert n < |d| - pos ==> d[pos..][n] == d[pos + n];
  }

  ghost predicate AgreeFrom(d: Bytes, path: Bytes, target: Bytes, pos: nat)
    requires path != [] && pos <= |d|
  {
    Replaced(d, path, target, pos) == Runwise(d[pos..], path, target)
  }

  lemma AgreeBeforeGap(d: Bytes, path: Bytes, target: Bytes, pos: nat)
    requires Path(path) && pos < |d| && !IsModulePathByte(d[pos]) && AgreeFrom(d, path, target, pos + 1)
    ensures AgreeFrom(d, path, target, pos)
  {
    ReplacedGap(d, path, target, pos);
    RunwiseGap(d, path, target, pos);
  }

  lemma AgreeBeforeRun(d: Bytes, path: Bytes, target: Bytes, pos: nat)
    requires Path(path) && AtEdge(d, pos) && pos < |d| && IsModulePathByte(d[pos])
    requires AgreeFrom(d, path, target, pos + RunLength(d[pos..]))
    ensures AgreeFrom(d, path, target, pos)
  {
    ReplacedRun(d, path, target, pos);
    RunwiseRun(d, path, target, pos);
  }

  lemma {:induction false} AgreeFromEdge(d: Bytes, path: Bytes, target: Bytes, pos: nat)
    requires Path(path) && AtEdge(d, pos)
    ensures AgreeFrom(d, path, target, pos)
    decreases |d| - pos
  {
    if pos == |d| {
    } else if !IsModulePathByte(d[pos]) {
      AgreeFromEdge(d, path, target, pos + 1);
      AgreeBeforeGap(d, path, target, pos);
    } else {
      NextEdge(d, pos);
      AgreeFromEdge(d, path, target, pos + RunLength(d[pos..]));
      AgreeBeforeRun(d, path, target, pos);
    }
  }

  /** The intended rewrite is the run by run one. */
  lemma ReplacedIsRunwise(d: Bytes, path: Bytes, target: Bytes, pos: nat)
    requires Path(path) && AtEdge(d, pos)
    ensures Replaced(d, path, target, pos) == Runwise(d[pos..], path, target)
  {
    AgreeFromEdge(d, path, target, pos);
  }

  // ---- There and back ----

  lemma {:induction false} RunOf(run: Bytes, rest: Bytes)
    requires AllModule(run) && (rest == [] || !IsModulePathByte(rest[0]))
    ensures RunLength(run + rest) == |run|
  {
    if run == [] {
      assert run + rest == rest;
    } else {
      assert (run + rest)[1..] == run[1..] + rest;
      RunOf(run[1..], rest);
    }
  }

  lemma RunwiseOf(run: Bytes, rest: Bytes, path: Bytes, target: Bytes)
    requires Path(run) && (rest == [] || !IsModulePathByte(rest[0]))
    ensures Runwise(run + rest, path, target) == RunRewritten(run, path, target) + Runwise(rest, path, target)
  {
    RunOf(run, rest);
    assert (run + rest)[..|run|] == run && (run + rest)[|run|..] == rest;
  }

  lemma GapStays(rest: Bytes, path: Bytes, target: Bytes)
    requires rest == [] || !IsModulePathByte(rest[0])
    ensures var r := Runwise(rest, path, target); (r == [] <==> rest == []) && (r != [] ==> r[0] == rest[0])
  {
  }

  lemma RewrittenRunIsPath(run: Bytes, path: Bytes, target: Bytes)
    requires Path(run) && Path(target)
    ensures Path(RunRewritten(run, path, target))
  {
  }

  /** One run survives the round trip exactly when being under the target means being under the path. */
  lemma RunUndone(run: Bytes, path: Bytes, target: Bytes)
    requires Path(run) && Path(path) && Path(target) && path != target
    ensures RunRewritten(RunRewritten(run, path, target), target, path) == run <==> (PathPrefix(target, run) ==> PathPrefix(path, run))
  {
    if PathPrefix(path, run) {
      var rest := run[|path|..];
      assert run == path + rest && (target + rest)[|target|..] == rest;
    } else if PathPrefix(target, run) {
      var rest := run[|target|..];
      assert run == target + rest;
      CancelTail(path, target, rest);
    }
  }

  lemma CancelTail(a: Bytes, b: Bytes, tail: Bytes)
    ensures a + tail == b + tail ==> a == b
  {
    if a + tail == b + tail {
      assert (a + tail)[..|a|] == a && (b + tail)[..|b|] == b;
    }
  }

  predicate EveryRunUndone(d: Bytes, path: Bytes, target: Bytes)
    decreases |d|
  {
    if d == [] then true
    else if !IsModulePathByte(d[0]) then EveryRunUndone(d[1..], path, target)
    else
      var n := RunLength(d);
      (PathPrefix(target, d[..n]) ==> PathPrefix(path, d[..n])) && EveryRunUndone(d[n..], path, target)
  }

  /** Different runs, or different data behind equal runs, make different data. */
  lemma RunsSplit(r: Bytes, x: Bytes, s: Bytes, y: Bytes)
    requires AllModule(r) && AllModule(s)
    requires (x == [] || !IsModulePathByte(x[0])) && (y == [] || !IsModulePathByte(y[0]))
    ensures r + x == s + y <==> r == s && x == y
  {
    RunOf(r, x);
    RunOf(s, y);
    if r + x == s + y {
      assert (r + x)[..|r|] == r && (s + y)[..|s|] == s;
      assert (r + x)[|r|..] == x && (s + y)[|s|..] == y;
    }
  }

  lemma {:induction false} RunwiseUndone(d: Bytes, path: Bytes, target: Bytes)
    requires Path(path) && Path(target) && path != target
    ensures Runwise(Runwise(d, path, target), target, path) == d <==> EveryRunUndone(d, path, target)
    decreases |d|
  {
    if d == [] {
    } else if !IsModulePathByte(d[0]) {
      var rest := Runwise(d[1..], path, target);
      RunwiseUndone(d[1..], path, target);
      assert ([d[0]] + rest)[1..] == rest;
      assert Runwise([d[0]] + rest, target, path) == [d[0]] + Runwise(rest, target, path);
      OneByte(d[0], Runwise(rest, target, path), d);
    } else {
      var n := RunLength(d);
      var run, rest := d[..n], d[n..];
      assert d == run + rest;
      RunwiseUndone(rest, path, target);
      GapStays(rest, path, target);
      RewrittenRunIsPath(run, path, target);
      var run', rest' := RunRewritten(run, path, target), Runwise(rest, path, target);
      RunwiseOf(run', rest', target, path);
      GapStays(rest', target, path);
      RewrittenRunIsPath(run', target, path);
      RunUndone(run, path, target);
      RunsSplit(RunRewritten(run', target, path), Runwise(rest', target, path), run, rest);
    }
  }

  lemma OneByte(b: Byte, x: Bytes, d: Bytes)
    requires d != [] && d[0] == b
    ensures [b] + x == d <==> x == d[1..]
  {
    assert ([b] + x)[1..] == x;
    assert d == [d[0]] + d[1..];
  }

  /** Run by run, delimited occurrences of the target are delimited occurrences of the path. */
  lemma {:induction false} UndoneByPosition(d: Bytes, path: Bytes, target: Bytes, pos: nat)
    requires Path(path) && Path(target) && AtEdge(d, pos)
    ensures EveryRunUndone(d[pos..], path, target) <==>
      forall s: nat :: pos <= s && BoundaryAt(d, target, s) ==> BoundaryAt(d, path, s)
    decreases |d| - pos
  {
    if pos < |d| {
      if !IsModulePathByte(d[pos]) {
        assert d[pos..][1..] == d[pos + 1..];
        UndoneByPosition(d, path, target, pos + 1);
        NotInGap(d, target, pos);
      } else {
        var n := RunLength(d[pos..]);
        assert d[pos..][n..] == d[pos + n..];
        UndoneByPosition(d, path, target, pos + n);
        BoundaryIsPrefix(d, path, pos);
        BoundaryIsPrefix(d, target, pos);
        forall s | pos < s < pos + n ensures !BoundaryAt(d, target, s) {
          InsideRun(d, target, pos, s);
        }
      }
    }
  }

  /** For two different non-empty paths, rewriting one to the other and back restores the data exactly
      when every delimited occurrence of the target is also one of the path. */
  lemma RewriteUndone(d: Bytes, path: Bytes, target: Bytes)
    requires Path(path) && Path(target) && path != target
    ensures Scanned(Scanned(d, path, target), target, path) == d <==>
      forall s: nat :: BoundaryAt(d, target, s) ==> BoundaryAt(d, path, s)
  {
    var there := Scanned(d, path, target);
    ScannedIsRunwise(d, path, target);
    ScannedIsRunwise(there, target, path);
    RunwiseUndone(d, path, target);
    UndoneByPosition(d, path, target, 0);
    assert d[0..] == d;
  }

  lemma ScannedIsRunwise(d: Bytes, path: Bytes, target: Bytes)
    requires Path(path) && path != target
    ensures Scanned(d, path, target) == Runwise(d, path, target)
  {
    GreedyIsReplaced(d, path, target, 0);
    ReplacedIsRunwise(d, path, target, 0);
    assert d[0..] == d;
  }

  /** In particular when the target does not occur in the data at all. */
  lemma RewriteUndoneIfTargetIsNew(d: Bytes, path: Bytes, target: Bytes)
    requires Path(path) && Path(target) && path != target && forall s: nat :: !OccursAt(d, target, s)
    ensures Scanned(Scanned(d, path, target), target, path) == d
  {
    RewriteUndone(d, path, target);
  }
}
