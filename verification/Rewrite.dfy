/** The module path rewriter: a greedy scanner, and the replacement it is meant to compute. */
module Rewrite {
  // The lemmas give the exact conditions under which the two agree.

  type Byte = b: int | 0 <= b < 256
  type Bytes = seq<Byte>

  const SLASH: Byte := 47

  /** Letters, digits and `.` `-` `_` `~` `/`. */
  predicate IsModulePathByte(c: Byte) {
    97 <= c <= 122 || 65 <= c <= 90 || 48 <= c <= 57 || c == 46 || c == 45 || c == 95 || c == 126 || c == SLASH
  }

  lemma ModulePathCharacters(c: Byte)
    ensures var ch := c as char;
            IsModulePathByte(c) <==> 'a' <= ch <= 'z' || 'A' <= ch <= 'Z' || '0' <= ch <= '9' || ch in ".-_~/"
  {
  }

  predicate AllModule(s: Bytes) {
    forall i :: 0 <= i < |s| ==> IsModulePathByte(s[i])
  }

  predicate ModuleBoundary(d: Bytes, start: nat, end: nat)
    requires start <= end <= |d|
  {
    !(start > 0 && IsModulePathByte(d[start - 1])) && !(end < |d| && d[end] != SLASH && IsModulePathByte(d[end]))
  }

  predicate OccursAt(d: Bytes, p: Bytes, s: nat) {
    s + |p| <= |d| && d[s..s + |p|] == p
  }

  /** A boundary-delimited occurrence: what a rewrite is meant to replace. */
  predicate BoundaryAt(d: Bytes, p: Bytes, s: nat) {
    OccursAt(d, p, s) && ModuleBoundary(d, s, s + |p|)
  }

  /** What the scanner does: after any occurrence it goes on behind it. */
  function Greedy(d: Bytes, path: Bytes, target: Bytes, pos: nat): Bytes
    requires path != []
    decreases |d| - pos
  {
    if pos >= |d| then []
    else if OccursAt(d, path, pos) then
      (if ModuleBoundary(d, pos, pos + |path|) then target else path) + Greedy(d, path, target, pos + |path|)
    else [d[pos]] + Greedy(d, path, target, pos + 1)
  }

  /** The intended result: each boundary-delimited occurrence replaced, every other byte kept. */
  function Replaced(d: Bytes, path: Bytes, target: Bytes, pos: nat): Bytes
    requires path != []
    decreases |d| - pos
  {
    if pos >= |d| then []
    else if BoundaryAt(d, path, pos) then target + Replaced(d, path, target, pos + |path|)
    else [d[pos]] + Replaced(d, path, target, pos + 1)
  }

  function Scanned(d: Bytes, path: Bytes, target: Bytes): Bytes {
    if path == [] || path == target then d else Greedy(d, path, target, 0)
  }

  // ---- The loops ----

  /** `bytes.Index` from a position. */
  method Index(d: Bytes, p: Bytes, pos: nat) returns (at: int)
    requires pos <= |d|
    ensures at < 0 ==> forall s :: pos <= s ==> !OccursAt(d, p, s)
    ensures at >= 0 ==> pos <= at && OccursAt(d, p, at) && forall s :: pos <= s < at ==> !OccursAt(d, p, s)
  {
    var s := pos;
    while s + |p| <= |d|
      invariant pos <= s && forall t :: pos <= t < s ==> !OccursAt(d, p, t)
      decreases |d| - s
    {
      if d[s..s + |p|] == p {
        return s;
      }
      s := s + 1;
    }
    at := -1;
  }

  lemma Onward(d: Bytes, pos: nat, end: nat, tail: Bytes)
    requires pos < end <= |d|
    ensures d[pos..end] + tail == [d[pos]] + (d[pos + 1..end] + tail)
  {
  }

  lemma {:induction false} GreedyCopies(d: Bytes, path: Bytes, target: Bytes, pos: nat, end: nat)
    requires path != [] && pos <= end <= |d| && forall s :: pos <= s < end ==> !OccursAt(d, path, s)
    ensures Greedy(d, path, target, pos) == d[pos..end] + Greedy(d, path, target, end)
    decreases end - pos
  {
    if pos < end {
      GreedyCopies(d, path, target, pos + 1, end);
      Onward(d, pos, end, Greedy(d, path, target, end));
    }
  }

  function Piece(d: Bytes, path: Bytes, target: Bytes, start: nat): Bytes
    requires OccursAt(d, path, start)
  {
    if ModuleBoundary(d, start, start + |path|) then target else path
  }

  lemma GreedyStep(d: Bytes, path: Bytes, target: Bytes, goal: Bytes, pos: nat, start: nat, out: Bytes) returns (next: Bytes)
    requires path != [] && pos <= start && OccursAt(d, path, start) && forall s :: pos <= s < start ==> !OccursAt(d, path, s)
    requires goal == out + Greedy(d, path, target, pos)
    ensures next == out + d[pos..start] + Piece(d, path, target, start)
    ensures |next| == |out| + (start - pos) + |Piece(d, path, target, start)|
    ensures goal == next + Greedy(d, path, target, start + |path|)
  {
    var piece, tail := Piece(d, path, target, start), Greedy(d, path, target, start + |path|);
    next := out + d[pos..start] + piece;
    GreedyCopies(d, path, target, pos, start);
    GreedyAt(d, path, target, start);
    Regroup(out, d[pos..start], piece, tail);
  }

  lemma GreedyAt(d: Bytes, path: Bytes, target: Bytes, start: nat)
    requires path != [] && OccursAt(d, path, start)
    ensures Greedy(d, path, target, start) == Piece(d, path, target, start) + Greedy(d, path, target, start + |path|)
  {
  }

  lemma GreedyMiss(d: Bytes, path: Bytes, target: Bytes, pos: nat)
    requires path != [] && pos < |d| && !OccursAt(d, path, pos)
    ensures Greedy(d, path, target, pos) == [d[pos]] + Greedy(d, path, target, pos + 1)
  {
  }

  lemma GreedyTail(d: Bytes, path: Bytes, target: Bytes, pos: nat)
    requires path != [] && pos <= |d| && forall s :: pos <= s ==> !OccursAt(d, path, s)
    ensures Greedy(d, path, target, pos) == d[pos..]
  {
    GreedyCopies(d, path, target, pos, |d|);
    assert d[pos..|d|] == d[pos..];
  }

  lemma Regroup(a: Bytes, b: Bytes, c: Bytes, tail: Bytes)
    ensures a + (b + (c + tail)) == (a + b + c) + tail
  {
  }

  lemma GreedyEnd(d: Bytes, path: Bytes, target: Bytes, goal: Bytes, pos: nat, out: Bytes)
    requires path != [] && pos <= |d| && forall s :: pos <= s ==> !OccursAt(d, path, s)
    requires goal == out + Greedy(d, path, target, pos)
    ensures goal == out + d[pos..] && |goal| == |out| + |d| - pos
  {
    GreedyTail(d, path, target, pos);
  }

  /** `rewriteScan`: one loop for both passes, so the size pass and the content pass agree. */
  method RewriteScan(d: Bytes, path: Bytes, target: Bytes, content: bool) returns (result: Bytes, total: int)
    ensures total == |Scanned(d, path, target)|
    ensures content ==> result == Scanned(d, path, target)
  {
    if path == [] || path == target {
      return if content then d else [], |d|;
    }
    result, total := [], |d|;
    var pos := 0;
    ghost var goal := Greedy(d, path, target, 0);
    assert goal == Scanned(d, path, target);
    ghost var out: Bytes := [];
    while true
      invariant pos <= |d| && goal == out + Greedy(d, path, target, pos)
      invariant total == |out| + |d| - pos && (content ==> result == out)
      decreases |d| - pos
    {
      var start := Index(d, path, pos);
      if start < 0 {
        GreedyEnd(d, path, target, goal, pos, out);
        if content {
          result := result + d[pos..];
        }
        return;
      }
      out := GreedyStep(d, path, target, goal, pos, start, out);
      result, total := Emit(d, path, target, pos, start, content, result, total);
      pos := start + |path|;
    }
  }

  /** The body of the scanning loop. */
  method Emit(d: Bytes, path: Bytes, target: Bytes, pos: nat, start: nat, content: bool, result0: Bytes, total0: int)
    returns (result: Bytes, total: int)
    requires pos <= start && OccursAt(d, path, start)
    ensures total == total0 + |Piece(d, path, target, start)| - |path|
    ensures content ==> result == result0 + d[pos..start] + Piece(d, path, target, start)
  {
    result, total := result0, total0;
    var end := start + |path|;
    if content {
      result := result + d[pos..start];
    }
    if ModuleBoundary(d, start, end) {
      total := total + (|target| - |path|);
      if content {
        result := result + target;
      }
    } else if content {
      result := result + path;
    }
  }

  method RewriteContent(d: Bytes, path: Bytes, target: Bytes) returns (r: Bytes)
    ensures r == Scanned(d, path, target)
  {
    var total;
    r, total := RewriteScan(d, path, target, true);
  }

  method RewrittenSize(d: Bytes, path: Bytes, target: Bytes) returns (n: int)
    ensures n == |Scanned(d, path, target)|
  {
    var ignored;
    ignored, n := RewriteScan(d, path, target, false);
  }

  /** `containsModulePath`: exactly whether some boundary-delimited occurrence exists. */
  method ContainsModulePath(d: Bytes, needle: Bytes) returns (found: bool)
    ensures found <==> needle != [] && exists s: nat :: BoundaryAt(d, needle, s)
  {
    if needle == [] {
      return false;
    }
    var pos := 0;
    while true
      invariant pos <= |d| && forall s: nat :: s < pos ==> !BoundaryAt(d, needle, s)
      decreases |d| - pos
    {
      var start := Index(d, needle, pos);
      if start < 0 {
        return false;
      }
      if ModuleBoundary(d, start, start + |needle|) {
        assert BoundaryAt(d, needle, start);
        return true;
      }
      pos := start + 1;
    }
  }

  // ---- When the scanner replaces exactly the boundary-delimited occurrences ----

  /** The pattern can overlap itself, shifted by `k`. */
  predicate Border(p: Bytes, k: nat) {
    0 < k < |p| && p[k..] == p[..|p| - k]
  }

  /** No overlapping occurrence can be delimited on the left. */
  predicate OverlapsAreInside(p: Bytes) {
    forall k :: 0 < k < |p| && Border(p, k) ==> IsModulePathByte(p[k - 1])
  }

  /** Overlapping occurrences are a border shift apart. */
  lemma OverlapIsBorder(d: Bytes, p: Bytes, s: nat, k: nat)
    requires OccursAt(d, p, s) && OccursAt(d, p, s + k) && 0 < k < |p|
    ensures Border(p, k) && d[s + k - 1] == p[k - 1]
  {
    assert p[k - 1] == d[s..s + |p|][k - 1];
    forall i | 0 <= i < |p| - k ensures p[k..][i] == p[..|p| - k][i] {
      assert p[k + i] == d[s..s + |p|][k + i];
      assert p[i] == d[s + k..s + k + |p|][i];
    }
  }

  lemma NoBoundaryInside(d: Bytes, p: Bytes, s: nat, t: nat)
    requires OverlapsAreInside(p) && OccursAt(d, p, s) && s < t < s + |p|
    ensures !BoundaryAt(d, p, t)
  {
    if BoundaryAt(d, p, t) {
      OverlapIsBorder(d, p, s, t - s);
    }
  }

  /** Boundary-delimited occurrences never overlap, so that all of them can be replaced. */
  lemma BoundariesAreDisjoint(d: Bytes, p: Bytes, s: nat, t: nat)
    requires OverlapsAreInside(p) && BoundaryAt(d, p, s) && BoundaryAt(d, p, t) && s < t
    ensures s + |p| <= t
  {
    if t < s + |p| {
      NoBoundaryInside(d, p, s, t);
    }
  }

  lemma {:induction false} ReplacedCopies(d: Bytes, path: Bytes, target: Bytes, pos: nat, end: nat)
    requires path != [] && pos <= end <= |d| && forall s :: pos <= s < end ==> !BoundaryAt(d, path, s)
    ensures Replaced(d, path, target, pos) == d[pos..end] + Replaced(d, path, target, end)
    decreases end - pos
  {
    if pos < end {
      ReplacedCopies(d, path, target, pos + 1, end);
      Onward(d, pos, end, Replaced(d, path, target, end));
    }
  }

  lemma ReplacedOver(d: Bytes, path: Bytes, target: Bytes, pos: nat)
    requires path != [] && OverlapsAreInside(path) && OccursAt(d, path, pos)
    ensures Replaced(d, path, target, pos) == Piece(d, path, target, pos) + Replaced(d, path, target, pos + |path|)
  {
    if !ModuleBoundary(d, pos, pos + |path|) {
      forall s | pos <= s < pos + |path| ensures !BoundaryAt(d, path, s) {
        if s > pos {
          NoBoundaryInside(d, path, pos, s);
        }
      }
      ReplacedCopies(d, path, target, pos, pos + |path|);
    }
  }

  lemma {:induction false} GreedyIsReplaced(d: Bytes, path: Bytes, target: Bytes, pos: nat)
    requires path != [] && OverlapsAreInside(path)
    ensures Greedy(d, path, target, pos) == Replaced(d, path, target, pos)
    decreases |d| - pos
  {
    if pos < |d| {
      if OccursAt(d, path, pos) {
        GreedyIsReplaced(d, path, target, pos + |path|);
        GreedyAt(d, path, target, pos);
        ReplacedOver(d, path, target, pos);
      } else {
        GreedyIsReplaced(d, path, target, pos + 1);
        GreedyMiss(d, path, target, pos);
        assert Replaced(d, path, target, pos) == [d[pos]] + Replaced(d, path, target, pos + 1);
      }
    }
  }

  /** Data on which the scanner skips a delimited occurrence of a pattern with a free overlap. */
  function SkippingData(p: Bytes, k: nat): Bytes
    requires 0 < k < |p|
  {
    [if p[0] == 97 then 98 else 97] + p[..k] + p
  }

  lemma SkippingOccurrences(p: Bytes, k: nat)
    requires Border(p, k)
    ensures var d := SkippingData(p, k);
            |d| == 1 + k + |p| && !OccursAt(d, p, 0) && OccursAt(d, p, 1) && OccursAt(d, p, 1 + k)
  {
    var d := SkippingData(p, k);
    assert d[1 + k..1 + k + |p|] == p;
    forall i | 0 <= i < |p| ensures d[1..1 + |p|][i] == p[i] {
      if i >= k {
        assert p[k..][i - k] == p[..|p| - k][i - k];
      }
    }
    assert d[1..1 + |p|] == p;
    assert d[0..|p|][0] != p[0];
  }

  lemma SecondIsDelimited(p: Bytes, k: nat)
    requires Border(p, k) && !IsModulePathByte(p[k - 1])
    ensures var d := SkippingData(p, k); BoundaryAt(d, p, 1 + k) && !ModuleBoundary(d, 1, 1 + |p|)
  {
    SkippingOccurrences(p, k);
    assert SkippingData(p, k)[k] == p[k - 1];
  }

  lemma GreedySkips(p: Bytes, target: Bytes, k: nat)
    requires Border(p, k) && !IsModulePathByte(p[k - 1])
    ensures Greedy(SkippingData(p, k), p, target, 0) == SkippingData(p, k)
  {
    SkippingOccurrences(p, k);
    SecondIsDelimited(p, k);
    var d := SkippingData(p, k);
    GreedySkipsOne(d, p, target, 0, 1);
    assert d[0..] == d;
  }

  /** One occurrence, not delimited, and no room for another behind it. */
  lemma GreedySkipsOne(d: Bytes, p: Bytes, target: Bytes, pos: nat, at: nat)
    requires p != [] && pos <= at && |d| < at + 2 * |p| && OccursAt(d, p, at) && !ModuleBoundary(d, at, at + |p|)
    requires forall s :: pos <= s < at ==> !OccursAt(d, p, s)
    ensures Greedy(d, p, target, pos) == d[pos..]
  {
    GreedyTail(d, p, target, at + |p|);
    GreedyAt(d, p, target, at);
    GreedyCopies(d, p, target, pos, at);
    SplitAt(d, p, pos, at);
  }

  lemma SplitAt(d: Bytes, p: Bytes, pos: nat, s: nat)
    requires pos <= s && OccursAt(d, p, s)
    ensures d[pos..] == d[pos..s] + (p + d[s + |p|..])
  {
    assert d[s..] == d[s..s + |p|] + d[s + |p|..];
  }

  lemma Cancel(a: Bytes, x: Bytes, y: Bytes)
    ensures a + x == a + y ==> x == y
  {
    if a + x == a + y {
      assert (a + x)[|a|..] == x && (a + y)[|a|..] == y;
    }
  }

  lemma HeadsDiffer(x: Bytes, tail: Bytes, y: Bytes, rest: Bytes)
    requires |x| == |y| && x != y
    ensures x + tail != y + rest
  {
    assert (x + tail)[..|x|] == x && (y + rest)[..|y|] == y;
  }

  /** Replacing something different changes the data. */
  lemma ReplacedDiffers(d: Bytes, path: Bytes, target: Bytes, pos: nat, s: nat)
    requires path != [] && path != target && pos <= s && BoundaryAt(d, path, s)
    requires forall t :: pos <= t < s ==> !BoundaryAt(d, path, t)
    ensures Replaced(d, path, target, pos) != d[pos..]
  {
    var before, tail, rest := d[pos..s], Replaced(d, path, target, s + |path|), d[s + |path|..];
    ReplacedCopies(d, path, target, pos, s);
    assert Replaced(d, path, target, pos) == before + (target + tail);
    SplitAt(d, path, pos, s);
    if |target| == |path| {
      HeadsDiffer(target, tail, path, rest);
      Cancel(before, target + tail, path + rest);
    } else {
      ReplacedLength(d, path, target, s + |path|);
    }
  }

  /** Each replacement changes the length by the same amount. */
  lemma {:induction false} ReplacedLength(d: Bytes, path: Bytes, target: Bytes, pos: nat)
    requires path != [] && pos <= |d|
    ensures |target| >= |path| ==> |Replaced(d, path, target, pos)| >= |d| - pos
    ensures |target| <= |path| ==> |Replaced(d, path, target, pos)| <= |d| - pos
    decreases |d| - pos
  {
    if pos < |d| {
      if BoundaryAt(d, path, pos) {
        ReplacedLength(d, path, target, pos + |path|);
      } else {
        ReplacedLength(d, path, target, pos + 1);
      }
    }
  }

  /** For a non-empty pattern, on all data and for every replacement, the scanner computes the intended
      result exactly when every way the pattern overlaps itself hides the second occurrence behind a
      module path byte. Patterns made of module path bytes are of this kind. */
  lemma ScannerIsExact(path: Bytes, target: Bytes)
    requires path != [] && path != target
    ensures OverlapsAreInside(path) <==> forall d :: Scanned(d, path, target) == Replaced(d, path, target, 0)
    ensures AllModule(path) ==> OverlapsAreInside(path)
  {
    if OverlapsAreInside(path) {
      forall d ensures Scanned(d, path, target) == Replaced(d, path, target, 0) {
        GreedyIsReplaced(d, path, target, 0);
      }
    } else {
      var k :| 0 < k < |path| && Border(path, k) && !IsModulePathByte(path[k - 1]);
      var d := SkippingData(path, k);
      SecondIsDelimited(path, k);
      GreedySkips(path, target, k);
      var s := FirstBoundary(d, path, 1 + k);
      ReplacedDiffers(d, path, target, 0, s);
      assert d[0..] == d;
      assert Scanned(d, path, target) != Replaced(d, path, target, 0);
    }
  }

  lemma {:induction false} FirstBoundary(d: Bytes, p: Bytes, s: nat) returns (first: nat)
    requires BoundaryAt(d, p, s)
    ensures BoundaryAt(d, p, first) && forall t :: 0 <= t < first ==> !BoundaryAt(d, p, t)
    decreases s
  {
    if t :| 0 <= t < s && BoundaryAt(d, p, t) {
      first := FirstBoundary(d, p, t);
    } else {
      first := s;
    }
  }

  /** Data without a delimited occurrence is left alone, whatever the pattern: leaving such blobs out
      of the rewrite set changes nothing. */
  lemma {:induction false} NothingToRewrite(d: Bytes, path: Bytes, target: Bytes, pos: nat)
    requires path != [] && pos <= |d| && forall s: nat :: !BoundaryAt(d, path, s)
    ensures Greedy(d, path, target, pos) == d[pos..]
    decreases |d| - pos
  {
    if pos < |d| {
      if OccursAt(d, path, pos) {
        assert !BoundaryAt(d, path, pos);
        NothingToRewrite(d, path, target, pos + |path|);
        assert d[pos..] == path + d[pos + |path|..];
      } else {
        NothingToRewrite(d, path, target, pos + 1);
        assert d[pos..] == [d[pos]] + d[pos + 1..];
      }
    }
  }

  /** And with a pattern of module path bytes such blobs are the only ones left alone. */
  lemma SomethingToRewrite(d: Bytes, path: Bytes, target: Bytes, s: nat)
    requires path != [] && path != target && AllModule(path) && BoundaryAt(d, path, s)
    ensures Scanned(d, path, target) != d
  {
    GreedyIsReplaced(d, path, target, 0);
    var first := FirstBoundary(d, path, s);
    ReplacedDiffers(d, path, target, 0, first);
    assert d[0..] == d;
  }
}
