/** Data on which the rewriter does less than it is meant to. */
module RewriteExamples {
  import opened Rewrite
  import opened RewriteUndo

  const BANG_PATH: Bytes := [97, 33, 97]
  const BANG_DATA: Bytes := [97, 97, 33, 97, 33, 97]

  lemma BangScanned(target: Bytes)
    requires target != BANG_PATH
    ensures Scanned(BANG_DATA, BANG_PATH, target) == BANG_DATA
  {
    var d, path := BANG_DATA, BANG_PATH;
    assert d[0..3][1] == 97 && d[1..4] == path && d[4..] == [33, 97];
    GreedyMiss(d, path, target, 0);
    GreedyAt(d, path, target, 1);
    GreedyMiss(d, path, target, 4);
    GreedyMiss(d, path, target, 5);
    assert d == [97] + (path + ([33] + ([97] + [])));
  }

  lemma BangReplaced(target: Bytes)
    ensures BoundaryAt(BANG_DATA, BANG_PATH, 3) && Replaced(BANG_DATA, BANG_PATH, target, 0) == BANG_DATA[..3] + target
  {
    var d, path := BANG_DATA, BANG_PATH;
    assert d[0..3] == [97, 97, 33] && d[2..5] == [33, 97, 33] && d[3..6] == path;
    assert !BoundaryAt(d, path, 0) && !BoundaryAt(d, path, 1) && !BoundaryAt(d, path, 2);
    ReplacedCopies(d, path, target, 0, 3);
    assert Replaced(d, path, target, 3) == target + Replaced(d, path, target, 6);
    assert target + [] == target && d[0..3] == d[..3];
  }

  /** The pattern "a!a" overlaps itself behind a byte that is not one of module paths: in "aa!a!a" the
      scanner steps over its only delimited occurrence, whatever the target. */
  lemma SkippedOccurrence(target: Bytes)
    requires target != BANG_PATH
    ensures !OverlapsAreInside(BANG_PATH) && BoundaryAt(BANG_DATA, BANG_PATH, 3)
    ensures Scanned(BANG_DATA, BANG_PATH, target) == BANG_DATA && Replaced(BANG_DATA, BANG_PATH, target, 0) == BANG_DATA[..3] + target
  {
    assert Border(BANG_PATH, 2) && !IsModulePathByte(BANG_PATH[1]);
    BangScanned(target);
    BangReplaced(target);
  }

  /** Data that held the target before does not come back: of "a b", rewriting a to b and back makes "a a". */
  lemma TargetWasThereBefore()
    ensures var path: Bytes, target: Bytes, d: Bytes := [97], [98], [97, 32, 98];
            && Path(path) && Path(target) && BoundaryAt(d, target, 2) && !BoundaryAt(d, path, 2)
            && Scanned(d, path, target) == [98, 32, 98]
            && Scanned(Scanned(d, path, target), target, path) == [97, 32, 97]
  {
    var path: Bytes, target: Bytes, d: Bytes := [97], [98], [97, 32, 98];
    var there: Bytes := [98, 32, 98];
    assert d[0..1] == path && d[2..3] == target && d[1..2] == [32];
    assert there[0..1] == target && there[2..3] == target && there[1..2] == [32];
    assert Greedy(d, path, target, 2) == [98];
    assert Greedy(d, path, target, 1) == [32, 98];
    assert Greedy(there, target, path, 2) == [97];
    assert Greedy(there, target, path, 1) == [32, 97];
  }
}
