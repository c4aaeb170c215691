/** Where a symlink of a tree may point: `SymlinkTargetWithinRoot`. */
module SymlinkRule {

  /** A path split at its slashes. */
  function Segments(p: string): (r: seq<string>)
    ensures r != []
  {
    if p == "" then [""]
    else
      var rest := Segments(p[1..]);
      if p[0] == '/' then [""] + rest else [[p[0]] + rest[0]] + rest[1..]
  }

  /** A cleaned relative path: how far it climbs above where it starts, and the names after that. */
  datatype Place = Place(ups: nat, names: seq<string>)

  function Enter(at: Place, segment: string): Place {
    if segment == "" || segment == "." then at
    else if segment != ".." then at.(names := at.names + [segment])
    else if at.names != [] then at.(names := at.names[..|at.names| - 1])
    else at.(ups := at.ups + 1)
  }

  /** `path.Clean`, one segment after another. */
  function Walk(segments: seq<string>): Place {
    if segments == [] then Place(0, [])
    else Enter(Walk(segments[..|segments| - 1]), segments[|segments| - 1])
  }

  function DirectoryOf(path: string): seq<string> {
    var segments := Segments(path);
    segments[..|segments| - 1]
  }

  /** The target, resolved against the directory of the symlink, does not climb above the root. What is
      checked of the target alone (it is relative, and of harmless characters) is `hygienic`. */
  predicate WithinRoot(hygienic: string -> bool, path: string, target: string) {
    hygienic(target) && Walk(DirectoryOf(path) + Segments(target)).ups == 0
  }

  /** How deep a walk ends below where it starts: a name leads one down, `..` one up. */
  function Depth(segments: seq<string>): int {
    if segments == [] then 0
    else
      var last := segments[|segments| - 1];
      Depth(segments[..|segments| - 1]) + if last == ".." then -1 else if last == "" || last == "." then 0 else 1
  }

  lemma {:induction false} DepthOfWalk(segments: seq<string>)
    ensures Depth(segments) == |Walk(segments).names| - Walk(segments).ups
  {
    if segments != [] {
      DepthOfWalk(segments[..|segments| - 1]);
    }
  }

  /** A walk climbs above its start exactly when some part of it leads there. */
  lemma {:induction false} ClimbsSomewhere(segments: seq<string>)
    ensures Walk(segments).ups == 0 <==> forall k :: 0 <= k <= |segments| ==> Depth(segments[..k]) >= 0
  {
    DepthOfWalk(segments);
    assert segments[..|segments|] == segments;
    if segments != [] {
      var init := segments[..|segments| - 1];
      ClimbsSomewhere(init);
      DepthOfWalk(init);
      forall k | 0 <= k <= |init| ensures init[..k] == segments[..k] {
      }
    }
  }

  predicate PlainName(top: string) {
    '/' !in top && top != "" && top != "." && top != ".."
  }

  lemma {:induction false} SegmentsUnder(top: string, p: string)
    requires '/' !in top
    ensures Segments(top + "/" + p) == [top] + Segments(p)
  {
    var path := top + "/" + p;
    if top == "" {
      assert path[1..] == p;
    } else {
      assert path[0] == top[0] && path[1..] == top[1..] + "/" + p;
      assert top[0] in top && forall c :: c in top[1..] ==> c in top;
      SegmentsUnder(top[1..], p);
      assert [top[0]] + top[1..] == top;
    }
  }

  /** A walk that stays below its start does so one directory further down. */
  lemma {:induction false} WalkUnder(top: string, segments: seq<string>)
    requires PlainName(top) && Walk(segments).ups == 0
    ensures Walk([top] + segments) == Place(0, [top] + Walk(segments).names)
  {
    var all := [top] + segments;
    if segments == [] {
      assert all[..0] == [];
    } else {
      var init := segments[..|segments| - 1];
      WalkUnder(top, init);
      assert all[..|all| - 1] == [top] + init;
      var names := Walk(init).names;
      if names != [] {
        assert ([top] + names)[..|names|] == [top] + names[..|names| - 1];
      }
    }
  }

  /** A symlink that stays in a tree stays in it when the tree is moved below a directory. The converse
      fails: from below a directory a target may climb up to it. */
  lemma StaysUnderPrefix(hygienic: string -> bool, top: string, path: string, target: string)
    requires PlainName(top) && WithinRoot(hygienic, path, target)
    ensures WithinRoot(hygienic, top + "/" + path, target)
  {
    SegmentsUnder(top, path);
    var segments := DirectoryOf(path) + Segments(target);
    assert DirectoryOf(top + "/" + path) + Segments(target) == [top] + segments;
    WalkUnder(top, segments);
  }
}
