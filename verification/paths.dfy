/** Path shape and containment, on a tree without symbolic links. */
module Paths {
  import opened Texts
  import opened Worktree
  import Utf8

  const SLASH: Code := 47
  const DOT: Text := [46]
  const DOTDOT: Text := [46, 46]

  // ---- parsing a path's text -------------------------------------------------------------

  function Kept(pieces: seq<Text>): seq<Text> {
    if pieces == [] then []
    else (if pieces[0] == [] || pieces[0] == DOT then [] else [pieces[0]]) + Kept(pieces[1..])
  }

  /** `PurePosixPath(candidate).parts` below the root: empty and `.` pieces collapse. */
  function Parts(candidate: Text): seq<Text> {
    Kept(Split(candidate, SLASH))
  }

  predicate IsAbsolute(candidate: Text) {
    candidate != [] && candidate[0] == SLASH
  }

  /** `as_posix` of a relative path. */
  function AsPosix(parts: seq<Text>): Text {
    if parts == [] then DOT else Join(parts, SLASH)
  }

  function RequireNestedRelativeFile(candidate: Text): Option<seq<Text>> {
    var parts := Parts(candidate);
    if || IsAbsolute(candidate)
       || |parts| < 2
       || candidate != AsPosix(parts)
       || exists part <- parts :: part in {[], DOT, DOTDOT}
    then None
    else Some(parts)
  }

  predicate PlainName(n: Text) {
    n != [] && n != DOT && n != DOTDOT && SLASH !in n
  }

  predicate Plain(parts: seq<Text>) {
    forall i :: 0 <= i < |parts| ==> PlainName(parts[i])
  }

  lemma {:induction false} SplitOfJoin(parts: seq<Text>)
    requires parts != [] && forall i :: 0 <= i < |parts| ==> SLASH !in parts[i]
    ensures Split(Join(parts, SLASH), SLASH) == parts
  {
    if |parts| == 1 {
      SplitFree(parts[0], SLASH);
    } else {
      SplitOfJoin(parts[1..]);
      SplitAt(parts[0], Join(parts[1..], SLASH), SLASH);
    }
  }

  lemma {:induction false} KeptAll(parts: seq<Text>)
    requires forall i :: 0 <= i < |parts| ==> parts[i] != [] && parts[i] != DOT
    ensures Kept(parts) == parts
  {
    if parts != [] {
      KeptAll(parts[1..]);
    }
  }

  lemma {:induction false} KeptFrom(pieces: seq<Text>, p: Text)
    requires p in Kept(pieces)
    ensures p in pieces && p != [] && p != DOT
  {
    if p != pieces[0] {
      KeptFrom(pieces[1..], p);
    } else if p == [] || p == DOT {
      KeptFrom(pieces[1..], p);
    }
  }

  lemma {:induction false} PlainParse(parts: seq<Text>)
    requires parts != [] && Plain(parts)
    ensures Parts(Join(parts, SLASH)) == parts && !IsAbsolute(Join(parts, SLASH))
  {
    SplitOfJoin(parts);
    KeptAll(parts);
    assert parts[0][0] != SLASH;
  }

  /** A path is accepted exactly when its text is two or more plain names joined by slashes; the
      result is those names. */
  lemma {:induction false} NestedIffPlain(candidate: Text, parts: seq<Text>)
    ensures RequireNestedRelativeFile(candidate) == Some(parts)
        <==> |parts| >= 2 && Plain(parts) && candidate == Join(parts, SLASH)
  {
    if |parts| >= 2 && Plain(parts) && candidate == Join(parts, SLASH) {
      PlainParse(parts);
      assert forall part <- parts :: PlainName(part);
    }
    if RequireNestedRelativeFile(candidate) == Some(parts) {
      SplitJoin(candidate, SLASH);
      forall i | 0 <= i < |parts| ensures PlainName(parts[i]) {
        KeptFrom(Split(candidate, SLASH), parts[i]);
        assert parts[i] in parts;
      }
    }
  }

  // ---- resolution ------------------------------------------------------------------------

  predicate InTree(t: Tree, p: Path) {
    p in t.files || p in t.dirs
  }

  /** The kernel's walk: every step starts in a directory. `None` when the path names nothing. */
  function Walk(t: Tree, at: Path, parts: seq<Text>): Option<Path>
    decreases |parts|
  {
    if parts == [] then if InTree(t, at) then Some(at) else None
    else if at !in t.dirs then None
    else if parts[0] == DOTDOT then Walk(t, if at == [] then [] else Parent(at), parts[1..])
    else if InTree(t, at + [parts[0]]) then Walk(t, at + [parts[0]], parts[1..])
    else None
  }

  /** `path.resolve(strict=True)`: every named component must exist, and `..` drops the last. */
  function Resolve(t: Tree, at: Path, parts: seq<Text>): Option<Path>
    decreases |parts|
  {
    if parts == [] then Some(at)
    else if parts[0] == DOTDOT then Resolve(t, if at == [] then [] else Parent(at), parts[1..])
    else if InTree(t, at + [parts[0]]) then Resolve(t, at + [parts[0]], parts[1..])
    else None
  }

  /** An existing path resolves whole; one that does not resolves its parent, the last name
      appended as written. */
  function Target(t: Tree, root: Path, parts: seq<Text>): Option<Path> {
    if parts == [] || Walk(t, root, parts).Some? then Resolve(t, root, parts)
    else
      match Resolve(t, root, parts[..|parts| - 1])
      case None => None
      case Some(parent) => Some(parent + [parts[|parts| - 1]])
  }

  /** The bytes of a name as the system takes it; an escaped surrogate stands for one. */
  function NameSize(n: Text): nat {
    if n == [] then 0
    else (if Utf8.Scalar(n[0]) then |Utf8.EncodeCode(n[0])| else 1) + NameSize(n[1..])
  }

  /** The kernel's walk meets a name longer than it takes, before anything that is missing. */
  predicate Overlong(t: Tree, at: Path, parts: seq<Text>, nameMax: nat)
    decreases |parts|
  {
    && parts != [] && at in t.dirs
    && if parts[0] == DOTDOT then Overlong(t, if at == [] then [] else Parent(at), parts[1..], nameMax)
       else NameSize(parts[0]) > nameMax
            || (InTree(t, at + [parts[0]]) && Overlong(t, at + [parts[0]], parts[1..], nameMax))
  }

  /** What `resolve_within` answers: the target, a refusal, or the `OSError` of its first probe,
      which looks for a symbolic link and fails on an overlong name. */
  datatype Resolution = Resolved(path: Path) | Refused | Failed

  function ResolveWithin(t: Tree, root: Path, candidate: Text, nameMax: nat): Resolution {
    if IsBlank(candidate) || IsAbsolute(candidate) then Refused
    else if Overlong(t, root, Parts(candidate), nameMax) then Failed
    else
      var target := Target(t, root, Parts(candidate));
      if target.Some? && IsPrefix(root, target.value) then Resolved(target.value) else Refused
  }

  lemma {:induction false} ResolveInTree(t: Tree, at: Path, parts: seq<Text>)
    requires Sound(t) && InTree(t, at)
    ensures var r := Resolve(t, at, parts); r.Some? ==> InTree(t, r.value)
    decreases |parts|
  {
    if parts != [] {
      if parts[0] == DOTDOT {
        ResolveInTree(t, if at == [] then [] else Parent(at), parts[1..]);
      } else if InTree(t, at + [parts[0]]) {
        ResolveInTree(t, at + [parts[0]], parts[1..]);
      }
    }
  }

  /** Whatever the candidate names, `..` and `.` included: a target is the root or beneath it, and
      is in the tree or would be a new name in a place that is. */
  lemma {:induction false} Contained(t: Tree, root: Path, candidate: Text, nameMax: nat)
    requires Sound(t) && root in t.dirs
    ensures var r := ResolveWithin(t, root, candidate, nameMax);
            r.Resolved? ==>
              && root <= r.path
              && (InTree(t, r.path) || (r.path != [] && InTree(t, Parent(r.path))))
  {
    var parts := Parts(candidate);
    ResolveInTree(t, root, parts);
    if parts != [] {
      ResolveInTree(t, root, parts[..|parts| - 1]);
    }
  }

  lemma {:induction false} ResolvePlain(t: Tree, at: Path, parts: seq<Text>)
    requires Sound(t) && Plain(parts) && at in t.dirs && InTree(t, at + parts)
    ensures Resolve(t, at, parts) == Walk(t, at, parts) == Some(at + parts)
    decreases |parts|
  {
    if parts == [] {
      assert at + parts == at;
    } else {
      var next := at + [parts[0]];
      assert next + parts[1..] == at + parts;
      assert (at + parts)[..|next|] == next;
      if |parts| > 1 {
        AncestorsAreDirs(t, at + parts, |next|);
        ResolvePlain(t, next, parts[1..]);
      } else {
        assert next == at + parts;
      }
    }
  }

  lemma {:induction false} WalkNothing(t: Tree, at: Path, parts: seq<Text>)
    requires Sound(t) && Plain(parts) && parts != [] && at in t.dirs
    requires at + parts[..|parts| - 1] in t.dirs && !InTree(t, at + parts)
    ensures Walk(t, at, parts).None?
    decreases |parts|
  {
    var next := at + [parts[0]];
    assert next + parts[1..] == at + parts;
    if |parts| > 1 {
      assert at + parts[..|parts| - 1] == next + parts[1..][..|parts| - 2];
      var p := at + parts[..|parts| - 1];
      assert p[..|next|] == next;
      if |p| > |next| {
        AncestorsAreDirs(t, p, |next|);
      } else {
        assert p == next;
      }
      WalkNothing(t, next, parts[1..]);
    } else {
      assert at + parts == next;
    }
  }

  lemma {:induction false} SlashInJoin(parts: seq<Text>)
    requires |parts| >= 2
    ensures !IsBlank(Join(parts, SLASH))
  {
    var j := Join(parts, SLASH);
    assert j[|parts[0]|] == SLASH;
    assert SLASH in j;
  }

  lemma {:induction false} PlainTarget(t: Tree, root: Path, parts: seq<Text>)
    requires Sound(t) && root in t.dirs && parts != [] && Plain(parts)
    requires root + parts[..|parts| - 1] in t.dirs
    ensures Target(t, root, parts) == Some(root + parts)
  {
    var n := |parts| - 1;
    if InTree(t, root + parts) {
      ResolvePlain(t, root, parts);
    } else {
      WalkNothing(t, root, parts);
      ResolvePlain(t, root, parts[..n]);
      assert root + parts[..n] + [parts[n]] == root + parts;
    }
  }

  /** A plain path into an existing directory resolves to exactly what its text says, unless one of
      its names is too long to look up. */
  lemma {:induction false} PlainResolves(t: Tree, root: Path, parts: seq<Text>, nameMax: nat)
    requires Sound(t) && root in t.dirs && |parts| >= 2 && Plain(parts)
    requires root + parts[..|parts| - 1] in t.dirs
    ensures ResolveWithin(t, root, Join(parts, SLASH), nameMax)
         == if Overlong(t, root, parts, nameMax) then Failed else Resolved(root + parts)
  {
    PlainParse(parts);
    SlashInJoin(parts);
    PlainTarget(t, root, parts);
    assert IsPrefix(root, root + parts);
  }

  /** Going into a name that exists and up again leads nowhere else; above the top is the top. */
  lemma {:induction false} UpAgain(t: Tree, at: Path, name: Text, rest: seq<Text>)
    requires name != DOTDOT && InTree(t, at + [name])
    ensures Resolve(t, at, [name, DOTDOT] + rest) == Resolve(t, at, rest)
    ensures Resolve(t, [], [DOTDOT] + rest) == Resolve(t, [], rest)
  {
    var down := at + [name];
    assert ([name, DOTDOT] + rest)[1..] == [DOTDOT] + rest;
    assert ([DOTDOT] + rest)[1..] == rest;
    assert Parent(down) == at;
  }

  /** Empty pieces and single dots are no part of a path. */
  lemma {:induction false} DotsDropped(before: seq<Text>, piece: Text, after: seq<Text>)
    requires piece == [] || piece == ['.' as int]
    ensures Kept(before + [piece] + after) == Kept(before + after)
  {
    if before == [] {
      assert before + [piece] + after == [piece] + after && before + after == after;
      assert ([piece] + after)[1..] == after;
      assert Kept(after) == [] + Kept(after);
    } else {
      DotsDropped(before[1..], piece, after);
      assert (before + [piece] + after)[1..] == before[1..] + [piece] + after;
      assert (before + after)[1..] == before[1..] + after;
    }
  }
}
