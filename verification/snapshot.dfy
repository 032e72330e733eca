/** `SnapshotStore` over a file tree: its ranking, and the exact tree a restore leaves. */
module Snapshot {
  import opened Texts
  import opened Utf8
  import opened Sets
  import opened Worktree
  import opened Scores

  datatype Entry = Entry(index: int, score: TestScore, files: map<Path, Bytes>)

  // ---- ranking ---------------------------------------------------------------------------

  /** `_rank_key(a) < _rank_key(b)`: more passed, then fewer errors, then fewer failures, then the
      earlier attempt. */
  predicate Precedes(a: Entry, b: Entry) {
    if a.score.passed != b.score.passed then a.score.passed > b.score.passed
    else if a.score.errors != b.score.errors then a.score.errors < b.score.errors
    else if a.score.failed != b.score.failed then a.score.failed < b.score.failed
    else a.index < b.index
  }

  /** `min(entries, key=_rank_key)`, which keeps the first of equal keys. */
  function BestOf(entries: seq<Entry>): (e: Entry)
    requires entries != []
  {
    var last := entries[|entries| - 1];
    if |entries| == 1 then last
    else
      var front := BestOf(entries[..|entries| - 1]);
      if Precedes(last, front) then last else front
  }

  /** `a` ranks at least as high as `b`: more tests passed; of as many, fewer errors; of as many,
      fewer failures; of as many, no later. */
  predicate AtLeast(a: Entry, b: Entry) {
    || a.score.passed > b.score.passed
    || (&& a.score.passed == b.score.passed
        && (|| a.score.errors < b.score.errors
            || (&& a.score.errors == b.score.errors
                && (|| a.score.failed < b.score.failed
                    || (a.score.failed == b.score.failed && a.index <= b.index)))))
  }

  /** The best ranks at least as high as every capture, and is the first that does. */
  lemma {:induction false} BestIsMinimal(entries: seq<Entry>) returns (i: nat)
    requires entries != []
    ensures i < |entries| && entries[i] == BestOf(entries)
    ensures forall j :: 0 <= j < |entries| ==> AtLeast(BestOf(entries), entries[j])
    ensures forall j :: 0 <= j < i ==> !AtLeast(entries[j], BestOf(entries))
    ensures forall j :: 0 <= j < |entries| ==> !Precedes(entries[j], BestOf(entries))
    ensures forall j :: 0 <= j < i ==> Precedes(BestOf(entries), entries[j])
  {
    i := |entries| - 1;
    if |entries| > 1 {
      var front := entries[..|entries| - 1];
      var i' := BestIsMinimal(front);
      assert forall j :: 0 <= j < |front| ==> entries[j] == front[j];
      if !Precedes(entries[i], BestOf(front)) {
        i := i';
      }
    }
  }

  // ---- the tree a restore leaves ---------------------------------------------------------

  function Capture(files: map<Path, Bytes>, subtree: Path): map<Path, Bytes> {
    map p | p in files && Under(subtree, p) :: files[p]
  }

  function Outside(files: map<Path, Bytes>, subtree: Path): map<Path, Bytes> {
    map p | p in files && !Under(subtree, p) :: files[p]
  }

  ghost function Ancestors(files: map<Path, Bytes>): set<Path> {
    set p, k | p in files && 0 <= k < |p| :: p[..k]
  }

  ghost predicate Holds(files: map<Path, Bytes>, d: Path) {
    exists f :: f in files && Under(d, f)
  }

  /** Captured files lie under the subtree, and none is a directory of another. */
  ghost predicate Coherent(files: map<Path, Bytes>, subtree: Path) {
    && (forall p <- files.Keys :: Under(subtree, p))
    && forall p, q :: p in files && q in files ==> !Under(p, q)
  }

  /** A file can be written at `p`: no directory is there, and no file where one is needed. */
  ghost predicate Fits(p: Path, t: Tree) {
    p !in t.dirs && forall k :: 0 <= k < |p| ==> p[..k] !in t.files
  }

  /** No captured file needs a directory where the tree has a file, or is one itself. */
  ghost predicate NoClash(files: map<Path, Bytes>, t: Tree) {
    forall p <- files.Keys :: Fits(p, t)
  }

  /** The tree after writing `done`, parents included. */
  ghost function Written(t: Tree, done: map<Path, Bytes>): Tree {
    Tree(t.files + done, t.dirs + Ancestors(done))
  }

  ghost function Restored(t: Tree, subtree: Path, wanted: map<Path, Bytes>): Tree {
    Tree(Outside(t.files, subtree) + wanted,
         set d | d in t.dirs + Ancestors(wanted) && (Under(subtree, d) ==> Holds(wanted, d)))
  }

  lemma {:induction false} CaptureCoherent(t: Tree, subtree: Path)
    requires Sound(t)
    ensures Coherent(Capture(t.files, subtree), subtree) && NoClash(Capture(t.files, subtree), t)
  {
    forall p, k | p in t.files && 0 <= k < |p| ensures p[..k] in t.dirs {
      AncestorsAreDirs(t, p, k);
    }
  }

  /** Restoring gives back exactly the captured files of the subtree, touches no file outside it,
      and leaves below the subtree exactly the directories some captured file needs. */
  lemma {:induction false} RestoredExactly(t: Tree, subtree: Path, wanted: map<Path, Bytes>)
    requires Coherent(wanted, subtree)
    ensures var r := Restored(t, subtree, wanted);
            && Capture(r.files, subtree) == wanted
            && Outside(r.files, subtree) == Outside(t.files, subtree)
            && forall d :: Under(subtree, d) ==> (d in r.dirs <==> Holds(wanted, d))
  {
    var r := Restored(t, subtree, wanted);
    forall d | Under(subtree, d) && Holds(wanted, d) ensures d in r.dirs {
      var f :| f in wanted && Under(d, f);
      assert f[..|d|] in Ancestors(wanted);
    }
  }

  // ---- the store -------------------------------------------------------------------------

  lemma {:induction false} Deepest(s: set<Path>) returns (p: Path)
    requires s != {}
    ensures p in s && forall q <- s :: |q| <= |p|
  {
    p := Member(s);
    assert forall q <- s :: q == p || q in s - {p};
    if s - {p} != {} {
      var d := Deepest(s - {p});
      p := if |d| > |p| then d else p;
    }
  }

  class SnapshotStore {
    const fs: FileSystem
    const subtree: Path
    var entries: seq<Entry>

    ghost predicate Valid()
      reads this
    {
      forall i :: 0 <= i < |entries| ==> Coherent(entries[i].files, subtree)
    }

    constructor (fs: FileSystem, subtree: Path)
      ensures Valid() && this.fs == fs && this.subtree == subtree && entries == []
    {
      this.fs, this.subtree, entries := fs, subtree, [];
    }

    method Record(index: int, score: TestScore)
      requires Valid() && fs.Valid()
      modifies this
      ensures Valid()
      ensures entries == old(entries) + [Entry(index, score, Capture(fs.files, subtree))]
    {
      CaptureCoherent(fs.Abstract(), subtree);
      entries := entries + [Entry(index, score, Capture(fs.files, subtree))];
    }

    function Best(): Option<Entry>
      reads this
    {
      if entries == [] then None else Some(BestOf(entries))
    }

    /** The tree becomes `Restored` for the best-ranked capture. Refused only when a later state put a file where a
        captured file needs a directory, or a directory in a captured file's place. */
    method RestoreBest() returns (ok: bool)
      requires Valid() && fs.Valid()
      modifies fs
      ensures fs.Valid()
      ensures entries == [] ==> ok && fs.Abstract() == old(fs.Abstract())
      ensures entries != [] ==>
                var wanted := BestOf(entries).files;
                && (ok <==> NoClash(wanted, old(fs.Abstract())))
                && (ok ==> fs.Abstract() == Restored(old(fs.Abstract()), subtree, wanted))
    {
      if entries == [] {
        return true;
      }
      ghost var i := BestIsMinimal(entries);
      var wanted := BestOf(entries).files;
      ok := WriteAll(wanted);
      if !ok {
        return;
      }
      RemoveExtras(wanted);
      PruneEmptyDirs();
      RestoredShape(old(fs.Abstract()), subtree, wanted);
    }

    /** One wanted file: its parents created, its bytes written. */
    method WriteOne(p: Path, content: Bytes) returns (ok: bool)
      requires fs.Valid() && p != []
      modifies fs
      ensures fs.Valid() && ok == Fits(p, old(fs.Abstract()))
      ensures ok ==> fs.Abstract() == WithOne(old(fs.Abstract()), p, content)
    {
      assert forall k :: 0 <= k < |p| ==> Parent(p)[..k] == p[..k];
      ok := fs.MakeDirs(Parent(p));
      if ok {
        ParentCreated(p);
        ok := fs.WriteBytes(p, content);
      }
    }

    /** Every wanted file written. */
    method WriteAll(wanted: map<Path, Bytes>) returns (ok: bool)
      requires fs.Valid() && Coherent(wanted, subtree)
      modifies fs
      ensures fs.Valid()
      ensures ok <==> NoClash(wanted, old(fs.Abstract()))
      ensures ok ==> fs.Abstract() == Written(old(fs.Abstract()), wanted)
    {
      ghost var t := fs.Abstract();
      var remaining := wanted.Keys;
      ghost var done: map<Path, Bytes> := map[];
      NothingWritten(t);
      while remaining != {}
        invariant fs.Valid() && remaining <= wanted.Keys
        invariant done.Keys == wanted.Keys - remaining && forall p <- done.Keys :: done[p] == wanted[p]
        invariant fs.Abstract() == Written(t, done)
        invariant forall p <- done.Keys :: Fits(p, t)
        decreases remaining
      {
        ghost var some := Member(remaining);
        var p :| p in remaining;
        FitsStill(wanted, done, subtree, t, p);
        WrittenStep(t, done, p, wanted[p]);
        ok := WriteOne(p, wanted[p]);
        if !ok {
          return;
        }
        done := done[p := wanted[p]];
        remaining := remaining - {p};
      }
      assert done == wanted;
      return true;
    }

    /** Every file under the subtree the capture does not hold is removed. */
    method RemoveExtras(wanted: map<Path, Bytes>)
      requires fs.Valid()
      modifies fs
      ensures fs.Valid() && fs.dirs == old(fs.dirs)
      ensures fs.files == map p | p in old(fs.files) && (Under(subtree, p) ==> p in wanted) :: old(fs.files)[p]
    {
      var listed := set p | p in fs.files && Under(subtree, p);
      while listed != {}
        invariant fs.Valid() && fs.dirs == old(fs.dirs)
        invariant forall p <- listed :: p in fs.files && Under(subtree, p)
        invariant forall p :: p in fs.files <==>
                    p in old(fs.files) && (Under(subtree, p) && p !in listed ==> p in wanted)
        invariant forall p :: p in fs.files ==> fs.files[p] == old(fs.files)[p]
        decreases listed
      {
        ghost var some := Member(listed);
        var p :| p in listed;
        if p !in wanted {
          fs.Unlink(p);
        }
        listed := listed - {p};
      }
    }

    /** Directories holding no file are removed, deepest first, chains of them included; the
        subtree itself stays. */
    method PruneEmptyDirs()
      requires fs.Valid()
      modifies fs
      ensures fs.Valid() && fs.files == old(fs.files)
      ensures fs.dirs == set d | d in old(fs.dirs) && (Under(subtree, d) ==> Holds(old(fs.files), d))
    {
      var byDepth := set p | p in fs.files.Keys + fs.dirs && Under(subtree, p);
      while byDepth != {}
        invariant fs.Valid() && fs.files == old(fs.files) && fs.dirs <= old(fs.dirs)
        invariant forall d :: d in old(fs.dirs) && d !in fs.dirs ==> Under(subtree, d) && !Holds(fs.files, d)
        invariant forall d :: d in fs.dirs && Under(subtree, d) && d !in byDepth ==> Holds(fs.files, d)
        invariant forall p :: p in byDepth ==> Under(subtree, p)
        decreases byDepth
      {
        ghost var deepest := Deepest(byDepth);
        var p :| p in byDepth && forall q <- byDepth :: |q| <= |p|;
        var empty := forall q <- fs.files.Keys + fs.dirs :: q != [] ==> Parent(q) != p;
        if p in fs.dirs && empty {
          EmptyHoldsNothing(fs.Abstract(), p);
          fs.RemoveDir(p);
        } else if p in fs.dirs {
          ghost var q :| q in fs.files.Keys + fs.dirs && q != [] && Parent(q) == p;
          ChildHolds(fs.files, subtree, p, q);
          assert q !in byDepth;
        }
        byDepth := byDepth - {p};
      }
    }
  }

  ghost function WithOne(t: Tree, p: Path, content: Bytes): Tree
    requires p != []
  {
    Tree(t.files[p := content], t.dirs + Prefixes(Parent(p)))
  }

  lemma {:induction false} ParentCreated(p: Path)
    requires p != []
    ensures Parent(p) in Prefixes(Parent(p)) && p !in Prefixes(Parent(p))
  {
    assert Parent(p)[..|Parent(p)|] == Parent(p);
  }

  /** Writing other wanted files first neither helps nor hinders. */
  lemma {:induction false} FitsStill(wanted: map<Path, Bytes>, done: map<Path, Bytes>, subtree: Path, t: Tree, p: Path)
    requires Coherent(wanted, subtree) && p in wanted && done.Keys <= wanted.Keys
    ensures p != []
    ensures Fits(p, Written(t, done)) <==> Fits(p, t)
  {
    forall k | 0 <= k < |p| ensures p[..k] !in done {
      assert p[..k] in done ==> Under(p[..k], p);
    }
    if p in Ancestors(done) {
      var q, k :| q in done && 0 <= k < |q| && p == q[..k];
      assert Under(p, q);
    }
  }

  lemma {:induction false} AncestorsStep(done: map<Path, Bytes>, p: Path, content: Bytes)
    requires p != []
    ensures Ancestors(done[p := content]) == Ancestors(done) + Prefixes(Parent(p))
  {
    var more := done[p := content];
    assert forall k :: 0 <= k < |p| ==> Parent(p)[..k] == p[..k];
    forall d ensures d in Ancestors(more) <==> d in Ancestors(done) + Prefixes(Parent(p)) {
      if d in Prefixes(Parent(p)) {
        var k :| 0 <= k <= |Parent(p)| && d == Parent(p)[..k];
        assert d == p[..k];
      }
    }
  }

  lemma {:induction false} NothingWritten(t: Tree)
    ensures Written(t, map[]) == t
  {
    assert t.files + map[] == t.files;
    assert Ancestors(map[]) == {};
  }

  lemma {:induction false} WrittenStep(t: Tree, done: map<Path, Bytes>, p: Path, content: Bytes)
    requires p != []
    ensures Written(t, done[p := content]) == WithOne(Written(t, done), p, content)
  {
    AncestorsStep(done, p, content);
    assert t.files + done[p := content] == (t.files + done)[p := content];
  }

  /** What lies below a child lies below its parent. */
  lemma {:induction false} ChildHolds(files: map<Path, Bytes>, subtree: Path, p: Path, q: Path)
    requires q != [] && Parent(q) == p && Under(subtree, p)
    ensures Under(subtree, q) && (q in files || Holds(files, q) ==> Holds(files, p))
  {
    assert Under(p, q);
    if Holds(files, q) {
      var f :| f in files && Under(q, f);
      assert f[..|p|] == q[..|p|];
      assert Under(p, f);
    }
  }

  lemma {:induction false} EmptyHoldsNothing(t: Tree, p: Path)
    requires Sound(t)
    requires forall q :: (q in t.files || q in t.dirs) && q != [] ==> Parent(q) != p
    ensures !Holds(t.files, p)
  {
    forall f | f in t.files && Under(p, f) ensures false {
      var q := f[..|p| + 1];
      assert Parent(q) == p;
      assert |q| == |f| ==> q == f;
      if |q| < |f| {
        AncestorsAreDirs(t, f, |q|);
      }
    }
  }

  lemma {:induction false} RestoredShape(t: Tree, subtree: Path, wanted: map<Path, Bytes>)
    requires Coherent(wanted, subtree)
    ensures var kept := map p | p in t.files + wanted && (Under(subtree, p) ==> p in wanted) :: (t.files + wanted)[p];
            && kept == Outside(t.files, subtree) + wanted
            && forall d :: Under(subtree, d) ==> (Holds(kept, d) <==> Holds(wanted, d))
  {
    var kept := Outside(t.files, subtree) + wanted;
    forall d | Under(subtree, d) ensures Holds(kept, d) <==> Holds(wanted, d) {
      forall f | f in kept && Under(d, f) ensures f in wanted {
        assert f[..|subtree|] == d[..|subtree|];
      }
    }
  }
}
