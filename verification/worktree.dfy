/** The file tree without symbolic links: regular files and directories, named by the components
    of their absolute path. */
module Worktree {
  import opened Texts
  import opened Utf8
  import opened Sets

  type Path = seq<Text>

  datatype Tree = Tree(files: map<Path, Bytes>, dirs: set<Path>)

  function Parent(p: Path): Path
    requires p != []
  {
    p[..|p| - 1]
  }

  /** `top` is a proper ancestor of `p`. */
  predicate Under(top: Path, p: Path) {
    |top| < |p| && p[..|top|] == top
  }

  /** Every entry has a directory for a parent, and no path is both a file and a directory. */
  ghost predicate Sound(t: Tree) {
    && [] in t.dirs
    && (forall p <- t.dirs :: p !in t.files && (p != [] ==> Parent(p) in t.dirs))
    && (forall p <- t.files.Keys :: p != [] && Parent(p) in t.dirs)
  }

  lemma {:induction false} AncestorsAreDirs(t: Tree, p: Path, k: nat)
    requires Sound(t) && (p in t.files || p in t.dirs) && k < |p|
    ensures p[..k] in t.dirs
    decreases |p|
  {
    var parent := Parent(p);
    if k < |p| - 1 {
      AncestorsAreDirs(t, parent, k);
      assert parent[..k] == p[..k];
    }
  }

  ghost function Prefixes(p: Path): set<Path> {
    set k | 0 <= k <= |p| :: p[..k]
  }

  class FileSystem {
    const nameMax: nat  // the longest name a lookup takes, in bytes
    var files: map<Path, Bytes>
    var dirs: set<Path>

    ghost function Abstract(): Tree
      reads this
    {
      Tree(files, dirs)
    }

    ghost predicate Valid()
      reads this
    {
      Sound(Abstract())
    }

    /** `path.write_bytes(content)` into an existing directory; refused on a directory. */
    method WriteBytes(p: Path, content: Bytes) returns (ok: bool)
      requires Valid() && p != [] && Parent(p) in dirs
      modifies this`files
      ensures Valid() && ok == (p !in dirs)
      ensures files == if ok then old(files)[p := content] else old(files)
    {
      if p in dirs {
        return false;
      }
      files := files[p := content];
      return true;
    }

    /** `path.mkdir(parents=True, exist_ok=True)`: refused, creating nothing, when the path or an
        ancestor is a file. */
    method MakeDirs(p: Path) returns (ok: bool)
      requires Valid()
      modifies this`dirs
      ensures Valid()
      ensures ok <==> forall k :: 0 <= k <= |p| ==> p[..k] !in files
      ensures dirs == if ok then old(dirs) + Prefixes(p) else old(dirs)
      decreases |p|
    {
      if p in files {
        assert p[..|p|] == p;
        return false;
      }
      if p in dirs {
        AllAncestors(Abstract(), p);
        return true;
      }
      ok := MakeDirs(Parent(p));
      assert forall k :: 0 <= k < |p| ==> Parent(p)[..k] == p[..k];
      assert p[..|p|] == p;
      if ok {
        PrefixesStep(p);
        dirs := dirs + {p};
      }
    }

    /** `path.unlink()` on a file. */
    method Unlink(p: Path)
      requires Valid() && p in files
      modifies this`files
      ensures Valid() && files == old(files) - {p}
    {
      files := files - {p};
    }

    /** `path.rmdir()` on an empty directory. */
    method RemoveDir(p: Path)
      requires Valid() && p in dirs && p != []
      requires forall q :: (q in files || q in dirs) && q != [] ==> Parent(q) != p
      modifies this`dirs
      ensures Valid() && dirs == old(dirs) - {p}
    {
      dirs := dirs - {p};
    }
  }

  lemma {:induction false} AllAncestors(t: Tree, p: Path)
    requires Sound(t) && p in t.dirs
    ensures forall k :: 0 <= k <= |p| ==> p[..k] in t.dirs && p[..k] !in t.files
    ensures t.dirs + Prefixes(p) == t.dirs
  {
    forall k | 0 <= k <= |p| ensures p[..k] in t.dirs {
      if k < |p| {
        AncestorsAreDirs(t, p, k);
      } else {
        assert p[..k] == p;
      }
    }
  }

  lemma {:induction false} PrefixesStep(p: Path)
    requires p != []
    ensures Prefixes(p) == Prefixes(Parent(p)) + {p}
  {
    assert p[..|p|] == p;
    assert forall k :: 0 <= k < |p| ==> Parent(p)[..k] == p[..k];
  }
}
