/** The directory tree that a restore writes. */
module FileTree {
  import opened Slices
  import opened Bytes

  type Path = seq<string>

  datatype File = File(mode: nat, content: Bytes)

  /** The regular files below some root, and the directories below it. */
  datatype Tree = Tree(files: map<Path, File>, dirs: set<Path>)

  const EMPTY_TREE: Tree := Tree(map[], {})

  /** The directories that must exist for `path` to be a directory itself, the root left out. */
  function UpTo(path: Path): set<Path> {
    set k: nat | 0 < k <= |path| :: path[..k]
  }

  /** The directories above `path`. */
  function Above(path: Path): set<Path> {
    set k: nat | 0 < k < |path| :: path[..k]
  }

  /** `create_directories`, which does nothing but fail where a regular file is in the way. */
  function WithDirectories(t: Tree, path: Path): (Tree, bool) {
    if UpTo(path) !! t.files.Keys then (t.(dirs := t.dirs + UpTo(path)), true) else (t, false)
  }

  /**
   * `writeFileAtomic` of a path. A path that ends in a slash has no file name: its last directory is created,
   * and the rename onto that directory fails, as it does onto any other.
   */
  function WriteFile(t: Tree, path: Path, named: bool, file: File): (Tree, bool)
    requires path != []
  {
    var (made, ok) := WithDirectories(t, if named then path[..|path| - 1] else path);
    if !ok || !named || path in made.dirs then (made, false)
    else (made.(files := made.files[path := file]), true)
  }

  /** A file can be written at `path`: no directory is there, and no regular file above. */
  predicate Free(t: Tree, path: Path) {
    path !in t.dirs && Above(path) !! t.files.Keys
  }

  lemma AboveIsUpToParent(path: Path)
    requires path != []
    ensures Above(path) == UpTo(path[..|path| - 1])
  {
    var parent := path[..|path| - 1];
    forall q | q in Above(path)
      ensures q in UpTo(parent)
    {
      var k: nat :| 0 < k < |path| && q == path[..k];
      assert parent[..k] == q;
    }
    forall q | q in UpTo(parent)
      ensures q in Above(path)
    {
      var k: nat :| 0 < k <= |parent| && q == parent[..k];
      assert path[..k] == q;
    }
  }

  lemma AboveIsPrefix(path: Path, q: Path)
    ensures q in Above(path) <==> q != [] && q < path
  {
    if q != [] && q < path {
      assert path[..|q|] == q;
    }
  }

  /** Writing succeeds exactly at a free path that ends in a name, and adds the file and the directories above. */
  lemma WriteFileIff(t: Tree, path: Path, named: bool, file: File)
    requires path != []
    ensures var (after, ok) := WriteFile(t, path, named, file);
            && (ok <==> named && Free(t, path))
            && (ok ==> after == Tree(t.files[path := file], t.dirs + Above(path)))
  {
    hide UpTo, Above;
    AboveIsUpToParent(path);
    AboveIsPrefix(path, path);
  }
}
