/** Which files `ramfs_open` finds by their paths: it cuts a path at its FIRST slash. */
module OpenPaths {
  import opened CStrings
  import opened Directories
  import HeapOperations
  import opened FdTable
  import Commands
  import FileDescriptors

  /** The first file of this name in a directory. */
  ghost function FileNamed(d: Dir, name: string): File?
    reads d, d.files
  {
    var i := Commands.IndexOfFile(d.files, name);
    if i == |d.files| then null else d.files[i]
  }

  /** The names from below the root down to `d`, with slashes between them. */
  ghost function DirPath(root: Dir, all: set<Dir>, d: Dir): string
    requires Tree(root, all) && d in all
    reads all
    decreases d.depth
  {
    if d == root then ""
    else if d.parent == root then d.name
    else DirPath(root, all, d.parent) + ['/'] + d.name
  }

  /** The path of the file `name` in `d`, without a leading slash. */
  ghost function FilePath(root: Dir, all: set<Dir>, d: Dir, name: string): string
    requires Tree(root, all) && d in all
    reads all
  {
    if d == root then name else DirPath(root, all, d) + ['/'] + name
  }

  ghost predicate SlashFreeFiles(all: set<Dir>, files: set<File>)
    reads all, files
  {
    forall d, f | d in all && f in d.files && f in files :: '/' !in f.name
  }

  /** A path with a slash after its first one finds nothing, where file names have no slashes: files
      below the root's own subdirectories cannot be opened by their paths. */
  lemma NestedPathNotFound(root: Dir, all: set<Dir>, files: set<File>, path: string)
    requires Tree(root, all) && FilesOk(all, files)
    requires SlashFreeFiles(all, files)
    requires FirstSlash(path) < |path| && '/' in path[FirstSlash(path) + 1..]
    ensures Located(root, all, files, path) == null
  {
    hide Tree;
    RootInTree(root, all);
    FoundInTree(root, all, path[..FirstSlash(path)]);
  }

  lemma FirstSlashOf(s: string, rest: string)
    ensures FirstSlash(s + ['/'] + rest) == if '/' in s then FirstSlash(s) else |s|
  {
    var path, k := s + ['/'] + rest, if '/' in s then FirstSlash(s) else |s|;
    if '/' !in s {
      assert path[..|s|] == s;
    } else {
      SlashBefore(s);
      assert path[..k] == s[..k];
    }
    SlashIs(path, k);
  }

  lemma SlashBefore(s: string)
    requires '/' in s
    ensures FirstSlash(s) < |s|
  {
    assert s[..|s|] == s;
  }

  /** Whatever follows a stretch with a slash and one more slash is not found. */
  lemma TwoSlashes(root: Dir, all: set<Dir>, files: set<File>, s: string, rest: string)
    requires Tree(root, all) && FilesOk(all, files) && SlashFreeFiles(all, files) && '/' in s
    ensures Located(root, all, files, s + ['/'] + rest) == null
  {
    hide Tree, Located;
    var path := s + ['/'] + rest;
    FirstSlashOf(s, rest);
    SlashBefore(s);
    assert path[FirstSlash(path) + 1..][|s| - FirstSlash(path) - 1] == '/';
    NestedPathNotFound(root, all, files, path);
  }

  lemma DepthOne(root: Dir, all: set<Dir>, d: Dir)
    requires Tree(root, all) && d in all
    ensures d == root <==> d.depth == 0
    ensures d != root ==> d.parent != null && d.parent in all && (d.parent == root <==> d.depth == 1)
  {
    if d != root {
      assert d.parent in all && d.parent != root ==> d.parent.parent != null;
    }
  }

  lemma DirPathSlash(root: Dir, all: set<Dir>, d: Dir)
    requires Tree(root, all) && d in all && GoodNames(root, all)
    ensures d.depth >= 2 ==> '/' in DirPath(root, all, d)
    ensures d.depth == 1 ==> DirPath(root, all, d) == d.name && '/' !in d.name
  {
    DepthOne(root, all, d);
    if d.depth >= 2 {
      var s := DirPath(root, all, d.parent);
      assert (s + ['/'] + d.name)[|s|] == '/';
    }
  }

  /** A directory of the root is found by its name alone. */
  lemma FindChild(root: Dir, all: set<Dir>, d: Dir)
    requires Tree(root, all) && d in all && GoodNames(root, all) && d.depth == 1
    requires HeapOperations.Allocatable(|d.name| + 1)
    ensures FindSpec(root, all, d.name) == d
  {
    hide Tokens, Walk, IndexNamed;
    DepthOne(root, all, d);
    GoodFirst(root, all, d);
    OwnToken(d.name, "/");
    RootInTree(root, all);
    WalkOne(root, all, root, d.name);
    assert d.name != "/" by {
      assert "/"[0] == '/';
    }
  }

  lemma InRoot(root: Dir, all: set<Dir>, files: set<File>, name: string)
    requires Tree(root, all) && FilesOk(all, files) && '/' !in name
    ensures HeapOperations.Allocatable(|name| + 1) ==> Located(root, all, files, name) == FileNamed(root, name)
    ensures HeapOperations.Allocatable(|name| + 2) ==> Located(root, all, files, ['/'] + name) == FileNamed(root, name)
  {
    hide Tree, FindSpec;
    NoSlash(name);
    var path := ['/'] + name;
    SlashIs(path, 0);
    assert path[1..] == name;
  }

  lemma InChild(root: Dir, all: set<Dir>, files: set<File>, d: Dir, name: string)
    requires Tree(root, all) && FilesOk(all, files) && d in all && GoodNames(root, all) && d.depth == 1
    requires '/' !in name && HeapOperations.Allocatable(|d.name| + |name| + 2)
    ensures Located(root, all, files, d.name + ['/'] + name) == FileNamed(d, name)
  {
    hide Tree, FindSpec, GoodNames;
    var path := d.name + ['/'] + name;
    DirPathSlash(root, all, d);
    FirstSlashOf(d.name, name);
    assert path[..|d.name|] == d.name && path[|d.name| + 1..] == name;
    ChildName(root, all, d);
    FindChild(root, all, d);
  }

  lemma ChildName(root: Dir, all: set<Dir>, d: Dir)
    requires Tree(root, all) && d in all && GoodNames(root, all) && d.depth == 1
    ensures d.name != []
  {
  }

  /** By the path of its directory, joined with its name, a file is found exactly in the root and in
      the root's own subdirectories; deeper down nothing is found. */
  lemma OpenByPath(root: Dir, all: set<Dir>, files: set<File>, d: Dir, name: string)
    requires Tree(root, all) && FilesOk(all, files) && d in all && GoodNames(root, all) && SlashFreeFiles(all, files)
    requires '/' !in name && HeapOperations.Allocatable(|FilePath(root, all, d, name)| + 1)
    ensures Located(root, all, files, FilePath(root, all, d, name)) == if d.depth <= 1 then FileNamed(d, name) else null
    ensures FileNamed(d, name) != null ==>
      (Located(root, all, files, FilePath(root, all, d, name)) == FileNamed(d, name) <==> d.depth <= 1)
  {
    hide Tree, GoodNames, FilesOk, SlashFreeFiles, Located, FileNamed;
    DepthOne(root, all, d);
    DirPathSlash(root, all, d);
    if d.depth == 0 {
      InRoot(root, all, files, name);
    } else if d.depth == 1 {
      InChild(root, all, files, d, name);
    } else {
      TwoSlashes(root, all, files, DirPath(root, all, d), name);
    }
  }

  /** The path of a file has as its components the names from the root down to it. */
  lemma {:induction false} FilePathTokens(root: Dir, all: set<Dir>, d: Dir, name: string)
    requires Tree(root, all) && d in all && GoodNames(root, all) && name != [] && '/' !in name
    ensures Tokens(FilePath(root, all, d, name), "/") == NamesTo(root, all, d) + [name]
    decreases d.depth
  {
    hide Tree, GoodNames, Tokens;
    OwnToken(name, "/");
    DepthOne(root, all, d);
    if d != root {
      ParentOf(root, all, d);
      NameIsGood(root, all, d);
      FilePathTokens(root, all, d.parent, d.name);
      assert DirPath(root, all, d) == FilePath(root, all, d.parent, d.name);
      TokensJoin(DirPath(root, all, d), '/', name, "/");
    }
  }

  lemma NameIsGood(root: Dir, all: set<Dir>, d: Dir)
    requires Tree(root, all) && d in all && GoodNames(root, all) && d != root
    ensures d.name != [] && '/' !in d.name
  {
  }

  /** With a leading slash a file is found exactly in the root. */
  lemma OpenByAbsolutePath(root: Dir, all: set<Dir>, files: set<File>, d: Dir, name: string)
    requires Tree(root, all) && FilesOk(all, files) && d in all && GoodNames(root, all) && SlashFreeFiles(all, files)
    requires '/' !in name && HeapOperations.Allocatable(|FilePath(root, all, d, name)| + 2)
    ensures Located(root, all, files, ['/'] + FilePath(root, all, d, name))
      == if d == root then FileNamed(d, name) else null
  {
    hide Tree, GoodNames, FilesOk, SlashFreeFiles, Located, FileNamed;
    if d == root {
      InRoot(root, all, files, name);
    } else {
      var s := ['/'] + DirPath(root, all, d);
      assert ['/'] + FilePath(root, all, d, name) == s + ['/'] + name;
      assert s[0] == '/';
      TwoSlashes(root, all, files, s, name);
    }
  }

  /** By the path that `ramfs_pwd` prints for its directory no file is ever found, not even in the root. */
  lemma OpenByPrintedPath(root: Dir, all: set<Dir>, files: set<File>, d: Dir, name: string)
    requires Tree(root, all) && FilesOk(all, files) && d in all && SlashFreeFiles(all, files)
    ensures Located(root, all, files, PathOf(root, all, d) + ['/'] + name) == null
  {
    hide Tree, FilesOk, SlashFreeFiles, Located;
    PrintedSlash(root, all, d);
    TwoSlashes(root, all, files, PathOf(root, all, d), name);
  }

  lemma PrintedSlash(root: Dir, all: set<Dir>, d: Dir)
    requires Tree(root, all) && d in all
    ensures '/' in PathOf(root, all, d)
  {
    if d == root {
      assert d.name[0] == '/';
    } else {
      var s := PathOf(root, all, d.parent);
      assert (s + ['/'] + d.name)[|s|] == '/';
    }
  }

  /** Three directories one below the other: `/`, `a` and `b`, the last with a file `f`. */
  ghost predicate ThreeDeep(root: Dir, a: Dir, dir: Dir, file: File)
    reads root, a, dir, file
  {
    && root.name == "/" && a.name == "a" && dir.name == "b" && file.name == "f"
    && root.parent == null && a.parent == root && dir.parent == a
    && root.depth == 0 && a.depth == 1 && dir.depth == 2
    && root.subdirs == [a] && a.subdirs == [dir] && dir.subdirs == []
    && root.files == [] && a.files == [] && dir.files == [file]
  }

  lemma ThreeDeepTree(root: Dir, a: Dir, dir: Dir, file: File)
    requires ThreeDeep(root, a, dir, file)
    ensures Tree(root, {root, a, dir}) && GoodNames(root, {root, a, dir})
    ensures FilesOk({root, a, dir}, {file}) && SlashFreeFiles({root, a, dir}, {file})
  {
    assert root.subdirs[0] == a && a.subdirs[0] == dir;
  }

  lemma ThreeDeepPaths(root: Dir, a: Dir, dir: Dir, file: File)
    requires ThreeDeep(root, a, dir, file) && Tree(root, {root, a, dir})
    ensures FilePath(root, {root, a, dir}, dir, "f") == "a/b/f" && FileNamed(dir, "f") == file
  {
    hide Tree;
    assert DirPath(root, {root, a, dir}, a) == "a";
    assert DirPath(root, {root, a, dir}, dir) == "a" + ['/'] + "b";
    assert dir.files[0] == file;
  }

  /** A tree with a file two levels down, which its path does not open. */
  method NestedFileIsLost() returns (root: Dir, dir: Dir, file: File, ghost all: set<Dir>)
    ensures Tree(root, all) && GoodNames(root, all) && dir in all && dir.depth == 2
    ensures FilesOk(all, {file}) && SlashFreeFiles(all, {file})
    ensures FilePath(root, all, dir, "f") == "a/b/f" && FileNamed(dir, "f") == file
    ensures Located(root, all, {file}, "a/b/f") == null
  {
    hide Tree, GoodNames, FilesOk, SlashFreeFiles, FilePath, FileNamed, Located;
    root := new Dir("/", null);
    var a := new Dir("a", root);
    dir := new Dir("b", a);
    root.subdirs, a.subdirs := [a], [dir];
    var data := new char[1];
    file := new File("f", data, 1);
    dir.files := [file];
    all := {root, a, dir};
    ThreeDeepTree(root, a, dir, file);
    ThreeDeepPaths(root, a, dir, file);
    OpenByPath(root, all, {file}, dir, "f");
  }

  ghost predicate AllOpened(slots: seq<FileDescriptors.Slot>) {
    forall i | 0 <= i < |slots| :: slots[i].Opened?
  }

  lemma OpenCreated(s: FileDescriptors.Spec, file: File, bytes: seq<char>, flags: int)
    requires FileDescriptors.InBounds(s)
    ensures var r := FileDescriptors.OpenSpec(
        FileDescriptors.Step(s, FileDescriptors.Create(file, bytes)), file, flags);
      && r.0.contents == s.contents[file := bytes]
      && if r.1 == -1 then r.0.slots == s.slots && AllOpened(s.slots) else
           0 <= r.1 < |s.slots| && s.slots[r.1].Closed?
           && r.0.slots == s.slots[r.1 := FileDescriptors.Opened(file, 0, flags)]
  {
    var t := FileDescriptors.Step(s, FileDescriptors.Create(file, bytes));
    FileDescriptors.OpenEffect(t, file, flags);
    var r := FileDescriptors.OpenSpec(t, file, flags);
    assert r.1 != -1 ==> r.0.slots == s.slots[r.1 := FileDescriptors.Opened(file, 0, flags)];
  }

  /** A file created in the root after the table was set up is opened by its name. */
  method CreateThenOpen(fds: FdSystem, root: Dir, name: string, data: seq<char>, size: nat, flags: int,
                        tokenizer: Tokenizer, ghost all: set<Dir>)
    returns (file: File?, fd: int)
    requires fds.Valid() && Tree(root, all) && FilesOk(all, fds.files)
    requires NUL !in name && '/' !in name && name != [] && size <= |data|
    requires Commands.IndexOfFile(root.files, name) == |root.files|
    modifies fds`files, fds`fdCount, fds.table, root`files, tokenizer
    ensures fds.Valid() && Tree(root, all) && FilesOk(all, fds.files)
    ensures file != null <==> Commands.FileFits(name, size, |old(root.files)|)
    ensures file != null ==>
      && fds.State().contents == old(fds.State()).contents[file := data[..size]]
      && if fd == -1 then
           fds.State().slots == old(fds.State()).slots && AllOpened(fds.State().slots)
         else
           0 <= fd < |old(fds.State()).slots| && old(fds.State()).slots[fd].Closed?
           && fds.State().slots == old(fds.State()).slots[fd := FileDescriptors.Opened(file, 0, flags)]
    ensures file != null ==>
      (fds.State(), fd) == FileDescriptors.OpenSpec(
        FileDescriptors.Step(old(fds.State()), FileDescriptors.Create(file, data[..size])), file, flags)
  {
    hide Tree, FilesOk, Located, AllOpened;
    hide FileDescriptors.OpenSpec, FileDescriptors.Step, FileDescriptors.InBounds, FileDescriptors.CountOpen;
    RootInTree(root, all);
    ghost var s, was := fds.State(), root.files;
    file := fds.CreateFile(root, name, data, size, root, all);
    fd := -1;
    if file != null {
      NewFileIsFirst(root, was, file, name);
      InRoot(root, all, fds.files, name);
      assert name != "/dev/stdin" && name != "/dev/stdout" && name != "/dev/stderr" by {
        assert "/dev/stdin"[0] == "/dev/stdout"[0] == "/dev/stderr"[0] == '/';
      }
      fd := fds.Open(root, name, flags, tokenizer, all);
      OpenCreated(s, file, data[..size], flags);
    }
  }

  lemma NewFileIsFirst(d: Dir, was: seq<File>, file: File, name: string)
    requires d.files == was + [file] && file.name == name && Commands.IndexOfFile(was, name) == |was|
    ensures FileNamed(d, name) == file
  {
    var i := Commands.IndexOfFile(d.files, name);
    assert forall k | 0 <= k < |was| :: d.files[k] == was[k] && was[k].name != name;
    assert d.files[|was|] == file;
  }

  /** For any path that can be copied: without a slash, or with nothing before its first one, it names a
      file of the root; else a file of the directory that the part before leads to, if there is one. */
  lemma LocatedIs(root: Dir, all: set<Dir>, files: set<File>, path: string, k: nat)
    requires Tree(root, all) && FilesOk(all, files) && HeapOperations.Allocatable(|path| + 1)
    requires k <= |path| && '/' !in path[..k] && (k < |path| ==> path[k] == '/')
    ensures k == |path| ==> Located(root, all, files, path) == FileNamed(root, path)
    ensures k == 0 < |path| ==> Located(root, all, files, path) == FileNamed(root, path[1..])
    ensures 0 < k < |path| ==>
      && (forall d | NamedBy(root, all, d, Tokens(path[..k], "/")) ::
            Located(root, all, files, path) == FileNamed(d, path[k + 1..]))
      && ((forall d | d in all :: !NamedBy(root, all, d, Tokens(path[..k], "/"))) ==>
            Located(root, all, files, path) == null)
  {
    hide Tree, Tokens, FindSpec, Commands.IndexOfFile, NamedBy;
    RootInTree(root, all);
    if k == |path| {
      assert path[..k] == path;
      NoSlash(path);
    } else {
      SlashIs(path, k);
      if k > 0 {
        assert path[..k][0] != '/';
        assert path[..k] != "/";
        FindIff(root, all, path[..k]);
        AllNamedIn(root, all, Tokens(path[..k], "/"));
      }
    }
  }

  lemma AllNamedIn(root: Dir, all: set<Dir>, names: seq<string>)
    requires Tree(root, all)
    ensures forall d | NamedBy(root, all, d, names) :: d in all
  {
  }
}
