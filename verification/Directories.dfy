/** The directory tree: making directories and files, finding a directory by its path, printing its path. */
module Directories {
  import opened CStrings
  import HeapOperations

  const POINTER_SIZE: nat := 4

  class File {
    var name: string
    var data: array<char>
    var size: nat

    constructor (name: string, data: array<char>, size: nat)
      ensures this.name == name && this.data == data && this.size == size
    {
      this.name, this.data, this.size := name, data, size;
    }
  }

  class Dir {
    var name: string
    var parent: Dir?
    var files: seq<File>
    var subdirs: seq<Dir>
    ghost var depth: nat

    constructor (name: string, parent: Dir?)
      ensures this.name == name && this.parent == parent && files == [] && subdirs == []
      ensures depth == if parent == null then 0 else parent.depth + 1
    {
      this.name, this.parent, files, subdirs := name, parent, [], [];
      depth := if parent == null then 0 else parent.depth + 1;
    }
  }

  // ----- the tree -----

  ghost predicate Apart(dirs: seq<Dir>) {
    forall i, j | 0 <= i < j < |dirs| :: dirs[i] != dirs[j]
  }

  ghost predicate LinkedUp(root: Dir, all: set<Dir>, d: Dir)
    reads all, d
  {
    d != root ==> d.parent != null && d.parent in all && d in d.parent.subdirs && d.depth == d.parent.depth + 1
  }

  ghost predicate LinkedDown(root: Dir, all: set<Dir>, d: Dir)
    reads all, d
  {
    forall c | c in d.subdirs :: c in all && c != root && c.parent == d
  }

  /** `all` is the directories below and including `root`, linked both ways. */
  ghost predicate Tree(root: Dir, all: set<Dir>)
    reads all
  {
    && root in all && root.parent == null && root.name == "/" && root.depth == 0
    && (forall d | d in all ::
          NUL !in d.name && Apart(d.subdirs) && LinkedUp(root, all, d) && LinkedDown(root, all, d))
  }

  /** Every name but the root's is non-empty and free of slashes, and siblings' names differ. */
  ghost predicate GoodNames(root: Dir, all: set<Dir>)
    reads all
  {
    && (forall d | d in all && d != root :: d.name != [] && '/' !in d.name)
    && (forall d, i, j | d in all && 0 <= i < j < |d.subdirs| && d.subdirs[i] in all && d.subdirs[j] in all ::
          d.subdirs[i].name != d.subdirs[j].name)
  }

  /** The index of the first directory with this name, or the length. */
  ghost function IndexNamed(dirs: seq<Dir>, name: string): (r: nat)
    reads dirs
    ensures r <= |dirs| && (r < |dirs| ==> dirs[r].name == name)
    ensures forall i | 0 <= i < r :: dirs[i].name != name
  {
    if dirs == [] || dirs[0].name == name then 0 else IndexNamed(dirs[1..], name) + 1
  }

  /** Descends by names, taking the first match at each step. */
  ghost function Walk(root: Dir, all: set<Dir>, d: Dir, names: seq<string>): (r: Dir?)
    requires Tree(root, all) && d in all
    reads all
    ensures r != null ==> r in all && r.depth == d.depth + |names|
    decreases |names|
  {
    if names == [] then d else
      assert forall c | c in d.subdirs :: c in all;
      var i := IndexNamed(d.subdirs, names[0]);
      if i == |d.subdirs| then null else
        assert d.subdirs[i] in d.subdirs;
        Walk(root, all, d.subdirs[i], names[1..])
  }

  /** The printed path without its first, never written byte. */
  ghost function PathOf(root: Dir, all: set<Dir>, d: Dir): string
    requires Tree(root, all) && d in all
    reads all
    decreases d.depth
  {
    if d == root then d.name else PathOf(root, all, d.parent) + ['/'] + d.name
  }

  // ----- find -----

  /** What `ramfs_find_dir` returns. */
  ghost function FindSpec(root: Dir, all: set<Dir>, path: string): Dir?
    requires Tree(root, all)
    reads all
  {
    if path == "/" then root
    else if !HeapOperations.Allocatable(|path| + 1) then null
    else Walk(root, all, root, Tokens(path, "/"))
  }

  /** Copies a string to a new buffer with its terminator; NULL when that cannot be allocated. */
  method StrDup(s: string) returns (copy: array?<char>)
    requires NUL !in s
    ensures copy == null <==> !HeapOperations.Allocatable(|s| + 1)
    ensures copy != null ==> fresh(copy) && copy.Length == |s| + 1 && copy[..|s|] == s && copy[|s|] == NUL
  {
    if !HeapOperations.Allocatable(|s| + 1) {
      return null;
    }
    var buffer := new char[|s| + 1];
    for i := 0 to |s|
      invariant forall k | 0 <= k < i :: buffer[k] == s[k]
    {
      buffer[i] := s[i];
    }
    buffer[|s|] := NUL;
    copy := buffer;
  }

  /** The first subdirectory whose name compares equal. */
  method FirstNamed(current: Dir, name: string) returns (found: Dir?)
    requires NUL !in name && forall c | c in current.subdirs :: NUL !in c.name
    ensures var i := IndexNamed(current.subdirs, name);
      found == if i == |current.subdirs| then null else current.subdirs[i]
  {
    var i := 0;
    while i < |current.subdirs|
      invariant i <= |current.subdirs|
      invariant IndexNamed(current.subdirs, name) == i + IndexNamed(current.subdirs[i..], name)
    {
      var c := StrCmp(current.subdirs[i].name, name);
      if c == 0 {
        return current.subdirs[i];
      }
      assert current.subdirs[i..][1..] == current.subdirs[i + 1..];
      i := i + 1;
    }
    return null;
  }

  /** `ramfs_find_dir` is the recursive first-match walk over the path's tokens. */
  method FindDir(root: Dir, path: string, tokenizer: Tokenizer, ghost all: set<Dir>) returns (dir: Dir?)
    requires Tree(root, all) && NUL !in path
    modifies tokenizer
    ensures dir == FindSpec(root, all, path)
  {
    hide StringAt, Tokens, Token, Terminated, Tree, Walk, IndexNamed;
    var isRoot := StrCmp(path, "/");
    if isRoot == 0 {
      return root;
    }
    var pathCopy := StrDup(path);
    if pathCopy == null {
      return null;
    }
    StringIs(pathCopy[..], 0, path);
    ghost var left := Tokens(path, "/");
    RootInTree(root, all);
    var current := root;
    var token := tokenizer.StrTok(pathCopy, 0, "/");
    while token >= 0
      invariant Tree(root, all) && current in all && tokenizer.Ready(pathCopy) && fresh(pathCopy)
      invariant Walk(root, all, current, left) == Walk(root, all, root, Tokens(path, "/"))
      invariant token == -1 <==> left == []
      invariant token >= 0 ==>
        StringAt(pathCopy[..], token) == left[0] && Tokens(RestOf(pathCopy[..], tokenizer.last), "/") == left[1..]
      invariant token >= -1
      decreases |left|
    {
      WalkStep(root, all, current, left);
      var found := FirstNamed(current, StringAt(pathCopy[..], token));
      if found == null {
        return null;
      }
      current := found;
      left := left[1..];
      token := tokenizer.StrTok(pathCopy, -1, "/");
    }
    WalkStep(root, all, current, left);
    return current;
  }

  lemma RootInTree(root: Dir, all: set<Dir>)
    requires Tree(root, all)
    ensures root in all
  {
  }

  lemma WalkStep(root: Dir, all: set<Dir>, d: Dir, names: seq<string>)
    requires Tree(root, all) && d in all
    ensures forall c | c in d.subdirs :: c in all && NUL !in c.name
    ensures names == [] ==> Walk(root, all, d, names) == d
    ensures names != [] ==>
      var i := IndexNamed(d.subdirs, names[0]);
      Walk(root, all, d, names) ==
        if i == |d.subdirs| then null else assert d.subdirs[i] in d.subdirs; Walk(root, all, d.subdirs[i], names[1..])
  {
  }

  // ----- print and resolve -----

  /** Descending by two lists of names one after the other. */
  lemma {:induction false} WalkAppend(root: Dir, all: set<Dir>, d: Dir, ns: seq<string>, ms: seq<string>)
    requires Tree(root, all) && d in all
    ensures Walk(root, all, d, ns + ms) ==
      var e := Walk(root, all, d, ns);
      if e == null then null else Walk(root, all, e, ms)
    decreases |ns|
  {
    hide Tree, IndexNamed;
    WalkStep(root, all, d, ns);
    WalkStep(root, all, d, ns + ms);
    if ns == [] {
      assert ns + ms == ms;
    } else {
      assert (ns + ms)[1..] == ns[1..] + ms;
      var i := IndexNamed(d.subdirs, ns[0]);
      if i < |d.subdirs| {
        assert d.subdirs[i] in d.subdirs;
        WalkAppend(root, all, d.subdirs[i], ns[1..], ms);
      }
    }
  }

  /** The directory a name leads to from `p` is the first of that name. */
  lemma WalkOne(root: Dir, all: set<Dir>, p: Dir, name: string)
    requires Tree(root, all) && p in all
    ensures Walk(root, all, p, [name]) ==
      var i := IndexNamed(p.subdirs, name);
      if i == |p.subdirs| then null else p.subdirs[i]
  {
    hide Tree, IndexNamed;
    WalkStep(root, all, p, [name]);
    var i := IndexNamed(p.subdirs, name);
    if i < |p.subdirs| {
      assert p.subdirs[i] in p.subdirs;
      WalkStep(root, all, p.subdirs[i], []);
    }
  }

  /** The printed path of `d` leads back to `d`. */
  ghost predicate Resolves(root: Dir, all: set<Dir>, d: Dir)
    requires Tree(root, all) && d in all
    reads all
  {
    Walk(root, all, root, Tokens(PathOf(root, all, d), "/")) == d
  }

  lemma ParentOf(root: Dir, all: set<Dir>, d: Dir)
    requires Tree(root, all) && d in all && d != root
    ensures d.parent != null && d.parent in all && d in d.parent.subdirs && d.depth == d.parent.depth + 1
  {
  }

  /** Printing below a directory that resolves adds the tokens of one more name. */
  lemma ResolvesStep(root: Dir, all: set<Dir>, d: Dir)
    requires Tree(root, all) && d in all && d != root
    ensures d.parent != null && d.parent in all
    ensures Resolves(root, all, d.parent) ==>
      (Resolves(root, all, d) <==> Walk(root, all, d.parent, Tokens(d.name, "/")) == d)
  {
    hide Tree, Walk, Tokens;
    ParentOf(root, all, d);
    RootInTree(root, all);
    var path := PathOf(root, all, d.parent);
    TokensJoin(path, '/', d.name, "/");
    WalkAppend(root, all, root, Tokens(path, "/"), Tokens(d.name, "/"));
  }

  lemma RootResolves(root: Dir, all: set<Dir>)
    requires Tree(root, all)
    ensures Resolves(root, all, root) && PathOf(root, all, root) == "/"
  {
    assert PathOf(root, all, root) == "/";
    assert Tokens("/", "/") == [] by {
      SkipOne("/", "/");
      NoTokens("/");
    }
  }

  /** A name of which `d` is the first bearer leads from its parent to `d`. */
  ghost predicate FirstOfName(d: Dir)
    requires d.parent != null
    reads d, d.parent, d.parent.subdirs
  {
    var i := IndexNamed(d.parent.subdirs, d.name);
    i < |d.parent.subdirs| && d.parent.subdirs[i] == d
  }

  /** Below a directory that resolves, a directory resolves exactly when its name is a single token
      and no earlier sibling bears it. */
  lemma ResolvesIff(root: Dir, all: set<Dir>, d: Dir)
    requires Tree(root, all) && d in all && d != root
    ensures d.parent != null && d.parent in all
    ensures Resolves(root, all, d.parent) ==>
      (Resolves(root, all, d) <==> Tokens(d.name, "/") == [d.name] && FirstOfName(d))
  {
    hide Tree, Walk, Tokens, IndexNamed, Resolves;
    ParentOf(root, all, d);
    ResolvesStep(root, all, d);
    var ts := Tokens(d.name, "/");
    WalkDepth(root, all, d.parent, ts);
    if |ts| == 1 {
      assert ts == [ts[0]];
      WalkOne(root, all, d.parent, ts[0]);
      FoundName(d.parent.subdirs, ts[0]);
    }
  }

  lemma WalkDepth(root: Dir, all: set<Dir>, d: Dir, names: seq<string>)
    requires Tree(root, all) && d in all
    ensures Walk(root, all, d, names) != null ==>
      Walk(root, all, d, names) in all && Walk(root, all, d, names).depth == d.depth + |names|
  {
  }

  lemma FoundName(dirs: seq<Dir>, name: string)
    ensures var i := IndexNamed(dirs, name);
      i < |dirs| ==> dirs[i].name == name
  {
  }

  ghost predicate AllResolve(root: Dir, all: set<Dir>)
    requires Tree(root, all)
    reads all
  {
    forall d | d in all :: Resolves(root, all, d)
  }

  ghost predicate AllNamed(root: Dir, all: set<Dir>)
    requires Tree(root, all)
    reads all
  {
    forall d | d in all && d != root :: d.parent != null && Tokens(d.name, "/") == [d.name] && FirstOfName(d)
  }

  lemma {:induction false} NamedResolves(root: Dir, all: set<Dir>, d: Dir)
    requires Tree(root, all) && d in all && AllNamed(root, all)
    ensures Resolves(root, all, d)
    decreases d.depth
  {
    hide Tree, Resolves, FirstOfName, Tokens;
    if d == root {
      RootResolves(root, all);
    } else {
      ParentOf(root, all, d);
      NamedResolves(root, all, d.parent);
      ResolvesIff(root, all, d);
    }
  }

  /** Each directory is the first of its name exactly when siblings' names differ. */
  lemma NamedIffGood(root: Dir, all: set<Dir>)
    requires Tree(root, all)
    ensures AllNamed(root, all) <==> GoodNames(root, all)
  {
    hide Tokens;
    if AllNamed(root, all) {
      forall d | d in all && d != root
        ensures d.name != [] && '/' !in d.name
      {
        OwnToken(d.name, "/");
      }
      forall d, i, j | d in all && 0 <= i < j < |d.subdirs| && d.subdirs[i] in all && d.subdirs[j] in all
        ensures d.subdirs[i].name != d.subdirs[j].name
      {
        assert d.subdirs[j] in d.subdirs && d.subdirs[j].parent == d;
        assert FirstOfName(d.subdirs[j]);
      }
    }
    if GoodNames(root, all) {
      forall d | d in all && d != root
        ensures d.parent != null && Tokens(d.name, "/") == [d.name] && FirstOfName(d)
      {
        OwnToken(d.name, "/");
        GoodFirst(root, all, d);
      }
    }
  }

  lemma GoodFirst(root: Dir, all: set<Dir>, d: Dir)
    requires Tree(root, all) && d in all && d != root && GoodNames(root, all)
    ensures d.parent != null && FirstOfName(d)
  {
    var p := d.parent;
    assert forall c | c in p.subdirs :: c in all;
    var k :| 0 <= k < |p.subdirs| && p.subdirs[k] == d;
    var i := IndexNamed(p.subdirs, d.name);
    assert p.subdirs[k] in p.subdirs;
    assert i < |p.subdirs| ==> p.subdirs[i] in p.subdirs;
  }

  /** For any tree, however deep: the printed path of every directory leads back to that directory
      exactly when all names are non-empty and free of slashes and siblings' names differ. */
  lemma PathRoundTrip(root: Dir, all: set<Dir>)
    requires Tree(root, all)
    ensures AllResolve(root, all) <==> GoodNames(root, all)
  {
    hide Tree, Resolves, FirstOfName, Tokens, GoodNames;
    NamedIffGood(root, all);
    if AllNamed(root, all) {
      forall d | d in all
        ensures Resolves(root, all, d)
      {
        NamedResolves(root, all, d);
      }
    }
    if AllResolve(root, all) {
      forall d | d in all && d != root
        ensures d.parent != null && Tokens(d.name, "/") == [d.name] && FirstOfName(d)
      {
        ParentOf(root, all, d);
        ResolvesIff(root, all, d);
      }
    }
  }

  /** Hence `ramfs_find_dir` maps every path that `ramfs_pwd` could print back to its directory. */
  lemma PrintedPathIsFound(root: Dir, all: set<Dir>, d: Dir)
    requires Tree(root, all) && d in all && GoodNames(root, all)
    requires HeapOperations.Allocatable(|PathOf(root, all, d)| + 2)
    ensures FindSpec(root, all, PathOf(root, all, d)) == d
  {
    hide Tree, GoodNames, Tokens, Walk;
    PathRoundTrip(root, all);
    assert Resolves(root, all, d);
    RootInTree(root, all);
    RootResolves(root, all);
  }

  // ----- what is found -----

  /** The names from the root down to `d`. */
  ghost function NamesTo(root: Dir, all: set<Dir>, d: Dir): seq<string>
    requires Tree(root, all) && d in all
    reads all
    decreases d.depth
  {
    if d == root then [] else NamesTo(root, all, d.parent) + [d.name]
  }

  /** `d` and all above it but the root are the first of their names among their siblings. */
  ghost predicate FirstsTo(root: Dir, all: set<Dir>, d: Dir)
    requires Tree(root, all) && d in all
    reads all
    decreases d.depth
  {
    d != root ==>
      && (forall c | c in d.parent.subdirs :: c in all)
      && FirstOfName(d) && FirstsTo(root, all, d.parent)
  }

  ghost predicate NamedBy(root: Dir, all: set<Dir>, d: Dir, names: seq<string>)
    requires Tree(root, all)
    reads all
  {
    d in all && NamesTo(root, all, d) == names && FirstsTo(root, all, d)
  }

  lemma NamedByStep(root: Dir, all: set<Dir>, d: Dir, names: seq<string>)
    requires Tree(root, all) && d in all && names != []
    ensures NamedBy(root, all, d, names) <==>
      && d != root && d.parent in all && NamedBy(root, all, d.parent, names[..|names| - 1])
      && d.name == names[|names| - 1] && FirstOfName(d)
  {
    hide FirstOfName, IndexNamed;
    if d != root {
      ParentOf(root, all, d);
      var up := NamesTo(root, all, d.parent);
      assert (up + [d.name])[..|up|] == up;
      assert names[..|names| - 1] + [names[|names| - 1]] == names;
      ChildrenIn(root, all, d.parent);
    }
  }

  lemma ChildrenIn(root: Dir, all: set<Dir>, d: Dir)
    requires Tree(root, all) && d in all
    ensures forall c | c in d.subdirs :: c in all && c != root && c.parent == d
  {
  }

  /** Walking from the root arrives at the directory that the names lead to, and only there. */
  lemma {:induction false} WalkIff(root: Dir, all: set<Dir>, d: Dir, names: seq<string>)
    requires Tree(root, all) && d in all
    ensures Walk(root, all, root, names) == d <==> NamedBy(root, all, d, names)
    decreases |names|
  {
    hide Tree, Walk, IndexNamed, FirstOfName;
    RootInTree(root, all);
    if names == [] {
      WalkStep(root, all, root, names);
      NamesEmpty(root, all, d);
    } else {
      var n := |names| - 1;
      var init, last := names[..n], names[n];
      assert init + [last] == names;
      WalkAppend(root, all, root, init, [last]);
      NamedByStep(root, all, d, names);
      if d != root {
        ParentOf(root, all, d);
        WalkIff(root, all, d.parent, init);
      }
      var e := Walk(root, all, root, init);
      if e != null {
        WalkOne(root, all, e, last);
        ChildrenIn(root, all, e);
        FirstIs(root, all, e, d, last);
      }
    }
  }

  lemma NamesEmpty(root: Dir, all: set<Dir>, d: Dir)
    requires Tree(root, all) && d in all
    ensures NamedBy(root, all, d, []) <==> d == root
  {
    hide FirstOfName;
  }

  /** The first of a name among the subdirectories of `e`. */
  lemma FirstIs(root: Dir, all: set<Dir>, e: Dir, d: Dir, name: string)
    requires Tree(root, all) && e in all && d in all
    ensures var i := IndexNamed(e.subdirs, name);
      i < |e.subdirs| && e.subdirs[i] == d <==> d != root && d.parent == e && d.name == name && FirstOfName(d)
  {
    var i := IndexNamed(e.subdirs, name);
    if i < |e.subdirs| {
      assert e.subdirs[i] in e.subdirs;
    }
  }

  /** `ramfs_find_dir` finds `d` by a path exactly when the tokens of the path are the names from the root
      down to `d`, each directory on the way the first of its name; without such a directory it returns
      NULL, as it does for a path too long to copy. */
  lemma FindIff(root: Dir, all: set<Dir>, path: string)
    requires Tree(root, all)
    ensures path != "/" && HeapOperations.Allocatable(|path| + 1) ==>
      && (forall d | d in all :: FindSpec(root, all, path) == d <==> NamedBy(root, all, d, Tokens(path, "/")))
      && (FindSpec(root, all, path) == null <==> forall d | d in all :: !NamedBy(root, all, d, Tokens(path, "/")))
    ensures path != "/" && !HeapOperations.Allocatable(|path| + 1) ==> FindSpec(root, all, path) == null
    ensures path == "/" ==> FindSpec(root, all, path) == root
  {
    hide Tree, Tokens, NamedBy, Walk;
    RootInTree(root, all);
    if path != "/" && HeapOperations.Allocatable(|path| + 1) {
      forall d | d in all
        ensures FindSpec(root, all, path) == d <==> NamedBy(root, all, d, Tokens(path, "/"))
      {
        WalkIff(root, all, d, Tokens(path, "/"));
      }
      WalkDepth(root, all, root, Tokens(path, "/"));
    }
  }

  /** The names joined as they are printed: a slash for the root, and a slash before each. */
  function Printed(names: seq<string>): string {
    if names == [] then "/" else Printed(names[..|names| - 1]) + "/" + names[|names| - 1]
  }

  /** The printed path of a directory is the names from the root down to it, joined by slashes. */
  lemma {:induction false} PathIsPrinted(root: Dir, all: set<Dir>, d: Dir)
    requires Tree(root, all) && d in all
    ensures PathOf(root, all, d) == Printed(NamesTo(root, all, d))
    decreases d.depth
  {
    if d == root {
      assert d.name == "/";
    } else {
      ParentOf(root, all, d);
      PathIsPrinted(root, all, d.parent);
      var up := NamesTo(root, all, d.parent);
      assert (up + [d.name])[..|up|] == up;
      assert ['/'] + d.name == "/" + d.name;
    }
  }
}
