/** The commands that print, make and remove: `pwd`, `mkdir`, `touch`, `rm`. */
module Commands {
  import opened CStrings
  import opened Directories
  import HeapOperations

  // ----- pwd -----

  lemma PathParts(root: Dir, all: set<Dir>, d: Dir)
    requires Tree(root, all) && d in all
    ensures d.parent == null <==> d == root
    ensures d == root ==> PathOf(root, all, d) == d.name == "/"
    ensures d != root ==>
      && d.parent in all && d.parent.depth < d.depth
      && PathOf(root, all, d) == PathOf(root, all, d.parent) + ['/'] + d.name
  {
  }

  /** The first loop: room for every name and a slash each. */
  method PathLength(dir: Dir, ghost root: Dir, ghost all: set<Dir>) returns (length: nat)
    requires Tree(root, all) && dir in all
    ensures length == |PathOf(root, all, dir)| + 1
  {
    hide Tree, PathOf;
    ghost var full := PathOf(root, all, dir);
    length := 0;
    var temp: Dir? := dir;
    while temp != null
      invariant temp != null ==> temp in all && length + |PathOf(root, all, temp)| == |full|
      invariant temp == null ==> length == |full| + 1
      decreases if temp == null then 0 else temp.depth + 1
    {
      PathParts(root, all, temp);
      length := length + |temp.name| + 1;
      temp := temp.parent;
    }
  }

  /** One round of the second loop: a name, and its slash unless it is the root's. */
  method WriteName(buffer: array<char>, end: nat, name: string, slash: bool) returns (ptr: nat)
    requires |name| + (if slash then 1 else 0) <= end <= buffer.Length
    modifies buffer
    ensures ptr + |name| + (if slash then 1 else 0) == end
    ensures buffer[ptr..end] == (if slash then ['/'] else []) + name
    ensures buffer[end..] == old(buffer[end..]) && buffer[..ptr] == old(buffer[..ptr])
  {
    ptr := end - |name|;
    MemCpy(buffer, ptr, name);
    assert buffer[ptr..end] == name;
    if slash {
      ptr := ptr - 1;
      buffer[ptr] := '/';
      assert buffer[ptr..end] == ['/'] + buffer[ptr + 1..end];
    }
  }

  /** Writing between `ptr` and `end` leaves what was written before, and joins it. */
  lemma SlicesStay(b: seq<char>, b': seq<char>, ptr: nat, end: nat, length: nat)
    requires ptr <= end <= length <= |b| == |b'| && b'[end..] == b[end..] && b'[..ptr] == b[..ptr]
    ensures b'[ptr..length] == b'[ptr..end] + b[end..length]
    ensures b'[length..] == b[length..] && b'[..ptr] == b[..end][..ptr]
  {
    assert b'[end..length] == b'[end..][..length - end] && b[end..length] == b[end..][..length - end];
    assert b'[length..] == b'[end..][length - end..] && b[length..] == b[end..][length - end..];
  }

  /** The second loop fills the buffer backwards. */
  method FillPath(buffer: array<char>, length: nat, dir: Dir, ghost root: Dir, ghost all: set<Dir>) returns (ptr: nat)
    requires Tree(root, all) && dir in all && |PathOf(root, all, dir)| <= length <= buffer.Length
    modifies buffer
    ensures ptr + |PathOf(root, all, dir)| == length && buffer[ptr..length] == PathOf(root, all, dir)
    ensures buffer[length..] == old(buffer[length..]) && buffer[..ptr] == old(buffer[..ptr])
  {
    hide Tree, PathOf;
    ghost var full := PathOf(root, all, dir);
    var temp: Dir? := dir;
    ptr := length;
    while temp != null
      invariant Tree(root, all) && full == PathOf(root, all, dir)
      invariant ptr <= length && |full| <= length
      invariant temp != null ==> temp in all && full == PathOf(root, all, temp) + buffer[ptr..length]
      invariant temp == null ==> full == buffer[ptr..length]
      invariant buffer[length..] == old(buffer[length..]) && buffer[..ptr] == old(buffer[..ptr])
      decreases if temp == null then 0 else temp.depth + 1
    {
      PathParts(root, all, temp);
      ghost var was, end := buffer[..], ptr;
      ptr := WriteName(buffer, ptr, temp.name, temp.parent != null);
      SlicesStay(was, buffer[..], ptr, end, length);
      temp := temp.parent;
    }
  }

  /** Builds the printed path; the first byte of the buffer is never written. */
  method Pwd(dir: Dir, ghost root: Dir, ghost all: set<Dir>) returns (path: array?<char>, ptr: nat)
    requires Tree(root, all) && dir in all
    ensures path == null <==> !HeapOperations.Allocatable(|PathOf(root, all, dir)| + 2)
    ensures path != null ==>
      && fresh(path) && path.Length == |PathOf(root, all, dir)| + 2 && ptr == 1
      && path[1..path.Length - 1] == PathOf(root, all, dir) && path[path.Length - 1] == NUL
  {
    hide Tree, PathOf;
    var length := PathLength(dir, root, all);
    if !HeapOperations.Allocatable(length + 1) {
      return null, 0;
    }
    var buffer := new char[length + 1];
    buffer[length] := NUL;
    ptr := FillPath(buffer, length, dir, root, all);
    assert buffer[length..][0] == NUL;
    path := buffer;
  }

  // ----- mkdir -----

  /** Appends a new directory; NULL when the longer array of subdirectories cannot be allocated. */
  method CreateDir(parent: Dir, name: string) returns (newDir: Dir?)
    requires HeapOperations.Allocatable(|name| + 1)
    modifies parent`subdirs
    ensures newDir == null <==> !HeapOperations.Allocatable((|old(parent.subdirs)| + 1) * POINTER_SIZE)
    ensures newDir == null ==> parent.subdirs == old(parent.subdirs)
    ensures newDir != null ==>
      && fresh(newDir) && newDir.name == name && newDir.parent == parent && newDir.subdirs == [] && newDir.files == []
      && newDir.depth == parent.depth + 1 && parent.subdirs == old(parent.subdirs) + [newDir]
  {
    var d := new Dir(name, parent);
    if !HeapOperations.Allocatable((|parent.subdirs| + 1) * POINTER_SIZE) {
      return null;
    }
    parent.subdirs := parent.subdirs + [d];
    return d;
  }

  /** Makes a directory unless one of that name exists; the tree stays a tree, and good names stay
      good exactly when the new name is. */
  method MkDir(dir: Dir, dirname: string, ghost root: Dir, ghost all: set<Dir>) returns (newDir: Dir?)
    requires Tree(root, all) && dir in all && NUL !in dirname && HeapOperations.Allocatable(|dirname| + 1)
    modifies dir`subdirs
    ensures newDir != null <==>
      && old(IndexNamed(dir.subdirs, dirname)) == |old(dir.subdirs)|
      && HeapOperations.Allocatable((|old(dir.subdirs)| + 1) * POINTER_SIZE)
    ensures newDir == null ==> dir.subdirs == old(dir.subdirs)
    ensures newDir != null ==>
      && fresh(newDir) && newDir.name == dirname && newDir.parent == dir && newDir.files == [] && newDir.subdirs == []
      && dir.subdirs == old(dir.subdirs) + [newDir]
      && Tree(root, all + {newDir})
      && (old(GoodNames(root, all)) ==> (GoodNames(root, all + {newDir}) <==> dirname != [] && '/' !in dirname))
  {
    hide Tree, GoodNames, TreeShape, GoodShape, IndexNamed;
    SubdirNames(root, all, dir);
    var existing := FirstNamed(dir, dirname);
    if existing != null {
      return null;
    }
    ghost var m := ShapeOf(all);
    ShapeIsTree(root, all);
    ShapeIsGood(root, all);
    NotNamed(dir, dirname);
    newDir := CreateDir(dir, dirname);
    if newDir != null {
      assert ShapeOf(all + {newDir}) == Grown(m, dir, newDir, dirname);
      TreeGrows(root, m, dir, newDir, dirname);
      ShapeIsTree(root, all + {newDir});
      if GoodShape(root, m) {
        NamesGrow(root, m, dir, newDir, dirname);
      }
      ShapeIsGood(root, all + {newDir});
    }
  }

  lemma NotNamed(dir: Dir, name: string)
    requires IndexNamed(dir.subdirs, name) == |dir.subdirs|
    ensures forall c | c in dir.subdirs :: c.name != name
  {
  }

  lemma SubdirNames(root: Dir, all: set<Dir>, dir: Dir)
    requires Tree(root, all) && dir in all
    ensures forall c | c in dir.subdirs :: c in all && NUL !in c.name
  {
  }

  // ----- the shape of a tree, as a value -----

  datatype Node = Node(name: string, parent: Dir?, subdirs: seq<Dir>, depth: nat)

  type Shape = map<Dir, Node>

  ghost function ShapeOf(all: set<Dir>): Shape
    reads all
  {
    map d | d in all :: Node(d.name, d.parent, d.subdirs, d.depth)
  }

  ghost predicate Up(root: Dir, m: Shape, d: Dir)
    requires d in m
  {
    d != root ==>
      m[d].parent != null && m[d].parent in m && d in m[m[d].parent].subdirs && m[d].depth == m[m[d].parent].depth + 1
  }

  ghost predicate Down(root: Dir, m: Shape, d: Dir)
    requires d in m
  {
    forall c | c in m[d].subdirs :: c in m && c != root && m[c].parent == d
  }

  ghost predicate TreeShape(root: Dir, m: Shape) {
    && root in m && m[root].parent == null && m[root].name == "/" && m[root].depth == 0
    && (forall d | d in m :: NUL !in m[d].name && Apart(m[d].subdirs) && Up(root, m, d) && Down(root, m, d))
  }

  ghost predicate CleanNames(root: Dir, m: Shape) {
    forall d | d in m && d != root :: m[d].name != [] && '/' !in m[d].name
  }

  ghost predicate SiblingsOk(m: Shape) {
    forall d, i, j | d in m && 0 <= i < j < |m[d].subdirs| && m[d].subdirs[i] in m && m[d].subdirs[j] in m ::
      m[m[d].subdirs[i]].name != m[m[d].subdirs[j]].name
  }

  ghost predicate GoodShape(root: Dir, m: Shape) {
    CleanNames(root, m) && SiblingsOk(m)
  }

  /** A tree in memory and its shape say the same. */
  lemma ShapeIsTree(root: Dir, all: set<Dir>)
    ensures Tree(root, all) <==> TreeShape(root, ShapeOf(all))
  {
    var m := ShapeOf(all);
    assert m.Keys == all;
    forall d | d in all
      ensures d in m && (LinkedUp(root, all, d) <==> Up(root, m, d)) && (LinkedDown(root, all, d) <==> Down(root, m, d))
      ensures m[d].name == d.name && m[d].subdirs == d.subdirs
    {
      assert d in m;
      DownIs(root, all, d);
    }
    hide LinkedUp, LinkedDown, Up, Down, Apart;
  }

  lemma DownIs(root: Dir, all: set<Dir>, d: Dir)
    requires d in all
    ensures d in ShapeOf(all) && (LinkedDown(root, all, d) <==> Down(root, ShapeOf(all), d))
  {
    var m := ShapeOf(all);
    assert m.Keys == all && m[d].subdirs == d.subdirs;
    if LinkedDown(root, all, d) {
      forall c | c in m[d].subdirs
        ensures c in m && c != root && m[c].parent == d
      {
        assert c in d.subdirs && c in all;
      }
    }
    if Down(root, m, d) {
      forall c | c in d.subdirs
        ensures c in all && c != root && c.parent == d
      {
        assert c in m[d].subdirs && c in m;
      }
    }
  }

  lemma ShapeIsGood(root: Dir, all: set<Dir>)
    ensures GoodNames(root, all) <==> GoodShape(root, ShapeOf(all))
  {
    var m := ShapeOf(all);
    assert m.Keys == all;
  }

  /** The shape with a new, empty directory at the end of the subdirectories of `dir`. */
  ghost function Grown(m: Shape, dir: Dir, newDir: Dir, name: string): Shape
    requires dir in m
  {
    m[dir := m[dir].(subdirs := m[dir].subdirs + [newDir])][newDir := Node(name, dir, [], m[dir].depth + 1)]
  }

  lemma UpGrows(root: Dir, m: Shape, dir: Dir, newDir: Dir, name: string, d: Dir)
    requires TreeShape(root, m) && dir in m && newDir !in m && d in Grown(m, dir, newDir, name)
    ensures Up(root, Grown(m, dir, newDir, name), d)
  {
    var g := Grown(m, dir, newDir, name);
    if d == newDir {
      assert g[dir].subdirs[|m[dir].subdirs|] == newDir;
    } else {
      assert d in m && Up(root, m, d);
    }
  }

  lemma DownGrows(root: Dir, m: Shape, dir: Dir, newDir: Dir, name: string, d: Dir)
    requires TreeShape(root, m) && dir in m && newDir !in m && d in Grown(m, dir, newDir, name)
    ensures Down(root, Grown(m, dir, newDir, name), d) && Apart(Grown(m, dir, newDir, name)[d].subdirs)
  {
    var g := Grown(m, dir, newDir, name);
    if d != newDir {
      assert d in m && Down(root, m, d) && Apart(m[d].subdirs);
      forall c | c in g[d].subdirs
        ensures c in g && c != root && g[c].parent == d
      {
        assert c == newDir || c in m[d].subdirs;
      }
    }
  }

  lemma TreeGrows(root: Dir, m: Shape, dir: Dir, newDir: Dir, name: string)
    requires TreeShape(root, m) && dir in m && newDir !in m && NUL !in name
    ensures TreeShape(root, Grown(m, dir, newDir, name))
  {
    hide Up, Down, Apart;
    var g := Grown(m, dir, newDir, name);
    forall d | d in g
      ensures Up(root, g, d) && Down(root, g, d) && Apart(g[d].subdirs)
    {
      UpGrows(root, m, dir, newDir, name, d);
      DownGrows(root, m, dir, newDir, name, d);
    }
    assert forall d | d in m :: g[d].name == m[d].name;
  }

  lemma SiblingsGrow(m: Shape, dir: Dir, newDir: Dir, name: string, d: Dir, i: nat, j: nat)
    requires dir in m && newDir !in m && SiblingsOk(m)
    requires forall c | c in m[dir].subdirs :: c in m && m[c].name != name
    requires var g := Grown(m, dir, newDir, name);
      && d in g && i < j < |g[d].subdirs| && g[d].subdirs[i] in g && g[d].subdirs[j] in g
      && (forall e, c | e in m && c in m[e].subdirs :: c in m)
    ensures var g := Grown(m, dir, newDir, name);
      g[g[d].subdirs[i]].name != g[g[d].subdirs[j]].name
  {
    var g := Grown(m, dir, newDir, name);
    assert d in m;
    assert g[d].subdirs[i] == m[d].subdirs[i] && m[d].subdirs[i] in m[d].subdirs;
    if d != dir || j < |m[dir].subdirs| {
      assert g[d].subdirs[j] == m[d].subdirs[j] && m[d].subdirs[j] in m[d].subdirs;
    }
  }

  lemma AllSiblingsGrow(m: Shape, dir: Dir, newDir: Dir, name: string)
    requires dir in m && newDir !in m && SiblingsOk(m)
    requires forall c | c in m[dir].subdirs :: c in m && m[c].name != name
    requires forall e, c | e in m && c in m[e].subdirs :: c in m
    ensures SiblingsOk(Grown(m, dir, newDir, name))
  {
    var g := Grown(m, dir, newDir, name);
    forall d, i, j | d in g && 0 <= i < j < |g[d].subdirs| && g[d].subdirs[i] in g && g[d].subdirs[j] in g
      ensures g[g[d].subdirs[i]].name != g[g[d].subdirs[j]].name
    {
      SiblingsGrow(m, dir, newDir, name, d, i, j);
    }
  }

  lemma CleanGrows(root: Dir, m: Shape, dir: Dir, newDir: Dir, name: string)
    requires root in m && dir in m && newDir !in m && CleanNames(root, m)
    ensures CleanNames(root, Grown(m, dir, newDir, name)) <==> name != [] && '/' !in name
  {
    var g := Grown(m, dir, newDir, name);
    assert newDir in g && g[newDir].name == name && newDir != root;
    assert forall d | d in m :: g[d].name == m[d].name;
  }

  lemma NamesGrow(root: Dir, m: Shape, dir: Dir, newDir: Dir, name: string)
    requires TreeShape(root, m) && dir in m && newDir !in m && GoodShape(root, m)
    requires forall c | c in m[dir].subdirs :: c in m && m[c].name != name
    ensures GoodShape(root, Grown(m, dir, newDir, name)) <==> name != [] && '/' !in name
  {
    hide CleanNames, SiblingsOk, Grown;
    forall e, c | e in m && c in m[e].subdirs
      ensures c in m
    {
      assert Down(root, m, e);
    }
    AllSiblingsGrow(m, dir, newDir, name);
    CleanGrows(root, m, dir, newDir, name);
  }

  // ----- touch and rm -----

  /** The index of the first file with this name, or the length. */
  ghost function IndexOfFile(files: seq<File>, name: string): (r: nat)
    reads files
    ensures r <= |files| && (r < |files| ==> files[r].name == name)
    ensures forall i | 0 <= i < r :: files[i].name != name
  {
    if files == [] || files[0].name == name then 0 else IndexOfFile(files[1..], name) + 1
  }

  ghost predicate NamesDiffer(files: seq<File>)
    reads files
  {
    forall i, j | 0 <= i < j < |files| :: files[i].name != files[j].name
  }

  /** The first file whose name compares equal, as an index. */
  method FindFile(files: seq<File>, name: string) returns (i: nat)
    requires NUL !in name && forall f | f in files :: NUL !in f.name
    ensures i == IndexOfFile(files, name)
  {
    i := 0;
    while i < |files|
      invariant i <= |files| && IndexOfFile(files, name) == i + IndexOfFile(files[i..], name)
    {
      var c := StrCmp(files[i].name, name);
      if c == 0 {
        return;
      }
      assert files[i..][1..] == files[i + 1..];
      i := i + 1;
    }
  }

  /** What `ramfs_create_file` has to allocate besides the file's record. */
  predicate FileFits(name: string, size: nat, count: nat) {
    && HeapOperations.Allocatable(|name| + 1) && HeapOperations.Allocatable(if size == 0 then 1 else size)
    && HeapOperations.Allocatable((count + 1) * POINTER_SIZE)
  }

  /** Names and contents up to 32758 and 32759 bytes fit, and up to 8189 files in a directory. */
  lemma FileFitsIs(name: string, size: nat, count: nat)
    ensures FileFits(name, size, count) <==> |name| <= 32758 && size <= 32759 && count + 1 <= 8189
  {
  }

  /** Appends a new file holding the first `size` bytes of `data`; NULL when an allocation fails. */
  method CreateFile(dir: Dir, name: string, data: seq<char>, size: nat) returns (file: File?)
    requires |data| >= size
    modifies dir`files
    ensures file != null <==> FileFits(name, size, |old(dir.files)|)
    ensures file == null ==> dir.files == old(dir.files)
    ensures file != null ==>
      && fresh(file) && fresh(file.data) && file.name == name && file.size == size <= file.data.Length
      && file.data[..size] == data[..size] && dir.files == old(dir.files) + [file]
  {
    if !HeapOperations.Allocatable(|name| + 1) || !HeapOperations.Allocatable(if size == 0 then 1 else size) {
      return null;
    }
    var buffer := new char[if size == 0 then 1 else size];
    MemCpy(buffer, 0, data[..size]);
    assert buffer[..size] == data[..size];
    if !HeapOperations.Allocatable((|dir.files| + 1) * POINTER_SIZE) {
      return null;
    }
    var f := new File(name, buffer, size);
    dir.files := dir.files + [f];
    return f;
  }

  /** The name without its leading spaces. */
  function Trimmed(s: string): string {
    if s != [] && s[0] == ' ' then Trimmed(s[1..]) else s
  }

  /** Trimming drops the leading spaces, all of them and nothing else. */
  lemma {:induction false} TrimmedIs(s: string) returns (k: nat)
    ensures k <= |s| && Trimmed(s) == s[k..] && (forall i | 0 <= i < k :: s[i] == ' ') && (k < |s| ==> s[k] != ' ')
  {
    if s != [] && s[0] == ' ' {
      k := TrimmedIs(s[1..]);
      k := k + 1;
    } else {
      k := 0;
    }
  }

  /** Makes a file of one NUL byte unless the trimmed name is empty or taken; distinct names stay
      distinct. */
  method Touch(dir: Dir, filename: string) returns (file: File?)
    requires NUL !in filename && forall f | f in dir.files :: NUL !in f.name
    modifies dir`files
    ensures old(NamesDiffer(dir.files)) ==> NamesDiffer(dir.files)
    ensures NUL !in Trimmed(filename)
    ensures file != null <==>
      && Trimmed(filename) != [] && old(IndexOfFile(dir.files, Trimmed(filename))) == |old(dir.files)|
      && FileFits(Trimmed(filename), 1, |old(dir.files)|)
    ensures file == null ==> dir.files == old(dir.files)
    ensures file != null ==>
      && fresh(file) && fresh(file.data) && file.name == Trimmed(filename) && file.size == 1 <= file.data.Length
      && file.data[..1] == [NUL] && dir.files == old(dir.files) + [file]
  {
    var start := 0;
    while start < |filename| && filename[start] == ' '
      invariant start <= |filename| && Trimmed(filename[start..]) == Trimmed(filename)
    {
      assert filename[start..][1..] == filename[start + 1..];
      start := start + 1;
    }
    var name := filename[start..];
    assert name == Trimmed(filename);
    if |name| == 0 {
      return null;
    }
    var i := FindFile(dir.files, name);
    if i < |dir.files| {
      return null;
    }
    file := CreateFile(dir, name, [NUL], 1);
  }

  /** Removes the first file of this name, shifting the later ones left; none other is touched, and
      where names differ none of this name is left. */
  method DeleteFile(dir: Dir, name: string)
    requires NUL !in name && forall f | f in dir.files :: NUL !in f.name
    modifies dir`files
    ensures var i := old(IndexOfFile(dir.files, name));
      dir.files == if i == |old(dir.files)| then old(dir.files) else old(dir.files)[..i] + old(dir.files)[i + 1..]
    ensures old(NamesDiffer(dir.files)) ==> NamesDiffer(dir.files) && IndexOfFile(dir.files, name) == |dir.files|
  {
    hide Moved, IndexOfFile, NamesDiffer;
    var i := FindFile(dir.files, name);
    var count := |dir.files|;
    if i == count {
      return;
    }
    var was := dir.files;
    var shifted := new File[count](k requires 0 <= k < count => was[k]);
    assert shifted[..] == was;
    if i < count - 1 {
      MemMove(shifted, i, i + 1, count - i - 1);
    }
    ShiftedLeft(was, i);
    dir.files := shifted[..count - 1];
    if NamesDiffer(was) {
      OneDeleted(was, name);
    }
  }

  lemma ShiftedLeft(files: seq<File>, i: nat)
    requires i < |files|
    ensures var n := |files| - 1;
      (if i < n then Moved(files, i, i + 1, n - i) else files)[..n] == files[..i] + files[i + 1..]
  {
  }

  lemma OneDeleted(files: seq<File>, name: string)
    requires IndexOfFile(files, name) < |files| && NamesDiffer(files)
    ensures var i := IndexOfFile(files, name);
      var rest := files[..i] + files[i + 1..];
      NamesDiffer(rest) && IndexOfFile(rest, name) == |rest|
  {
    var i := IndexOfFile(files, name);
    var rest := files[..i] + files[i + 1..];
    forall k | 0 <= k < |rest|
      ensures rest[k] == files[if k < i then k else k + 1] && rest[k].name != name
    {
    }
  }
}
