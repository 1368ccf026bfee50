/** The descriptor table and the files' buffers in memory. */
module FdTable {
  import opened CStrings
  import opened Directories
  import HeapOperations
  import opened FileDescriptors
  import Commands

  class FdSystem {
    const table: array<Slot>
    var fdCount: int
    ghost var files: set<File>

    /** Sizes fit buffers, and no two files share one. */
    ghost predicate FilesApart()
      reads this`files, files
    {
      && (forall f | f in files :: f.size <= f.data.Length)
      && (forall f, g | f in files && g in files && f != g :: f.data != g.data)
    }

    ghost predicate Valid()
      reads this, table, files, set f | f in files :: f.data
    {
      table.Length == MAX_FDS && FilesApart() && InBounds(State()) && fdCount == CountOpen(table[..])
    }

    /** The byte sequences that the buffers hold. */
    ghost function Contents(): map<File, seq<char>>
      requires FilesApart()
      reads this`files, files, set f | f in files :: f.data
    {
      map f | f in files :: f.data[..f.size]
    }

    ghost function State(): Spec
      requires FilesApart()
      reads this`files, table, files, set f | f in files :: f.data
    {
      Spec(table[..], Contents())
    }

    constructor (ghost files: set<File>)
      requires forall f | f in files :: f.size <= f.data.Length
      requires forall f, g | f in files && g in files && f != g :: f.data != g.data
      ensures Valid() && fresh(table) && this.files == files && State().slots == seq(MAX_FDS, _ => Closed)
    {
      table := new Slot[MAX_FDS](_ => Closed);
      fdCount := 0;
      this.files := files;
      new;
      NoneOpen(table[..]);
    }

    /** A file that has been created, with a buffer of its own, is one of the files from then on. */
    ghost method Adopt(file: File)
      requires Valid() && file !in files && file.size <= file.data.Length
      requires forall f | f in files :: f.data != file.data
      modifies this`files
      ensures Valid() && files == old(files) + {file}
      ensures State() == Step(old(State()), FileDescriptors.Create(file, file.data[..file.size]))
    {
      hide CountOpen, InBounds;
      StepInBounds(State(), FileDescriptors.Create(file, file.data[..file.size]));
      ghost var s := State();
      files := files + {file};
      assert Contents() == s.contents[file := file.data[..file.size]];
    }

    /** `ramfs_create_file` beside the descriptor table: the table can go on being used with the new
        file in the tree. */
    method CreateFile(dir: Dir, name: string, data: seq<char>, size: nat, ghost root: Dir, ghost all: set<Dir>)
      returns (file: File?)
      requires Valid() && Tree(root, all) && dir in all && FilesOk(all, files)
      requires NUL !in name && size <= |data|
      modifies this`files, dir`files
      ensures Valid() && Tree(root, all) && FilesOk(all, files)
      ensures file != null <==> Commands.FileFits(name, size, |old(dir.files)|)
      ensures file == null ==> State() == old(State()) && dir.files == old(dir.files)
      ensures file != null ==>
        && fresh(file) && file.name == name && dir.files == old(dir.files) + [file]
        && State() == Step(old(State()), FileDescriptors.Create(file, data[..size]))
    {
      hide CountOpen, InBounds, FilesApart, Contents, Tree, Step;
      ghost var m := Commands.ShapeOf(all);
      Commands.ShapeIsTree(root, all);
      file := Commands.CreateFile(dir, name, data, size);
      assert Commands.ShapeOf(all) == m;
      Commands.ShapeIsTree(root, all);
      if file != null {
        Adopt(file);
      }
    }

    /** `ramfs_mkdir` beside the descriptor table. */
    method MkDir(dir: Dir, dirname: string, ghost root: Dir, ghost all: set<Dir>) returns (newDir: Dir?)
      requires Valid() && Tree(root, all) && dir in all && FilesOk(all, files)
      requires NUL !in dirname && HeapOperations.Allocatable(|dirname| + 1)
      modifies dir`subdirs
      ensures Valid() && State() == old(State())
      ensures newDir != null <==>
        && old(IndexNamed(dir.subdirs, dirname)) == |old(dir.subdirs)|
        && HeapOperations.Allocatable((|old(dir.subdirs)| + 1) * POINTER_SIZE)
      ensures newDir == null ==> Tree(root, all) && FilesOk(all, files) && dir.subdirs == old(dir.subdirs)
      ensures newDir != null ==>
        && fresh(newDir) && newDir.name == dirname && dir.subdirs == old(dir.subdirs) + [newDir]
        && Tree(root, all + {newDir}) && FilesOk(all + {newDir}, files)
    {
      hide CountOpen, InBounds, FilesApart, Contents, Tree, GoodNames, IndexNamed;
      newDir := Commands.MkDir(dir, dirname, root, all);
    }

    /** `ramfs_touch` beside the descriptor table. */
    method Touch(dir: Dir, filename: string, ghost root: Dir, ghost all: set<Dir>) returns (file: File?)
      requires Valid() && Tree(root, all) && dir in all && FilesOk(all, files) && NUL !in filename
      modifies this`files, dir`files
      ensures Valid() && Tree(root, all) && FilesOk(all, files)
      ensures file != null <==>
        && Commands.Trimmed(filename) != []
        && old(Commands.IndexOfFile(dir.files, Commands.Trimmed(filename))) == |old(dir.files)|
        && Commands.FileFits(Commands.Trimmed(filename), 1, |old(dir.files)|)
      ensures file == null ==> State() == old(State()) && dir.files == old(dir.files)
      ensures file != null ==>
        && fresh(file) && file.name == Commands.Trimmed(filename) && dir.files == old(dir.files) + [file]
        && State() == Step(old(State()), FileDescriptors.Create(file, [NUL]))
    {
      hide CountOpen, InBounds, FilesApart, Contents, Tree, Step, Commands.IndexOfFile, Commands.NamesDiffer;
      ghost var m := Commands.ShapeOf(all);
      Commands.ShapeIsTree(root, all);
      file := Commands.Touch(dir, filename);
      assert Commands.ShapeOf(all) == m;
      Commands.ShapeIsTree(root, all);
      if file != null {
        Adopt(file);
      }
    }

    /** A file that no descriptor is open on can be given up. */
    ghost method Disown(file: File)
      requires Valid() && file in files && !OpenOn(State(), file)
      modifies this`files
      ensures Valid() && files == old(files) - {file}
      ensures State() == Step(old(State()), FileDescriptors.Delete(file))
    {
      hide CountOpen, InBounds, OpenOn;
      ghost var s := State();
      StepInBounds(s, FileDescriptors.Delete(file));
      files := files - {file};
      assert Contents() == s.contents - {file};
    }

    /** `ramfs_delete_file` beside the descriptor table, of a file that is not open and is listed only
        where it is deleted. */
    method DeleteFile(dir: Dir, name: string, ghost root: Dir, ghost all: set<Dir>)
      requires Valid() && Tree(root, all) && dir in all && FilesOk(all, files) && NUL !in name
      requires var i := Commands.IndexOfFile(dir.files, name);
        i < |dir.files| ==> !OpenOn(State(), dir.files[i]) && ListedOnce(all, dir, i)
      modifies this`files, dir`files
      ensures Valid() && Tree(root, all) && FilesOk(all, files)
      ensures var i, was := old(Commands.IndexOfFile(dir.files, name)), old(dir.files);
        if i == |was| then State() == old(State()) && dir.files == was
        else State() == Step(old(State()), FileDescriptors.Delete(was[i])) && dir.files == was[..i] + was[i + 1..]
    {
      hide CountOpen, InBounds, FilesApart, Contents, Tree, Step, Commands.IndexOfFile, Commands.NamesDiffer, OpenOn;
      ghost var i, was, m := Commands.IndexOfFile(dir.files, name), dir.files, Commands.ShapeOf(all);
      Commands.ShapeIsTree(root, all);
      Commands.DeleteFile(dir, name);
      assert Commands.ShapeOf(all) == m;
      Commands.ShapeIsTree(root, all);
      if i < |was| {
        assert was[i] in was;
        Disown(was[i]);
      }
    }

    /** `ramfs_open`: splits the path at its first slash. */
    method Open(root: Dir, path: string, flags: int, tokenizer: Tokenizer, ghost all: set<Dir>) returns (fd: int)
      requires Valid() && Tree(root, all) && NUL !in path && FilesOk(all, files)
      modifies this`fdCount, table, tokenizer
      ensures Valid()
      ensures var file := Located(root, all, files, path);
        (State(), fd) ==
          if path == [] then (old(State()), -1)
          else if Special(path) != -1 then (old(State()), Special(path))
          else if file == null then (old(State()), -1)
          else OpenSpec(old(State()), file, flags)
    {
      hide Tree, FilesOk, InBounds, CountOpen, Special, Located, FirstClosed;
      if path == [] {
        return -1;
      }
      fd := SpecialFile(path);
      if fd != -1 {
        return;
      }
      var file := Locate(root, path, tokenizer, all);
      if file == null {
        return -1;
      }
      fd := OpenEntry(file, flags);
    }

    /** The last part of `ramfs_open`: the first closed slot gets a cursor at the start of the file. */
    method OpenEntry(file: File, flags: int) returns (fd: int)
      requires Valid() && file in files
      modifies this`fdCount, table
      ensures Valid() && (State(), fd) == OpenSpec(old(State()), file, flags)
    {
      hide InBounds, CountOpen, FirstClosed;
      ghost var s := State();
      BoundsOf(s);
      fd := FindClosed();
      if fd == MAX_FDS {
        return -1;
      }
      OpenedOne(s, file, flags);
      table[fd] := Opened(file, 0, flags);
      fdCount := fdCount + 1;
      assert State() == OpenSpec(s, file, flags).0;
    }

    /** The names that stand for the standard descriptors. */
    method SpecialFile(path: string) returns (fd: int)
      requires NUL !in path
      ensures fd == Special(path)
    {
      var c := StrCmp(path, "/dev/stdin");
      if c == 0 {
        return 0;
      }
      c := StrCmp(path, "/dev/stdout");
      if c == 0 {
        return 1;
      }
      c := StrCmp(path, "/dev/stderr");
      if c == 0 {
        return 2;
      }
      return -1;
    }

    /** Finds the file that a path names. */
    method Locate(root: Dir, path: string, tokenizer: Tokenizer, ghost all: set<Dir>) returns (file: File?)
      requires Tree(root, all) && NUL !in path && FilesOk(all, files)
      modifies tokenizer
      ensures file == Located(root, all, files, path) && (file != null ==> file in files)
    {
      hide Tree, Commands.IndexOfFile, Tokens, Walk;
      if !HeapOperations.Allocatable(|path| + 1) {
        return null;
      }
      RootInTree(root, all);
      var slash := StrChr(path, '/');
      var dir: Dir? := root;
      var filename := path;
      if slash != -1 {
        SlashIs(path, slash);
        filename := path[slash + 1..];
        if slash > 0 {
          dir := FindDir(root, path[..slash], tokenizer, all);
          if dir == null {
            return null;
          }
          FoundInTree(root, all, path[..slash]);
        }
      } else {
        NoSlash(path);
      }
      var i := Commands.FindFile(dir.files, filename);
      file := if i == |dir.files| then null else dir.files[i];
    }

    method FindClosed() returns (fd: int)
      requires table.Length == MAX_FDS
      ensures fd == FirstClosed(table[..])
    {
      fd := 0;
      while fd < MAX_FDS && table[fd] != Closed
        invariant 0 <= fd <= MAX_FDS && FirstClosed(table[..]) == fd + FirstClosed(table[..][fd..])
      {
        assert table[..][fd..][1..] == table[..][fd + 1..];
        fd := fd + 1;
      }
    }

    /** Copies what is left of the file, at most `count` bytes, and moves the cursor past it. */
    method Read(fd: int, buf: array<char>, count: nat) returns (n: int)
      requires Valid() && count <= buf.Length && forall f | f in files :: f.data != buf
      modifies table, buf
      ensures Valid()
      ensures var r := ReadSpec(old(State()), fd, count);
        State() == r.0 && n == r.1 && buf[..] == r.2 + old(buf[..])[|r.2|..]
    {
      hide CountOpen, InBounds, FilesApart, Contents, ReadSpec;
      ghost var s := State();
      BoundsOf(s);
      NoRead(s, fd, count);
      if fd < 0 || fd >= MAX_FDS || table[fd] == Closed {
        return -1;
      }
      if fd == STDIN_FILENO {
        return -1;
      }
      var e := table[fd];
      if !Usable(e.flags) {
        return -1;
      }
      ReadFacts(s, fd, count);
      ContentsAt(e.file);
      var available := e.file.size - e.position;
      n := if count > available then available else count;
      ghost var got := s.contents[e.file][e.position..e.position + n];
      BufferApart(e.file, buf);
      assert got == e.file.data[e.position..e.position + n];
      MemCpy(buf, 0, e.file.data[e.position..e.position + n]);
      assert old(buf[..])[n..] == old(buf[n..]);
      assert buf[..] == got + old(buf[..])[|got|..];
      table[fd] := e.(position := e.position + n);
      assert State().slots == s.slots[fd := e.(position := e.position + n)];
    }

    lemma ContentsAt(file: File)
      requires FilesApart() && file in Contents()
      ensures file in files && file.size <= file.data.Length && Contents()[file] == file.data[..file.size]
    {
    }

    lemma BufferApart(file: File, buf: array<char>)
      requires file in files && forall f | f in files :: f.data != buf
      ensures file.data != buf
    {
    }

    /** Gives a file a longer buffer that begins with what it held. */
    method GrowFile(file: File, newSize: nat)
      requires file.size <= file.data.Length && file.size < newSize
      modifies file`data, file`size
      ensures fresh(file.data) && file.size == newSize == file.data.Length
      ensures file.data[..old(file.size)] == old(file.data[..file.size])
    {
      var newData := new char[newSize];
      MemCpy(newData, 0, file.data[..file.size]);
      file.data := newData;
      file.size := newSize;
    }

    /** The copies of a write: into a longer buffer where the file must grow, then the new bytes. */
    method WriteBytes(file: File, at: nat, buf: array<char>, count: nat)
      requires FilesApart() && file in files && at <= file.size && count <= buf.Length
      requires forall f | f in files :: f.data != buf
      modifies file`data, file`size, file.data
      ensures FilesApart()
      ensures Contents() == old(Contents())[file := Splice(old(file.data[..file.size]), at, old(buf[..count]))]
      ensures file.data == old(file.data) || fresh(file.data)
    {
      hide Splice;
      ghost var c, d := file.data[..file.size], buf[..count];
      if at + count > file.size {
        GrowFile(file, at + count);
      }
      ghost var grown := file.data[..];
      assert grown[..|c|] == c;
      MemCpy(file.data, at, buf[..count]);
      SpliceIs(c, grown, file.data[..], at, d, file.size);
      assert file.data[..][..file.size] == file.data[..file.size];
    }

    /** Writes at the cursor, or at the end under O_APPEND, growing the file where needed. */
    method Write(fd: int, buf: array<char>, count: nat) returns (n: int)
      requires Valid() && count <= buf.Length && forall f | f in files :: f.data != buf
      modifies table, files, set f | f in files :: f.data
      ensures Valid()
      ensures (State(), n) == WriteSpec(old(State()), fd, old(buf[..count]))
    {
      hide CountOpen, InBounds, Splice, FilesApart, Contents, WriteSpec;
      ghost var s, d := State(), buf[..count];
      BoundsOf(s);
      NoWrite(s, fd, d);
      if fd < 0 || fd >= MAX_FDS || table[fd] == Closed {
        return -1;
      }
      if fd == STDOUT_FILENO || fd == STDERR_FILENO {
        return count;
      }
      var e := table[fd];
      if !Usable(e.flags) {
        return -1;
      }
      WriteFacts(s, fd, d);
      ContentsAt(e.file);
      var at := if Appends(e.flags) then e.file.size else e.position;
      table[fd] := e.(position := at);
      assert table[..] == s.slots[fd := e.(position := at)];
      if at + count > e.file.size && !HeapOperations.Allocatable(at + count) {
        return -1;
      }
      WriteBytes(e.file, at, buf, count);
      table[fd] := e.(position := at + count);
      assert table[..] == s.slots[fd := e.(position := at + count)];
      return count;
    }

    /** Moves a cursor, also past the end of its file; every cursor is then still inside its file
        exactly when the seek was legal. */
    method Seek(fd: int, offset: int, origin: int) returns (position: int)
      requires Valid()
      modifies table
      ensures FilesApart() && (State(), position) == SeekSpec(old(State()), fd, offset, origin)
      ensures Valid() <==> old(Legal(State(), FileDescriptors.Seek(fd, offset, origin)))
    {
      hide CountOpen, InBounds, FilesApart, Contents;
      ghost var s := State();
      BoundsOf(s);
      if fd < 0 || fd >= MAX_FDS || table[fd] == Closed {
        return -1;
      }
      SeekFacts(s, fd, offset, origin);
      hide Legal;
      ContentsAt(table[fd].file);
      var e := table[fd];
      if origin == SEEK_SET {
        position := offset;
      } else if origin == SEEK_CUR {
        position := e.position + offset;
      } else if origin == SEEK_END {
        position := e.file.size + offset;
      } else {
        return -1;
      }
      if position < 0 {
        return -1;
      }
      table[fd] := e.(position := position);
      assert State() == SeekSpec(s, fd, offset, origin).0;
    }

    method Close(fd: int) returns (ret: int)
      requires Valid()
      modifies this`fdCount, table
      ensures Valid() && (State(), ret) == CloseSpec(old(State()), fd)
    {
      hide CountOpen, InBounds, FilesApart, Contents;
      ghost var s := State();
      BoundsOf(s);
      if fd < 0 || fd >= MAX_FDS || table[fd] == Closed {
        return -1;
      }
      CloseFacts(s, fd);
      table[fd] := Closed;
      fdCount := fdCount - 1;
      assert State() == CloseSpec(s, fd).0;
      return 0;
    }
  }

  /** The two copies of a write amount to a splice of what the file held. */
  lemma SpliceIs(c: seq<char>, grown: seq<char>, t: seq<char>, at: nat, d: seq<char>, size: nat)
    requires at <= |c| && size == (if at + |d| > |c| then at + |d| else |c|) && size <= |grown|
    requires grown[..|c|] == c && t == grown[..at] + d + grown[at + |d|..]
    ensures |t| >= size && t[..size] == Splice(c, at, d)
  {
    assert grown[..at] == c[..at];
    if at + |d| < |c| {
      assert grown[at + |d|..][..|c| - (at + |d|)] == c[at + |d|..];
    }
  }

  lemma NoWrite(s: Spec, fd: int, d: seq<char>)
    requires InBounds(s)
    ensures !IsOpen(s, fd) ==> WriteSpec(s, fd, d) == (s, -1)
    ensures IsOpen(s, fd) && (fd == STDOUT_FILENO || fd == STDERR_FILENO) ==> WriteSpec(s, fd, d) == (s, |d|)
    ensures IsOpen(s, fd) && fd != STDOUT_FILENO && fd != STDERR_FILENO && !Usable(s.slots[fd].flags) ==>
      WriteSpec(s, fd, d) == (s, -1)
  {
  }

  lemma WriteFacts(s: Spec, fd: int, d: seq<char>)
    requires InBounds(s) && IsOpen(s, fd)
    requires fd != STDOUT_FILENO && fd != STDERR_FILENO && Usable(s.slots[fd].flags)
    ensures s.slots[fd].file in s.contents && WriteAt(s, fd) <= |s.contents[s.slots[fd].file]|
    ensures InBounds(WriteSpec(s, fd, d).0)
    ensures CountOpen(WriteSpec(s, fd, d).0.slots) == CountOpen(s.slots)
    ensures var e := s.slots[fd];
      var c, at := s.contents[e.file], WriteAt(s, fd);
      WriteSpec(s, fd, d) ==
        if at + |d| > |c| && !HeapOperations.Allocatable(at + |d|)
        then (s.(slots := s.slots[fd := e.(position := at)]), -1)
        else (Spec(s.slots[fd := e.(position := at + |d|)], s.contents[e.file := Splice(c, at, d)]), |d|)
  {
    StepInBounds(s, FileDescriptors.Write(fd, d));
    var e := s.slots[fd];
    CountUpdate(s.slots, fd, e.(position := WriteAt(s, fd)));
    CountUpdate(s.slots, fd, e.(position := WriteAt(s, fd) + |d|));
  }

  lemma SeekFacts(s: Spec, fd: int, offset: int, origin: int)
    requires InBounds(s) && IsOpen(s, fd)
    ensures s.slots[fd].file in s.contents
    ensures InBounds(SeekSpec(s, fd, offset, origin).0) <==> Legal(s, FileDescriptors.Seek(fd, offset, origin))
    ensures CountOpen(SeekSpec(s, fd, offset, origin).0.slots) == CountOpen(s.slots)
  {
    SeekStaysIff(s, fd, offset, origin);
    var p := SeekTarget(s, fd, offset, origin);
    if p >= 0 {
      CountUpdate(s.slots, fd, s.slots[fd].(position := p));
    }
  }

  lemma CloseFacts(s: Spec, fd: int)
    requires InBounds(s) && IsOpen(s, fd)
    ensures InBounds(CloseSpec(s, fd).0)
    ensures CountOpen(CloseSpec(s, fd).0.slots) == CountOpen(s.slots) - 1
  {
    CountUpdate(s.slots, fd, Closed);
  }

  lemma NoRead(s: Spec, fd: int, count: nat)
    requires InBounds(s)
    ensures !IsOpen(s, fd) || fd == STDIN_FILENO || !Usable(s.slots[fd].flags) ==> ReadSpec(s, fd, count) == (s, -1, [])
  {
  }

  lemma ReadFacts(s: Spec, fd: int, count: nat)
    requires InBounds(s) && IsOpen(s, fd) && fd != STDIN_FILENO && Usable(s.slots[fd].flags)
    ensures s.slots[fd].file in s.contents && s.slots[fd].position <= |s.contents[s.slots[fd].file]|
    ensures InBounds(ReadSpec(s, fd, count).0)
    ensures CountOpen(ReadSpec(s, fd, count).0.slots) == CountOpen(s.slots)
    ensures var e := s.slots[fd];
      var c := s.contents[e.file];
      var n := if count > |c| - e.position then |c| - e.position else count;
      ReadSpec(s, fd, count)
        == (s.(slots := s.slots[fd := e.(position := e.position + n)]), n, c[e.position..e.position + n])
  {
    StepInBounds(s, FileDescriptors.Read(fd, count));
    var e := s.slots[fd];
    var c := s.contents[e.file];
    var n := if count > |c| - e.position then |c| - e.position else count;
    CountUpdate(s.slots, fd, e.(position := e.position + n));
  }

  function Special(path: string): int {
    if path == "/dev/stdin" then STDIN_FILENO
    else if path == "/dev/stdout" then STDOUT_FILENO
    else if path == "/dev/stderr" then STDERR_FILENO
    else -1
  }

  /** The three names that stand for descriptors, and no others. */
  lemma SpecialIs(path: string)
    ensures Special("/dev/stdin") == 0 && Special("/dev/stdout") == 1 && Special("/dev/stderr") == 2
    ensures Special(path) == -1 <==> path != "/dev/stdin" && path != "/dev/stdout" && path != "/dev/stderr"
  {
    assert "/dev/stdin"[8] == 'i' && "/dev/stdout"[8] == 'o' && "/dev/stderr"[8] == 'e';
  }

  /** Every file listed in a directory is one of `files` and has a proper name. */
  ghost predicate FilesOk(all: set<Dir>, files: set<File>)
    reads all, files
  {
    forall d, f | d in all && f in d.files :: f in files && NUL !in f.name
  }

  /** Nowhere else in the tree, nor again in `dir`, is the file at index `i` listed. */
  ghost predicate ListedOnce(all: set<Dir>, dir: Dir, i: nat)
    requires i < |dir.files|
    reads all, dir
  {
    forall d, j | d in all && 0 <= j < |d.files| && d.files[j] == dir.files[i] :: d == dir && j == i
  }

  /** The file that `ramfs_open` finds: the path is cut at its FIRST slash into a directory and a
      file name. */
  ghost function Located(root: Dir, all: set<Dir>, files: set<File>, path: string): File?
    requires Tree(root, all) && FilesOk(all, files)
    reads all, files
  {
    if !HeapOperations.Allocatable(|path| + 1) then null else
      var k := FirstSlash(path);
      var dir := if k == 0 || k == |path| then root else FindSpec(root, all, path[..k]);
      var filename := if k == |path| then path else path[k + 1..];
      if dir == null then null else
        FoundInTree(root, all, path[..k]);
        RootInTree(root, all);
        var i := Commands.IndexOfFile(dir.files, filename);
        if i == |dir.files| then null else dir.files[i]
  }

  /** The index of the first slash, or the length. */
  function FirstSlash(path: string): (k: nat)
    ensures k <= |path| && '/' !in path[..k] && (k < |path| ==> path[k] == '/')
  {
    if path == [] || path[0] == '/' then 0 else
      assert path[1..][..FirstSlash(path[1..])] == path[1..1 + FirstSlash(path[1..])];
      FirstSlash(path[1..]) + 1
  }

  lemma {:induction false} SlashIs(path: string, k: int)
    requires 0 <= k < |path| && path[k] == '/' && '/' !in path[..k]
    ensures FirstSlash(path) == k
  {
    if k > 0 {
      assert path[0] == path[..k][0];
      assert path[1..][..k - 1] == path[..k][1..];
      SlashIs(path[1..], k - 1);
    }
  }

  lemma {:induction false} NoSlash(path: string)
    requires '/' !in path
    ensures FirstSlash(path) == |path|
  {
    if path != [] {
      NoSlash(path[1..]);
    }
  }

  lemma FoundInTree(root: Dir, all: set<Dir>, path: string)
    requires Tree(root, all)
    ensures FindSpec(root, all, path) != null ==> FindSpec(root, all, path) in all
  {
  }

  // ----- counting -----

  lemma {:induction false} CountUpdate(slots: seq<Slot>, i: nat, e: Slot)
    requires i < |slots|
    ensures CountOpen(slots[i := e]) ==
      CountOpen(slots) - (if slots[i].Opened? then 1 else 0) + if e.Opened? then 1 else 0
  {
    var k := |slots| - 1;
    if i == k {
      assert slots[i := e][..k] == slots[..k];
    } else {
      assert slots[i := e][..k] == slots[..k][i := e];
      CountUpdate(slots[..k], i, e);
    }
  }

  lemma {:induction false} NoneOpen(slots: seq<Slot>)
    requires forall i | 0 <= i < |slots| :: slots[i].Closed?
    ensures CountOpen(slots) == 0
  {
    if slots != [] {
      NoneOpen(slots[..|slots| - 1]);
    }
  }

  lemma OpenedOne(s: Spec, file: File, flags: int)
    requires InBounds(s) && FirstClosed(s.slots) < |s.slots| && file in s.contents
    ensures InBounds(OpenSpec(s, file, flags).0)
    ensures CountOpen(OpenSpec(s, file, flags).0.slots) == CountOpen(s.slots) + 1
  {
    CountUpdate(s.slots, FirstClosed(s.slots), Opened(file, 0, flags));
  }

  lemma BoundsOf(s: Spec)
    requires InBounds(s)
    ensures |s.slots| == MAX_FDS
  {
  }
}
