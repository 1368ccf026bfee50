/** File descriptors: cursors into files whose growable buffers several descriptors may share. */
module FileDescriptors {
  import opened Directories
  import HeapOperations

  const MAX_FDS: nat := 64

  const STDIN_FILENO: int := 0
  const STDOUT_FILENO: int := 1
  const STDERR_FILENO: int := 2

  const SEEK_SET: int := 0
  const SEEK_CUR: int := 1
  const SEEK_END: int := 2

  // Flag words: bit 0 or bit 1 lets a descriptor read and write, bit 2 is O_APPEND.

  predicate Usable(flags: int) {
    flags % 4 != 0
  }

  predicate Appends(flags: int) {
    flags / 4 % 2 == 1
  }

  /** An entry of the descriptor table. */
  datatype Slot = Closed | Opened(file: File, position: nat, flags: int)

  // ----- byte sequences with cursors -----

  /** What the descriptors stand for: byte sequences, and cursors into them. */
  datatype Spec = Spec(slots: seq<Slot>, contents: map<File, seq<char>>)

  /** Every cursor is at most at the end of its file. */
  ghost predicate InBounds(s: Spec) {
    && |s.slots| == MAX_FDS
    && forall i | 0 <= i < |s.slots| && s.slots[i].Opened? ::
         s.slots[i].file in s.contents && s.slots[i].position <= |s.contents[s.slots[i].file]|
  }

  predicate IsOpen(s: Spec, fd: int) {
    0 <= fd < |s.slots| && s.slots[fd].Opened?
  }

  /** Overwrites from `at` on, growing the sequence where needed. */
  function Splice(s: seq<char>, at: nat, d: seq<char>): seq<char>
    requires at <= |s|
  {
    s[..at] + d + if at + |d| < |s| then s[at + |d|..] else []
  }

  /** Where a write begins. */
  function WriteAt(s: Spec, fd: int): nat
    requires IsOpen(s, fd) && s.slots[fd].file in s.contents
  {
    if Appends(s.slots[fd].flags) then |s.contents[s.slots[fd].file]| else s.slots[fd].position
  }

  ghost function ReadSpec(s: Spec, fd: int, count: nat): (r: (Spec, int, seq<char>))
    requires InBounds(s)
  {
    if !IsOpen(s, fd) || fd == STDIN_FILENO || !Usable(s.slots[fd].flags) then (s, -1, []) else
      var e := s.slots[fd];
      var c := s.contents[e.file];
      var n := if count > |c| - e.position then |c| - e.position else count;
      (s.(slots := s.slots[fd := e.(position := e.position + n)]), n, c[e.position..e.position + n])
  }

  ghost function WriteSpec(s: Spec, fd: int, d: seq<char>): (r: (Spec, int))
    requires InBounds(s)
  {
    if !IsOpen(s, fd) then (s, -1)
    else if fd == STDOUT_FILENO || fd == STDERR_FILENO then (s, |d|)
    else if !Usable(s.slots[fd].flags) then (s, -1) else
      var e := s.slots[fd];
      var c := s.contents[e.file];
      var at := WriteAt(s, fd);
      if at + |d| > |c| && !HeapOperations.Allocatable(at + |d|)
      then (s.(slots := s.slots[fd := e.(position := at)]), -1)
      else (Spec(s.slots[fd := e.(position := at + |d|)], s.contents[e.file := Splice(c, at, d)]), |d|)
  }

  /** Where a seek would go, or -1. */
  function SeekTarget(s: Spec, fd: int, offset: int, origin: int): int
    requires IsOpen(s, fd) && s.slots[fd].file in s.contents
  {
    if origin == SEEK_SET then offset
    else if origin == SEEK_CUR then s.slots[fd].position + offset
    else if origin == SEEK_END then |s.contents[s.slots[fd].file]| + offset
    else -1
  }

  ghost function SeekSpec(s: Spec, fd: int, offset: int, origin: int): (r: (Spec, int))
    requires InBounds(s)
  {
    if !IsOpen(s, fd) || SeekTarget(s, fd, offset, origin) < 0 then (s, -1) else
      var p := SeekTarget(s, fd, offset, origin);
      (s.(slots := s.slots[fd := s.slots[fd].(position := p)]), p)
  }

  function CloseSpec(s: Spec, fd: int): (r: (Spec, int)) {
    if !IsOpen(s, fd) then (s, -1) else (s.(slots := s.slots[fd := Closed]), 0)
  }

  /** The first closed slot, or the length of the table. */
  function FirstClosed(slots: seq<Slot>): (r: nat)
    ensures r <= |slots| && (r < |slots| ==> slots[r].Closed?)
    ensures forall i | 0 <= i < r :: slots[i].Opened?
  {
    if slots == [] || slots[0].Closed? then 0 else FirstClosed(slots[1..]) + 1
  }

  function OpenSpec(s: Spec, file: File, flags: int): (r: (Spec, int)) {
    var fd: int := FirstClosed(s.slots);
    if fd == |s.slots| then (s, -1) else (s.(slots := s.slots[fd := Opened(file, 0, flags)]), fd)
  }

  function CountOpen(slots: seq<Slot>): nat {
    if slots == [] then 0 else CountOpen(slots[..|slots| - 1]) + if slots[|slots| - 1].Opened? then 1 else 0
  }

  // ----- what each operation does -----

  /** The other descriptors and the other files are as they were. */
  ghost predicate OthersSame(s: Spec, t: Spec, fd: int, f: File) {
    && |t.slots| == |s.slots| && (forall i | 0 <= i < |s.slots| && i != fd :: t.slots[i] == s.slots[i])
    && t.contents.Keys == s.contents.Keys && (forall g | g in s.contents && g != f :: t.contents[g] == s.contents[g])
  }

  lemma InFile(s: Spec, fd: int)
    requires InBounds(s) && IsOpen(s, fd)
    ensures s.slots[fd].file in s.contents && s.slots[fd].position <= |s.contents[s.slots[fd].file]|
  {
  }

  /** Without O_APPEND (bit 2) a successful write replaces the bytes from the cursor on, past the end
      where it must, keeps all others, and leaves the cursor behind what it wrote. */
  lemma PlainWrite(s: Spec, fd: int, d: seq<char>)
    requires InBounds(s) && IsOpen(s, fd) && fd != 1 && fd != 2 && s.slots[fd].flags / 4 % 2 == 0
    requires WriteSpec(s, fd, d).1 != -1
    ensures var e, t := s.slots[fd], WriteSpec(s, fd, d).0;
      && WriteSpec(s, fd, d).1 == |d| && OthersSame(s, t, fd, e.file) && e.file in s.contents && e.file in t.contents
      && var was, now, p := s.contents[e.file], t.contents[e.file], e.position;
         && p <= |was| && |now| == (if p + |d| > |was| then p + |d| else |was|)
         && now[p..p + |d|] == d
         && (forall i | 0 <= i < |was| && !(p <= i < p + |d|) :: now[i] == was[i])
         && t.slots[fd] == Opened(e.file, p + |d|, e.flags)
  {
    InFile(s, fd);
    SpliceFacts(s.contents[s.slots[fd].file], s.slots[fd].position, d);
  }

  /** With O_APPEND it adds the bytes at the end, wherever the cursor was, and leaves it there. */
  lemma AppendWrite(s: Spec, fd: int, d: seq<char>)
    requires InBounds(s) && IsOpen(s, fd) && fd != 1 && fd != 2 && s.slots[fd].flags / 4 % 2 == 1
    requires WriteSpec(s, fd, d).1 != -1
    ensures var e, t := s.slots[fd], WriteSpec(s, fd, d).0;
      && WriteSpec(s, fd, d).1 == |d| && OthersSame(s, t, fd, e.file) && e.file in s.contents && e.file in t.contents
      && t.contents[e.file] == s.contents[e.file] + d
      && t.slots[fd] == Opened(e.file, |t.contents[e.file]|, e.flags)
  {
    InFile(s, fd);
    var c := s.contents[s.slots[fd].file];
    assert c[..|c|] == c;
  }

  /** A write to the terminal changes nothing and reports all its bytes. */
  lemma TerminalWrite(s: Spec, fd: int, d: seq<char>)
    requires InBounds(s) && IsOpen(s, fd) && (fd == 1 || fd == 2)
    ensures WriteSpec(s, fd, d) == (s, |d|)
  {
  }

  /** Bit 0 or bit 1 of the flags lets a descriptor but the first read: the bytes from the cursor on, as
      many as asked for or left, and the cursor moves past them; else nothing happens. */
  lemma ReadEffect(s: Spec, fd: int, count: nat)
    requires InBounds(s)
    ensures var r := ReadSpec(s, fd, count);
      if IsOpen(s, fd) && fd != 0 && (s.slots[fd].flags % 2 == 1 || s.slots[fd].flags / 2 % 2 == 1) then
        var e := s.slots[fd];
        && e.file in s.contents && e.position <= |s.contents[e.file]|
        && 0 <= r.1 == |r.2| && (r.1 == count || (r.1 < count && e.position + r.1 == |s.contents[e.file]|))
        && e.position + r.1 <= |s.contents[e.file]|
        && (forall i | 0 <= i < |r.2| :: r.2[i] == s.contents[e.file][e.position + i])
        && r.0.contents == s.contents && OthersSame(s, r.0, fd, e.file)
        && r.0.slots[fd] == Opened(e.file, e.position + r.1, e.flags)
      else r == (s, -1, [])
  {
    if IsOpen(s, fd) {
      InFile(s, fd);
    }
  }

  /** An open takes the first closed slot, for just that file and those flags, with the cursor at 0; only
      a table without closed slots refuses. */
  lemma OpenEffect(s: Spec, file: File, flags: int)
    ensures var r := OpenSpec(s, file, flags);
      if r.1 == -1 then r.0 == s && forall i | 0 <= i < |s.slots| :: s.slots[i].Opened?
      else
        && 0 <= r.1 < |s.slots| == |r.0.slots| && s.slots[r.1].Closed?
        && (forall i | 0 <= i < r.1 :: s.slots[i].Opened?)
        && r.0.slots[r.1] == Opened(file, 0, flags) && r.0.contents == s.contents
        && forall i | 0 <= i < |s.slots| && i != r.1 :: r.0.slots[i] == s.slots[i]
  {
  }

  /** So a descriptor just opened for reading reads its file from the beginning. */
  lemma OpenThenRead(s: Spec, file: File, flags: int, count: nat)
    requires InBounds(s) && file in s.contents && (flags % 2 == 1 || flags / 2 % 2 == 1)
    requires OpenSpec(s, file, flags).1 > 0
    ensures var r := OpenSpec(s, file, flags);
      var n := if count > |s.contents[file]| then |s.contents[file]| else count;
      && InBounds(r.0) && ReadSpec(r.0, r.1, count).1 == n && ReadSpec(r.0, r.1, count).2 == s.contents[file][..n]
  {
    OpenEffect(s, file, flags);
    var r := OpenSpec(s, file, flags);
    ReadEffect(r.0, r.1, count);
    hide ReadSpec, OpenSpec;
  }

  /** A seek goes to the offset from the start (0), the cursor (1) or the end (2); a target before the
      start, another origin and a closed slot give -1 and no change. */
  lemma SeekEffect(s: Spec, fd: int, offset: int, origin: int)
    requires InBounds(s)
    ensures var r := SeekSpec(s, fd, offset, origin);
      if r.1 == -1 then r.0 == s && (IsOpen(s, fd) && 0 <= origin <= 2 ==> InFileAt(s, fd, origin) + offset < 0)
      else
        && IsOpen(s, fd) && 0 <= origin <= 2 && 0 <= r.1 == InFileAt(s, fd, origin) + offset
        && r.0.contents == s.contents && OthersSame(s, r.0, fd, s.slots[fd].file)
        && r.0.slots[fd] == Opened(s.slots[fd].file, r.1, s.slots[fd].flags)
  {
    if IsOpen(s, fd) {
      InFile(s, fd);
    }
  }

  /** The places a seek counts from. */
  ghost function InFileAt(s: Spec, fd: int, origin: int): nat
    requires InBounds(s) && IsOpen(s, fd) && 0 <= origin <= 2
  {
    InFile(s, fd);
    [0, s.slots[fd].position, |s.contents[s.slots[fd].file]|][origin]
  }

  /** A close frees just the one slot and returns 0, or -1 when it is closed already. */
  lemma CloseEffect(s: Spec, fd: int)
    ensures var r := CloseSpec(s, fd);
      if IsOpen(s, fd) then
        && r.1 == 0 && r.0.contents == s.contents && |r.0.slots| == |s.slots| && r.0.slots[fd] == Closed
        && forall i | 0 <= i < |s.slots| && i != fd :: r.0.slots[i] == s.slots[i]
      else r == (s, -1)
  {
  }

  // ----- runs -----

  datatype Op = Create(file: File, bytes: seq<char>) | Open(file: File, flags: int)
              | Read(fd: int, count: nat) | Write(fd: int, d: seq<char>)
              | Seek(fd: int, offset: int, origin: int) | Close(fd: int) | Delete(file: File)

  ghost predicate OpenOn(s: Spec, file: File) {
    exists i :: 0 <= i < |s.slots| && s.slots[i].Opened? && s.slots[i].file == file
  }

  /** Files that are created are new, files that are opened exist, files that are deleted are not open,
      and seeks stay within the file. */
  ghost predicate Legal(s: Spec, op: Op)
    requires InBounds(s)
  {
    match op
    case Create(file, _) => file !in s.contents
    case Delete(file) => file in s.contents && !OpenOn(s, file)
    case Open(file, _) => file in s.contents
    case Seek(fd, offset, origin) =>
      IsOpen(s, fd) ==> SeekTarget(s, fd, offset, origin) <= |s.contents[s.slots[fd].file]|
    case _ => true
  }

  ghost function Step(s: Spec, op: Op): Spec
    requires InBounds(s)
  {
    match op
    case Create(file, bytes) => s.(contents := s.contents[file := bytes])
    case Delete(file) => s.(contents := s.contents - {file})
    case Open(file, flags) => OpenSpec(s, file, flags).0
    case Read(fd, count) => ReadSpec(s, fd, count).0
    case Write(fd, d) => WriteSpec(s, fd, d).0
    case Seek(fd, offset, origin) => SeekSpec(s, fd, offset, origin).0
    case Close(fd) => CloseSpec(s, fd).0
  }

  lemma SpliceFacts(s: seq<char>, at: nat, d: seq<char>)
    requires at <= |s|
    ensures var t := Splice(s, at, d);
      && |t| == (if at + |d| > |s| then at + |d| else |s|)
      && t[at..at + |d|] == d && t[..at] == s[..at] && t[at + |d|..] == if at + |d| < |s| then s[at + |d|..] else []
  {
  }

  lemma WriteInBounds(s: Spec, fd: int, d: seq<char>)
    requires InBounds(s) && IsOpen(s, fd)
    ensures var t := WriteSpec(s, fd, d).0;
      && InBounds(t) && t.contents.Keys == s.contents.Keys
      && forall f | f in s.contents :: |s.contents[f]| <= |t.contents[f]|
  {
    SpliceFacts(s.contents[s.slots[fd].file], WriteAt(s, fd), d);
    hide Splice;
  }

  /** Every operation keeps all cursors inside their files, and no file shrinks or disappears but one that
      is deleted. */
  lemma StepInBounds(s: Spec, op: Op)
    requires InBounds(s) && Legal(s, op)
    ensures InBounds(Step(s, op))
    ensures Step(s, op).contents.Keys ==
      s.contents.Keys - (if op.Delete? then {op.file} else {}) + if op.Create? then {op.file} else {}
    ensures forall f | f in s.contents && op != Delete(f) :: |s.contents[f]| <= |Step(s, op).contents[f]|
  {
    match op
    case Write(fd, d) =>
      if IsOpen(s, fd) {
        WriteInBounds(s, fd, d);
        hide WriteSpec;
      }
    case _ => hide Splice;
  }

  /** A seek keeps the cursors inside their files exactly when it goes nowhere past the end; nothing in
      the operation itself prevents that. */
  lemma SeekStaysIff(s: Spec, fd: int, offset: int, origin: int)
    requires InBounds(s)
    ensures InBounds(Step(s, Seek(fd, offset, origin))) <==> Legal(s, Seek(fd, offset, origin))
  {
    var t := Step(s, Seek(fd, offset, origin));
    if IsOpen(s, fd) && SeekTarget(s, fd, offset, origin) >= 0 {
      assert t.slots[fd].position == SeekTarget(s, fd, offset, origin);
    }
  }

  /** A descriptor open on an empty file, from which a seek goes past the end. */
  lemma SeekPastEnd(file: File)
    ensures var s := Spec(seq(MAX_FDS, _ => Closed)[3 := Opened(file, 0, 3)], map[file := []]);
      InBounds(s) && IsOpen(s, 3) && !Legal(s, Seek(3, 1, SEEK_SET)) && !InBounds(Step(s, Seek(3, 1, SEEK_SET)))
  {
    var s := Spec(seq(MAX_FDS, _ => Closed)[3 := Opened(file, 0, 3)], map[file := []]);
    assert InBounds(s) && s.slots[3] == Opened(file, 0, 3);
    SeekStaysIff(s, 3, 1, SEEK_SET);
  }

  ghost predicate LegalRun(s: Spec, ops: seq<Op>)
    requires InBounds(s)
    decreases |ops|
  {
    ops == [] || (Legal(s, ops[0]) && (StepInBounds(s, ops[0]); LegalRun(Step(s, ops[0]), ops[1..])))
  }

  ghost function Run(s: Spec, ops: seq<Op>): (t: Spec)
    requires InBounds(s) && LegalRun(s, ops)
    ensures InBounds(t)
    decreases |ops|
  {
    if ops == [] then s else (StepInBounds(s, ops[0]); Run(Step(s, ops[0]), ops[1..]))
  }

  /** The operation goes through this descriptor. */
  predicate Through(op: Op, fd: int) {
    match op
    case Create(_, _) => false
    case Delete(_) => false
    case Open(_, _) => false
    case Read(g, _) => g == fd
    case Write(g, _) => g == fd
    case Seek(g, _, _) => g == fd
    case Close(g) => g == fd
  }

  lemma OthersKeepCursor(s: Spec, op: Op, fd: int)
    requires InBounds(s) && Legal(s, op) && IsOpen(s, fd) && !Through(op, fd)
    ensures IsOpen(Step(s, op), fd) && Step(s, op).slots[fd] == s.slots[fd]
  {
  }

  /** Whatever is done through other descriptors, on the same file or not, a cursor stays where it is. */
  lemma {:induction false} CursorKept(s: Spec, ops: seq<Op>, fd: int)
    requires InBounds(s) && LegalRun(s, ops) && IsOpen(s, fd) && forall i | 0 <= i < |ops| :: !Through(ops[i], fd)
    ensures IsOpen(Run(s, ops), fd) && Run(s, ops).slots[fd] == s.slots[fd]
    decreases |ops|
  {
    hide InBounds, Step, Legal;
    if ops != [] {
      StepInBounds(s, ops[0]);
      OthersKeepCursor(s, ops[0], fd);
      CursorKept(Step(s, ops[0]), ops[1..], fd);
    }
  }

  // ----- what was written is read -----

  predicate IsTerminal(fd: int) {
    fd == STDOUT_FILENO || fd == STDERR_FILENO
  }

  /** The operation writes a byte of `f` between `lo` and `hi`. */
  ghost predicate Overwrites(s: Spec, op: Op, f: File, lo: nat, hi: nat)
    requires InBounds(s)
  {
    && op.Write? && IsOpen(s, op.fd) && !IsTerminal(op.fd) && s.slots[op.fd].file == f
    && WriteSpec(s, op.fd, op.d).1 != -1
    && op.d != [] && lo < hi && WriteAt(s, op.fd) < hi && lo < WriteAt(s, op.fd) + |op.d|
  }

  /** No operation of the run overwrites a byte of `f` between `lo` and `hi`, or deletes `f`. */
  ghost predicate Spares(s: Spec, ops: seq<Op>, f: File, lo: nat, hi: nat)
    requires InBounds(s) && LegalRun(s, ops)
    decreases |ops|
  {
    ops != [] ==>
      && !Overwrites(s, ops[0], f, lo, hi) && ops[0] != Delete(f)
      && (StepInBounds(s, ops[0]); Spares(Step(s, ops[0]), ops[1..], f, lo, hi))
  }

  lemma SpliceElsewhere(s: seq<char>, at: nat, d: seq<char>, lo: nat, hi: nat)
    requires at <= |s| && lo <= hi <= |s|
    requires !(d != [] && lo < hi && at < hi && lo < at + |d|)
    ensures |Splice(s, at, d)| >= hi && Splice(s, at, d)[lo..hi] == s[lo..hi]
  {
  }

  lemma StepSpares(s: Spec, op: Op, f: File, lo: nat, hi: nat)
    requires InBounds(s) && Legal(s, op) && f in s.contents && lo <= hi <= |s.contents[f]|
    requires !Overwrites(s, op, f, lo, hi) && op != Delete(f)
    ensures var t := Step(s, op);
      f in t.contents && hi <= |t.contents[f]| && t.contents[f][lo..hi] == s.contents[f][lo..hi]
  {
    hide Splice;
    if op.Write? && IsOpen(s, op.fd) {
      var e := s.slots[op.fd];
      if e.file == f && !IsTerminal(op.fd) && WriteSpec(s, op.fd, op.d).1 != -1 {
        SpliceElsewhere(s.contents[f], WriteAt(s, op.fd), op.d, lo, hi);
      }
    }
  }

  /** Bytes that no write of a run overlaps stay what they are. */
  lemma {:induction false} BytesKept(s: Spec, ops: seq<Op>, f: File, lo: nat, hi: nat)
    requires InBounds(s) && LegalRun(s, ops) && Spares(s, ops, f, lo, hi)
    requires f in s.contents && lo <= hi <= |s.contents[f]|
    ensures var t := Run(s, ops);
      f in t.contents && hi <= |t.contents[f]| && t.contents[f][lo..hi] == s.contents[f][lo..hi]
    decreases |ops|
  {
    hide InBounds, Step, Legal, Overwrites;
    if ops != [] {
      StepInBounds(s, ops[0]);
      StepSpares(s, ops[0], f, lo, hi);
      BytesKept(Step(s, ops[0]), ops[1..], f, lo, hi);
    }
  }

  ghost function AfterWrite(s: Spec, fd: int, d: seq<char>): (w: Spec)
    requires InBounds(s)
    ensures InBounds(w)
  {
    StepInBounds(s, Write(fd, d));
    WriteSpec(s, fd, d).0
  }

  /** What a write has put into a file is read back after any run that does not write over it: through
      any usable descriptor then open on the file, a seek to where the write began and a read of as
      many bytes return the data. */
  lemma WriteSeekRead(s: Spec, fd: int, d: seq<char>, ops: seq<Op>, g: int)
    requires InBounds(s) && IsOpen(s, fd) && !IsTerminal(fd) && WriteSpec(s, fd, d).1 == |d|
    requires LegalRun(AfterWrite(s, fd, d), ops)
    requires Spares(AfterWrite(s, fd, d), ops, s.slots[fd].file, WriteAt(s, fd), WriteAt(s, fd) + |d|)
    requires var t := Run(AfterWrite(s, fd, d), ops);
      IsOpen(t, g) && g != STDIN_FILENO && Usable(t.slots[g].flags) && t.slots[g].file == s.slots[fd].file
    ensures var at := WriteAt(s, fd);
      var k := SeekSpec(Run(AfterWrite(s, fd, d), ops), g, at, SEEK_SET).0;
      && InBounds(k) && ReadSpec(k, g, |d|).1 == |d| && ReadSpec(k, g, |d|).2 == d
  {
    var f, at, w := s.slots[fd].file, WriteAt(s, fd), AfterWrite(s, fd, d);
    WrittenBytes(s, fd, d);
    BytesKept(w, ops, f, at, at + |d|);
    hide Run, Spares, LegalRun, WriteSpec, Splice;
    SeekRead(Run(w, ops), g, at, d);
  }

  lemma WrittenBytes(s: Spec, fd: int, d: seq<char>)
    requires InBounds(s) && IsOpen(s, fd) && !IsTerminal(fd) && WriteSpec(s, fd, d).1 == |d|
    ensures var f, at, w := s.slots[fd].file, WriteAt(s, fd), WriteSpec(s, fd, d).0;
      f in w.contents && at + |d| <= |w.contents[f]| && w.contents[f][at..at + |d|] == d
  {
    SpliceFacts(s.contents[s.slots[fd].file], WriteAt(s, fd), d);
  }

  lemma SeekRead(s: Spec, g: int, at: nat, d: seq<char>)
    requires InBounds(s) && IsOpen(s, g) && g != STDIN_FILENO && Usable(s.slots[g].flags)
    requires s.slots[g].file in s.contents && at + |d| <= |s.contents[s.slots[g].file]|
    requires s.contents[s.slots[g].file][at..at + |d|] == d
    ensures var k := SeekSpec(s, g, at, SEEK_SET).0;
      && InBounds(k) && ReadSpec(k, g, |d|).1 == |d| && ReadSpec(k, g, |d|).2 == d
  {
  }

  /** A write fails only without a usable descriptor or when the longer buffer cannot be allocated,
      and then no file changes. */
  lemma FailedWrite(s: Spec, fd: int, d: seq<char>)
    requires InBounds(s)
    ensures WriteSpec(s, fd, d).1 == -1 ==>
      var t := WriteSpec(s, fd, d).0;
      && t.contents == s.contents && |t.slots| == |s.slots|
      && (forall i | 0 <= i < |s.slots| && i != fd :: t.slots[i] == s.slots[i])
      && (IsOpen(s, fd) ==> t.slots[fd] == s.slots[fd] || t.slots[fd] == s.slots[fd].(position := WriteAt(s, fd)))
    ensures WriteSpec(s, fd, d).1 == -1 <==>
      || !IsOpen(s, fd)
      || (fd != STDOUT_FILENO && fd != STDERR_FILENO
          && (!Usable(s.slots[fd].flags)
              || (WriteAt(s, fd) + |d| > |s.contents[s.slots[fd].file]|
                  && !HeapOperations.Allocatable(WriteAt(s, fd) + |d|))))
  {
  }

  /** Two descriptors on one file see each other's writes: after a write through one, a read through
      the other from its own cursor returns the spliced bytes. */
  lemma SharedFile(s: Spec, fd: int, g: int, d: seq<char>, count: nat)
    requires InBounds(s) && IsOpen(s, fd) && IsOpen(s, g) && fd != g && s.slots[fd].file == s.slots[g].file
    requires WriteSpec(s, fd, d).1 == |d| && fd != STDOUT_FILENO && fd != STDERR_FILENO
    requires g != STDIN_FILENO && Usable(s.slots[g].flags)
    ensures var w := WriteSpec(s, fd, d).0;
      var c := Splice(s.contents[s.slots[fd].file], WriteAt(s, fd), d);
      && InBounds(w)
      && var left := c[s.slots[g].position..];
         ReadSpec(w, g, count).2 == left[..if count > |left| then |left| else count]
  {
    SpliceFacts(s.contents[s.slots[fd].file], WriteAt(s, fd), d);
    StepInBounds(s, Write(fd, d));
  }
}
