// kernel/syscall.c: the table of open files, its file system calls as steps, and
// what a descriptor means over whole runs.
module FileDescriptors {
  import opened Machine
  import opened FileSystem
  import opened FileLaws

  const MAX_OPEN_FILES := 16
  const FD_FILE_BASE := 4

  // open_used[i] and open_files[i]: the name a descriptor stands for.
  type Table = t: seq<Option<string>> | |t| == MAX_OPEN_FILES witness seq(MAX_OPEN_FILES, _ => None)

  // The first unused entry from i on, or MAX_OPEN_FILES.
  function FreeEntry(t: Table, i: nat): (k: nat)
    requires i <= MAX_OPEN_FILES
    ensures i <= k <= MAX_OPEN_FILES
    ensures k < MAX_OPEN_FILES ==> t[k] == None
    ensures forall j :: i <= j < k ==> t[j] != None
    decreases MAX_OPEN_FILES - i, t
  {
    if i == MAX_OPEN_FILES || t[i] == None then i else FreeEntry(t, i + 1)
  }

  function AllocFd(t: Table, name: string): (Table, int) {
    var k := FreeEntry(t, 0);
    if k == MAX_OPEN_FILES then (t, -1) else (t[k := Some(Stored(name))], k + FD_FILE_BASE)
  }

  predicate IsFileFd(fd: int) { FD_FILE_BASE <= fd < FD_FILE_BASE + MAX_OPEN_FILES }

  function FreeFd(t: Table, fd: int): Table {
    if IsFileFd(fd) then t[fd - FD_FILE_BASE := None] else t
  }

  function FdToName(t: Table, fd: int): Option<string> {
    if IsFileFd(fd) then t[fd - FD_FILE_BASE] else None
  }

  // -- system calls ------------------------------------------------------------

  datatype Sys = Sys(fs: Fs, fds: Table)

  datatype Call =
    | SysCreate(name: string) | SysDelete(name: string)
    | SysOpen(name: string) | SysClose(fd: Word)
    | SysWrite(fd: Word, bytes: seq<Byte>)

  // The descriptors below FD_FILE_BASE are devices, not files.
  function Step(s: Sys, c: Call): (Sys, int) {
    match c
    case SysCreate(n) =>
      var (fs, r) := Create(s.fs, n);
      (s.(fs := fs), r)
    case SysDelete(n) =>
      var (fs, r) := Delete(s.fs, n);
      (s.(fs := fs), r)
    case SysOpen(n) =>
      if Find(s.fs, n, 0) == MAX_FILES then (s, -1)
      else
        var (t, fd) := AllocFd(s.fds, n);
        (s.(fds := t), fd)
    case SysClose(fd) =>
      if fd < FD_FILE_BASE then (s, -1) else (s.(fds := FreeFd(s.fds, fd)), 0)
    case SysWrite(fd, bytes) =>
      (match FdToName(s.fds, fd)
       case None => (s, -1)
       case Some(n) =>
         var (fs, r) := Write(s.fs, n, bytes);
         (s.(fs := fs), r))
  }

  // sys_read on a file descriptor changes nothing.
  function SysRead(s: Sys, fd: Word, len: nat): Option<seq<Byte>> {
    match FdToName(s.fds, fd)
    case None => None
    case Some(n) => Read(s.fs, n, len)
  }

  // Names created through the system calls fit the name buffer.
  predicate Legal(c: Call) {
    match c case SysCreate(n) => |n| < MAX_NAME case _ => true
  }

  ghost predicate Inv(s: Sys) {
    Good(s.fs) && forall i :: 0 <= i < MAX_OPEN_FILES && s.fds[i].Some? ==> |s.fds[i].value| < MAX_NAME
  }

  lemma StepInv(s: Sys, c: Call)
    requires Inv(s) && Legal(c)
    ensures Inv(Step(s, c).0)
  {
    hide Find, Good, Create, Delete, Write, FreeEntry;
    match c {
      case SysCreate(n) => CreateLaw(s.fs, n);
      case SysDelete(n) => DeleteLaw(s.fs, n);
      case SysOpen(n) =>
      case SysClose(fd) =>
      case SysWrite(fd, bytes) =>
        if IsFileFd(fd) && s.fds[fd - FD_FILE_BASE].Some? {
          WriteLaw(s.fs, s.fds[fd - FD_FILE_BASE].value, bytes);
        }
    }
  }

  // A successful open returns a descriptor that was not open, for exactly the
  // name asked for; every other descriptor keeps its meaning.
  lemma OpenLaw(s: Sys, name: string)
    requires Inv(s)
    ensures var (t, fd) := Step(s, SysOpen(name));
      if fd == -1 then t == s
      else
        && IsFileFd(fd) && FdToName(s.fds, fd) == None
        && FdToName(t.fds, fd) == Some(name) && name in Files(s.fs) && t.fs == s.fs
        && forall g :: g != fd ==> FdToName(t.fds, g) == FdToName(s.fds, g)
    ensures Step(s, SysOpen(name)).1 == -1 <==>
      name !in Files(s.fs) || forall fd :: IsFileFd(fd) ==> FdToName(s.fds, fd) != None
  {
    hide Find, Files;
    FoundIsFile(s.fs, name);
    var k := FreeEntry(s.fds, 0);
    if k < MAX_OPEN_FILES {
      assert FdToName(s.fds, k + FD_FILE_BASE) == None;
    }
  }

  // A successful open returns the lowest number from 4 to 19 that is not open.
  lemma OpenExactly(s: Sys, name: string)
    requires Inv(s)
    ensures var fd := Step(s, SysOpen(name)).1;
      fd != -1 ==>
        4 <= fd <= 19 && FdToName(s.fds, fd) == None && forall g :: 4 <= g < fd ==> FdToName(s.fds, g) != None
  {
    hide Find;
  }

  // Close refuses 0 to 3, and otherwise returns 0, whether the descriptor was open
  // or not; afterwards it denotes nothing, and every other keeps its meaning.
  lemma CloseExactly(s: Sys, fd: Word)
    ensures var (t, r) := Step(s, SysClose(fd));
      if fd <= 3 then r == -1 && t == s
      else
        && r == 0 && t.fs == s.fs && FdToName(t.fds, fd) == None
        && forall g :: g != fd ==> FdToName(t.fds, g) == FdToName(s.fds, g)
  {
  }

  // Reading and writing through a descriptor that is not open fails.
  lemma ClosedExactly(s: Sys, fd: Word, bytes: seq<Byte>, len: nat)
    requires FdToName(s.fds, fd) == None
    ensures Step(s, SysWrite(fd, bytes)) == (s, -1) && SysRead(s, fd, len) == None
  {
    hide Write, Read;
  }

  // -- whole runs ------------------------------------------------------------

  function Run(s: Sys, calls: seq<Call>): Sys
    decreases |calls|
  {
    if calls == [] then s else Run(Step(s, calls[0]).0, calls[1..])
  }

  // Until it is closed, an open descriptor denotes the same name whatever else
  // happens, and no open returns it again.
  lemma {:induction false} DescriptorKeepsName(s: Sys, calls: seq<Call>, fd: Word, name: string)
    requires Inv(s) && (forall c :: c in calls ==> Legal(c) && c != SysClose(fd))
    requires FdToName(s.fds, fd) == Some(name)
    ensures Inv(Run(s, calls)) && FdToName(Run(s, calls).fds, fd) == Some(name)
    ensures forall n :: Step(Run(s, calls), SysOpen(n)).1 != fd
    decreases |calls|
  {
    if calls == [] {
      forall n ensures Step(s, SysOpen(n)).1 != fd {
        OpenLaw(s, n);
      }
    } else {
      hide Step, FdToName;
      assert calls[0] in calls && forall c :: c in calls[1..] ==> c in calls;
      StepInv(s, calls[0]);
      StepKeepsName(s, calls[0], fd);
      DescriptorKeepsName(Step(s, calls[0]).0, calls[1..], fd, name);
    }
  }

  lemma StepKeepsName(s: Sys, c: Call, fd: Word)
    requires Inv(s) && c != SysClose(fd) && FdToName(s.fds, fd).Some?
    ensures FdToName(Step(s, c).0.fds, fd) == FdToName(s.fds, fd)
  {
    hide Find, Create, Delete, Write;
  }

  // What was written through a descriptor is read back through any descriptor
  // open on the same name, provided it fits a file and one can be created.
  lemma WriteThenRead(s: Sys, fd: Word, gd: Word, name: string, bytes: seq<Byte>, len: nat)
    requires Inv(s) && FdToName(s.fds, fd) == FdToName(s.fds, gd) == Some(name)
    requires |bytes| <= MAX_FILESIZE && (name in Files(s.fs) || |Files(s.fs)| < MAX_FILES)
    ensures var (t, r) := Step(s, SysWrite(fd, bytes));
      r == |bytes| && Inv(t) && SysRead(t, gd, len) == Some(bytes[..Min(|bytes|, len)])
  {
    hide Write, Read, Good, Files;
    var fs := Write(s.fs, name, bytes).0;
    WriteLaw(s.fs, name, bytes);
    ReadLaw(fs, name, len);
    assert bytes[..|bytes|] == bytes;
  }
}
