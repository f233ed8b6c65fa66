// kernel/ramfs.c over its static array of files, and the descriptor table of
// kernel/syscall.c over its static arrays.
module Ramfs {
  import opened Machine
  import opened FileSystem
  import opened FileDescriptors

  class FileStore {
    const files: array<Slot>

    // ramfs_init
    constructor ()
      ensures files.Length == MAX_FILES && fresh(files)
      ensures Good(files[..]) && Files(files[..]) == map[]
    {
      var zero: Block := seq(MAX_FILESIZE, _ => 0);
      files := new Slot[MAX_FILES](_ => Slot(false, "", zero, 0));
      new;
      assert Names(files[..]) == {};
    }

    // find_file: the index of the file, or MAX_FILES for the null pointer.
    method FindFile(name: string) returns (k: nat)
      requires files.Length == MAX_FILES
      ensures k == Find(files[..], name, 0)
    {
      for i := 0 to MAX_FILES
        invariant Find(files[..], name, 0) == Find(files[..], name, i)
      {
        if files[i].used && files[i].name == name { return i; }
      }
      return MAX_FILES;
    }

    method FindFreeSlot() returns (k: nat)
      requires files.Length == MAX_FILES
      ensures k == FindFree(files[..], 0)
    {
      for i := 0 to MAX_FILES
        invariant FindFree(files[..], 0) == FindFree(files[..], i)
      {
        if !files[i].used { return i; }
      }
      return MAX_FILES;
    }

    method RamfsCreate(name: string) returns (r: int)
      requires files.Length == MAX_FILES
      modifies files
      ensures (files[..], r) == Create(old(files[..]), name)
    {
      hide Find, FindFree;
      var k := FindFile(name);
      if k < MAX_FILES { return -1; }
      k := FindFreeSlot();
      if k == MAX_FILES { return -2; }
      files[k] := files[k].(name := Stored(name));
      files[k] := files[k].(size := 0);
      files[k] := files[k].(used := true);
      assert files[..] == Create(old(files[..]), name).0;
      return 0;
    }

    method RamfsWrite(name: string, bytes: seq<Byte>) returns (r: int)
      requires files.Length == MAX_FILES && Writable(files[..], name)
      modifies files
      ensures (files[..], r) == Write(old(files[..]), name, bytes)
    {
      ghost var fs := files[..];
      CreatedIsFound(fs, name);
      hide Find, FindFree;
      var k := FindFile(name);
      if k == MAX_FILES {
        var made := RamfsCreate(name);
        if made != 0 { return -1; }
        k := FindFile(name);
      }
      var size := if |bytes| > MAX_FILESIZE then MAX_FILESIZE else |bytes|;
      files[k] := files[k].(data := Splice(files[k].data, 0, bytes[..size]));
      files[k] := files[k].(size := size);
      assert files[..] == Write(fs, name, bytes).0;
      return size;
    }

    method RamfsAppend(name: string, bytes: seq<Byte>) returns (r: int)
      requires files.Length == MAX_FILES
      modifies files
      ensures (files[..], r) == Append(old(files[..]), name, bytes)
    {
      hide Find;
      var k := FindFile(name);
      if k == MAX_FILES { return -1; }
      var space := MAX_FILESIZE - files[k].size;
      var size := if |bytes| > space then space else |bytes|;
      files[k] := files[k].(data := Splice(files[k].data, files[k].size, bytes[..size]));
      files[k] := files[k].(size := files[k].size + size);
      assert files[..] == Append(old(files[..]), name, bytes).0;
      return size;
    }

    // None stands for the return value -1.
    method RamfsRead(name: string, bufSize: nat) returns (buf: Option<seq<Byte>>)
      requires files.Length == MAX_FILES
      ensures buf == Read(files[..], name, bufSize)
    {
      hide Find;
      var k := FindFile(name);
      if k == MAX_FILES { return None; }
      var toRead := if files[k].size < bufSize then files[k].size else bufSize;
      return Some(files[k].data[..toRead]);
    }

    method RamfsDelete(name: string) returns (r: int)
      requires files.Length == MAX_FILES
      modifies files
      ensures (files[..], r) == Delete(old(files[..]), name)
    {
      hide Find;
      var k := FindFile(name);
      if k == MAX_FILES { return -1; }
      files[k] := files[k].(used := false);
      files[k] := files[k].(size := 0);
      files[k] := files[k].(name := "");
      assert files[..] == Delete(old(files[..]), name).0;
      return 0;
    }

    // The names of the first max files in the order of their slots, each once.
    method RamfsList(max: nat) returns (names: seq<string>)
      requires files.Length == MAX_FILES && Good(files[..])
      ensures names <= InOrder(files[..], MAX_FILES) && |names| == Min(max, |Files(files[..])|)
      ensures forall n :: n in names ==> n in Files(files[..])
      ensures forall i, j :: 0 <= i < j < |names| ==> names[i] != names[j]
    {
      hide Good, Files, NamesBelow, InOrder;
      names := [];
      ghost var fs: Fs := files[..];
      NamesBelowStart(fs);
      var i := 0;
      while i < MAX_FILES && |names| < max
        invariant i <= MAX_FILES && |names| <= max && names == InOrder(fs, i)
        invariant forall n :: n in names <==> n in NamesBelow(fs, i)
        invariant |names| == |NamesBelow(fs, i)|
        invariant forall i, j :: 0 <= i < j < |names| ==> names[i] != names[j]
        decreases MAX_FILES - i
      {
        NamesBelowNext(fs, i);
        if files[i].used {
          names := names + [files[i].name];
        }
        i := i + 1;
      }
      ghost var n := MAX_FILES;
      AllNames(fs, n);
      NamesBelowGrows(fs, i, n);
      InOrderGrows(fs, i, n);
      SubsetSize(NamesBelow(fs, i), Files(fs).Keys);
    }
  }

  lemma NamesBelowStart(fs: Fs)
    ensures NamesBelow(fs, 0) == {} && InOrder(fs, 0) == []
  {
  }

  // The name of a used slot does not occur in an earlier slot.
  lemma NamesBelowNext(fs: Fs, i: nat)
    requires Good(fs) && i < MAX_FILES
    ensures fs[i].used ==> fs[i].name !in NamesBelow(fs, i)
    ensures NamesBelow(fs, i + 1) == NamesBelow(fs, i) + if fs[i].used then {fs[i].name} else {}
    ensures InOrder(fs, i + 1) == InOrder(fs, i) + if fs[i].used then [fs[i].name] else []
  {
    NamesBelowMember(fs, i, fs[i].name);
  }

  // The file just created is found, unless its name was cut off.
  lemma CreatedIsFound(fs: Fs, name: string)
    requires Writable(fs, name)
    ensures Find(fs, name, 0) == MAX_FILES && Create(fs, name).1 == 0 ==>
      Find(Create(fs, name).0, name, 0) < MAX_FILES
  {
    if Find(fs, name, 0) == MAX_FILES && Create(fs, name).1 == 0 {
      var k, gs: Fs := FindFree(fs, 0), Create(fs, name).0;
      assert gs[k].used && gs[k].name == name;
    }
  }

  class FdTable {
    const openFiles: array<string>
    const openUsed: array<bool>

    ghost predicate Valid() {
      openFiles.Length == openUsed.Length == MAX_OPEN_FILES && openFiles as object != openUsed
    }

    ghost function Value(): Table
      requires Valid()
      reads openFiles, openUsed
    {
      seq(MAX_OPEN_FILES, i requires 0 <= i < MAX_OPEN_FILES reads openFiles, openUsed =>
        if openUsed[i] then Some(openFiles[i]) else None)
    }

    constructor ()
      ensures Valid() && fresh(openFiles) && fresh(openUsed)
      ensures forall fd :: FdToName(Value(), fd) == None
    {
      openFiles := new string[MAX_OPEN_FILES](_ => "");
      openUsed := new bool[MAX_OPEN_FILES](_ => false);
    }

    method Alloc(name: string) returns (fd: int)
      requires Valid()
      modifies openFiles, openUsed
      ensures Valid() && (Value(), fd) == AllocFd(old(Value()), name)
    {
      for i := 0 to MAX_OPEN_FILES
        invariant Value() == old(Value()) && FreeEntry(Value(), 0) == FreeEntry(Value(), i)
      {
        assert Value()[i] == None <==> !openUsed[i];
        if !openUsed[i] {
          openUsed[i] := true;
          openFiles[i] := Stored(name);
          assert Value() == AllocFd(old(Value()), name).0;
          return i + FD_FILE_BASE;
        }
      }
      return -1;
    }

    method Free(fd: int)
      requires Valid()
      modifies openFiles, openUsed
      ensures Valid() && Value() == FreeFd(old(Value()), fd)
    {
      var idx := fd - FD_FILE_BASE;
      if idx >= 0 && idx < MAX_OPEN_FILES {
        openUsed[idx] := false;
        openFiles[idx] := "";
      }
    }

    method ToName(fd: int) returns (name: Option<string>)
      requires Valid()
      ensures name == FdToName(Value(), fd)
    {
      var idx := fd - FD_FILE_BASE;
      if idx >= 0 && idx < MAX_OPEN_FILES && openUsed[idx] {
        return Some(openFiles[idx]);
      }
      return None;
    }
  }

  // The file branches of the handlers in kernel/syscall.c, fd at or above FD_FILE_BASE.
  class Syscalls {
    const store: FileStore
    const table: FdTable

    ghost predicate Valid()
      reads store.files, table.openFiles, table.openUsed
    {
      && store.files.Length == MAX_FILES && table.Valid()
      && store.files as object != table.openFiles && store.files as object != table.openUsed
    }

    ghost function Value(): Sys
      requires Valid()
      reads store.files, table.openFiles, table.openUsed
    {
      Sys(store.files[..], table.Value())
    }

    constructor (store: FileStore, table: FdTable)
      requires store.files.Length == MAX_FILES && table.Valid()
      requires store.files as object != table.openFiles && store.files as object != table.openUsed
      ensures this.store == store && this.table == table && Valid()
    {
      this.store, this.table := store, table;
    }

    method Open(name: string) returns (fd: int)
      requires Valid()
      modifies table.openFiles, table.openUsed
      ensures Valid() && (Value(), fd) == Step(old(Value()), SysOpen(name))
    {
      hide Find, AllocFd;
      var k := store.FindFile(name);
      if k == MAX_FILES { return -1; }
      fd := table.Alloc(name);
    }

    method Close(fd: Word) returns (r: int)
      requires Valid()
      modifies table.openFiles, table.openUsed
      ensures Valid() && (Value(), r) == Step(old(Value()), SysClose(fd))
    {
      if fd < FD_FILE_BASE { return -1; }
      table.Free(fd);
      return 0;
    }

    method WriteFile(fd: Word, bytes: seq<Byte>) returns (r: int)
      requires Valid() && Inv(Value())
      modifies store.files
      ensures Valid() && (Value(), r) == Step(old(Value()), SysWrite(fd, bytes))
    {
      hide Write;
      var name := table.ToName(fd);
      if name == None { return -1; }
      r := store.RamfsWrite(name.value, bytes);
    }

    method ReadFile(fd: Word, len: nat) returns (buf: Option<seq<Byte>>)
      requires Valid()
      ensures buf == SysRead(Value(), fd, len)
    {
      var name := table.ToName(fd);
      if name == None { return None; }
      buf := store.RamfsRead(name.value, len);
    }
  }
}
