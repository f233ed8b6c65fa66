// kernel/elf.c: elf_load_and_run over the RAM filesystem, the heap, memory and
// the scheduler.
module ElfLoader {
  import opened Machine
  import opened ElfImages
  import L = ElfLayout
  import H = HeapChain
  import HeapLaws
  import Memory
  import F = FileSystem
  import Ramfs
  import T = Tasks
  import TaskSteps
  import Scheduler

  const MAX_ELF_SLOTS := 8

  // elf_entries and next_elf_slot
  datatype Slots = Slots(entries: seq<Word>, next: nat)

  class Loader {
    const store: Ramfs.FileStore
    const heap: Memory.Heap
    const kernel: Scheduler.Kernel
    const ram: array<Byte>
    const elfEntries: array<Word>
    var nextElfSlot: nat

    // The parts do not overlap, and the heap ends below the lowest load address.
    ghost predicate Valid()
      reads heap, heap.headerAt.Values, kernel
    {
      && store.files.Length == F.MAX_FILES && ram.Length == MEMORY && elfEntries.Length == MAX_ELF_SLOTS
      && heap.Valid() && kernel.Valid() && heap.Limit() <= LOAD_BASE
      && ram as object != elfEntries && ram as object != kernel.wakeTick && ram as object != kernel.state
      && ram as object != store.files && elfEntries != kernel.wakeTick && elfEntries as object != kernel.state
      && elfEntries as object != store.files
    }

    constructor (store: Ramfs.FileStore, heap: Memory.Heap, kernel: Scheduler.Kernel,
                 ram: array<Byte>, elfEntries: array<Word>)
      ensures this.store == store && this.heap == heap && this.kernel == kernel
      ensures this.ram == ram && this.elfEntries == elfEntries && nextElfSlot == 0
    {
      this.store, this.heap, this.kernel, this.ram, this.elfEntries := store, heap, kernel, ram, elfEntries;
      nextElfSlot := 0;
    }

    function Entries(): (e: Slots)
      reads this, elfEntries
      ensures |e.entries| == elfEntries.Length
    {
      Slots(elfEntries[..], nextElfSlot)
    }

    // The contents of a file, or nothing.
    ghost function File(name: string): Bytes
      requires store.files.Length == F.MAX_FILES
      reads store.files
    {
      var k := F.Find(store.files[..], name, 0);
      if k < F.MAX_FILES then F.Contents(store.files[k]) else []
    }

    // Loading may use free heap space, but below the load limit it keeps all bytes
    // outside the heap and the payload of every block live in c.
    ghost predicate Keeps(c: seq<H.Block>, before: Bytes, after: Bytes)
      requires |before| == |after| == MEMORY
    {
      forall a: nat :: Kept(c, a) ==> after[a] == before[a]
    }

    ghost predicate Kept(c: seq<H.Block>, a: nat) {
      && a < LOAD_BASE
      && (a < heap.Base() || a >= heap.Limit() || exists b :: b in H.Live(c) && b.addr + H.HEADER <= a < b.End())
    }

    // The header chain is the same before and after, whatever happens. Memory is
    // the old one with the file loaded, above the load limit; below it, only free
    // heap space is used.
    method ElfLoadAndRun(filename: string) returns (r: int)
      requires Valid()
      requires Validate(File(filename)) == 0 ==> WellFormed(File(filename))
      modifies heap, heap.headerAt.Values, kernel`taskCount, kernel.state, kernel.wakeTick
      modifies ram, elfEntries, this`nextElfSlot
      ensures Valid() && heap.Started() == old(heap.Started())
      ensures Keeps(old(heap.Started()), old(ram[..]), ram[..])
      ensures r == -1 <==> F.Find(store.files[..], filename, 0) == F.MAX_FILES
      ensures r == -2 <==> r != -1 && |File(filename)| < 52
      ensures r == -3 <==> r != -1 && r != -2 && NoRoom(old(heap.Started()), AlignUp4(|File(filename)|))
      ensures r in {-1, -2, -3} ==>
        ram[..] == old(ram[..]) && kernel.Value() == old(kernel.Value()) && Entries() == old(Entries())
      ensures r !in {-1, -2, -3} ==>
        Outcome(File(filename), r, old(ram[..]), ram[..],
                old(kernel.Value()), kernel.Value(), old(Entries()), Entries())
    {
      hide F.Find, Load, Validate, WellFormed, Outcome, NoRoom, Kept;
      var k := store.FindFile(filename);
      if k == F.MAX_FILES { return -1; }
      var fsize := store.files[k].size;
      if fsize < EHDR { return -2; }
      r := RunFile(filename, k);
    }

    // No address in the heap could hold n bytes.
    ghost predicate NoRoom(c: seq<H.Block>, n: nat) {
      forall a :: !HeapLaws.Fits(c, a, n, heap.Base(), heap.Limit())
    }

    // The steps from kmalloc to kfree.
    method RunFile(filename: string, k: nat) returns (r: int)
      requires Valid() && k == F.Find(store.files[..], filename, 0) < F.MAX_FILES
      requires |File(filename)| >= EHDR
      requires Validate(File(filename)) == 0 ==> WellFormed(File(filename))
      modifies heap, heap.headerAt.Values, kernel`taskCount, kernel.state, kernel.wakeTick
      modifies ram, elfEntries, this`nextElfSlot
      ensures Valid() && heap.Started() == old(heap.Started()) && r != -1 && r != -2
      ensures Keeps(old(heap.Started()), old(ram[..]), ram[..])
      ensures r == -3 <==> NoRoom(old(heap.Started()), AlignUp4(|File(filename)|))
      ensures r == -3 ==>
        ram[..] == old(ram[..]) && kernel.Value() == old(kernel.Value()) && Entries() == old(Entries())
      ensures r != -3 ==>
        Outcome(File(filename), r, old(ram[..]), ram[..],
                old(kernel.Value()), kernel.Value(), old(Entries()), Entries())
    {
      hide F.Find, H.Good, H.Alloc, H.Release, H.Releasable;
      hide Load, Validate, WellFormed, Outcome, NoRoom, Overlay, Keeps;
      ghost var d := File(filename);
      ghost var c, m0 := heap.Started(), ram[..];
      var fsize := store.files[k].size;
      var buf := ReadIntoBuffer(filename, k);
      if buf == 0 { return -3; }
      ghost var m := ram[..];
      r := LoadAndStart(buf, fsize, d);
      OnlyFreeSpaceUsed(c, m0, m, ram[..]);
      heap.Kfree(buf);
      OutcomeFromStart(d, r, m0, m, ram[..], old(kernel.Value()), kernel.Value(), old(Entries()), Entries());
    }

    lemma OnlyFreeSpaceUsed(c: seq<H.Block>, m0: Bytes, m: Bytes, n: Bytes)
      requires |m0| == |m| == |n| == MEMORY
      requires Keeps(c, m0, m)
      requires n[..LOAD_BASE] == m[..LOAD_BASE]
      ensures Keeps(c, m0, n)
    {
      forall a: nat | Kept(c, a) ensures n[a] == m0[a] {
        assert n[..LOAD_BASE][a] == m[..LOAD_BASE][a];
      }
    }

    // The buffer overwrites free heap space only.
    lemma BufferIsFree(c: seq<H.Block>, buf: nat, before: Bytes, after: Bytes, d: Bytes)
      requires heap.Limit() <= LOAD_BASE && |before| == |after| == MEMORY
      requires heap.Base() <= buf && buf + |d| <= heap.Limit() && after == Overlay(before, buf, d)
      requires forall b :: b in H.Live(c) ==> buf + |d| <= b.addr || b.End() <= buf
      ensures Keeps(c, before, after)
      ensures after[LOAD_BASE..] == before[LOAD_BASE..] && after[buf..buf + |d|] == d
    {
    }

    // kmalloc for the file, and ramfs_read into it. The read gives all bytes of
    // the file, so the source's short-read error -4 cannot occur.
    method ReadIntoBuffer(filename: string, k: nat) returns (buf: nat)
      requires Valid() && k == F.Find(store.files[..], filename, 0) < F.MAX_FILES
      modifies heap, heap.headerAt.Values, ram
      ensures Valid() && heap.initialized && fresh(heap.headerAt.Values - old(heap.headerAt.Values))
      ensures buf == 0 <==> NoRoom(old(heap.Started()), AlignUp4(|File(filename)|))
      ensures buf == 0 ==> ram[..] == old(ram[..]) && heap.chain == old(heap.Started())
      ensures buf != 0 ==> buf + |File(filename)| <= heap.Limit() && ram[buf..buf + |File(filename)|] == File(filename)
      ensures buf != 0 ==> ram[LOAD_BASE..] == old(ram[LOAD_BASE..])
      ensures buf != 0 ==> H.Releasable(heap.chain, buf) && H.Release(heap.chain, buf) == old(heap.Started())
      ensures Keeps(old(heap.Started()), old(ram[..]), ram[..])
    {
      hide F.Find, H.Good, H.Alloc, H.Release, H.Releasable, Validate, HeapLaws.Fits, Overlay, Kept;
      StartedIsGood();
      ghost var c := heap.Started();
      var fsize := store.files[k].size;
      HeapLaws.AlignCovers(fsize);
      BufferPlace(c, AlignUp4(fsize), heap.Base(), heap.Limit());
      buf := heap.Kmalloc(fsize);
      if buf == 0 { return; }
      var data := store.RamfsRead(filename, fsize);
      assert data == Some(File(filename));
      CopyTo(buf, data.value);
      BufferIsFree(c, buf, old(ram[..]), ram[..], data.value);
    }

    // From the validation on, with the file's bytes d at buf.
    method LoadAndStart(buf: nat, fsize: nat, ghost d: Bytes) returns (r: int)
      requires ram.Length == MEMORY && elfEntries.Length == MAX_ELF_SLOTS && kernel.Valid()
      requires ram as object != elfEntries && ram as object != kernel.wakeTick && ram as object != kernel.state
      requires elfEntries != kernel.wakeTick && elfEntries as object != kernel.state
      requires buf + fsize <= LOAD_BASE && ram[buf..buf + fsize] == d && |d| >= EHDR
      requires Validate(d) == 0 ==> WellFormed(d)
      modifies kernel`taskCount, kernel.state, kernel.wakeTick, ram, elfEntries, this`nextElfSlot
      ensures kernel.Valid() && r !in {-1, -2, -3}
      ensures ram[..LOAD_BASE] == old(ram[..LOAD_BASE])
      ensures Outcome(d, r, old(ram[..]), ram[..], old(kernel.Value()), kernel.Value(), old(Entries()), Entries())
    {
      if Validate(ram[buf..buf + fsize]) != 0 { return -5; }
      ghost var m := ram[..];
      var ok := LoadSegments(buf, fsize, d);
      LowMemoryKept(m, d, ram[..]);
      hide Load, Validate, WellFormed, EntryPoint;
      assert ram[..LOAD_BASE] == m[..LOAD_BASE];
      if !ok { return -6; }
      assert ram[buf..buf + fsize] == m[buf..buf + fsize];
      var slot := nextElfSlot % MAX_ELF_SLOTS;
      elfEntries[slot] := EntryPoint(ram[buf..buf + fsize]);
      nextElfSlot := nextElfSlot + 1;
      var tid := kernel.TaskCreate();
      if tid < 0 { return -7; }
      return tid;
    }

    lemma StartedIsGood()
      requires heap.Valid()
      ensures H.Good(heap.Started(), heap.Base(), heap.Limit())
    {
      HeapLaws.InitialGood(heap.Base());
    }

    // memcpy(ram + at, bytes, |bytes|)
    method CopyTo(at: nat, bytes: Bytes)
      requires ram.Length == MEMORY && at + |bytes| <= MEMORY
      modifies ram
      ensures ram[..] == Overlay(old(ram[..]), at, bytes)
    {
      for i := 0 to |bytes|
        invariant forall k :: 0 <= k < MEMORY ==> ram[k] == if at <= k < at + i then bytes[k - at] else old(ram[k])
      {
        ram[at + i] := bytes[i];
      }
    }

    // The loop over program headers; the file's bytes d are at buf.
    method LoadSegments(buf: nat, size: nat, ghost d: Bytes) returns (ok: bool)
      requires ram.Length == MEMORY && buf + size <= LOAD_BASE && ram[buf..buf + size] == d
      requires WellFormed(d)
      modifies ram
      ensures (ram[..], ok) == Load(old(ram[..]), d, 0)
    {
      hide WellFormed, Load, Sound;
      FileHasHeader(d);
      var phnum := Le16(ram[buf..buf + size], 44);
      var i: nat := 0;
      while i < phnum
        invariant i <= phnum && ram[buf..buf + size] == d
        invariant Load(ram[..], d, i) == Load(old(ram[..]), d, 0)
      {
        LoadRound(ram[..], d, i);
        var file := ram[buf..buf + size];
        var s := SegmentAt(file, HeaderAt(file, i));
        if s.kind == PT_LOAD {
          if s.vaddr < LOAD_BASE { return false; }
          PlaceSegment(file, s);
          assert ram[buf..buf + size] == d;
        }
        i := i + 1;
      }
      LoadEnd(ram[..], d);
      return true;
    }

    // memcpy of the bytes in the file, then memset of the rest.
    method PlaceSegment(file: Bytes, s: Segment)
      requires ram.Length == MEMORY && s.offset + s.filesz <= |file| && s.vaddr >= LOAD_BASE && s.End() <= MEMORY
      modifies ram
      ensures ram[..] == Overlay(old(ram[..]), s.vaddr, Image(file, s))
      ensures forall a :: 0 <= a < LOAD_BASE ==> ram[a] == old(ram[a])
    {
      ImageInTwo(ram[..], file, s);
      OverlayAbove(ram[..], s.vaddr, Image(file, s));
      CopyTo(s.vaddr, file[s.offset..s.offset + s.filesz]);
      if s.memsz > s.filesz {
        CopyTo(s.vaddr + s.filesz, seq(s.memsz - s.filesz, _ => 0));
      }
    }
  }

  // What a run that got as far as validation leaves behind.
  ghost predicate Outcome(d: Bytes, r: int, m: Bytes, n: Bytes, before: T.Sys, after: T.Sys, e: Slots, f: Slots)
    requires |m| == |n| == MEMORY && T.Shape(before) && |e.entries| == MAX_ELF_SLOTS
    requires |d| >= EHDR && (Validate(d) == 0 ==> WellFormed(d))
  {
    && (r == -5 <==> Validate(d) != 0)
    && (r == -5 ==> n[LOAD_BASE..] == m[LOAD_BASE..])
    && (r != -5 ==> n[LOAD_BASE..] == Load(m, d, 0).0[LOAD_BASE..] && (r == -6 <==> !Load(m, d, 0).1))
    && (r == -5 || r == -6 ==> after == before && f == e)
    && (r != -5 && r != -6 ==>
      && after == T.CreateTask(before)
      && f == Slots(e.entries[e.next % MAX_ELF_SLOTS := EntryPoint(d)], e.next + 1)
      && var k := T.FreeSlot(before.st, 0); r == if k < T.MAX_TASKS then k else -7)
  }

  // A run on a file with header h: which files are refused, where the entry is kept,
  // and which task is made.
  lemma OutcomeExactly(d: Bytes, h: L.Header, r: int, m: Bytes, n: Bytes,
                       before: T.Sys, after: T.Sys, e: Slots, f: Slots)
    requires |m| == |n| == MEMORY && T.Shape(before) && |e.entries| == 8
    requires L.Begins(d, h) && (Validate(d) == 0 ==> WellFormed(d))
    requires Outcome(d, r, m, n, before, after, e, f)
    ensures r == -5 <==> !(h.class32 == 1 && h.encoding == 1 && h.etype == 2 && h.machine == 3)
    ensures r == -5 || r == -6 ==> after == before && f == e
    ensures r != -5 && r != -6 ==> f.next == e.next + 1 && f.entries == e.entries[e.next % 8 := h.entry]
    ensures r == -7 ==> after == before && forall k: nat :: k < 16 ==> before.st[k] != T.Unused
    ensures r !in {-5, -6, -7} ==>
      && 0 <= r < 16 && before.st[r] == T.Unused && (forall k: nat :: k < r ==> before.st[k] != T.Unused)
      && after == before.(st := before.st[r := T.Ready], wake := before.wake[r := 0], count := before.count + 1)
  {
    L.HeaderExactly(d, h);
    TaskSteps.CreateExactly(before);
    hide Validate, WellFormed, Load, EntryPoint, L.Begins, T.CreateTask;
  }

  // What the run leaves in memory from the load limit on: segment j of the file,
  // byte for byte, and elsewhere what was there.
  lemma RunLoadsSegment(d: Bytes, h: L.Header, ps: seq<L.ProgramHeader>, r: int, m: Bytes, n: Bytes,
                        before: T.Sys, after: T.Sys, e: Slots, f: Slots, j: nat, k: nat)
    requires |m| == |n| == MEMORY && T.Shape(before) && |e.entries| == 8
    requires L.LaidOut(d, h, ps) && L.Fit(d, ps) && L.Apart(ps) && Loadable(d)
    requires Outcome(d, r, m, n, before, after, e, f) && r != -5
    requires j < |ps| && ps[j].ptype == 1 && k < L.Size(ps[j])
    ensures r != -6 && ps[j].vaddr + k < MEMORY
    ensures n[ps[j].vaddr + k] == if k < ps[j].filesz then d[ps[j].offset + k] else 0
  {
    hide Validate, WellFormed, Loadable, Load, EntryPoint, L.Begins, L.LaidOut, L.Apart, T.CreateTask;
    L.LoadsSegment(m, d, h, ps, j, k);
    var a := ps[j].vaddr + k;
    assert n[a] == n[LOAD_BASE..][a - LOAD_BASE];
  }

  lemma RunLoadsNothingElse(d: Bytes, h: L.Header, ps: seq<L.ProgramHeader>, r: int, m: Bytes, n: Bytes,
                            before: T.Sys, after: T.Sys, e: Slots, f: Slots, a: nat)
    requires |m| == |n| == MEMORY && T.Shape(before) && |e.entries| == 8
    requires L.LaidOut(d, h, ps) && L.Fit(d, ps) && L.Apart(ps) && Loadable(d)
    requires Outcome(d, r, m, n, before, after, e, f) && 0x60_0000 <= a < MEMORY
    requires forall j: nat :: j < |ps| && ps[j].ptype == 1 ==> !(ps[j].vaddr <= a < ps[j].vaddr + L.Size(ps[j]))
    ensures n[a] == m[a]
  {
    hide Validate, WellFormed, Loadable, Load, EntryPoint, L.Begins, L.LaidOut, L.Apart, L.Fit, T.CreateTask;
    L.LoadsNothingElse(m, d, h, ps, a);
    assert n[a] == n[LOAD_BASE..][a - LOAD_BASE] && m[a] == m[LOAD_BASE..][a - LOAD_BASE];
  }

  // Only memory above the load limit matters for what a run leaves behind.
  lemma OutcomeFromStart(d: Bytes, r: int, m0: Bytes, m: Bytes, n: Bytes,
                         before: T.Sys, after: T.Sys, e: Slots, f: Slots)
    requires |m0| == |m| == |n| == MEMORY && T.Shape(before) && |e.entries| == MAX_ELF_SLOTS
    requires |d| >= EHDR && (Validate(d) == 0 ==> WellFormed(d))
    requires m[LOAD_BASE..] == m0[LOAD_BASE..] && Outcome(d, r, m, n, before, after, e, f)
    ensures Outcome(d, r, m0, n, before, after, e, f)
  {
    hide Validate, WellFormed, Load, T.CreateTask, T.FreeSlot;
    if r != -5 { LoadIgnoresLowMemory(m0, m, d, 0); }
  }

  lemma OverlayAbove(m: Bytes, at: nat, b: Bytes)
    requires |m| == MEMORY && LOAD_BASE <= at && at + |b| <= MEMORY
    ensures forall a :: 0 <= a < LOAD_BASE ==> Overlay(m, at, b)[a] == m[a]
  {
  }

  lemma FileHasHeader(d: Bytes)
    requires WellFormed(d)
    ensures |d| >= EHDR
  {
  }

  lemma LoadEnd(m: Bytes, d: Bytes)
    requires |m| == MEMORY && WellFormed(d)
    ensures Load(m, d, Count(d)) == (m, true)
  {
  }

  lemma LowMemoryKept(m: Bytes, d: Bytes, n: Bytes)
    requires |m| == MEMORY && WellFormed(d) && n == Load(m, d, 0).0
    ensures forall a :: 0 <= a < LOAD_BASE ==> n[a] == m[a]
  {
    forall a | 0 <= a < LOAD_BASE ensures n[a] == m[a] {
      LoadKeepsLowMemory(m, d, 0, a);
    }
  }

  // Copying the file bytes and then clearing the rest lays down the whole image.
  lemma ImageInTwo(m: Bytes, d: Bytes, s: Segment)
    requires |m| == MEMORY && s.offset + s.filesz <= |d| && s.End() <= MEMORY
    ensures var n := Overlay(m, s.vaddr, d[s.offset..s.offset + s.filesz]);
      Overlay(m, s.vaddr, Image(d, s)) ==
      if s.memsz > s.filesz then Overlay(n, s.vaddr + s.filesz, seq(s.memsz - s.filesz, _ => 0)) else n
  {
  }

  // Where kmalloc puts the buffer, and that freeing it restores the chain.
  lemma BufferPlace(c: seq<H.Block>, n: nat, lo: nat, hi: nat)
    requires H.Good(c, lo, hi) && n % 4 == 0
    ensures var (d, p) := H.Alloc(c, n);
      if p == 0 then d == c && forall a :: !HeapLaws.Fits(c, a, n, lo, hi)
      else
        && HeapLaws.Fits(c, p - H.HEADER, n, lo, hi)
        && lo + H.HEADER <= p && p + n <= hi
        && (forall b :: b in H.Live(c) ==> p + n <= b.addr || b.End() <= p)
        && H.Releasable(d, p) && H.Release(d, p) == c
  {
    hide H.Alloc, H.Release, H.Good;
    HeapLaws.AllocWithin(c, n, lo, hi) by { hide *; HeapLaws.GoodTiles(c, lo, hi); }
    HeapLaws.AllocExact(c, n, lo, hi);
    HeapLaws.AllocAddsOne(c, n, lo, hi);
    HeapLaws.ReleaseUndoesAlloc(c, n, lo, hi);
    var (d, p) := H.Alloc(c, n);
    if p != 0 {
      var b :| HeapLaws.Added(c, d, b) && b.addr + H.HEADER == p && n <= b.size <= n + H.HEADER + 16;
      assert b in H.Live(d);
    }
  }

  lemma LoadRound(m: Bytes, d: Bytes, i: nat)
    requires |m| == MEMORY && WellFormed(d) && i < Count(d)
    ensures |d| >= EHDR && HeaderAt(d, i) + PHDR <= |d|
    ensures var s := Seg(d, i);
      if s.kind != PT_LOAD then Load(m, d, i) == Load(m, d, i + 1)
      else if s.vaddr < LOAD_BASE then Load(m, d, i) == (m, false)
      else
        && s.offset + s.filesz <= |d| && s.End() <= MEMORY
        && Load(m, d, i) == Load(Overlay(m, s.vaddr, Image(d, s)), d, i + 1)
  {
    assert Sound(d, i);
  }
}
