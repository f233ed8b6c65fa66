// kernel/vmm.c: the paging code over physical memory and the frame allocator.
// Loads and stores go to physical memory; PagingLaws.RunKeepsIdentity shows why
// the kernel's own pointers, which are virtual, reach the same words.
module Vmm {
  import opened Machine
  import opened Pmm
  import opened PageTables
  import opened PagingLaws

  class AddressSpace {
    const ram: array<Word>
    const pmm: FrameAllocator
    const dir: nat    // frame of page_directory
    const ident: nat  // first frame of identity_tables

    ghost predicate Owned()
      reads pmm, pmm.bitmap
    {
      && ram.Length == RAM_WORDS && ram as object != pmm && ram as object != pmm.bitmap
      && pmm.Valid() && Placed(pmm.Free(), dir, ident)
    }

    ghost function Value(): Mmu
      requires ram.Length == RAM_WORDS && pmm.bitmap.Length == TOTAL_FRAMES / 8
      reads ram, pmm.bitmap
    {
      Mmu(ram[..], pmm.Free())
    }

    ghost predicate Invariant()
      reads ram, pmm, pmm.bitmap
    {
      && ram.Length == RAM_WORDS && ram as object != pmm && ram as object != pmm.bitmap
      && pmm.Valid() && Valid(Value(), dir)
    }

    constructor (ram: array<Word>, pmm: FrameAllocator, dir: nat, ident: nat)
      requires ram.Length == RAM_WORDS && ram as object != pmm && ram as object != pmm.bitmap
      requires pmm.Valid() && Placed(pmm.Free(), dir, ident)
      ensures this.ram == ram && this.pmm == pmm && this.dir == dir && this.ident == ident
      ensures Owned()
    {
      this.ram, this.pmm, this.dir, this.ident := ram, pmm, dir, ident;
    }

    method VmmInit()
      requires Owned()
      modifies ram
      ensures Invariant()
      ensures Value() == Mmu(InitRam(old(ram[..]), dir, ident), pmm.Free())
    {
      ClearFrame(dir);
      ghost var cleared := ram[..];
      for t := 0 to IDENTITY_MAP_TABLES
        invariant forall i :: 0 <= i < RAM_WORDS ==> ram[i] == InitWordAfter(cleared, dir, ident, t, 0, i)
      {
        for i := 0 to 1024
          invariant forall k :: 0 <= k < RAM_WORDS ==> ram[k] == InitWordAfter(cleared, dir, ident, t, i, k)
        {
          var addr := (t * 1024 + i) * PAGE_SIZE;
          ram[1024 * (ident + t) + i] := addr + PTE_PRESENT + PTE_WRITABLE;
        }
        ram[1024 * dir + t] := 4096 * (ident + t) + PTE_PRESENT + PTE_WRITABLE;
      }
      assert ram[..] == InitRam(old(ram[..]), dir, ident);
      InitLaw(old(ram[..]), pmm.Free(), dir, ident);
    }

    // memset(frame, 0, PAGE_SIZE)
    method ClearFrame(f: nat)
      requires ram.Length == RAM_WORDS && f < TOTAL_FRAMES
      modifies ram
      ensures ram[..] == ZeroFrame(old(ram[..]), f)
    {
      for i := 0 to 1024
        invariant forall k :: 0 <= k < RAM_WORDS ==>
          ram[k] == if 1024 * f <= k < 1024 * f + i then 0 else old(ram[k])
      {
        ram[1024 * f + i] := 0;
      }
    }

    method VmmMapPage(va: Word, pa: Word, flags: Word)
      requires Invariant() && flags < 4096
      modifies ram, pmm.bitmap
      ensures Invariant()
      ensures Value() == MapPage(old(Value()), dir, va / 4096, pa, flags)
    {
      hide Pages, MapPage, AddTable, Valid;
      var dirIndex, tableIndex := va / 0x40_0000, va / 4096 % 1024;
      MapPageLaw(Value(), dir, va / 4096, pa, flags);
      MapPageCases(Value(), dir, va / 4096, pa, flags);
      var ok := EnsureTable(dirIndex, flags);
      if !ok { return; }
      var table := PageBase(ram[1024 * dir + dirIndex]) / 4;
      ram[table + tableIndex] := PageBase(pa) + WithPresent(flags);
    }

    // The first half of vmm_map_page: allocate a table if the slot has none.
    method EnsureTable(dirIndex: nat, flags: Word) returns (ok: bool)
      requires Invariant() && flags < 4096 && dirIndex < 1024
      modifies ram, pmm.bitmap
      ensures Invariant()
      ensures Value() == AddTable(old(Value()), dir, dirIndex, flags)
      ensures ok <==> Present(DirEntry(Value(), dir, dirIndex))
      ensures !ok ==> Value() == old(Value())
    {
      hide Pages, ZeroFrame;
      ghost var m := Value();
      AddTableLaw(m, dir, dirIndex, flags);
      hide Valid;
      if !Present(ram[1024 * dir + dirIndex]) {
        var frame := pmm.PmmAllocFrame();
        if frame == 0 {
          assert pmm.Free() == m.free;
          return false;
        }
        InstallTable(frame, dirIndex, flags);
      }
      return true;
    }

    // The new table, all zero, in its directory slot.
    method InstallTable(frame: Word, dirIndex: nat, flags: Word)
      requires ram.Length == RAM_WORDS && dir < TOTAL_FRAMES && dirIndex < 1024 && flags < 4096
      requires frame % PAGE_SIZE == 0 && frame < TOTAL_MEMORY
      modifies ram
      ensures ram[..] == ZeroFrame(old(ram[..]), frame / PAGE_SIZE)[
        DirSlot(dir, dirIndex) := frame + PTE_PRESENT + PTE_WRITABLE + flags / 4 % 2 * 4]
    {
      ClearFrame(frame / PAGE_SIZE);
      ram[1024 * dir + dirIndex] := frame + PTE_PRESENT + PTE_WRITABLE + flags / 4 % 2 * 4;
    }

    method VmmUnmapPage(va: Word)
      requires Invariant()
      modifies ram
      ensures Invariant()
      ensures Value() == UnmapPage(old(Value()), dir, va / 4096)
    {
      var dirIndex, tableIndex := va / 0x40_0000, va / 4096 % 1024;
      UnmapPageLaw(Value(), dir, va / 4096);
      if !Present(ram[1024 * dir + dirIndex]) { return; }
      TableInRam(Value(), dir, dirIndex);
      var table := PageBase(ram[1024 * dir + dirIndex]) / 4;
      ram[table + tableIndex] := 0;
    }

    method VmmGetPhysical(va: Word) returns (pa: Word)
      requires Invariant()
      ensures pa == Physical(Value(), dir, va)
    {
      var dirIndex, tableIndex := va / 0x40_0000, va / 4096 % 1024;
      if !Present(ram[1024 * dir + dirIndex]) { return 0; }
      TableInRam(Value(), dir, dirIndex);
      var table := PageBase(ram[1024 * dir + dirIndex]) / 4;
      if !Present(ram[table + tableIndex]) { return 0; }
      return PageBase(ram[table + tableIndex]) + va % 4096;
    }

    // The end of the range wraps around in 32 bits, as the source computes it.
    method VmmMapMmio(phys: Word, size: Word)
      requires Invariant()
      modifies ram, pmm.bitmap
      ensures Invariant()
      ensures Value() == MapRange(old(Value()), dir, phys / 4096, (phys + size + 0xFFF) % TWO_32 / 4096)
    {
      hide Valid, MapPage, Physical;
      var addr, end := PageBase(phys), PageBase((phys + size + 0xFFF) % TWO_32);
      ghost var q := end / 4096;
      ghost var goal := MapRange(Value(), dir, addr / 4096, q);
      while addr < end
        invariant addr % 4096 == 0 && Invariant()
        invariant MapRange(Value(), dir, addr / 4096, q) == goal
        decreases end - addr
      {
        MapRangeStep(Value(), dir, addr / 4096, q);
        var pa := VmmGetPhysical(addr);
        if pa == 0 {
          VmmMapPage(addr, addr, PTE_PRESENT + PTE_WRITABLE);
        }
        addr := addr + PAGE_SIZE;
      }
    }
  }

  lemma MapRangeStep(m: Mmu, dir: nat, p: nat, q: nat)
    requires Valid(m, dir) && p < q <= PAGES
    ensures var n := if Physical(m, dir, 4096 * p) == 0 then MapPage(m, dir, p, 4096 * p, 3) else m;
      Valid(n, dir) && MapRange(m, dir, p, q) == MapRange(n, dir, p + 1, q)
  {
    hide Valid, MapPage, Physical;
    MapPageLaw(m, dir, p, 4096 * p, 3);
  }

  lemma TableInRam(m: Mmu, dir: nat, d: nat)
    requires Valid(m, dir) && d < 1024 && Present(DirEntry(m, dir, d))
    ensures FrameOf(DirEntry(m, dir, d)) < TOTAL_FRAMES
  {
    assert TableOk(m, dir, FrameOf(DirEntry(m, dir, d)));
  }

  // Word k while vmm_init fills table t, with i entries of it done.
  ghost function InitWordAfter(ram: Ram, dir: nat, ident: nat, t: nat, i: nat, k: nat): Word
    requires dir < TOTAL_FRAMES && ident + IDENTITY_MAP_TABLES <= TOTAL_FRAMES
    requires t <= IDENTITY_MAP_TABLES && i <= 1024 && k < RAM_WORDS
  {
    var f, j := k / 1024, k % 1024;
    if f == dir then if j < t then 4096 * (ident + j) + 3 else ram[k]
    else if ident <= f < ident + t || (f == ident + t && j < i && t < IDENTITY_MAP_TABLES) then
      4096 * (1024 * (f - ident) + j) + 3
    else ram[k]
  }
}
