// What the paging code does to memory word by word, in the numbers of the
// processor's table format.
module PagingWords {
  import opened Machine
  import opened Pmm
  import opened PageTables
  import opened PagingLaws

  // The entry of page p after vmm_map_page: the frame of the physical address, and
  // the flags of the call with the present bit set.
  lemma PageEntryExactly(m: Mmu, dir: nat, p: nat, pa: Word, flags: Word)
    requires Valid(m, dir) && p < PAGES && flags < 4096
    requires Present(DirEntry(m, dir, p / 1024)) || m.free != {}
    ensures var n := MapPage(m, dir, p, pa, flags);
      && dir < 4096 && p in Pages(n, dir)
      && Pages(n, dir)[p] / 4096 == pa / 4096
      && Pages(n, dir)[p] % 4096 == if flags % 2 == 1 then flags else flags + 1
  {
    MapPageLaw(m, dir, p, pa, flags);
    EntryExactly(pa, flags);
    hide MapPage, Pages, Entry;
  }

  lemma EntryExactly(pa: Word, flags: Word)
    requires flags < 4096
    ensures Entry(pa, flags) / 4096 == pa / 4096
    ensures Entry(pa, flags) % 4096 == if flags % 2 == 1 then flags else flags + 1
  {
    var low := if flags % 2 == 1 then flags else flags + 1;
    assert Entry(pa, flags) == 4096 * (pa / 4096) + low;
    FrameNumber(pa / 4096, low);
  }

  // A table that vmm_map_page makes lies in the lowest free frame, which is taken;
  // its directory entry is present and writable, and open to user programs if the
  // call asks for it.
  lemma NewTableExactly(m: Mmu, dir: nat, d: nat, flags: Word)
    requires Valid(m, dir) && d < 1024 && !Present(DirEntry(m, dir, d)) && m.free != {}
    ensures var n := AddTable(m, dir, d, flags);
      exists f: nat ::
        && f in m.free && (forall x :: x in m.free ==> f <= x) && n.free == m.free - {f}
        && (forall i: nat :: i < RAM_WORDS ==>
          n.ram[i] ==
          if i == 1024 * dir + d then 4096 * f + 3 + (if flags / 4 % 2 == 1 then 4 else 0)
          else if i / 1024 == f then 0
          else m.ram[i])
  {
    FirstFreeIsLeast(m.free, 0);
    var f := FirstFree(m.free, 0);
    assert f in m.free;
  }

  // Writing the page entry changes one word.
  lemma SetEntryExactly(m: Mmu, dir: nat, p: nat, e: Word, i: nat)
    requires Valid(m, dir) && p < PAGES && Present(DirEntry(m, dir, p / 1024)) && i < RAM_WORDS
    ensures var n := SetEntry(m, dir, p, e);
      n.free == m.free
      && n.ram[i] == if i == m.ram[1024 * dir + p / 1024] / 4096 * 1024 + p % 1024 then e else m.ram[i]
  {
    assert TableOk(m, dir, FrameOf(DirEntry(m, dir, p / 1024)));
  }

  // vmm_map_page is the new table, where one is needed, and then the entry.
  lemma MapPageExactly(m: Mmu, dir: nat, p: nat, pa: Word, flags: Word)
    requires Valid(m, dir) && p < PAGES && flags < 4096
    requires Present(DirEntry(m, dir, p / 1024)) || m.free != {}
    ensures var t := if m.ram[1024 * dir + p / 1024] % 2 == 1 then m else AddTable(m, dir, p / 1024, flags);
      Valid(t, dir) && Present(DirEntry(t, dir, p / 1024))
      && FrameOf(DirEntry(t, dir, p / 1024)) < TOTAL_FRAMES
      && MapPage(m, dir, p, pa, flags) == SetEntry(t, dir, p, Entry(pa, flags))
  {
    AddTableLaw(m, dir, p / 1024, flags);
    MapPageCases(m, dir, p, pa, flags);
    hide Valid, SetEntry, MapPage, Pages, Entry;
  }

  // vmm_unmap_page clears one word of an existing table, and does nothing without one.
  lemma UnmapPageExactly(m: Mmu, dir: nat, p: nat, i: nat)
    requires Valid(m, dir) && p < PAGES && i < RAM_WORDS
    ensures var n := UnmapPage(m, dir, p);
      n.free == m.free
      && n.ram[i] ==
        if m.ram[1024 * dir + p / 1024] % 2 == 1 && i == m.ram[1024 * dir + p / 1024] / 4096 * 1024 + p % 1024
        then 0 else m.ram[i]
  {
    if Present(DirEntry(m, dir, p / 1024)) {
      SetEntryExactly(m, dir, p, 0, i);
    }
  }

  // vmm_get_physical: bits 22 to 31 of the address choose the directory entry, bits
  // 12 to 21 the entry of the table it points to; 0 if either is not present.
  lemma PhysicalExactly(m: Mmu, dir: nat, va: Word)
    requires Valid(m, dir)
    ensures var d := m.ram[1024 * dir + va / 0x40_0000];
      && (d % 2 == 0 ==> Physical(m, dir, va) == 0)
      && (d % 2 == 1 ==>
        && d / 4096 < 4096
        && var e := m.ram[1024 * (d / 4096) + va / 4096 % 1024];
          Physical(m, dir, va) == if e % 2 == 0 then 0 else e / 4096 * 4096 + va % 4096)
  {
    assert va / 4096 / 1024 == va / 0x40_0000;
    if Present(DirEntry(m, dir, va / 4096 / 1024)) {
      assert TableOk(m, dir, FrameOf(DirEntry(m, dir, va / 4096 / 1024)));
    }
  }

  // The memory vmm_init leaves: the directory in frame dir, the four tables after
  // frame ident, and every other word as it was.
  lemma InitExactly(ram: Ram, dir: nat, ident: nat, i: nat)
    requires dir < TOTAL_FRAMES && ident + 4 <= TOTAL_FRAMES && i < RAM_WORDS
    ensures InitRam(ram, dir, ident)[i] ==
      if i / 1024 == dir then (if i % 1024 < 4 then 4096 * (ident + i % 1024) + 3 else 0)
      else if ident <= i / 1024 < ident + 4 then 4096 * (i - 1024 * ident) + 3
      else ram[i]
  {
  }
}
