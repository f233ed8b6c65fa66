// The two-level x86 page tables as a value: physical memory as words, the set
// of free frames, and what the operations of kernel/vmm.c do to both.
module PageTables {
  import opened Machine
  import opened Pmm

  const PTE_PRESENT := 1
  const PTE_WRITABLE := 2
  const RAM_WORDS := 1024 * TOTAL_FRAMES
  const PAGES := 0x10_0000

  // Word i of ram is at physical address 4 * i.
  type Ram = r: seq<Word> | |r| == RAM_WORDS witness seq(RAM_WORDS, _ => 0)

  datatype Mmu = Mmu(ram: Ram, free: set<nat>)

  predicate Present(e: Word) { e % 2 == 1 }
  function FrameOf(e: Word): nat { e / 4096 }          // (e & 0xFFFFF000) / 4096
  function PageBase(a: Word): Word { a / 4096 * 4096 } // a & 0xFFFFF000
  function WithPresent(flags: Word): Word { flags / 2 * 2 + 1 } // flags | PTE_PRESENT

  // Slot d of the directory, which lies in frame dir.
  function DirSlot(dir: nat, d: nat): nat { 1024 * dir + d }

  function DirEntry(m: Mmu, dir: nat, d: nat): Word
    requires dir < TOTAL_FRAMES && d < 1024
  {
    m.ram[DirSlot(dir, d)]
  }

  // The directory, and the frame of every table it points to, are reserved and
  // pairwise different.
  ghost predicate Valid(m: Mmu, dir: nat)
    ensures Valid(m, dir) ==> dir < TOTAL_FRAMES
  {
    && 0 < dir < TOTAL_FRAMES && dir !in m.free && 0 !in m.free
    && (forall f :: f in m.free ==> f < TOTAL_FRAMES)
    && (forall d: nat :: d < 1024 && Present(DirEntry(m, dir, d)) ==> TableOk(m, dir, FrameOf(DirEntry(m, dir, d))))
    && (forall d: nat, e: nat :: d < e < 1024 && Present(DirEntry(m, dir, d)) && Present(DirEntry(m, dir, e)) ==>
      FrameOf(DirEntry(m, dir, d)) != FrameOf(DirEntry(m, dir, e)))
  }

  ghost predicate TableOk(m: Mmu, dir: nat, f: nat) {
    0 < f < TOTAL_FRAMES && f != dir && f !in m.free
  }

  // -- what the hardware sees ------------------------------------------------

  // The table entry for page p, if both levels are present.
  ghost function Walk(m: Mmu, dir: nat, p: nat): Option<Word>
    requires dir < TOTAL_FRAMES && p < PAGES
  {
    var de := DirEntry(m, dir, p / 1024);
    if !Present(de) || FrameOf(de) >= TOTAL_FRAMES then None
    else
      var e := m.ram[1024 * FrameOf(de) + p % 1024];
      if Present(e) then Some(e) else None
  }

  // The partial map from pages to entries that the tables represent.
  ghost function Pages(m: Mmu, dir: nat): map<nat, Word>
    requires dir < TOTAL_FRAMES
  {
    map p: nat | p < PAGES && Walk(m, dir, p).Some? :: Walk(m, dir, p).value
  }

  // -- vmm_map_page, vmm_unmap_page, vmm_get_physical ---------------------------

  function ZeroFrame(ram: Ram, f: nat): Ram {
    seq(RAM_WORDS, i requires 0 <= i < RAM_WORDS => if i / 1024 == f then 0 else ram[i])
  }

  // Give directory slot d a table, if it has none.
  function AddTable(m: Mmu, dir: nat, d: nat, flags: Word): Mmu
    requires dir < TOTAL_FRAMES && d < 1024
  {
    var f := FirstFree(m.free, 0);
    if Present(DirEntry(m, dir, d)) || FrameAddress(f) == 0 then m
    else
      var entry := 4096 * f + PTE_PRESENT + PTE_WRITABLE + flags / 4 % 2 * 4;
      Mmu(ZeroFrame(m.ram, f)[DirSlot(dir, d) := entry], m.free - {f})
  }

  function SetEntry(m: Mmu, dir: nat, p: nat, e: Word): Mmu
    requires dir < TOTAL_FRAMES && p < PAGES
    requires FrameOf(DirEntry(m, dir, p / 1024)) < TOTAL_FRAMES
  {
    m.(ram := m.ram[1024 * FrameOf(DirEntry(m, dir, p / 1024)) + p % 1024 := e])
  }

  // The entry written for physical address pa.
  function Entry(pa: Word, flags: Word): Word
    requires flags < 4096
  {
    PageBase(pa) + WithPresent(flags)
  }

  ghost function MapPage(m: Mmu, dir: nat, p: nat, pa: Word, flags: Word): Mmu
    requires Valid(m, dir) && p < PAGES && flags < 4096
  {
    var n := AddTable(m, dir, p / 1024, flags);
    AddTableLaw(m, dir, p / 1024, flags);
    if Present(DirEntry(n, dir, p / 1024)) then SetEntry(n, dir, p, Entry(pa, flags)) else m
  }

  ghost function UnmapPage(m: Mmu, dir: nat, p: nat): Mmu
    requires Valid(m, dir) && p < PAGES
  {
    if Present(DirEntry(m, dir, p / 1024)) then SetEntry(m, dir, p, 0) else m
  }

  ghost function Physical(m: Mmu, dir: nat, va: Word): Word
    requires dir < TOTAL_FRAMES
  {
    match Walk(m, dir, va / 4096)
    case None => 0
    case Some(e) => PageBase(e) + va % 4096
  }

  // -- laws ----------------------------------------------------------------

  // The directory after AddTable: only slot d differs, and holds the new frame.
  lemma AddTableDirectory(m: Mmu, dir: nat, d: nat, flags: Word, e: nat)
    requires Valid(m, dir) && d < 1024 && e < 1024 && AddTable(m, dir, d, flags) != m
    ensures var n := AddTable(m, dir, d, flags);
      && FirstFree(m.free, 0) in m.free
      && (if e == d then Present(DirEntry(n, dir, e)) && FrameOf(DirEntry(n, dir, e)) == FirstFree(m.free, 0)
          else DirEntry(n, dir, e) == DirEntry(m, dir, e))
  {
    FirstFreeIsLeast(m.free, 0);
  }

  lemma AddTableValid(m: Mmu, dir: nat, d: nat, flags: Word)
    requires Valid(m, dir) && d < 1024
    ensures Valid(AddTable(m, dir, d, flags), dir)
  {
    var n := AddTable(m, dir, d, flags);
    if n != m {
      FirstFreeIsLeast(m.free, 0);
      forall e: nat | e < 1024 && Present(DirEntry(n, dir, e)) ensures TableOk(n, dir, FrameOf(DirEntry(n, dir, e))) {
        AddTableDirectory(m, dir, d, flags, e);
      }
      forall e: nat, g: nat | e < g < 1024 && Present(DirEntry(n, dir, e)) && Present(DirEntry(n, dir, g))
        ensures FrameOf(DirEntry(n, dir, e)) != FrameOf(DirEntry(n, dir, g))
      {
        AddTableDirectory(m, dir, d, flags, e);
        AddTableDirectory(m, dir, d, flags, g);
      }
    }
  }

  lemma AddTableWalk(m: Mmu, dir: nat, d: nat, flags: Word, p: nat)
    requires Valid(m, dir) && d < 1024 && p < PAGES
    ensures Walk(AddTable(m, dir, d, flags), dir, p) == Walk(m, dir, p)
  {
    var n := AddTable(m, dir, d, flags);
    if n != m {
      AddTableDirectory(m, dir, d, flags, p / 1024);
      var f := FrameOf(DirEntry(n, dir, p / 1024));
      assert (1024 * f + p % 1024) / 1024 == f;
    }
  }

  // A new table maps nothing: every page still translates as before.
  lemma AddTableLaw(m: Mmu, dir: nat, d: nat, flags: Word)
    requires Valid(m, dir) && d < 1024
    ensures var n := AddTable(m, dir, d, flags);
      && Valid(n, dir) && Pages(n, dir) == Pages(m, dir)
      && (Present(DirEntry(n, dir, d)) <==> Present(DirEntry(m, dir, d)) || m.free != {})
      && (forall e: nat :: e < 1024 && e != d ==> DirEntry(n, dir, e) == DirEntry(m, dir, e))
      && (n == m || (FirstFree(m.free, 0) in m.free && n.free == m.free - {FirstFree(m.free, 0)}))
  {
    var n := AddTable(m, dir, d, flags);
    FirstFreeIsLeast(m.free, 0);
    AddTableValid(m, dir, d, flags);
    forall p: nat | p < PAGES ensures Walk(n, dir, p) == Walk(m, dir, p) {
      AddTableWalk(m, dir, d, flags, p);
    }
    if n != m {
      forall e: nat | e < 1024
        ensures Present(DirEntry(n, dir, d)) && (e != d ==> DirEntry(n, dir, e) == DirEntry(m, dir, e))
      {
        AddTableDirectory(m, dir, d, flags, e);
        AddTableDirectory(m, dir, d, flags, d);
      }
    }
  }

  lemma SetEntryDirectory(m: Mmu, dir: nat, p: nat, e: Word)
    requires Valid(m, dir) && p < PAGES && Present(DirEntry(m, dir, p / 1024))
    ensures var n := SetEntry(m, dir, p, e);
      Valid(n, dir) && forall d: nat :: d < 1024 ==> DirEntry(n, dir, d) == DirEntry(m, dir, d)
  {
    var n := SetEntry(m, dir, p, e);
    assert TableOk(m, dir, FrameOf(DirEntry(m, dir, p / 1024)));
    forall d: nat | d < 1024 ensures DirEntry(n, dir, d) == DirEntry(m, dir, d) {
    }
  }

  lemma SetEntryWalk(m: Mmu, dir: nat, p: nat, e: Word, q: nat)
    requires Valid(m, dir) && p < PAGES && q < PAGES && Present(DirEntry(m, dir, p / 1024))
    ensures var n := SetEntry(m, dir, p, e);
      Walk(n, dir, q) == if q != p then Walk(m, dir, q) else if Present(e) then Some(e) else None
  {
    SetEntryDirectory(m, dir, p, e);
    var f, g := FrameOf(DirEntry(m, dir, p / 1024)), FrameOf(DirEntry(m, dir, q / 1024));
    if p / 1024 != q / 1024 && Present(DirEntry(m, dir, q / 1024)) {
      assert f != g;
    }
  }

  // Writing one entry of an existing table changes one page.
  lemma SetEntryLaw(m: Mmu, dir: nat, p: nat, e: Word)
    requires Valid(m, dir) && p < PAGES && Present(DirEntry(m, dir, p / 1024))
    ensures var n := SetEntry(m, dir, p, e);
      && Valid(n, dir)
      && Pages(n, dir) == (if Present(e) then Pages(m, dir)[p := e] else Pages(m, dir) - {p})
      && (forall d: nat :: d < 1024 ==> DirEntry(n, dir, d) == DirEntry(m, dir, d))
  {
    hide SetEntry, Walk;
    SetEntryDirectory(m, dir, p, e);
    forall q: nat | q < PAGES
      ensures Walk(SetEntry(m, dir, p, e), dir, q) ==
        if q != p then Walk(m, dir, q) else if Present(e) then Some(e) else None
    {
      SetEntryWalk(m, dir, p, e, q);
    }
  }

  // vmm_map_page changes exactly the page of the address, or nothing at all when
  // it needs a table and no frame is left.
  lemma MapPageLaw(m: Mmu, dir: nat, p: nat, pa: Word, flags: Word)
    requires Valid(m, dir) && p < PAGES && flags < 4096
    ensures var n := MapPage(m, dir, p, pa, flags);
      && Valid(n, dir) && n.free <= m.free
      && (if Present(DirEntry(m, dir, p / 1024)) || m.free != {}
          then Pages(n, dir) == Pages(m, dir)[p := Entry(pa, flags)] else n == m)
  {
    hide Valid, AddTable, SetEntry, Pages;
    MapPageCases(m, dir, p, pa, flags);
    AddTableLaw(m, dir, p / 1024, flags);
    var n := AddTable(m, dir, p / 1024, flags);
    if Present(DirEntry(n, dir, p / 1024)) {
      SetEntryLaw(n, dir, p, Entry(pa, flags));
      EntryIsPresent(pa, flags);
    }
  }

  lemma EntryIsPresent(pa: Word, flags: Word)
    requires flags < 4096
    ensures Present(Entry(pa, flags))
  {
    var q, h := pa / 4096, flags / 2;
    assert Entry(pa, flags) == 2 * (2048 * q + h) + 1;
    Odd(2048 * q + h);
  }

  lemma FrameNumber(f: nat, offset: nat)
    requires offset < 4096
    ensures (4096 * f + offset) / 4096 == f
  {
  }

  lemma Odd(k: nat)
    ensures (2 * k + 1) % 2 == 1
  {
  }

  // vmm_map_page writes the entry exactly when there is a table for it.
  lemma MapPageCases(m: Mmu, dir: nat, p: nat, pa: Word, flags: Word)
    requires Valid(m, dir) && p < PAGES && flags < 4096
    ensures var n := AddTable(m, dir, p / 1024, flags);
      if Present(DirEntry(n, dir, p / 1024)) then
        FrameOf(DirEntry(n, dir, p / 1024)) < TOTAL_FRAMES
        && MapPage(m, dir, p, pa, flags) == SetEntry(n, dir, p, Entry(pa, flags))
        && MapPage(m, dir, p, pa, flags).free == n.free
      else MapPage(m, dir, p, pa, flags) == m
  {
    hide AddTable, Pages;
    AddTableLaw(m, dir, p / 1024, flags);
    var n := AddTable(m, dir, p / 1024, flags);
    if Present(DirEntry(n, dir, p / 1024)) {
      assert TableOk(n, dir, FrameOf(DirEntry(n, dir, p / 1024)));
    }
  }

  // It gives the directory slot of the page a table, taking one frame if the
  // slot had none, and touches no other slot.
  lemma MapPageSlots(m: Mmu, dir: nat, p: nat, pa: Word, flags: Word)
    requires Valid(m, dir) && p < PAGES && flags < 4096
    requires Present(DirEntry(m, dir, p / 1024)) || m.free != {}
    ensures var n := MapPage(m, dir, p, pa, flags);
      && Present(DirEntry(n, dir, p / 1024))
      && (forall e: nat :: e < 1024 && e != p / 1024 ==> DirEntry(n, dir, e) == DirEntry(m, dir, e))
      && |n.free| == |m.free| - if Present(DirEntry(m, dir, p / 1024)) then 0 else 1
  {
    AddTableLaw(m, dir, p / 1024, flags);
    var n := AddTable(m, dir, p / 1024, flags);
    SetEntryLaw(n, dir, p, Entry(pa, flags));
  }

  predicate User(e: Word) { e / 4 % 2 == 1 } // e & PTE_USER

  // A page is open to user programs only if its directory entry is; that entry
  // takes the flag of the call that creates it, and no later call changes it.
  lemma UserFlagOfSlot(m: Mmu, dir: nat, p: nat, pa: Word, flags: Word)
    requires Valid(m, dir) && p < PAGES && flags < 4096
    requires Present(DirEntry(m, dir, p / 1024)) || m.free != {}
    ensures var n := MapPage(m, dir, p, pa, flags);
      User(DirEntry(n, dir, p / 1024)) <==>
      if Present(DirEntry(m, dir, p / 1024)) then User(DirEntry(m, dir, p / 1024)) else User(flags)
  {
    hide Pages;
    AddTableLaw(m, dir, p / 1024, flags);
    MapPageCases(m, dir, p, pa, flags);
    var n := AddTable(m, dir, p / 1024, flags);
    SetEntryLaw(n, dir, p, Entry(pa, flags));
    hide Valid, MapPage, SetEntry;
    if !Present(DirEntry(m, dir, p / 1024)) {
      FirstFreeIsLeast(m.free, 0);
      UserBit(FirstFree(m.free, 0), flags);
    }
  }

  lemma UserBit(f: nat, flags: Word)
    requires f < TOTAL_FRAMES
    ensures User(4096 * f + PTE_PRESENT + PTE_WRITABLE + flags / 4 % 2 * 4) <==> User(flags)
  {
    var b := flags / 4 % 2;
    Quarter(1024 * f + b);
    Parity(512 * f, b);
  }

  lemma Quarter(q: nat)
    ensures (4 * q + 3) / 4 == q
  {
  }

  lemma Parity(k: nat, b: nat)
    requires b < 2
    ensures (2 * k + b) % 2 == b
  {
  }

  // After a successful vmm_map_page, vmm_get_physical joins the frame of the
  // physical address with the offset of the virtual one.
  lemma MapThenTranslate(m: Mmu, dir: nat, va: Word, pa: Word, flags: Word)
    requires Valid(m, dir) && flags < 4096
    requires Present(DirEntry(m, dir, va / 4096 / 1024)) || m.free != {}
    ensures var n := MapPage(m, dir, va / 4096, pa, flags);
      && Valid(n, dir)
      && (forall v: Word :: v / 4096 != va / 4096 ==> Physical(n, dir, v) == Physical(m, dir, v))
      && (forall v: Word :: v / 4096 == va / 4096 ==> Physical(n, dir, v) == pa / 4096 * 4096 + v % 4096)
  {
    MapPageLaw(m, dir, va / 4096, pa, flags);
    var n := MapPage(m, dir, va / 4096, pa, flags);
    forall v: Word
      ensures v / 4096 != va / 4096 ==> Physical(n, dir, v) == Physical(m, dir, v)
      ensures v / 4096 == va / 4096 ==> Physical(n, dir, v) == pa / 4096 * 4096 + v % 4096
    {
      PhysicalFromPages(n, dir, v);
      PhysicalFromPages(m, dir, v);
      assert PageBase(Entry(pa, flags)) == PageBase(pa);
    }
  }

  lemma PhysicalFromPages(m: Mmu, dir: nat, v: Word)
    requires dir < TOTAL_FRAMES
    ensures Physical(m, dir, v) ==
      if v / 4096 in Pages(m, dir) then PageBase(Pages(m, dir)[v / 4096]) + v % 4096 else 0
  {
    var p := v / 4096;
    assert p in Pages(m, dir) <==> Walk(m, dir, p).Some?;
  }

  // vmm_unmap_page removes exactly one page.
  lemma UnmapPageLaw(m: Mmu, dir: nat, p: nat)
    requires Valid(m, dir) && p < PAGES
    ensures var n := UnmapPage(m, dir, p);
      Valid(n, dir) && n.free == m.free && Pages(n, dir) == Pages(m, dir) - {p}
  {
    if Present(DirEntry(m, dir, p / 1024)) {
      SetEntryLaw(m, dir, p, 0);
    } else {
      assert Walk(m, dir, p) == None;
    }
  }
}
