// vmm_init, vmm_map_mmio and whole runs over the page tables.
module PagingLaws {
  import opened Machine
  import opened Pmm
  import opened PageTables

  const IDENTITY_MAP_TABLES := 4

  // -- vmm_init --------------------------------------------------------------

  // The directory of frame dir and the four static tables of frames ident on.
  function InitRam(ram: Ram, dir: nat, ident: nat): Ram
    requires dir < TOTAL_FRAMES && ident + IDENTITY_MAP_TABLES <= TOTAL_FRAMES
  {
    seq(RAM_WORDS, i requires 0 <= i < RAM_WORDS =>
      if i / 1024 == dir then
        if i % 1024 < IDENTITY_MAP_TABLES then 4096 * (ident + i % 1024) + 3 else 0
      else if ident <= i / 1024 < ident + IDENTITY_MAP_TABLES then
        4096 * (1024 * (i / 1024 - ident) + i % 1024) + 3
      else ram[i])
  }

  // Where the linker may put the static tables: in reserved frames.
  ghost predicate Placed(free: set<nat>, dir: nat, ident: nat) {
    && 0 < dir < TOTAL_FRAMES && 0 < ident && ident + IDENTITY_MAP_TABLES <= TOTAL_FRAMES
    && !(ident <= dir < ident + IDENTITY_MAP_TABLES)
    && (forall f :: f in free ==> f < TOTAL_FRAMES && f != 0 && f != dir)
    && (forall f :: f in free ==> !(ident <= f < ident + IDENTITY_MAP_TABLES))
  }

  lemma InitWord(ram: Ram, dir: nat, ident: nat, f: nat, j: nat)
    requires dir < TOTAL_FRAMES && ident + IDENTITY_MAP_TABLES <= TOTAL_FRAMES && f < TOTAL_FRAMES && j < 1024
    ensures InitRam(ram, dir, ident)[1024 * f + j] ==
      if f == dir then (if j < IDENTITY_MAP_TABLES then 4096 * (ident + j) + 3 else 0)
      else if ident <= f < ident + IDENTITY_MAP_TABLES then 4096 * (1024 * (f - ident) + j) + 3
      else ram[1024 * f + j]
  {
    assert (1024 * f + j) / 1024 == f && (1024 * f + j) % 1024 == j;
  }

  lemma InitDirectory(ram: Ram, free: set<nat>, dir: nat, ident: nat, d: nat)
    requires Placed(free, dir, ident) && d < 1024
    ensures DirEntry(Mmu(InitRam(ram, dir, ident), free), dir, d) ==
      if d < IDENTITY_MAP_TABLES then 4096 * (ident + d) + 3 else 0
  {
    InitWord(ram, dir, ident, dir, d);
  }

  // After vmm_init exactly the first 16 MB are mapped, each page to itself.
  lemma InitLaw(ram: Ram, free: set<nat>, dir: nat, ident: nat)
    requires Placed(free, dir, ident)
    ensures var m := Mmu(InitRam(ram, dir, ident), free);
      Valid(m, dir) && Pages(m, dir) == map p: nat | p < TOTAL_FRAMES :: Entry(4096 * p, PTE_WRITABLE)
  {
    var m := Mmu(InitRam(ram, dir, ident), free);
    forall d: nat | d < 1024
      ensures DirEntry(m, dir, d) == if d < IDENTITY_MAP_TABLES then 4096 * (ident + d) + 3 else 0
    {
      InitDirectory(ram, free, dir, ident, d);
    }
    forall p: nat | p < PAGES
      ensures Walk(m, dir, p) == if p < TOTAL_FRAMES then Some(Entry(4096 * p, PTE_WRITABLE)) else None
    {
      InitWalk(ram, free, dir, ident, p);
    }
  }

  lemma InitWalk(ram: Ram, free: set<nat>, dir: nat, ident: nat, p: nat)
    requires Placed(free, dir, ident) && p < PAGES
    ensures Walk(Mmu(InitRam(ram, dir, ident), free), dir, p) ==
      if p < TOTAL_FRAMES then Some(Entry(4096 * p, PTE_WRITABLE)) else None
  {
    hide InitRam, DirEntry, FrameOf, Present, Entry;
    var d, j := p / 1024, p % 1024;
    InitDirectory(ram, free, dir, ident, d);
    if d < IDENTITY_MAP_TABLES {
      IdentityEntry(ident + d);
      InitWord(ram, dir, ident, ident + d, j);
      IdentityEntry(p);
      assert p == 1024 * d + j;
    } else {
      NotPresent();
    }
  }

  lemma NotPresent()
    ensures !Present(0)
  {
  }

  lemma IdentityEntry(f: nat)
    requires f < TOTAL_FRAMES
    ensures FrameOf(4096 * f + 3) == f && Present(4096 * f + 3) && Entry(4096 * f, PTE_WRITABLE) == 4096 * f + 3
  {
    FrameNumber(f, 3);
    FrameNumber(f, 0);
    Odd(2048 * f + 1);
    assert Present(4096 * f + 3) by { hide FrameOf, Entry; }
    hide Present;
  }

  // -- vmm_map_mmio ------------------------------------------------------------

  // vmm_get_physical finds a nonzero address for page p.
  ghost predicate Resolves(m: Mmu, dir: nat, p: nat)
    requires dir < TOTAL_FRAMES && p < PAGES
  {
    Physical(m, dir, 4096 * p) != 0
  }

  // One round of the loop: map page p to itself unless it translates already.
  ghost function MapIfAbsent(m: Mmu, dir: nat, p: nat): Mmu
    requires Valid(m, dir) && p < PAGES
  {
    if Resolves(m, dir, p) then m else MapPage(m, dir, p, 4096 * p, PTE_PRESENT + PTE_WRITABLE)
  }

  ghost function MapRange(m: Mmu, dir: nat, p: nat, q: nat): Mmu
    requires Valid(m, dir) && q <= PAGES
    decreases q - p
  {
    if p >= q then m
    else
      MapPageLaw(m, dir, p, 4096 * p, 3);
      MapRange(MapIfAbsent(m, dir, p), dir, p + 1, q)
  }

  // The directory slots of pages p to q - 1 that have no table yet.
  ghost function Missing(m: Mmu, dir: nat, p: nat, q: nat): set<nat>
    requires dir < TOTAL_FRAMES && q <= PAGES
  {
    set r | p <= r < q && !Present(DirEntry(m, dir, r / 1024)) :: r / 1024
  }

  ghost predicate SelfMapped(m: Mmu, dir: nat, r: nat)
    requires dir < TOTAL_FRAMES && r < PAGES
  {
    Walk(m, dir, r) == Some(4096 * r + PTE_PRESENT + PTE_WRITABLE)
  }

  lemma WalkFromPages(m: Mmu, dir: nat, r: nat)
    requires dir < TOTAL_FRAMES && r < PAGES
    ensures Walk(m, dir, r) == if r in Pages(m, dir) then Some(Pages(m, dir)[r]) else None
  {
  }

  // One round changes at most page p.
  lemma MapIfAbsentLaw(m: Mmu, dir: nat, p: nat)
    requires Valid(m, dir) && p < PAGES
    ensures var n := MapIfAbsent(m, dir, p);
      && Valid(n, dir) && n.free <= m.free
      && (forall r :: 0 <= r < PAGES && r != p ==> Walk(n, dir, r) == Walk(m, dir, r))
      && (forall r :: 0 <= r < PAGES && r != p ==> (Resolves(n, dir, r) <==> Resolves(m, dir, r)))
      && (if Resolves(m, dir, p) then n == m
          else if Present(DirEntry(m, dir, p / 1024)) || m.free != {} then SelfMapped(n, dir, p) else n == m)
  {
    hide Valid, MapPage, Walk, Pages, Resolves, Entry;
    var n := MapIfAbsent(m, dir, p);
    MapPageLaw(m, dir, p, 4096 * p, 3);
    forall r | 0 <= r < PAGES && r != p
      ensures Walk(n, dir, r) == Walk(m, dir, r) && (Resolves(n, dir, r) <==> Resolves(m, dir, r))
    {
      WalkFromPages(m, dir, r);
      WalkFromPages(n, dir, r);
      ResolvesFromWalk(m, n, dir, r);
    }
    WalkFromPages(n, dir, p);
    SelfEntry(p);
  }

  lemma SelfEntry(p: nat)
    requires p < PAGES
    ensures Entry(4096 * p, 3) == 4096 * p + 3
  {
    FrameNumber(p, 0);
  }

  lemma ResolvesFromWalk(m: Mmu, n: Mmu, dir: nat, r: nat)
    requires dir < TOTAL_FRAMES && r < PAGES && Walk(n, dir, r) == Walk(m, dir, r)
    ensures Resolves(n, dir, r) <==> Resolves(m, dir, r)
  {
    hide Walk;
  }

  // It uses up a frame only for a slot that afterwards is no longer missing.
  lemma MissingShrinks(m: Mmu, dir: nat, p: nat, q: nat)
    requires Valid(m, dir) && p < q <= PAGES
    requires |Missing(m, dir, p, q)| <= |m.free|
    ensures Present(DirEntry(m, dir, p / 1024)) || m.free != {}
    ensures |Missing(MapIfAbsent(m, dir, p), dir, p + 1, q)| <= |MapIfAbsent(m, dir, p).free|
  {
    hide Valid, MapPage;
    var d, n := p / 1024, MapIfAbsent(m, dir, p);
    if !Present(DirEntry(m, dir, d)) {
      assert d in Missing(m, dir, p, q);
    }
    MapPageSlots(m, dir, p, 4096 * p, 3);
    var used := if n == m || Present(DirEntry(m, dir, d)) then {} else {d};
    forall e | e in Missing(n, dir, p + 1, q) ensures e in Missing(m, dir, p, q) - used {
      var r :| p + 1 <= r < q && !Present(DirEntry(n, dir, r / 1024)) && r / 1024 == e;
      assert !Present(DirEntry(m, dir, r / 1024));
    }
    SubsetSize(Missing(n, dir, p + 1, q), Missing(m, dir, p, q) - used);
  }

  // vmm_map_mmio over pages p to q - 1: pages outside the range and pages that
  // already translate to a nonzero address keep their entry; every other page of
  // the range is mapped to itself, unless the frames ran out.
  lemma {:induction false} MapRangeLaw(m: Mmu, dir: nat, p: nat, q: nat)
    requires Valid(m, dir) && q <= PAGES
    ensures var n := MapRange(m, dir, p, q);
      && Valid(n, dir) && n.free <= m.free
      && (forall r :: 0 <= r < PAGES && (!(p <= r < q) || Resolves(m, dir, r)) ==> Walk(n, dir, r) == Walk(m, dir, r))
      && (forall r :: p <= r < q && !Resolves(m, dir, r) ==>
        SelfMapped(n, dir, r) || (n.free == {} && Walk(n, dir, r) == Walk(m, dir, r)))
    decreases q - p
  {
    hide Valid, MapIfAbsent, Resolves, Walk;
    if p < q {
      var k, n := MapIfAbsent(m, dir, p), MapRange(m, dir, p, q);
      MapIfAbsentLaw(m, dir, p);
      MapRangeLaw(k, dir, p + 1, q);
    }
  }

  // If there is a free frame for every table the range still needs, every page
  // of it that did not translate before is mapped to itself.
  lemma {:induction false} MapRangeComplete(m: Mmu, dir: nat, p: nat, q: nat)
    requires Valid(m, dir) && q <= PAGES && |Missing(m, dir, p, q)| <= |m.free|
    ensures forall r :: p <= r < q && !Resolves(m, dir, r) ==> SelfMapped(MapRange(m, dir, p, q), dir, r)
    decreases q - p
  {
    hide Valid, MapIfAbsent, Missing, Resolves, Walk;
    if p < q {
      var k := MapIfAbsent(m, dir, p);
      MapIfAbsentLaw(m, dir, p);
      MissingShrinks(m, dir, p, q);
      MapRangeComplete(k, dir, p + 1, q);
      MapRangeLaw(k, dir, p + 1, q);
    }
  }

  // The pages of vmm_map_mmio cover the range of the device exactly when rounding
  // up the end of it does not wrap around 32 bits.
  lemma MmioPagesCoverRange(phys: Word, size: Word)
    ensures var q := (phys + size + 0xFFF) % TWO_32 / 4096;
      (forall a :: phys <= a < phys + size ==> InPages(phys / 4096, q, a)) <==>
      size == 0 || phys + size + 0xFFF < TWO_32
  {
    var q := (phys + size + 0xFFF) % TWO_32 / 4096;
    if phys + size + 0xFFF < TWO_32 {
      assert (phys + size + 0xFFF) % TWO_32 == phys + size + 0xFFF;
      assert forall a :: phys <= a < phys + size ==> InPages(phys / 4096, q, a);
    } else if size > 0 {
      assert (phys + size + 0xFFF) % TWO_32 <= phys + size + 0xFFF - TWO_32;
      assert !InPages(phys / 4096, q, phys + size - 1);
    }
  }

  predicate InPages(p: nat, q: nat, a: int) { p <= a / 4096 < q }

  // Without wraparound and with frames enough, every address of the device's
  // range translates to itself after vmm_map_mmio, unless its page translated to
  // a nonzero address before; then it translates as it did.
  lemma MmioIsMapped(m: Mmu, dir: nat, phys: Word, size: Word, a: Word)
    requires Valid(m, dir) && phys + size + 0xFFF < TWO_32 && phys <= a < phys + size
    requires |Missing(m, dir, phys / 4096, (phys + size + 0xFFF) / 4096)| <= |m.free|
    ensures var n := MapRange(m, dir, phys / 4096, (phys + size + 0xFFF) / 4096);
      Valid(n, dir) && Physical(n, dir, a) ==
        if Physical(m, dir, a / 4096 * 4096) != 0 then Physical(m, dir, a) else a
  {
    assert Resolves(m, dir, a / 4096) <==> Physical(m, dir, a / 4096 * 4096) != 0;
    hide Valid, MapRange, Missing, Resolves, Walk;
    var p, q := phys / 4096, (phys + size + 0xFFF) / 4096;
    assert p <= a / 4096 < q;
    MapRangeLaw(m, dir, p, q);
    MapRangeComplete(m, dir, p, q);
    SelfMappedTranslates(MapRange(m, dir, p, q), dir, a);
  }

  lemma SelfMappedTranslates(m: Mmu, dir: nat, a: Word)
    requires dir < TOTAL_FRAMES
    ensures SelfMapped(m, dir, a / 4096) ==> Physical(m, dir, a) == a
  {
  }

  // -- whole runs ------------------------------------------------------------

  datatype Op =
    | MapMmio(start: nat, end: nat)
    | Map(page: nat, pa: Word, flags: Word)
    | Unmap(page: nat)
  {
    predicate Sized() {
      match this
      case MapMmio(p, q) => q <= PAGES
      case Map(p, pa, flags) => p < PAGES && flags < 4096
      case Unmap(p) => p < PAGES
    }

    // Pages of the 16 MB of RAM are mapped to themselves, if at all, and never
    // unmapped; device ranges may be mapped anywhere.
    predicate Legal() {
      && Sized()
      && match this
         case MapMmio(p, q) => true
         case Map(p, pa, flags) => p >= TOTAL_FRAMES || Entry(pa, flags) == 4096 * p + PTE_PRESENT + PTE_WRITABLE
         case Unmap(p) => p >= TOTAL_FRAMES
    }
  }

  ghost function Apply(m: Mmu, dir: nat, op: Op): Mmu
    requires Valid(m, dir) && op.Sized()
  {
    match op
    case MapMmio(p, q) => MapRange(m, dir, p, q)
    case Map(p, pa, flags) => MapPage(m, dir, p, pa, flags)
    case Unmap(p) => UnmapPage(m, dir, p)
  }

  ghost predicate Run(m: Mmu, dir: nat, ops: seq<Op>, n: Mmu)
    decreases |ops|
  {
    if ops == [] then n == m
    else Valid(m, dir) && ops[0].Legal() && Run(Apply(m, dir, ops[0]), dir, ops[1..], n)
  }

  // Every address below 16 MB is its own physical address.
  ghost predicate IdentityBelow16MB(m: Mmu, dir: nat)
    requires dir < TOTAL_FRAMES
  {
    forall r :: 0 <= r < TOTAL_FRAMES ==> SelfMapped(m, dir, r)
  }

  // An operation keeps the identity map of the 16 MB exactly when it is legal.
  lemma ApplyKeepsIdentity(m: Mmu, dir: nat, op: Op)
    requires Valid(m, dir) && op.Sized() && IdentityBelow16MB(m, dir)
    ensures Valid(Apply(m, dir, op), dir)
    ensures IdentityBelow16MB(Apply(m, dir, op), dir) <==> op.Legal()
  {
    hide Valid, MapPage, UnmapPage, MapRange, Walk, Physical, Entry;
    var n := Apply(m, dir, op);
    match op {
      case MapMmio(p, q) => MapRangeLaw(m, dir, p, q);
      case Map(p, pa, flags) =>
        MapPageLaw(m, dir, p, pa, flags);
        if p < TOTAL_FRAMES { TableBehind(m, dir, p); }
      case Unmap(p) => UnmapPageLaw(m, dir, p);
    }
    forall r | 0 <= r < TOTAL_FRAMES ensures SelfMapped(n, dir, r) <==> op.Legal() || !Touches(op, r) {
      assert SelfMapped(m, dir, r);
      WalkFromPages(m, dir, r);
      WalkFromPages(n, dir, r);
    }
    if !op.Legal() { assert Touches(op, op.page); }
  }

  // The operation is on the single page r.
  predicate Touches(op: Op, r: int) { !op.MapMmio? && op.page == r }

  lemma TableBehind(m: Mmu, dir: nat, p: nat)
    requires dir < TOTAL_FRAMES && p < PAGES && SelfMapped(m, dir, p)
    ensures Present(DirEntry(m, dir, p / 1024))
  {
  }

  // In every state after vmm_init, low memory is identity mapped, and each page
  // table is a reserved frame that the kernel reaches at its physical address,
  // shared by no two directory slots.
  lemma {:induction false} RunKeepsIdentity(m: Mmu, dir: nat, ops: seq<Op>, n: Mmu)
    requires Valid(m, dir) && IdentityBelow16MB(m, dir) && Run(m, dir, ops, n)
    ensures Valid(n, dir) && IdentityBelow16MB(n, dir)
    ensures forall v: Word :: v < TOTAL_MEMORY ==> Physical(n, dir, v) == v
    ensures forall d: nat :: d < 1024 && Present(DirEntry(n, dir, d)) ==>
      FrameOf(DirEntry(n, dir, d)) !in n.free && PageBase(DirEntry(n, dir, d)) < TOTAL_MEMORY
    decreases |ops|
  {
    if ops == [] {
      forall v: Word | v < TOTAL_MEMORY ensures Physical(n, dir, v) == v {
        assert SelfMapped(n, dir, v / 4096);
      }
      forall d: nat | d < 1024 && Present(DirEntry(n, dir, d))
        ensures FrameOf(DirEntry(n, dir, d)) !in n.free && PageBase(DirEntry(n, dir, d)) < TOTAL_MEMORY
      {
        assert TableOk(n, dir, FrameOf(DirEntry(n, dir, d)));
      }
    } else {
      ApplyKeepsIdentity(m, dir, ops[0]);
      RunKeepsIdentity(Apply(m, dir, ops[0]), dir, ops[1..], n);
    }
  }

  lemma InitStartsIdentity(ram: Ram, free: set<nat>, dir: nat, ident: nat)
    requires Placed(free, dir, ident)
    ensures var m := Mmu(InitRam(ram, dir, ident), free); Valid(m, dir) && IdentityBelow16MB(m, dir)
  {
    hide Valid, Walk, InitRam;
    InitLaw(ram, free, dir, ident);
    var m := Mmu(InitRam(ram, dir, ident), free);
    forall r | 0 <= r < TOTAL_FRAMES ensures SelfMapped(m, dir, r) {
      WalkFromPages(m, dir, r);
    }
  }
}
