// ELF32 executables as kernel/elf.c reads them, and what loading does to memory.
module ElfImages {
  import opened Machine

  const MEMORY := 0x100_0000      // 16 MB of RAM
  const LOAD_BASE := 0x60_0000    // lowest address a segment may have
  const EHDR := 52
  const PHDR := 32
  const PT_LOAD := 1

  type Bytes = seq<Byte>
  type Ram = m: Bytes | |m| == MEMORY witness seq(MEMORY, _ => 0)

  function Le16(d: Bytes, p: nat): Half
    requires p + 2 <= |d|
  {
    d[p] as int + d[p + 1] as int * 0x100
  }

  function Le32(d: Bytes, p: nat): Word
    requires p + 4 <= |d|
  {
    d[p] as int + d[p + 1] as int * 0x100 + d[p + 2] as int * 0x1_0000 + d[p + 3] as int * 0x100_0000
  }

  // elf_validate
  function Validate(d: Bytes): int {
    if |d| < EHDR then -1
    else if Le32(d, 0) != 0x464C_457F then -1
    else if d[4] != 1 then -2
    else if d[5] != 1 then -3
    else if Le16(d, 16) != 2 then -4
    else if Le16(d, 18) != 3 then -5
    else 0
  }

  datatype Segment = Segment(kind: Word, offset: Word, vaddr: Word, filesz: Word, memsz: Word) {
    function Extent(): nat { if memsz > filesz then memsz else filesz }
    function End(): nat { vaddr + Extent() }
  }

  function EntryPoint(d: Bytes): Word
    requires |d| >= EHDR
  {
    Le32(d, 24)
  }

  function Count(d: Bytes): nat
    requires |d| >= EHDR
  {
    Le16(d, 44)
  }

  // Where program header i lies in the file.
  function HeaderAt(d: Bytes, i: nat): nat
    requires |d| >= EHDR
  {
    Le32(d, 28) + i * Le16(d, 42)
  }

  function SegmentAt(d: Bytes, p: nat): Segment
    requires p + PHDR <= |d|
  {
    Segment(Le32(d, p), Le32(d, p + 4), Le32(d, p + 8), Le32(d, p + 16), Le32(d, p + 20))
  }

  // Program headers, and the segments to load from them, lie in the file, and
  // the segments end within memory.
  ghost predicate WellFormed(d: Bytes) {
    |d| >= EHDR && forall i: nat :: i < Count(d) ==> Sound(d, i)
  }

  ghost predicate Sound(d: Bytes, i: nat)
    requires |d| >= EHDR
  {
    && HeaderAt(d, i) + PHDR <= |d|
    && var s := SegmentAt(d, HeaderAt(d, i));
      s.kind == PT_LOAD && s.vaddr >= LOAD_BASE ==> s.offset + s.filesz <= |d| && s.End() <= MEMORY
  }

  function Seg(d: Bytes, i: nat): Segment
    requires |d| >= EHDR && HeaderAt(d, i) + PHDR <= |d|
  {
    SegmentAt(d, HeaderAt(d, i))
  }

  // -- loading -----------------------------------------------------------------

  function Overlay(m: Ram, at: nat, b: Bytes): Ram
    requires at + |b| <= MEMORY
  {
    m[..at] + b + m[at + |b|..]
  }

  // The segment's bytes from the file, then zeros up to its size in memory.
  function Image(d: Bytes, s: Segment): (b: Bytes)
    requires s.offset + s.filesz <= |d|
    ensures |b| == s.Extent()
  {
    d[s.offset..s.offset + s.filesz] + if s.memsz > s.filesz then seq(s.memsz - s.filesz, _ => 0) else []
  }

  // The loop over program headers from i on: the memory it leaves, and whether it
  // reaches the end.
  ghost function Load(m: Ram, d: Bytes, i: nat): (r: (Ram, bool))
    requires WellFormed(d) && i <= Count(d)
    decreases Count(d) - i, d
  {
    if i == Count(d) then (m, true)
    else
      assert Sound(d, i);
      var s := Seg(d, i);
      if s.kind != PT_LOAD then Load(m, d, i + 1)
      else if s.vaddr < LOAD_BASE then (m, false)
      else Load(Overlay(m, s.vaddr, Image(d, s)), d, i + 1)
  }

  ghost predicate IsLoaded(d: Bytes, i: nat)
    requires |d| >= EHDR
  {
    Sound(d, i) && Seg(d, i).kind == PT_LOAD
  }

  // Loading does not touch memory below the lowest load address.
  lemma {:induction false} LoadKeepsLowMemory(m: Ram, d: Bytes, i: nat, a: nat)
    requires WellFormed(d) && i <= Count(d) && a < LOAD_BASE
    ensures Load(m, d, i).0[a] == m[a]
    decreases Count(d) - i
  {
    if i < Count(d) {
      assert Sound(d, i);
      var s := Seg(d, i);
      if s.kind != PT_LOAD {
        LoadKeepsLowMemory(m, d, i + 1, a);
      } else if s.vaddr >= LOAD_BASE {
        LoadKeepsLowMemory(Overlay(m, s.vaddr, Image(d, s)), d, i + 1, a);
      }
    }
  }

  // What loading leaves above the limit depends only on what was above it.
  lemma {:induction false} LoadIgnoresLowMemory(m: Ram, n: Ram, d: Bytes, i: nat)
    requires WellFormed(d) && i <= Count(d) && m[LOAD_BASE..] == n[LOAD_BASE..]
    ensures Load(m, d, i).0[LOAD_BASE..] == Load(n, d, i).0[LOAD_BASE..] && Load(m, d, i).1 == Load(n, d, i).1
    decreases Count(d) - i
  {
    if i < Count(d) {
      assert Sound(d, i);
      var s := Seg(d, i);
      if s.kind != PT_LOAD {
        LoadIgnoresLowMemory(m, n, d, i + 1);
      } else if s.vaddr >= LOAD_BASE {
        var b := Image(d, s);
        OverlaySame(m, n, s.vaddr, b);
        LoadIgnoresLowMemory(Overlay(m, s.vaddr, b), Overlay(n, s.vaddr, b), d, i + 1);
      }
    }
  }

  lemma OverlaySame(m: Ram, n: Ram, at: nat, b: Bytes)
    requires m[LOAD_BASE..] == n[LOAD_BASE..] && LOAD_BASE <= at && at + |b| <= MEMORY
    ensures Overlay(m, at, b)[LOAD_BASE..] == Overlay(n, at, b)[LOAD_BASE..]
  {
    var p, q := Overlay(m, at, b), Overlay(n, at, b);
    forall a | LOAD_BASE <= a < MEMORY ensures p[a] == q[a] {
      assert m[a] == m[LOAD_BASE..][a - LOAD_BASE] && n[a] == n[LOAD_BASE..][a - LOAD_BASE];
    }
  }

  // Address a belongs to no segment to load from header i on.
  ghost predicate Outside(d: Bytes, i: nat, a: nat)
    requires |d| >= EHDR
  {
    forall j: nat :: i <= j < Count(d) && IsLoaded(d, j) ==> !(Seg(d, j).vaddr <= a < Seg(d, j).End())
  }

  // A byte outside every segment from header i on stays as it is.
  lemma {:induction false} LoadKeepsOthers(m: Ram, d: Bytes, i: nat, a: nat)
    requires WellFormed(d) && i <= Count(d) && a < MEMORY
    requires Outside(d, i, a)
    ensures Load(m, d, i).0[a] == m[a]
    decreases Count(d) - i
  {
    if i < Count(d) {
      assert Sound(d, i);
      var s := Seg(d, i);
      if s.kind != PT_LOAD {
        LoadKeepsOthers(m, d, i + 1, a);
      } else if s.vaddr >= LOAD_BASE {
        assert IsLoaded(d, i);
        LoadKeepsOthers(Overlay(m, s.vaddr, Image(d, s)), d, i + 1, a);
      }
    }
  }

  // All segments to load may be loaded, and no two share an address.
  ghost predicate Loadable(d: Bytes) {
    && WellFormed(d)
    && (forall i: nat :: i < Count(d) && IsLoaded(d, i) ==> Seg(d, i).vaddr >= LOAD_BASE)
    && (forall i: nat, j: nat :: i < j < Count(d) && IsLoaded(d, i) && IsLoaded(d, j) ==>
      Seg(d, i).End() <= Seg(d, j).vaddr || Seg(d, j).End() <= Seg(d, i).vaddr)
  }

  // The loop gets to the end exactly when no segment lies below the limit.
  lemma {:induction false} LoadSucceeds(m: Ram, d: Bytes, i: nat)
    requires WellFormed(d) && i <= Count(d)
    ensures Load(m, d, i).1 <==> forall j: nat :: i <= j < Count(d) && IsLoaded(d, j) ==> Seg(d, j).vaddr >= 0x60_0000
    decreases Count(d) - i
  {
    if i < Count(d) {
      assert Sound(d, i);
      var s := Seg(d, i);
      if s.kind != PT_LOAD {
        LoadSucceeds(m, d, i + 1);
      } else if s.vaddr >= LOAD_BASE {
        LoadSucceeds(Overlay(m, s.vaddr, Image(d, s)), d, i + 1);
      } else {
        assert IsLoaded(d, i);
      }
    }
  }

  // Memory after the header i has been dealt with.
  function After(m: Ram, d: Bytes, s: Segment): Ram
    requires s.kind == PT_LOAD ==> s.offset + s.filesz <= |d| && s.End() <= MEMORY
  {
    if s.kind == PT_LOAD then Overlay(m, s.vaddr, Image(d, s)) else m
  }

  lemma LoadStep(m: Ram, d: Bytes, i: nat)
    requires Loadable(d) && i < Count(d)
    ensures Sound(d, i) && var s := Seg(d, i);
      (s.kind == PT_LOAD ==> s.offset + s.filesz <= |d| && s.End() <= MEMORY)
      && Load(m, d, i) == Load(After(m, d, s), d, i + 1)
  {
    assert Sound(d, i);
    if Seg(d, i).kind == PT_LOAD { assert IsLoaded(d, i); }
  }

  lemma OverlayByte(m: Ram, d: Bytes, s: Segment, k: nat)
    requires s.offset + s.filesz <= |d| && s.End() <= MEMORY && k < s.Extent()
    ensures Overlay(m, s.vaddr, Image(d, s))[s.vaddr + k] == if k < s.filesz then d[s.offset + k] else 0
  {
    assert Overlay(m, s.vaddr, Image(d, s))[s.vaddr + k] == Image(d, s)[k];
  }

  lemma LaterSegmentsElsewhere(m: Ram, d: Bytes, j: nat, a: nat)
    requires Loadable(d) && j < Count(d) && IsLoaded(d, j) && Seg(d, j).vaddr <= a < Seg(d, j).End()
    ensures a < MEMORY && Load(m, d, j + 1).0[a] == m[a]
  {
    assert Sound(d, j);
    assert Outside(d, j + 1, a) by {
      forall l: nat | j + 1 <= l < Count(d) && IsLoaded(d, l) ensures !(Seg(d, l).vaddr <= a < Seg(d, l).End()) {
        assert j < l;
      }
    }
    LoadKeepsOthers(m, d, j + 1, a);
  }

  // Each segment holds its bytes from the file followed by zeros.
  lemma {:induction false} LoadPlacesSegment(m: Ram, d: Bytes, i: nat, j: nat, k: nat)
    requires Loadable(d) && i <= j < Count(d) && IsLoaded(d, j) && k < Seg(d, j).Extent()
    ensures Seg(d, j).vaddr + k < MEMORY
    ensures Load(m, d, i).0[Seg(d, j).vaddr + k] ==
      if k < Seg(d, j).filesz then d[Seg(d, j).offset + k] else 0
    decreases Count(d) - i
  {
    hide Load, Overlay, Image;
    LoadStep(m, d, i);
    var n := After(m, d, Seg(d, i));
    if i == j {
      OverlayByte(m, d, Seg(d, j), k);
      LaterSegmentsElsewhere(n, d, j, Seg(d, j).vaddr + k);
    } else {
      LoadPlacesSegment(n, d, i + 1, j, k);
    }
  }

  // Loading a well-formed executable with disjoint segments puts every segment's
  // file bytes and zeros in place and leaves every other byte of memory alone.
  lemma LoadingIsCorrect(m: Ram, d: Bytes)
    requires Loadable(d)
    ensures Load(m, d, 0).1
    ensures forall j: nat, k: nat :: j < Count(d) && IsLoaded(d, j) && k < Seg(d, j).Extent() ==>
      Seg(d, j).vaddr + k < MEMORY && Load(m, d, 0).0[Seg(d, j).vaddr + k] == SegmentByte(d, j, k)
    ensures forall a: nat :: a < MEMORY && Outside(d, 0, a) ==> Load(m, d, 0).0[a] == m[a]
  {
    LoadSucceeds(m, d, 0);
    hide Load;
    forall j: nat, k: nat | j < Count(d) && IsLoaded(d, j) && k < Seg(d, j).Extent()
      ensures Seg(d, j).vaddr + k < MEMORY && Load(m, d, 0).0[Seg(d, j).vaddr + k] == SegmentByte(d, j, k)
    {
      LoadPlacesSegment(m, d, 0, j, k);
    }
    forall a: nat | a < MEMORY && Outside(d, 0, a) ensures Load(m, d, 0).0[a] == m[a] {
      LoadKeepsOthers(m, d, 0, a);
    }
  }

  // Byte k of segment j: from the file as far as it goes there, then zero.
  ghost function SegmentByte(d: Bytes, j: nat, k: nat): Byte
    requires Loadable(d) && j < Count(d) && IsLoaded(d, j) && k < Seg(d, j).Extent()
  {
    if k < Seg(d, j).filesz then d[Seg(d, j).offset + k] else 0
  }
}
