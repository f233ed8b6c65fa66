// ELF32 files as the format lays them out, byte by byte, and what the loader of
// kernel/elf.c makes of them.
module ElfLayout {
  import opened Machine
  import opened ElfImages

  // Least significant byte first.
  function Lsb2(v: Half): Bytes { [v % 256, v / 256] }
  function Lsb4(v: Word): Bytes { [v % 256, v / 0x100 % 256, v / 0x1_0000 % 256, v / 0x100_0000] }

  datatype Header = Header(
    class32: Byte, encoding: Byte, identVersion: Byte, osabi: Byte, pad: Bytes,
    etype: Half, machine: Half, version: Word, entry: Word, phoff: Word, shoff: Word, flags: Word,
    ehsize: Half, phentsize: Half, phnum: Half, shentsize: Half, shnum: Half, shstrndx: Half)

  function HeaderBytes(h: Header): Bytes {
    [0x7F, 0x45, 0x4C, 0x46, h.class32, h.encoding, h.identVersion, h.osabi] + h.pad
      + (Lsb2(h.etype) + Lsb2(h.machine) + Lsb4(h.version))
      + (Lsb4(h.entry) + Lsb4(h.phoff) + Lsb4(h.shoff) + Lsb4(h.flags))
      + (Lsb2(h.ehsize) + Lsb2(h.phentsize) + Lsb2(h.phnum) + Lsb2(h.shentsize) + Lsb2(h.shnum) + Lsb2(h.shstrndx))
  }

  datatype ProgramHeader = ProgramHeader(
    ptype: Word, offset: Word, vaddr: Word, paddr: Word, filesz: Word, memsz: Word, flags: Word, align: Word)

  function ProgramHeaderBytes(p: ProgramHeader): Bytes {
    Lsb4(p.ptype) + Lsb4(p.offset) + Lsb4(p.vaddr) + Lsb4(p.paddr)
      + (Lsb4(p.filesz) + Lsb4(p.memsz) + Lsb4(p.flags) + Lsb4(p.align))
  }

  // A file that begins with header h.
  ghost predicate Begins(d: Bytes, h: Header) {
    |h.pad| == 8 && |d| >= 52 && d[..52] == HeaderBytes(h)
  }

  // Its program headers are ps.
  ghost predicate LaidOut(d: Bytes, h: Header, ps: seq<ProgramHeader>) {
    Begins(d, h) && |ps| == h.phnum && forall i: nat :: i < |ps| ==> HasProgramHeader(d, h, i, ps[i])
  }

  ghost predicate HasProgramHeader(d: Bytes, h: Header, i: nat, p: ProgramHeader) {
    var at := h.phoff + i * h.phentsize;
    at + 32 <= |d| && d[at..at + 32] == ProgramHeaderBytes(p)
  }

  // -- reading the fields back -------------------------------------------------------

  lemma ReadHalf(d: Bytes, at: nat, v: Half)
    requires at + 2 <= |d| && d[at..at + 2] == Lsb2(v)
    ensures Le16(d, at) == v
  {
    assert d[at] == d[at..at + 2][0] && d[at + 1] == d[at..at + 2][1];
  }

  lemma ReadWord(d: Bytes, at: nat, v: Word)
    requires at + 4 <= |d| && d[at..at + 4] == Lsb4(v)
    ensures Le32(d, at) == v
  {
    var b := d[at..at + 4];
    assert d[at] == b[0] && d[at + 1] == b[1] && d[at + 2] == b[2] && d[at + 3] == b[3];
    BytesOfWord(v);
  }

  lemma BytesOfWord(v: Word)
    ensures v == v % 256 + v / 0x100 % 256 * 0x100 + v / 0x1_0000 % 256 * 0x1_0000 + v / 0x100_0000 * 0x100_0000
  {
  }

  lemma HeaderParts(d: Bytes, h: Header)
    requires Begins(d, h)
    ensures d[..8] == [0x7F, 0x45, 0x4C, 0x46, h.class32, h.encoding, h.identVersion, h.osabi]
    ensures d[16..18] == Lsb2(h.etype) && d[18..20] == Lsb2(h.machine)
    ensures d[24..28] == Lsb4(h.entry) && d[28..32] == Lsb4(h.phoff)
    ensures d[42..44] == Lsb2(h.phentsize) && d[44..46] == Lsb2(h.phnum)
  {
    var b := HeaderBytes(h);
    assert d[..52] == b;
    assert d[..8] == b[..8] && d[16..18] == b[16..18] && d[18..20] == b[18..20];
    assert d[24..28] == b[24..28] && d[28..32] == b[28..32];
    assert d[42..44] == b[42..44] && d[44..46] == b[44..46];
  }

  // The loader takes entry, place, size and number of program headers from the
  // fields of these names, and accepts 32-bit little-endian executables for the
  // i386 only.
  lemma HeaderExactly(d: Bytes, h: Header)
    requires Begins(d, h)
    ensures EntryPoint(d) == h.entry && Count(d) == h.phnum
    ensures Le32(d, 28) == h.phoff && Le16(d, 42) == h.phentsize
    ensures Validate(d) ==
      if h.class32 != 1 then -2 else if h.encoding != 1 then -3
      else if h.etype != 2 then -4 else if h.machine != 3 then -5 else 0
  {
    HeaderParts(d, h);
    hide Begins, HeaderBytes, Lsb2, Lsb4, Le16, Le32;
    ReadWord(d, 24, h.entry);
    ReadWord(d, 28, h.phoff);
    ReadHalf(d, 42, h.phentsize);
    ReadHalf(d, 44, h.phnum);
    ReadHalf(d, 16, h.etype);
    ReadHalf(d, 18, h.machine);
    assert d[4] == d[..8][4] && d[5] == d[..8][5];
    MagicExactly(d);
  }

  lemma PlaceExactly(d: Bytes, h: Header, i: nat)
    requires Begins(d, h)
    ensures HeaderAt(d, i) == h.phoff + i * h.phentsize
  {
    HeaderExactly(d, h);
    hide Begins, Le16, Le32;
  }

  // The magic number is the four bytes 0x7F, 'E', 'L', 'F'.
  lemma MagicExactly(d: Bytes)
    requires |d| >= 8
    ensures Le32(d, 0) == 0x464C_457F <==> d[..8][..4] == [0x7F, 0x45, 0x4C, 0x46]
  {
    assert d[..8][..4] == [d[0], d[1], d[2], d[3]];
  }

  // A file without it is refused.
  lemma NoMagicNoFile(d: Bytes)
    ensures |d| < 52 || d[..8][..4] != [0x7F, 0x45, 0x4C, 0x46] ==> Validate(d) == -1
  {
    hide Le16, Le32;
    if |d| >= 52 { MagicExactly(d); }
  }

  lemma ProgramHeaderParts(d: Bytes, at: nat, p: ProgramHeader)
    requires at + 32 <= |d| && d[at..at + 32] == ProgramHeaderBytes(p)
    ensures d[at..at + 4] == Lsb4(p.ptype) && d[at + 4..at + 8] == Lsb4(p.offset)
    ensures d[at + 8..at + 12] == Lsb4(p.vaddr) && d[at + 16..at + 20] == Lsb4(p.filesz)
    ensures d[at + 20..at + 24] == Lsb4(p.memsz)
  {
    var b := ProgramHeaderBytes(p);
    assert b[..4] == Lsb4(p.ptype) && b[4..8] == Lsb4(p.offset) && b[8..12] == Lsb4(p.vaddr);
    assert b[16..20] == Lsb4(p.filesz) && b[20..24] == Lsb4(p.memsz);
    hide ProgramHeaderBytes, Lsb4;
    Slice(d, at, 32, 0, 4);
    Slice(d, at, 32, 4, 8);
    Slice(d, at, 32, 8, 12);
    Slice(d, at, 32, 16, 20);
    Slice(d, at, 32, 20, 24);
  }

  lemma Slice(d: Bytes, at: nat, n: nat, i: nat, j: nat)
    requires at + n <= |d| && i <= j <= n
    ensures d[at..at + n][i..j] == d[at + i..at + j]
  {
    var a, b := d[at..at + n][i..j], d[at + i..at + j];
    forall k: nat | k < j - i ensures a[k] == b[k] {
      assert a[k] == d[at..at + n][i + k] == d[at + i + k];
    }
  }

  // The fields of a program header are those of these names.
  lemma SegmentExactly(d: Bytes, h: Header, i: nat, p: ProgramHeader)
    requires Begins(d, h) && HasProgramHeader(d, h, i, p)
    ensures HeaderAt(d, i) + PHDR <= |d| && Seg(d, i) == Segment(p.ptype, p.offset, p.vaddr, p.filesz, p.memsz)
  {
    assert |d| >= 52;
    hide Begins, ProgramHeaderBytes, Lsb4, Le32, HeaderAt;
    PlaceExactly(d, h, i);
    var at := HeaderAt(d, i);
    ProgramHeaderParts(d, at, p);
    ReadWord(d, at, p.ptype);
    ReadWord(d, at + 4, p.offset);
    ReadWord(d, at + 8, p.vaddr);
    ReadWord(d, at + 16, p.filesz);
    ReadWord(d, at + 20, p.memsz);
  }

  // -- loading a file of this layout -------------------------------------------------

  function Size(p: ProgramHeader): nat { if p.memsz > p.filesz then p.memsz else p.filesz }

  // The segments of type 1 have their bytes in the file and their place between
  // 0x600000 and the end of 16 MB.
  ghost predicate Fit(d: Bytes, ps: seq<ProgramHeader>) {
    forall i: nat :: i < |ps| && ps[i].ptype == 1 ==>
      ps[i].offset + ps[i].filesz <= |d| && 0x60_0000 <= ps[i].vaddr && ps[i].vaddr + Size(ps[i]) <= 0x100_0000
  }

  ghost predicate Apart(ps: seq<ProgramHeader>) {
    forall i: nat, j: nat :: i < j < |ps| && ps[i].ptype == 1 && ps[j].ptype == 1 ==>
      ps[i].vaddr + Size(ps[i]) <= ps[j].vaddr || ps[j].vaddr + Size(ps[j]) <= ps[i].vaddr
  }

  lemma LaidOutIsLoadable(d: Bytes, h: Header, ps: seq<ProgramHeader>)
    requires LaidOut(d, h, ps) && Fit(d, ps) && Apart(ps)
    ensures Loadable(d) && Count(d) == |ps|
    ensures forall i: nat :: i < |ps| ==>
      IsLoaded(d, i) == (ps[i].ptype == 1) && HeaderAt(d, i) + PHDR <= |d|
      && Seg(d, i) == Segment(ps[i].ptype, ps[i].offset, ps[i].vaddr, ps[i].filesz, ps[i].memsz)
  {
    HeaderExactly(d, h);
    forall i: nat | i < |ps|
      ensures HeaderAt(d, i) + PHDR <= |d|
      ensures Seg(d, i) == Segment(ps[i].ptype, ps[i].offset, ps[i].vaddr, ps[i].filesz, ps[i].memsz)
    {
      assert HasProgramHeader(d, h, i, ps[i]);
      SegmentExactly(d, h, i, ps[i]);
    }
    hide Begins, HeaderAt, SegmentAt, Count;
    forall i: nat | i < |ps| ensures Sound(d, i) {
      assert Seg(d, i) == Segment(ps[i].ptype, ps[i].offset, ps[i].vaddr, ps[i].filesz, ps[i].memsz);
    }
  }

  // Every byte of a segment of type 1 comes from the file as far as its file size
  // goes and is zero from there on.
  lemma LoadsSegment(m: Ram, d: Bytes, h: Header, ps: seq<ProgramHeader>, j: nat, k: nat)
    requires LaidOut(d, h, ps) && Fit(d, ps) && Apart(ps) && j < |ps| && ps[j].ptype == 1 && k < Size(ps[j])
    ensures Loadable(d) && Load(m, d, 0).1 && ps[j].vaddr + k < 0x100_0000
    ensures Load(m, d, 0).0[ps[j].vaddr + k] == if k < ps[j].filesz then d[ps[j].offset + k] else 0
  {
    hide *;
    LaidOutSegment(d, h, ps, j);
    LoadableSucceeds(m, d);
    LoadPlacesSegment(m, d, 0, j, k);
  }

  lemma LaidOutSegment(d: Bytes, h: Header, ps: seq<ProgramHeader>, j: nat)
    requires LaidOut(d, h, ps) && Fit(d, ps) && Apart(ps) && j < |ps| && ps[j].ptype == 1
    ensures Loadable(d) && |d| >= EHDR && j < Count(d) && IsLoaded(d, j) && HeaderAt(d, j) + PHDR <= |d|
    ensures WellFormed(d)
    ensures var s := Seg(d, j);
      s.vaddr == ps[j].vaddr && s.offset == ps[j].offset && s.filesz == ps[j].filesz && s.Extent() == Size(ps[j])
    ensures ps[j].offset + ps[j].filesz <= |d| && ps[j].vaddr + Size(ps[j]) <= 0x100_0000
  {
    LaidOutIsLoadable(d, h, ps);
  }

  lemma LoadableSucceeds(m: Ram, d: Bytes)
    requires Loadable(d)
    ensures WellFormed(d) && Load(m, d, 0).1
  {
    LoadSucceeds(m, d, 0);
  }

  // Every other byte of memory stays as it was.
  lemma LoadsNothingElse(m: Ram, d: Bytes, h: Header, ps: seq<ProgramHeader>, a: nat)
    requires LaidOut(d, h, ps) && Fit(d, ps) && Apart(ps) && a < 0x100_0000
    requires forall j: nat :: j < |ps| && ps[j].ptype == 1 ==> !(ps[j].vaddr <= a < ps[j].vaddr + Size(ps[j]))
    ensures Loadable(d) && Load(m, d, 0).0[a] == m[a]
  {
    LaidOutIsLoadable(d, h, ps);
    hide Load, Overlay;
    assert Outside(d, 0, a);
    hide Load, Begins, Fit, Apart, LaidOut, HeaderAt, SegmentAt, Count, Outside;
    LoadKeepsOthers(m, d, 0, a);
  }
}
