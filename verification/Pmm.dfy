// kernel/pmm.c: the bitmap of 4 KB frames, refining a set of free frames.
module Pmm {
  import opened Machine

  const PAGE_SIZE := 4096
  const TOTAL_MEMORY := 0x100_0000
  const TOTAL_FRAMES := 4096

  // 1 << k in a byte.
  function Mask(k: nat): (m: bv8)
    requires k < 8
    ensures m == (1 as bv8) << k
  {
    match k
    case 0 => 0x01 case 1 => 0x02 case 2 => 0x04 case 3 => 0x08
    case 4 => 0x10 case 5 => 0x20 case 6 => 0x40 case _ => 0x80
  }

  predicate Bit(b: bv8, k: nat)
    requires k < 8
  {
    b & Mask(k) != 0
  }

  // One byte: setting or clearing bit k leaves every other bit j alone.
  lemma SetBit(b: bv8, k: nat, j: nat)
    requires k < 8 && j < 8
    ensures Bit(b | Mask(k), j) <==> j == k || Bit(b, j)
  {
  }

  lemma ClearBit(b: bv8, k: nat, j: nat)
    requires k < 8 && j < 8
    ensures Bit(b & !Mask(k), j) <==> j != k && Bit(b, j)
  {
  }

  predicate IsFrame(i: nat) { i < TOTAL_FRAMES }

  ghost function FramesFrom(n: nat): set<nat> {
    set i: nat | i < TOTAL_FRAMES && n <= i && IsFrame(i)
  }

  lemma AllClear(bits: seq<bv8>, n: nat)
    requires 8 * |bits| == TOTAL_FRAMES && n <= TOTAL_FRAMES
    requires forall j :: 0 <= j < |bits| ==> bits[j] == 0
    ensures FreeIn(bits, n) == set i: nat | i < n && IsFrame(i)
  {
    forall i: nat | i < n ensures i in FreeIn(bits, n) {
      FreeInMember(bits, n, i);
    }
  }

  // The frames below n whose bits are clear.
  ghost function FreeIn(bits: seq<bv8>, n: nat): (s: set<nat>)
    requires 8 * |bits| == TOTAL_FRAMES && n <= TOTAL_FRAMES
    ensures forall i :: i in s ==> i < n
  {
    if n == 0 then {}
    else FreeIn(bits, n - 1) + if Bit(bits[(n - 1) / 8], (n - 1) % 8) then {} else {n - 1}
  }

  lemma {:induction false} FreeInMember(bits: seq<bv8>, n: nat, i: nat)
    requires 8 * |bits| == TOTAL_FRAMES && i < n <= TOTAL_FRAMES
    ensures i in FreeIn(bits, n) <==> !Bit(bits[i / 8], i % 8)
  {
    if i < n - 1 {
      FreeInMember(bits, n - 1, i);
    }
  }


  lemma FreeInNone(bits: seq<bv8>)
    requires 8 * |bits| == TOTAL_FRAMES
    ensures FreeIn(bits, 0) == {}
  {
  }

  lemma FreeInNext(bits: seq<bv8>, n: nat)
    requires 8 * |bits| == TOTAL_FRAMES && n < TOTAL_FRAMES
    ensures |FreeIn(bits, n + 1)| == |FreeIn(bits, n)| + if n in FreeIn(bits, TOTAL_FRAMES) then 1 else 0
  {
    hide Bit;
    FreeInMember(bits, TOTAL_FRAMES, n);
    var next := FreeIn(bits, n) + if Bit(bits[n / 8], n % 8) then {} else {n};
    assert FreeIn(bits, n + 1) == next;
  }

  // The whole bitmap: setting or clearing the bit of frame f removes f from, or
  // adds it to, the free frames and changes nothing else.
  lemma SetFrame(bits: seq<bv8>, f: nat)
    requires 8 * |bits| == TOTAL_FRAMES && f < TOTAL_FRAMES
    ensures FreeIn(bits[f / 8 := bits[f / 8] | Mask(f % 8)], TOTAL_FRAMES) == FreeIn(bits, TOTAL_FRAMES) - {f}
  {
    var after := bits[f / 8 := bits[f / 8] | Mask(f % 8)];
    forall i: nat | i < TOTAL_FRAMES
      ensures i in FreeIn(after, TOTAL_FRAMES) <==> i in FreeIn(bits, TOTAL_FRAMES) && i != f
    {
      SetBit(bits[f / 8], f % 8, i % 8);
      FreeInMember(bits, TOTAL_FRAMES, i);
      FreeInMember(after, TOTAL_FRAMES, i);
    }
  }

  lemma ClearFrame(bits: seq<bv8>, f: nat)
    requires 8 * |bits| == TOTAL_FRAMES && f < TOTAL_FRAMES
    ensures FreeIn(bits[f / 8 := bits[f / 8] & !Mask(f % 8)], TOTAL_FRAMES) == FreeIn(bits, TOTAL_FRAMES) + {f}
  {
    var after := bits[f / 8 := bits[f / 8] & !Mask(f % 8)];
    forall i: nat | i < TOTAL_FRAMES
      ensures i in FreeIn(after, TOTAL_FRAMES) <==> i in FreeIn(bits, TOTAL_FRAMES) || i == f
    {
      ClearBit(bits[f / 8], f % 8, i % 8);
      FreeInMember(bits, TOTAL_FRAMES, i);
      FreeInMember(after, TOTAL_FRAMES, i);
    }
  }

  // The lowest member of free that is at least i, or TOTAL_FRAMES.
  function FirstFree(free: set<nat>, i: nat): (f: nat)
    ensures f < TOTAL_FRAMES ==> f in free && i <= f
    ensures forall j :: i <= j < f && j < TOTAL_FRAMES ==> j !in free
    ensures i <= TOTAL_FRAMES ==> i <= f <= TOTAL_FRAMES
    decreases TOTAL_FRAMES - i, free
  {
    if i >= TOTAL_FRAMES then TOTAL_FRAMES
    else if i in free then i
    else FirstFree(free, i + 1)
  }

  // The frame a correct allocator must choose: no free frame is lower.
  lemma FirstFreeIsLeast(free: set<nat>, hint: nat)
    requires hint <= TOTAL_FRAMES && forall i :: i in free ==> hint <= i < TOTAL_FRAMES
    ensures var f := FirstFree(free, hint);
      if free == {} then f == TOTAL_FRAMES else f in free && forall i :: i in free ==> f <= i
  {
    if free != {} {
      var x :| x in free;
      assert x < FirstFree(free, hint) ==> x !in free;
    }
  }

  // What pmm_alloc_frame returns for frame f; 0 also says that none is left.
  function FrameAddress(f: nat): Word {
    if f < TOTAL_FRAMES then PAGE_SIZE * f else 0
  }

  // The return value 0 means exhaustion exactly as long as frame 0 is not free.
  lemma ZeroMeansExhausted(free: set<nat>)
    requires forall i :: i in free ==> i < TOTAL_FRAMES
    ensures FrameAddress(FirstFree(free, 0)) == 0 <==> free == {} || 0 in free
  {
    FirstFreeIsLeast(free, 0);
  }

  // The address returned is that of the lowest free frame, 4096 bytes each.
  lemma AllocExactly(free: set<nat>)
    requires forall i :: i in free ==> i < 4096
    ensures var a := FrameAddress(FirstFree(free, 0));
      if free == {} then a == 0
      else a % 4096 == 0 && a / 4096 in free && forall i :: i in free ==> a / 4096 <= i
  {
    FirstFreeIsLeast(free, 0);
    Pages4096(FirstFree(free, 0));
  }

  lemma Pages4096(f: nat)
    ensures 4096 * f % 4096 == 0 && 4096 * f / 4096 == f
  {
  }

  // Every successful allocation, and no other, takes one frame away.
  lemma AllocTakesOne(free: set<nat>)
    requires forall i :: i in free ==> i < TOTAL_FRAMES
    ensures |free - {FirstFree(free, 0)}| == |free| - if free == {} then 0 else 1
  {
    FirstFreeIsLeast(free, 0);
  }

  class FrameAllocator {
    const bitmap: array<bv8>
    var firstFreeFrame: nat

    ghost predicate Valid()
      reads this, bitmap
    {
      && bitmap.Length == TOTAL_FRAMES / 8
      && firstFreeFrame <= TOTAL_FRAMES
      && forall i :: i in Free() ==> firstFreeFrame <= i
    }

    ghost function Free(): (s: set<nat>)
      requires bitmap.Length == TOTAL_FRAMES / 8
      reads bitmap
      ensures forall i :: i in s ==> i < TOTAL_FRAMES
    {
      FreeIn(bitmap[..], TOTAL_FRAMES)
    }

    constructor ()
      ensures Valid() && fresh(bitmap) && firstFreeFrame == 0
      ensures Free() == FramesFrom(0)
    {
      bitmap := new bv8[TOTAL_FRAMES / 8](_ => 0);
      firstFreeFrame := 0;
      new;
      AllClear(bitmap[..], TOTAL_FRAMES);
    }

    method BitmapSet(frame: nat)
      requires bitmap.Length == TOTAL_FRAMES / 8 && frame < TOTAL_FRAMES
      modifies bitmap
      ensures Free() == old(Free()) - {frame}
    {
      SetFrame(bitmap[..], frame);
      bitmap[frame / 8] := bitmap[frame / 8] | Mask(frame % 8);
    }

    method BitmapClear(frame: nat)
      requires bitmap.Length == TOTAL_FRAMES / 8 && frame < TOTAL_FRAMES
      modifies bitmap
      ensures Free() == old(Free()) + {frame}
    {
      ClearFrame(bitmap[..], frame);
      bitmap[frame / 8] := bitmap[frame / 8] & !Mask(frame % 8);
    }

    method BitmapTest(frame: nat) returns (used: bool)
      requires bitmap.Length == TOTAL_FRAMES / 8 && frame < TOTAL_FRAMES
      ensures used <==> frame !in Free()
    {
      FreeInMember(bitmap[..], TOTAL_FRAMES, frame);
      used := bitmap[frame / 8] & Mask(frame % 8) != 0;
    }

    // The kernel image, heap included, ends inside the 16 MB that are managed.
    method PmmInit(kernelEnd: Word)
      requires bitmap.Length == TOTAL_FRAMES / 8 && kernelEnd <= TOTAL_MEMORY
      modifies this, bitmap
      ensures Valid()
      ensures Free() == FramesFrom((kernelEnd + PAGE_SIZE - 1) / PAGE_SIZE)
    {
      for i := 0 to TOTAL_FRAMES / 8
        invariant forall j :: 0 <= j < i ==> bitmap[j] == 0
      {
        bitmap[i] := 0;
      }
      AllClear(bitmap[..], TOTAL_FRAMES);
      var reserved := (kernelEnd + PAGE_SIZE - 1) / PAGE_SIZE;
      for i := 0 to reserved
        invariant Free() == FramesFrom(i)
      {
        BitmapSet(i);
      }
      firstFreeFrame := reserved;
    }

    // Returns the address of the lowest free frame, or 0.
    method PmmAllocFrame() returns (addr: Word)
      requires Valid()
      modifies bitmap
      ensures Valid()
      ensures addr == FrameAddress(FirstFree(old(Free()), 0))
      ensures Free() == old(Free()) - {FirstFree(old(Free()), 0)}
    {
      ghost var free := Free();
      FirstFreeIsLeast(free, 0);
      var i := firstFreeFrame;
      while i < TOTAL_FRAMES
        invariant firstFreeFrame <= i <= TOTAL_FRAMES
        invariant forall j :: j in free ==> i <= j
        invariant Valid() && Free() == free
      {
        var used := BitmapTest(i);
        if !used {
          BitmapSet(i);
          return i * PAGE_SIZE;
        }
        i := i + 1;
      }
      return 0;
    }

    method PmmFreeFrame(addr: Word)
      requires Valid() && addr < TOTAL_MEMORY
      modifies this`firstFreeFrame, bitmap
      ensures Valid()
      ensures Free() == old(Free()) + {addr / PAGE_SIZE}
      ensures |Free()| == |old(Free())| + if addr / PAGE_SIZE in old(Free()) then 0 else 1
    {
      var index := addr / PAGE_SIZE;
      BitmapClear(index);
      if index < firstFreeFrame {
        firstFreeFrame := index;
      }
    }

    method PmmFramesUsed() returns (count: nat)
      requires Valid()
      ensures count + |Free()| == TOTAL_FRAMES
    {
      hide FreeIn;
      count := 0;
      FreeInNone(bitmap[..]);
      for i := 0 to TOTAL_FRAMES
        invariant count + |FreeIn(bitmap[..], i)| == i
      {
        FreeInNext(bitmap[..], i);
        var used := BitmapTest(i);
        if used { count := count + 1; }
      }
    }

    method PmmFramesFree() returns (count: nat)
      requires Valid()
      ensures count == |Free()|
    {
      var used := PmmFramesUsed();
      count := TOTAL_FRAMES - used;
    }
  }
}
