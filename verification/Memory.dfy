// kernel/memory.c: the allocator over its linked header chain.
module Memory {
  import opened Machine
  import opened HeapChain
  import opened HeapLaws

  // struct block_header, with the address it is placed at.
  class Header {
    const addr: nat
    var size: nat
    var isFree: bool
    var next: Header?

    constructor (addr: nat, size: nat, isFree: bool, next: Header?)
      ensures this.addr == addr && this.size == size && this.isFree == isFree && this.next == next
    {
      this.addr, this.size, this.isFree, this.next := addr, size, isFree, next;
    }
  }

  class Heap {
    const kernelEnd: Word           // address of the linker symbol _kernel_end
    var heapStart: Header?
    var initialized: bool
    var headerAt: map<int, Header>  // reading memory at an address as a header
    ghost var chain: seq<Block>     // what following next from heapStart finds

    function Base(): nat { PageRoundUp(kernelEnd) }

    function Limit(): nat { Base() + HEAP_SIZE }

    ghost predicate Valid()
      reads this, headerAt.Values
    {
      && Limit() <= TWO_32
      && (if initialized then heapStart == HeaderAt(Base()) && Good(chain, Base(), Limit())
          else heapStart == null && chain == [])
      && Linked()
    }

    // The header stored at an address; null at the end of the heap.
    ghost function HeaderAt(a: nat): Header?
      reads this
    {
      if a < Limit() && a in headerAt then headerAt[a] else null
    }

    // Following next i times from heapStart arrives at current.
    ghost predicate At(i: nat, current: Header?)
      reads this
    {
      && i <= |chain|
      && (current == null <==> i == |chain|)
      && (current != null ==> HeaderAt(chain[i].addr) == current)
    }

    // Memory holds the header of every block of the chain, and each header
    // points to the one that starts where its own block ends.
    ghost predicate Linked()
      reads this, headerAt.Values
    {
      forall b :: b in chain ==> Holds(b)
    }

    ghost predicate Holds(b: Block)
      reads this, headerAt.Values
    {
      && b.addr in headerAt && b.addr < Limit()
      && var h := headerAt[b.addr];
        h.addr == b.addr && h.size == b.size && h.isFree == b.free && h.next == HeaderAt(b.End())
    }

    // The chain kmalloc works on: memory_init runs first if it has to.
    ghost function Started(): seq<Block>
      reads this
    {
      if initialized then chain else Initial(Base())
    }

    constructor (kernelEnd: Word)
      requires PageRoundUp(kernelEnd) + HEAP_SIZE <= TWO_32
      ensures Valid() && !initialized && this.kernelEnd == kernelEnd && headerAt == map[]
    {
      this.kernelEnd := kernelEnd;
      heapStart, initialized, headerAt, chain := null, false, map[], [];
    }

    method MemoryInit()
      requires Valid()
      modifies this
      ensures Valid() && initialized
      ensures chain == [Block(Base(), 0x40_0000 - 12, true)]
      ensures fresh(headerAt.Values - old(headerAt.Values))
    {
      var h := new Header(Base(), HEAP_SIZE - HEADER, true, null);
      heapStart, initialized, headerAt, chain := h, true, headerAt[h.addr := h], Initial(Base());
      InitialGood(Base());
    }

    method Kmalloc(request: Word) returns (ptr: nat)
      requires Valid()
      modifies this, headerAt.Values
      ensures Valid() && initialized && fresh(headerAt.Values - old(headerAt.Values))
      ensures (chain, ptr) == Alloc(old(Started()), AlignUp4(request))
    {
      if !initialized { MemoryInit(); }
      var size := AlignUp4(request);
      AllocGood(chain, size, Base(), Limit());
      var current, i := FindFit(size);
      if current == null { return 0; }
      assert Holds(chain[i]);
      Take(current, size, i);
      return current.addr + HEADER;
    }

    // The search of kmalloc: the first free block of at least size bytes.
    method FindFit(size: nat) returns (current: Header?, ghost i: nat)
      requires Valid() && initialized
      ensures At(i, current)
      ensures current == null ==> Alloc(chain, size) == (chain, 0)
      ensures current != null ==> chain[i].free && chain[i].size >= size
      ensures current != null ==>
        Alloc(chain, size) == (chain[..i] + Split(chain[i], size) + chain[i + 1..], chain[i].addr + HEADER)
    {
      current, i := heapStart, 0;
      assert Holds(chain[0]);
      assert chain[..0] + Alloc(chain[0..], size).0 == Alloc(chain, size).0;
      while current != null
        invariant At(i, current)
        invariant Alloc(chain, size) == (chain[..i] + Alloc(chain[i..], size).0, Alloc(chain[i..], size).1)
        decreases |chain| - i
      {
        assert Holds(chain[i]);
        if i + 1 < |chain| { assert Holds(chain[i + 1]); }
        if current.isFree && current.size >= size {
          AllocTake(chain, size, i);
          return;
        }
        AllocSkip(chain, size, i);
        BlockBounds(chain, Base(), Limit(), i);
        current := current.next;
        i := i + 1;
      }
      assert chain[..i] + [] == chain;
    }

    // The block found: split it if the rest is large enough, and mark it used.
    method Take(current: Header, size: nat, ghost i: nat)
      requires Linked() && i < |chain| && HeaderAt(chain[i].addr) == current
      requires Tiles(chain, Base(), Limit())
      requires chain[i].free && chain[i].size >= size
      modifies this`chain, this`headerAt, current
      ensures Linked() && fresh(headerAt.Values - old(headerAt.Values))
      ensures HeaderAt(Base()) == old(HeaderAt(Base()))
      ensures chain == old(chain[..i] + Split(chain[i], size) + chain[i + 1..])
    {
      hide Tiles;
      assert Holds(chain[i]);
      Elsewhere(chain, i, Base(), Limit());
      ghost var c := chain;
      chain := c[..i] + Split(c[i], size) + c[i + 1..];
      if current.size > size + HEADER + 16 {
        var newBlock := new Header(current.addr + HEADER + size, current.size - size - HEADER, true, current.next);
        headerAt := headerAt[newBlock.addr := newBlock];
        current.next := newBlock;
        current.size := size;
      }
      current.isFree := false;
      forall b | b in chain ensures Holds(b) {
        assert b in c ==> old(Holds(b));
      }
    }

    // ptr is null or the payload address of a block on the chain.
    method Kfree(ptr: nat)
      requires Valid() && initialized
      requires Releasable(chain, ptr)
      modifies this`chain, headerAt.Values
      ensures Valid()
      ensures chain == Release(old(chain), ptr)
    {
      if ptr == 0 { return; }
      MarkTiles(chain, ptr - HEADER, Base(), Limit());
      CoalesceLaw(MarkFree(chain, ptr - HEADER), Base(), Limit());
      ghost var k := BlockIndex(chain, ptr);
      assert Holds(chain[k]);
      MarkHeader(headerAt[ptr - HEADER], k);
      CoalescePass();
    }

    method MarkHeader(header: Header, ghost k: nat)
      requires Linked() && k < |chain| && HeaderAt(chain[k].addr) == header
      requires Tiles(chain, Base(), Limit())
      modifies this`chain, header`isFree
      ensures Linked()
      ensures chain == MarkFree(old(chain), old(chain[k].addr))
    {
      assert Holds(chain[k]);
      Elsewhere(chain, k, Base(), Limit());
      ghost var c := chain;
      header.isFree := true;
      chain := MarkFree(c, c[k].addr);
      forall b | b in chain ensures Holds(b) {
        assert b in c ==> old(Holds(b));
      }
    }

    // The loop of kfree: merge every free block with the free blocks after it.
    method CoalescePass()
      requires Linked() && Tiles(chain, Base(), Limit()) && chain != []
      requires heapStart == HeaderAt(Base())
      modifies this`chain, headerAt.Values
      ensures Linked()
      ensures chain == Coalesce(old(chain))
    {
      var current := heapStart;
      ghost var i := 0;
      assert chain[..0] + Coalesce(chain[0..]) == Coalesce(chain);
      assert Holds(chain[0]);
      while current != null
        invariant At(i, current)
        invariant Linked() && Tiles(chain, Base(), Limit())
        invariant Coalesce(old(chain)) == chain[..i] + Coalesce(chain[i..])
        decreases |chain| - i
      {
        assert Holds(chain[i]);
        BlockBounds(chain, Base(), Limit(), i);
        if i + 1 < |chain| { assert Holds(chain[i + 1]); }
        if current.isFree && current.next != null && current.next.isFree {
          CoalesceMerge(chain, i, Base(), Limit());
          MergeNext(current, i);
        } else {
          CoalesceSkip(chain, i);
          current := current.next;
          i := i + 1;
        }
      }
      assert chain[..i] + [] == chain;
    }

    method MergeNext(current: Header, ghost i: nat)
      requires Linked() && i + 1 < |chain| && HeaderAt(chain[i].addr) == current && current.next != null
      requires Tiles(chain, Base(), Limit())
      modifies this`chain, current`size, current`next
      ensures Linked()
      ensures chain == old(chain[..i] + [Merge(chain[i], chain[i + 1])] + chain[i + 2..])
    {
      assert Holds(chain[i]) && Holds(chain[i + 1]);
      BlockBounds(chain, Base(), Limit(), i);
      Elsewhere(chain, i, Base(), Limit());
      ghost var c := chain;
      current.size := current.size + HEADER + current.next.size;
      current.next := current.next.next;
      chain := c[..i] + [Merge(c[i], c[i + 1])] + c[i + 2..];
      forall b | b in chain ensures Holds(b) {
        assert b in c ==> old(Holds(b));
      }
    }

    method MemoryUsed() returns (used: nat)
      requires Valid()
      ensures used == Used(chain)
    {
      used := 0;
      var current := heapStart;
      ghost var i := 0;
      if chain != [] { assert Holds(chain[0]); }
      while current != null
        invariant At(i, current)
        invariant Used(chain) == used + Used(chain[i..])
        decreases |chain| - i
      {
        assert Holds(chain[i]) && chain[i..][1..] == chain[i + 1..];
        if i + 1 < |chain| { assert Holds(chain[i + 1]); }
        BlockBounds(chain, Base(), Limit(), i);
        if !current.isFree { used := used + current.size; }
        current := current.next;
        i := i + 1;
      }
    }

    method MemoryFree() returns (available: nat)
      requires Valid()
      ensures available == Available(chain)
    {
      available := 0;
      var current := heapStart;
      ghost var i := 0;
      if chain != [] { assert Holds(chain[0]); }
      while current != null
        invariant At(i, current)
        invariant Available(chain) == available + Available(chain[i..])
        decreases |chain| - i
      {
        assert Holds(chain[i]) && chain[i..][1..] == chain[i + 1..];
        if i + 1 < |chain| { assert Holds(chain[i + 1]); }
        BlockBounds(chain, Base(), Limit(), i);
        if current.isFree { available := available + current.size; }
        current := current.next;
        i := i + 1;
      }
    }
  }

  // -- one loop step of the recursive definitions ------------------------------

  lemma Elsewhere(c: seq<Block>, i: nat, lo: nat, hi: nat)
    requires Tiles(c, lo, hi) && i < |c|
    ensures forall b :: b in c && b != c[i] ==> b.End() <= c[i].addr || b.addr >= c[i].End()
    ensures forall j :: 0 <= j < |c| && j != i ==> c[j] != c[i]
    ensures lo <= c[i].addr && c[i].End() <= hi
  {
    BlocksDisjointAll(c, lo, hi);
  }

  ghost function BlockIndex(c: seq<Block>, ptr: nat): (k: nat)
    requires ptr != 0 && Releasable(c, ptr)
    ensures k < |c| && c[k].addr + HEADER == ptr
  {
    var b :| b in c && b.addr + HEADER == ptr;
    var k :| 0 <= k < |c| && c[k] == b;
    k
  }

  lemma AllocTake(c: seq<Block>, n: nat, i: nat)
    requires i < |c| && c[i].free && c[i].size >= n
    ensures c[..i] + Alloc(c[i..], n).0 == c[..i] + Split(c[i], n) + c[i + 1..]
    ensures Alloc(c[i..], n).1 == c[i].addr + HEADER
  {
    assert c[i..][1..] == c[i + 1..];
    assert c[..i] + (Split(c[i], n) + c[i + 1..]) == c[..i] + Split(c[i], n) + c[i + 1..];
  }

  lemma AllocSkip(c: seq<Block>, n: nat, i: nat)
    requires i < |c| && !(c[i].free && c[i].size >= n)
    ensures c[..i] + Alloc(c[i..], n).0 == c[..i + 1] + Alloc(c[i + 1..], n).0
    ensures Alloc(c[i..], n).1 == Alloc(c[i + 1..], n).1
  {
    assert c[i..][1..] == c[i + 1..];
    assert c[..i + 1] == c[..i] + [c[i]];
  }

  lemma CoalesceMerge(c: seq<Block>, i: nat, lo: nat, hi: nat)
    requires Tiles(c, lo, hi) && i + 1 < |c| && c[i].free && c[i + 1].free
    ensures var d := c[..i] + [Merge(c[i], c[i + 1])] + c[i + 2..];
      c[..i] + Coalesce(c[i..]) == d[..i] + Coalesce(d[i..]) && Tiles(d, lo, hi)
  {
    var d := c[..i] + [Merge(c[i], c[i + 1])] + c[i + 2..];
    assert c[i..][2..] == c[i + 2..];
    assert d[i..] == [Merge(c[i], c[i + 1])] + c[i + 2..];
    assert d[..i] == c[..i];
    MergeTiles(c, i, lo, hi);
  }

  lemma {:induction false} MergeTiles(c: seq<Block>, i: nat, lo: nat, hi: nat)
    requires Tiles(c, lo, hi) && i + 1 < |c|
    ensures Tiles(c[..i] + [Merge(c[i], c[i + 1])] + c[i + 2..], lo, hi)
  {
    var d := c[..i] + [Merge(c[i], c[i + 1])] + c[i + 2..];
    if i == 0 {
      assert d[1..] == c[1..][1..];
    } else {
      MergeTiles(c[1..], i - 1, c[0].End(), hi);
      assert d[1..] == c[1..][..i - 1] + [Merge(c[i], c[i + 1])] + c[1..][i + 1..];
    }
  }

  lemma CoalesceSkip(c: seq<Block>, i: nat)
    requires i < |c| && !(c[i].free && i + 1 < |c| && c[i + 1].free)
    ensures c[..i] + Coalesce(c[i..]) == c[..i + 1] + Coalesce(c[i + 1..])
  {
    assert c[i..][1..] == c[i + 1..];
    assert c[..i + 1] == c[..i] + [c[i]];
  }
}
