// The kernel heap as a value: the list of blocks found by following the
// header chain, and what kmalloc and kfree do to it.
module HeapChain {

  const HEAP_SIZE := 0x40_0000
  const HEADER := 12

  datatype Block = Block(addr: nat, size: nat, free: bool) {
    function End(): nat { addr + HEADER + size }
  }

  // The blocks of c cover [lo, hi) exactly, in address order, without gaps.
  ghost predicate Tiles(c: seq<Block>, lo: nat, hi: nat) {
    if c == [] then lo == hi
    else c[0].addr == lo && c[0].size % 4 == 0 && Tiles(c[1..], c[0].End(), hi)
  }

  ghost predicate NoFreePair(c: seq<Block>) {
    forall i :: 0 <= i < |c| - 1 ==> !(c[i].free && c[i + 1].free)
  }

  ghost predicate Good(c: seq<Block>, lo: nat, hi: nat) {
    Tiles(c, lo, hi) && NoFreePair(c)
  }

  // The blocks handed out and not yet given back.
  function Live(c: seq<Block>): set<Block> {
    set b | b in c && !b.free
  }

  function Initial(base: nat): seq<Block> {
    [Block(base, HEAP_SIZE - HEADER, true)]
  }

  // -- kmalloc -------------------------------------------------------------

  // The free block b is handed out for n bytes; a remainder above 16 bytes
  // becomes a block of its own.
  function Split(b: Block, n: nat): seq<Block> {
    if b.size > n + HEADER + 16 then
      [Block(b.addr, n, false), Block(b.addr + HEADER + n, b.size - n - HEADER, true)]
    else
      [b.(free := false)]
  }

  // First fit; the second component is the payload address, or 0.
  function Alloc(c: seq<Block>, n: nat): (seq<Block>, nat) {
    if c == [] then ([], 0)
    else if c[0].free && c[0].size >= n then (Split(c[0], n) + c[1..], c[0].addr + HEADER)
    else
      var (rest, p) := Alloc(c[1..], n);
      ([c[0]] + rest, p)
  }

  // -- kfree ---------------------------------------------------------------

  function MarkFree(c: seq<Block>, addr: int): seq<Block> {
    seq(|c|, i requires 0 <= i < |c| => if c[i].addr == addr then c[i].(free := true) else c[i])
  }

  function Merge(a: Block, b: Block): Block {
    a.(size := a.size + HEADER + b.size)
  }

  function Coalesce(c: seq<Block>): seq<Block>
    decreases |c|
  {
    if |c| < 2 then c
    else if c[0].free && c[1].free then Coalesce([Merge(c[0], c[1])] + c[2..])
    else [c[0]] + Coalesce(c[1..])
  }

  function Release(c: seq<Block>, ptr: nat): seq<Block> {
    if ptr == 0 then c else Coalesce(MarkFree(c, ptr - HEADER))
  }

  // What kfree demands of its caller: null, or a payload address of the chain.
  ghost predicate Releasable(c: seq<Block>, ptr: nat) {
    ptr == 0 || exists b :: b in c && b.addr + HEADER == ptr
  }

  // -- accounting ----------------------------------------------------------

  function Used(c: seq<Block>): nat {
    if c == [] then 0 else (if c[0].free then 0 else c[0].size) + Used(c[1..])
  }

  function Available(c: seq<Block>): nat {
    if c == [] then 0 else (if c[0].free then c[0].size else 0) + Available(c[1..])
  }

  // Bytes given to live blocks, bytes free and headers make up the heap.
  lemma {:induction false} Conservation(c: seq<Block>, lo: nat, hi: nat)
    requires Tiles(c, lo, hi)
    ensures Used(c) + Available(c) + HEADER * |c| == hi - lo
  {
    if c != [] {
      Conservation(c[1..], c[0].End(), hi);
    }
  }

  // -- consequences of tiling ------------------------------------------------

  lemma {:induction false} BlockBounds(c: seq<Block>, lo: nat, hi: nat, i: nat)
    requires Tiles(c, lo, hi) && i < |c|
    ensures lo <= c[i].addr && c[i].End() <= hi
    ensures i > 0 ==> c[0].End() <= c[i].addr
    ensures i + 1 < |c| ==> c[i + 1].addr == c[i].End()
    ensures i + 1 == |c| ==> c[i].End() == hi
  {
    TilesOrder(c[1..], c[0].End(), hi);
    if i > 0 {
      assert c[1..][i - 1] == c[i];
      BlockBounds(c[1..], c[0].End(), hi, i - 1);
    }
  }

  lemma {:induction false} TilesOrder(c: seq<Block>, lo: nat, hi: nat)
    requires Tiles(c, lo, hi)
    ensures lo <= hi
  {
    if c != [] {
      TilesOrder(c[1..], c[0].End(), hi);
    }
  }

  // Different blocks occupy disjoint ranges, in the order of the chain.
  lemma {:induction false} BlocksDisjoint(c: seq<Block>, lo: nat, hi: nat, i: nat, j: nat)
    requires Tiles(c, lo, hi) && i < j < |c|
    ensures c[i].End() <= c[j].addr
  {
    if i == 0 {
      BlockBounds(c, lo, hi, j);
    } else {
      assert c[1..][i - 1] == c[i] && c[1..][j - 1] == c[j];
      BlocksDisjoint(c[1..], c[0].End(), hi, i - 1, j - 1);
    }
  }

  lemma BlocksDisjointAll(c: seq<Block>, lo: nat, hi: nat)
    requires Tiles(c, lo, hi)
    ensures forall i, j :: 0 <= i < j < |c| ==> c[i].End() <= c[j].addr
    ensures forall i :: 0 <= i < |c| ==> lo <= c[i].addr && c[i].End() <= hi
  {
    forall i, j | 0 <= i < j < |c| ensures c[i].End() <= c[j].addr {
      BlocksDisjoint(c, lo, hi, i, j);
    }
    forall i | 0 <= i < |c| ensures lo <= c[i].addr && c[i].End() <= hi {
      BlockBounds(c, lo, hi, i);
    }
  }

  lemma {:induction false} TilesSplit(c: seq<Block>, d: seq<Block>, lo: nat, mid: nat, hi: nat)
    requires Tiles(c, lo, mid) && Tiles(d, mid, hi)
    ensures Tiles(c + d, lo, hi)
  {
    if c == [] {
      assert c + d == d;
    } else {
      assert (c + d)[1..] == c[1..] + d;
      TilesSplit(c[1..], d, c[0].End(), mid, hi);
    }
  }

  // Live blocks of a tail: those of the whole without the head.
  lemma LiveTail(c: seq<Block>, lo: nat, hi: nat)
    requires Tiles(c, lo, hi) && c != []
    ensures Live(c[1..]) == Live(c) - {c[0]}
    ensures forall b :: b in Live(c[1..]) ==> b.addr >= c[0].End()
  {
    BlocksDisjointAll(c, lo, hi);
    assert c == [c[0]] + c[1..];
  }

  // -- the chain is determined by its live blocks -----------------------------

  lemma HeadNotShorter(c: seq<Block>, d: seq<Block>, lo: nat, hi: nat)
    requires Good(c, lo, hi) && Good(d, lo, hi) && Live(c) == Live(d)
    requires c != [] && d != [] && c[0].free
    ensures c[0].End() >= d[0].End()
  {
    BlocksDisjointAll(d, lo, hi);
    BlockBounds(c, lo, hi, 0);
    if |c| > 1 {
      assert c[1] in Live(d);
      var k :| 0 <= k < |d| && d[k] == c[1];
      assert d[0].addr == lo < c[1].addr;
    }
  }

  lemma LiveHead(c: seq<Block>, d: seq<Block>, lo: nat, hi: nat)
    requires Good(c, lo, hi) && Good(d, lo, hi) && Live(c) == Live(d)
    requires c != [] && d != [] && !c[0].free
    ensures c[0] == d[0]
  {
    BlocksDisjointAll(d, lo, hi);
    assert c[0] in Live(d);
    var k :| 0 <= k < |d| && d[k] == c[0];
    assert k == 0;
  }

  lemma GoodTail(c: seq<Block>, lo: nat, hi: nat)
    requires Good(c, lo, hi) && c != []
    ensures Good(c[1..], c[0].End(), hi)
  {
    forall i | 0 <= i < |c[1..]| - 1 ensures !(c[1..][i].free && c[1..][i + 1].free) {
      assert c[1..][i] == c[i + 1] && c[1..][i + 1] == c[i + 2];
    }
  }

  // Two reachable heaps with the same live blocks are the same chain: the free
  // space has exactly one shape.
  lemma {:induction false} Canonical(c: seq<Block>, d: seq<Block>, lo: nat, hi: nat)
    requires Good(c, lo, hi) && Good(d, lo, hi) && Live(c) == Live(d)
    ensures c == d
  {
    if c == [] {
      if d != [] { TilesOrder(d[1..], d[0].End(), hi); }
    } else if d == [] {
      TilesOrder(c[1..], c[0].End(), hi);
    } else {
      if !c[0].free {
        LiveHead(c, d, lo, hi);
      } else if !d[0].free {
        LiveHead(d, c, lo, hi);
      } else {
        HeadNotShorter(c, d, lo, hi);
        HeadNotShorter(d, c, lo, hi);
      }
      LiveTail(c, lo, hi);
      LiveTail(d, lo, hi);
      GoodTail(c, lo, hi);
      GoodTail(d, lo, hi);
      Canonical(c[1..], d[1..], c[0].End(), hi);
      assert c == [c[0]] + c[1..] && d == [d[0]] + d[1..];
    }
  }
}
