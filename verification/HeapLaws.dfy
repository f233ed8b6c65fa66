// What kmalloc and kfree guarantee over every run from memory_init.
module HeapLaws {
  import opened Machine
  import opened HeapChain

  // -- kmalloc -------------------------------------------------------------

  // A header and n bytes at address a lie inside the heap and clear of every
  // live block.
  ghost predicate Fits(c: seq<Block>, a: int, n: nat, lo: nat, hi: nat) {
    && lo <= a && a + HEADER + n <= hi
    && forall b :: b in Live(c) ==> a + HEADER + n <= b.addr || b.End() <= a
  }

  lemma {:induction false} AllocGood(c: seq<Block>, n: nat, lo: nat, hi: nat)
    requires Good(c, lo, hi) && n % 4 == 0
    ensures Good(Alloc(c, n).0, lo, hi)
    ensures c != [] ==> Alloc(c, n).0 != [] && (c[0].free || !Alloc(c, n).0[0].free)
  {
    if c != [] {
      GoodTail(c, lo, hi);
      var s := Split(c[0], n);
      if c[0].free && c[0].size >= n {
        TilesSplit(s, c[1..], lo, c[0].End(), hi) by {
          if |s| == 2 { assert s[1..] == [s[1]] && s[1..][1..] == []; }
        }
      } else {
        AllocGood(c[1..], n, c[0].End(), hi);
        assert ([c[0]] + Alloc(c[1..], n).0)[1..] == Alloc(c[1..], n).0;
      }
    }
  }

  ghost predicate Added(c: seq<Block>, d: seq<Block>, b: Block) {
    b !in Live(c) && Live(d) == Live(c) + {b}
  }

  // A successful kmalloc adds one live block that is large enough, wastes at
  // most a header and 16 bytes, and moves or resizes no other; a failed one
  // changes nothing.
  lemma {:induction false} AllocAddsOne(c: seq<Block>, n: nat, lo: nat, hi: nat)
    requires Good(c, lo, hi)
    ensures var (d, p) := Alloc(c, n);
      if p == 0 then d == c
      else exists b :: Added(c, d, b) && b.addr + HEADER == p && n <= b.size <= n + HEADER + 16
  {
    if c != [] {
      GoodTail(c, lo, hi);
      LiveTail(c, lo, hi);
      var (d, p) := Alloc(c, n);
      if c[0].free && c[0].size >= n {
        var s := Split(c[0], n);
        var b := s[0];
        assert d == s + c[1..] && !b.free && b.addr == lo;
        forall x ensures x in Live(d) <==> x in Live(c) + {b} {
          if x in c && !x.free { assert x in c[1..]; }
          assert x in d <==> x in s || x in c[1..];
        }
        assert Added(c, d, b);
      } else {
        AllocAddsOne(c[1..], n, c[0].End(), hi);
        var rest := Alloc(c[1..], n).0;
        assert d == [c[0]] + rest;
        if p == 0 {
          assert c == [c[0]] + c[1..];
        } else {
          var b :| Added(c[1..], rest, b) && b.addr + HEADER == p && n <= b.size <= n + HEADER + 16;
          AllocWithin(c[1..], n, c[0].End(), hi);
          assert Live(d) == Live(rest) + (if c[0].free then {} else {c[0]});
          assert Added(c, d, b);
        }
      }
    }
  }

  // From p there are g bytes up to the next live block or the end of the heap,
  // and a header in front of p, clear of every live block.
  ghost predicate Gap(live: set<Block>, p: nat, g: nat, hi: nat) {
    && 12 <= p && (p + g == hi || exists x :: x in live && x.addr == p + g)
    && (forall x :: x in live ==> x.addr >= p + g || x.End() <= p - 12)
  }

  // How much of the gap at p is handed out: the aligned size if more than 28 bytes
  // would be left over, and otherwise all of it.
  lemma {:induction false} AllocSizeExactly(c: seq<Block>, n: nat, lo: nat, hi: nat)
    requires Good(c, lo, hi)
    ensures var (d, p) := Alloc(c, n);
      p != 0 ==> exists g: nat ::
        Gap(Live(c), p, g, hi) && Live(d) == Live(c) + {Block(p - 12, if g > n + 28 then n else g, false)}
  {
    hide Good, Gap, Split, Live;
    if c != [] {
      var (d, p) := Alloc(c, n);
      if c[0].free && c[0].size >= n {
        SplitLive(c, n);
        HeadGap(c, lo, hi);
      } else if p != 0 {
        GoodTail(c, lo, hi);
        assert Tiles(c[1..], c[0].End(), hi) by { GoodTiles(c[1..], c[0].End(), hi); }
        AllocSizeExactly(c[1..], n, c[0].End(), hi);
        AllocWithin(c[1..], n, c[0].End(), hi);
        var rest := Alloc(c[1..], n).0;
        var g: nat :|
          && Gap(Live(c[1..]), p, g, hi)
          && Live(rest) == Live(c[1..]) + {Block(p - 12, if g > n + 28 then n else g, false)};
        TailGap(c, p, g, lo, hi);
        LiveOfCons(c[0], rest);
        LiveOfCons(c[0], c[1..]);
        assert c == [c[0]] + c[1..];
      }
    }
  }

  lemma LiveOfCons(x: Block, rest: seq<Block>)
    ensures Live([x] + rest) == Live(rest) + if x.free then {} else {x}
  {
  }

  lemma GoodTiles(c: seq<Block>, lo: nat, hi: nat)
    requires Good(c, lo, hi)
    ensures Tiles(c, lo, hi)
  {
  }

  lemma HeadGap(c: seq<Block>, lo: nat, hi: nat)
    requires Good(c, lo, hi) && c != [] && c[0].free
    ensures Gap(Live(c), c[0].addr + 12, c[0].size, hi)
  {
    BlocksDisjointAll(c, lo, hi);
    BlockBounds(c, lo, hi, 0);
    if |c| > 1 { assert c[1] in Live(c) && c[1].addr == c[0].End(); }
  }

  lemma TailGap(c: seq<Block>, p: nat, g: nat, lo: nat, hi: nat)
    requires Good(c, lo, hi) && c != [] && c[0].End() + 12 <= p && Gap(Live(c[1..]), p, g, hi)
    ensures Gap(Live(c), p, g, hi)
  {
    LiveTail(c, lo, hi);
  }

  lemma SplitLive(c: seq<Block>, n: nat)
    requires c != [] && c[0].free && c[0].size >= n
    ensures Live(Alloc(c, n).0) == Live(c) + {Block(c[0].addr, if c[0].size > n + 28 then n else c[0].size, false)}
  {
    var s := Split(c[0], n);
    var d := s + c[1..];
    assert Alloc(c, n).0 == d;
    assert c == [c[0]] + c[1..];
    forall x ensures x in Live(d) <==> x in Live(c) || x == s[0] {
      assert x in d <==> x in s || x in c[1..];
    }
  }

  // The payload lies inside the heap.
  lemma {:induction false} AllocWithin(c: seq<Block>, n: nat, lo: nat, hi: nat)
    requires Tiles(c, lo, hi)
    ensures Alloc(c, n).1 != 0 ==> lo + HEADER <= Alloc(c, n).1 && Alloc(c, n).1 + n <= hi
  {
    if c != [] {
      TilesOrder(c[1..], c[0].End(), hi);
      AllocWithin(c[1..], n, c[0].End(), hi);
    }
  }

  // kmalloc fails exactly when no place in the heap could hold the request,
  // and otherwise takes the lowest place that can.
  lemma {:induction false} AllocExact(c: seq<Block>, n: nat, lo: nat, hi: nat)
    requires Good(c, lo, hi)
    ensures var p := Alloc(c, n).1;
      if p == 0 then forall a :: !Fits(c, a, n, lo, hi)
      else Fits(c, p - HEADER, n, lo, hi) && forall a :: Fits(c, a, n, lo, hi) ==> p - HEADER <= a
  {
    if c != [] {
      GoodTail(c, lo, hi);
      LiveTail(c, lo, hi);
      BlocksDisjointAll(c, lo, hi);
      BlockBounds(c, lo, hi, 0);
      var p := Alloc(c, n).1;
      if c[0].free && c[0].size >= n {
        assert Fits(c, lo, n, lo, hi);
      } else {
        AllocExact(c[1..], n, c[0].End(), hi);
        AllocWithin(c[1..], n, c[0].End(), hi);
        forall a | Fits(c, a, n, lo, hi) ensures Fits(c[1..], a, n, c[0].End(), hi) {
          if c[0].free && |c| > 1 { assert c[1] in Live(c); }
        }
        if p != 0 {
          forall b | b in Live(c) ensures p + n <= b.addr || b.End() <= p - HEADER {
            if b != c[0] { assert b in Live(c[1..]); }
          }
        }
      }
    }
  }

  // -- kfree ---------------------------------------------------------------

  lemma {:induction false} CoalesceLaw(c: seq<Block>, lo: nat, hi: nat)
    requires Tiles(c, lo, hi)
    ensures Good(Coalesce(c), lo, hi) && Live(Coalesce(c)) == Live(c)
    ensures c != [] ==> Coalesce(c) != [] && Coalesce(c)[0].free == c[0].free
    decreases |c|
  {
    if |c| >= 2 {
      if c[0].free && c[1].free {
        var d := [Merge(c[0], c[1])] + c[2..];
        assert d[1..] == c[1..][1..];
        CoalesceLaw(d, lo, hi);
        assert c == [c[0], c[1]] + c[2..];
      } else {
        CoalesceLaw(c[1..], c[0].End(), hi);
        var d := Coalesce(c[1..]);
        assert Coalesce(c) == [c[0]] + d;
        assert ([c[0]] + d)[1..] == d;
        assert Live([c[0]] + d) == Live([c[0]]) + Live(d);
        assert c == [c[0]] + c[1..] && Live(c) == Live([c[0]]) + Live(c[1..]);
      }
    }
  }

  lemma {:induction false} MarkTiles(c: seq<Block>, a: int, lo: nat, hi: nat)
    requires Tiles(c, lo, hi)
    ensures Tiles(MarkFree(c, a), lo, hi)
  {
    if c != [] {
      MarkTiles(c[1..], a, c[0].End(), hi);
      assert MarkFree(c, a)[1..] == MarkFree(c[1..], a);
    }
  }

  // kfree removes the block of ptr from the live blocks and nothing else.
  lemma ReleaseLaw(c: seq<Block>, ptr: nat, lo: nat, hi: nat)
    requires Good(c, lo, hi)
    ensures Good(Release(c, ptr), lo, hi)
    ensures Live(Release(c, ptr)) == set b | b in Live(c) && b.addr + HEADER != ptr
  {
    if ptr != 0 {
      var d := MarkFree(c, ptr - HEADER);
      MarkTiles(c, ptr - HEADER, lo, hi);
      CoalesceLaw(d, lo, hi);
      forall b ensures b in Live(d) <==> b in Live(c) && b.addr + HEADER != ptr {
        if b in Live(c) && b.addr + HEADER != ptr {
          var k :| 0 <= k < |c| && c[k] == b;
          assert d[k] == b;
        }
      }
    }
  }

  lemma AddressesUnique(c: seq<Block>, lo: nat, hi: nat)
    requires Tiles(c, lo, hi)
    ensures forall x, y :: x in c && y in c && x.addr == y.addr ==> x == y
  {
    BlocksDisjointAll(c, lo, hi);
    forall x, y | x in c && y in c && x.addr == y.addr ensures x == y {
      var i :| 0 <= i < |c| && c[i] == x;
      var j :| 0 <= j < |c| && c[j] == y;
      assert i == j;
    }
  }

  lemma ReleaseOfNull(c: seq<Block>)
    ensures Release(c, 0) == c
  {
  }

  // kfree undoes kmalloc, down to the shape of the free space.
  lemma ReleaseUndoesAlloc(c: seq<Block>, n: nat, lo: nat, hi: nat)
    requires Good(c, lo, hi) && n % 4 == 0
    ensures var (d, p) := Alloc(c, n); Release(d, p) == c
  {
    ReleaseOfNull(Alloc(c, n).0);
    hide Release, Tiles, NoFreePair;
    var (d, p) := Alloc(c, n);
    AllocGood(c, n, lo, hi);
    AllocAddsOne(c, n, lo, hi);
    if p != 0 {
      var b :| Added(c, d, b) && b.addr + HEADER == p && n <= b.size <= n + HEADER + 16;
      ReleaseLaw(d, p, lo, hi);
      AddressesUnique(d, lo, hi);
      assert forall x :: x in Live(c) ==> x in Live(d) && x != b;
      assert b in Live(d);
      assert Live(Release(d, p)) == Live(c);
      Canonical(Release(d, p), c, lo, hi);
    }
  }

  // -- memory_used and memory_free -------------------------------------------------

  lemma {:induction false} NothingLiveNothingUsed(c: seq<Block>)
    ensures Live(c) == {} <==> forall b :: b in c ==> b.free
    ensures Live(c) == {} ==> Used(c) == 0
  {
    if c != [] {
      assert c == [c[0]] + c[1..];
      NothingLiveNothingUsed(c[1..]);
      LiveOfCons(c[0], c[1..]);
    }
  }

  // kmalloc raises memory_used by the size of the block it hands out.
  lemma {:induction false} AllocRaisesUsed(c: seq<Block>, n: nat, lo: nat, hi: nat)
    requires Good(c, lo, hi) && Alloc(c, n).1 != 0
    ensures exists b :: Added(c, Alloc(c, n).0, b) && Used(Alloc(c, n).0) == Used(c) + b.size
  {
    AllocAddsOne(c, n, lo, hi);
    var b :| Added(c, Alloc(c, n).0, b);
    AllocUsed(c, n, lo, hi, b);
  }

  lemma {:induction false} AllocUsed(c: seq<Block>, n: nat, lo: nat, hi: nat, b: Block)
    requires Good(c, lo, hi) && Alloc(c, n).1 != 0 && Added(c, Alloc(c, n).0, b)
    ensures Used(Alloc(c, n).0) == Used(c) + b.size
  {
    GoodTail(c, lo, hi);
    LiveTail(c, lo, hi);
    var d := Alloc(c, n).0;
    if c[0].free && c[0].size >= n {
      var s := Split(c[0], n);
      SplitLive(c, n);
      assert b == s[0];
      assert d == [s[0]] + (s[1..] + c[1..]);
      if |s| == 2 { assert s[1..] + c[1..] == [s[1]] + c[1..]; } else { assert s[1..] + c[1..] == c[1..]; }
    } else {
      var rest := Alloc(c[1..], n).0;
      assert d == [c[0]] + rest && c == [c[0]] + c[1..];
      AllocAddsOne(c[1..], n, c[0].End(), hi);
      AllocWithin(c[1..], n, c[0].End(), hi);
      var x :| Added(c[1..], rest, x) && x.addr + HEADER == Alloc(c[1..], n).1;
      LiveOfCons(c[0], c[1..]);
      LiveOfCons(c[0], rest);
      assert x in Live(d) && x !in Live(c);
      assert x == b;
      AllocUsed(c[1..], n, c[0].End(), hi, b);
    }
  }

  // kfree lowers memory_used by the size of the block given back.
  lemma ReleaseLowersUsed(c: seq<Block>, b: Block, lo: nat, hi: nat)
    requires Good(c, lo, hi) && b in Live(c)
    ensures Used(Release(c, b.addr + 12)) == Used(c) - b.size
  {
    MarkUsed(c, b, lo, hi);
    MarkTiles(c, b.addr, lo, hi);
    CoalesceUsed(MarkFree(c, b.addr));
  }

  lemma {:induction false} MarkUsed(c: seq<Block>, b: Block, lo: nat, hi: nat)
    requires Tiles(c, lo, hi)
    ensures b in Live(c) ==> Used(MarkFree(c, b.addr)) == Used(c) - b.size
    ensures (forall x :: x in c ==> x.addr != b.addr) ==> Used(MarkFree(c, b.addr)) == Used(c)
  {
    if c != [] {
      BlocksDisjointAll(c, lo, hi);
      assert MarkFree(c, b.addr)[1..] == MarkFree(c[1..], b.addr);
      assert c == [c[0]] + c[1..];
      MarkUsed(c[1..], b, c[0].End(), hi);
    }
  }

  lemma {:induction false} CoalesceUsed(c: seq<Block>)
    ensures Used(Coalesce(c)) == Used(c)
    decreases |c|
  {
    if |c| >= 2 {
      if c[0].free && c[1].free {
        var d := [Merge(c[0], c[1])] + c[2..];
        assert c[1..][1..] == c[2..] && d[1..] == c[2..];
        CoalesceUsed(d);
      } else {
        CoalesceUsed(c[1..]);
        assert ([c[0]] + Coalesce(c[1..]))[1..] == Coalesce(c[1..]);
      }
    }
  }

  // -- whole runs ------------------------------------------------------------

  datatype Op = Malloc(request: Word) | Free(ptr: nat)

  function Apply(c: seq<Block>, op: Op): seq<Block> {
    match op
    case Malloc(n) => Alloc(c, AlignUp4(n)).0
    case Free(p) => Release(c, p)
  }

  function Run(c: seq<Block>, ops: seq<Op>): seq<Block>
    decreases |ops|
  {
    if ops == [] then c else Run(Apply(c, ops[0]), ops[1..])
  }

  // Every kfree of the run gets null or a payload address of the chain.
  ghost predicate Legal(c: seq<Block>, ops: seq<Op>)
    decreases |ops|
  {
    ops == [] || ((ops[0].Free? ==> Releasable(c, ops[0].ptr)) && Legal(Apply(c, ops[0]), ops[1..]))
  }

  ghost predicate Reachable(c: seq<Block>, base: nat) {
    exists ops: seq<Op> :: Legal(Initial(base), ops) && Run(Initial(base), ops) == c
  }

  // The first page boundary at or after the end of the kernel.
  lemma BaseIsNextPage(kernelEnd: Word)
    requires kernelEnd <= 0xFFFF_F000
    ensures PageRoundUp(kernelEnd) % 4096 == 0 && kernelEnd <= PageRoundUp(kernelEnd) < kernelEnd + 4096
  {
  }

  lemma InitialGood(base: nat)
    ensures Good(Initial(base), base, base + HEAP_SIZE) && Live(Initial(base)) == {}
  {
    assert Initial(base)[1..] == [];
  }

  lemma {:induction false} RunGood(c: seq<Block>, ops: seq<Op>, lo: nat, hi: nat)
    requires Good(c, lo, hi)
    ensures Good(Run(c, ops), lo, hi)
    decreases |ops|
  {
    if ops != [] {
      match ops[0] {
        case Malloc(n) => AllocGood(c, AlignUp4(n), lo, hi);
        case Free(p) => ReleaseLaw(c, p, lo, hi);
      }
      RunGood(Apply(c, ops[0]), ops[1..], lo, hi);
    }
  }

  // A block handed out keeps its address and size until it is freed.
  lemma {:induction false} RunKeepsBlock(c: seq<Block>, ops: seq<Op>, lo: nat, hi: nat, b: Block)
    requires Good(c, lo, hi) && b in Live(c) && Free(b.addr + HEADER) !in ops
    ensures b in Live(Run(c, ops))
    decreases |ops|
  {
    hide Good, Alloc, Release, AlignUp4;
    if ops != [] {
      match ops[0] {
        case Malloc(n) =>
          AlignCovers(n);
          AllocGood(c, AlignUp4(n), lo, hi);
          AllocAddsOne(c, AlignUp4(n), lo, hi);
        case Free(p) =>
          ReleaseLaw(c, p, lo, hi);
      }
      RunKeepsBlock(Apply(c, ops[0]), ops[1..], lo, hi, b);
    }
  }

  // Every reachable chain tiles the heap, has no two free neighbours, accounts
  // for every byte, and is the only reachable chain with its live blocks; with
  // no block live it is the single block of memory_init.
  lemma ReachableHeap(c: seq<Block>, base: nat)
    requires Reachable(c, base)
    ensures Good(c, base, base + HEAP_SIZE)
    ensures Used(c) + Available(c) + HEADER * |c| == HEAP_SIZE
    ensures Live(c) == {} ==> c == Initial(base)
    ensures forall d :: Reachable(d, base) && Live(d) == Live(c) ==> d == c
  {
    var hi := base + HEAP_SIZE;
    var init := Initial(base);
    InitialGood(base);
    var ops: seq<Op> :| Legal(init, ops) && Run(init, ops) == c;
    RunGood(init, ops, base, hi);
    Conservation(c, base, hi);
    if Live(c) == {} {
      Canonical(c, init, base, hi);
    }
    forall d | Reachable(d, base) && Live(d) == Live(c) ensures d == c {
      var ops': seq<Op> :| Legal(init, ops') && Run(init, ops') == d;
      RunGood(init, ops', base, hi);
      Canonical(c, d, base, hi);
    }
  }

  // Freeing live blocks, one call each, in any order.
  function ReleaseAll(c: seq<Block>, ptrs: seq<nat>): seq<Block>
    decreases |ptrs|
  {
    if ptrs == [] then c else ReleaseAll(Release(c, ptrs[0]), ptrs[1..])
  }

  lemma {:induction false} ReleaseAllLive(c: seq<Block>, ptrs: seq<nat>, lo: nat, hi: nat)
    requires Good(c, lo, hi)
    ensures Good(ReleaseAll(c, ptrs), lo, hi)
    ensures Live(ReleaseAll(c, ptrs)) == set b | b in Live(c) && b.addr + HEADER !in ptrs
    decreases |ptrs|
  {
    if ptrs != [] {
      ReleaseLaw(c, ptrs[0], lo, hi);
      ReleaseAllLive(Release(c, ptrs[0]), ptrs[1..], lo, hi);
      assert ptrs == [ptrs[0]] + ptrs[1..];
    }
  }

  // Two orders of freeing the same pointers give the same chain; freeing every
  // live pointer restores the single free block.
  lemma ReleaseOrderIrrelevant(c: seq<Block>, p: seq<nat>, q: seq<nat>, base: nat)
    requires Good(c, base, base + HEAP_SIZE)
    requires forall x :: x in p <==> x in q
    ensures ReleaseAll(c, p) == ReleaseAll(c, q)
    ensures (forall b :: b in Live(c) ==> b.addr + HEADER in p) ==> ReleaseAll(c, p) == Initial(base)
  {
    var hi := base + HEAP_SIZE;
    ReleaseAllLive(c, p, base, hi);
    ReleaseAllLive(c, q, base, hi);
    Canonical(ReleaseAll(c, p), ReleaseAll(c, q), base, hi);
    if forall b :: b in Live(c) ==> b.addr + HEADER in p {
      InitialGood(base);
      Canonical(ReleaseAll(c, p), Initial(base), base, hi);
    }
  }

  // What kmalloc hands out is large enough exactly when rounding up the request
  // does not wrap around; the three largest requests wrap to 0 and are served too.
  lemma KmallocCovers(c: seq<Block>, request: Word, lo: nat, hi: nat)
    requires Good(c, lo, hi) && hi <= lo + HEAP_SIZE && Alloc(c, AlignUp4(request)).1 != 0
    ensures exists b ::
      && Added(c, Alloc(c, AlignUp4(request)).0, b) && b.addr + HEADER == Alloc(c, AlignUp4(request)).1
      && (b.size >= request <==> request <= 0xFFFF_FFFC)
  {
    AlignCovers(request);
    AllocAddsOne(c, AlignUp4(request), lo, hi);
  }

  // The aligned size covers the request unless rounding up wraps around, which
  // it does, to 0, for the three largest requests.
  lemma AlignCovers(request: Word)
    ensures AlignUp4(request) >= request <==> request <= 0xFFFF_FFFC
    ensures request > 0xFFFF_FFFC ==> AlignUp4(request) == 0
    ensures AlignUp4(request) % 4 == 0 && AlignUp4(request) < request + 4
  {
    if request <= 0xFFFF_FFFC {
      assert (request + 3) % TWO_32 == request + 3;
    } else {
      assert (request + 3) % TWO_32 == request + 3 - TWO_32;
    }
  }
}
