/** What rt_malloc, rt_realloc and rt_free of mem.c do, said from outside: which used blocks there are before and
    after, where each ends, and when a call fails. With the invariant this decides the block list. */
module SmallHeapExact {
  import opened Extents
  import opened SmallHeapSpec
  import opened Tiling

  // ----- rt_free

  lemma PlugExtents(h: Heap, end: int, i: int)
    requires 0 <= i < |h.blocks| && !h.blocks[i].used
    ensures SameExtents(h.blocks, Plug(h, i).blocks, end)
  {
    hide Join, SameExtents;
    ExtentsRefl(h.blocks, end);
    var f := PlugForward(h, i);
    if i + 1 < |h.blocks| && !h.blocks[i + 1].used {
      JoinIndex(h.blocks, i);
      JoinExtent(h.blocks, end, i);
    }
    ExtentsRefl(f.blocks, end);
    if i > 0 && !f.blocks[i - 1].used { JoinExtent(f.blocks, end, i - 1); }
    ExtentsTrans(h.blocks, f.blocks, Plug(h, i).blocks, end);
  }

  lemma ExtentsRefl(bs: seq<Block>, end: int)
    ensures SameExtents(bs, bs, end)
  {
  }

  lemma ExtentsTrans(bs: seq<Block>, cs: seq<Block>, ds: seq<Block>, end: int)
    requires SameExtents(bs, cs, end) && SameExtents(cs, ds, end)
    ensures SameExtents(bs, ds, end)
  {
    hide Extent;
  }

  lemma PlugCounters(h: Heap, i: int)
    requires 0 <= i < |h.blocks|
    ensures Plug(h, i).usedMem == h.usedMem && Plug(h, i).maxMem == h.maxMem
  {
  }

  /** rt_free makes exactly the given block free: every other used block lies where it lay. */
  lemma FreeExact(h: Heap, end: int, i: int)
    requires Inv(h, end) && 0 <= i < |h.blocks| && h.blocks[i].used
    ensures Removed(h.blocks, FreeAt(h, end, i).blocks, end, h.blocks[i].addr)
    ensures FreeAt(h, end, i).usedMem == h.usedMem - (Next(h.blocks, end, i) - h.blocks[i].addr)
    ensures FreeAt(h, end, i).maxMem == h.maxMem
  {
    hide Extent, Plug;
    MarkExtent(h.blocks, end, HDR, i, false);
    PlugExtents(Released(h, end, i), end, i);
    PlugCounters(Released(h, end, i), i);
  }

  // ----- rt_malloc

  /** A free block from a up to n starts at lfree or behind it, below the bound of the search, and has room. */
  ghost predicate RoomAt(h: Heap, end: int, size: int, a: int, n: int)
  {
    && h.lfree <= a < end - HDR - size && n - a - HDR >= size
    && exists i :: 0 <= i < |h.blocks| && h.blocks[i] == Block(a, false) && Next(h.blocks, end, i) == n
  }

  ghost predicate NoRoom(h: Heap, end: int, size: int)
  {
    forall a, n :: !RoomAt(h, end, size, a, n)
  }

  /** Where a block handed out at a in a free block up to n ends: behind its bytes if another header and
      MIN_SIZE_ALIGNED bytes fit behind them, otherwise where the free block ended. */
  function EndOf(a: int, n: int, size: int): int
  {
    if n - a - HDR >= size + HDR + MIN_SIZE_ALIGNED then a + HDR + size else n
  }

  /** The lowest block with room, from a up to n. */
  ghost predicate Lowest(h: Heap, end: int, size: int, a: int, n: int)
  {
    RoomAt(h, end, size, a, n) && forall x, y :: RoomAt(h, end, size, x, y) ==> a <= x
  }

  /** The lowest block with room, at address a, is handed out, and no other used block moves. */
  ghost predicate HandsOut(h: Heap, cs: seq<Block>, end: int, size: int, a: int)
  {
    exists n :: Lowest(h, end, size, a, n) && Added(h.blocks, cs, end, a, EndOf(a, n, size))
  }

  /** The same, and the used block at `gone` is used no longer. */
  ghost predicate MovesTo(h: Heap, cs: seq<Block>, end: int, gone: int, size: int, a: int)
  {
    exists n :: Lowest(h, end, size, a, n) && Swapped(h.blocks, cs, end, gone, a, EndOf(a, n, size))
  }

  /** The used block at a has room for that many bytes. */
  ghost predicate HasRoom(bs: seq<Block>, end: int, a: int, req: int)
  {
    exists n :: Extent(bs, end, a, n) && n - a - HDR >= req
  }

  lemma CarveExtent(h: Heap, end: int, i: int, size: int)
    requires Spaced(h.blocks, end, HDR) && 0 <= i < |h.blocks| && !h.blocks[i].used && size >= 0
    ensures var n := Next(h.blocks, end, i); var a := h.blocks[i].addr;
      Added(h.blocks, CarvedBlocks(h.blocks, end, i, size), end, a, EndOf(a, n, size))
  {
    hide Extent, Spaced, Split;
    var bs, ms := h.blocks, Mark(h.blocks, i, true);
    var a2 := bs[i].addr + HDR + size;
    MarkExtent(bs, end, HDR, i, true);
    MarkShape(bs, end, HDR, i, true);
    SplitExtent(ms, end, HDR, i, a2);
    forall y ensures !Extent(bs, end, bs[i].addr, y) { ExtentOnly(bs, end, HDR, i, y); }
  }

  /** The search from lfree meets exactly the free blocks that RoomAt speaks of. */
  lemma SearchMeans(h: Heap, end: int, size: int)
    requires Inv(h, end)
    ensures var i := FirstFit(h.blocks, end, size, end - HDR - size, Find(h.blocks, h.lfree));
      && (i == |h.blocks| ==> NoRoom(h, end, size))
      && (i < |h.blocks| ==> !h.blocks[i].used && Fits(h.blocks, end, size, i)
                             && Lowest(h, end, size, h.blocks[i].addr, Next(h.blocks, end, i)))
  {
    hide Spaced, Bytes, Settled, FirstFit, LfreeOk;
    var j, limit := Find(h.blocks, h.lfree), end - HDR - size;
    FirstFitLowest(h.blocks, end, size, limit, j);
    LfreeSplits(h, end);
    var i := FirstFit(h.blocks, end, size, limit, j);
    forall a, n | RoomAt(h, end, size, a, n) ensures i < |h.blocks| && h.blocks[i].addr <= a {
      var k :| 0 <= k < |h.blocks| && h.blocks[k] == Block(a, false) && Next(h.blocks, end, k) == n;
      if i < k { Gap(h.blocks, end, HDR, i, k); }
    }
  }

  lemma LfreeSplits(h: Heap, end: int)
    requires Inv(h, end)
    ensures forall k :: 0 <= k < |h.blocks| ==> (h.lfree <= h.blocks[k].addr <==> Find(h.blocks, h.lfree) <= k)
  {
    hide Bytes, Settled;
    var j := Find(h.blocks, h.lfree);
    forall k | 0 <= k < |h.blocks| ensures h.lfree <= h.blocks[k].addr <==> j <= k {
      if j < |h.blocks| { Gap(h.blocks, end, HDR, j, k); Gap(h.blocks, end, HDR, k, j); }
    }
  }

  /** rt_malloc, exactly: it fails, changing nothing, if and only if the size is zero or too large or no free
      block from lfree on and below the bound has room; otherwise the lowest such block becomes one used block
      with room for the request, and no other used block moves. */
  lemma MallocExact(h: Heap, end: int, req: nat)
    requires Inv(h, end)
    ensures var size := Rounded(req); var (g, p) := Malloc(h, end, req);
      && (p == Null <==> req == 0 || AlignUp(req) > end - HDR || NoRoom(h, end, size))
      && (p == Null ==> g == h)
      && (p != Null ==> g.maxMem == Max(h.maxMem, g.usedMem) && HandsOut(h, g.blocks, end, size, p.off - HDR))
  {
    hide Inv, FirstFit, Find, AlignUp, CarvedBlocks, Added, RoomAt, NextFree, Spaced, Settled, Fits;
    var size := Rounded(req);
    SearchMeans(h, end, size);
    var i := FirstFit(h.blocks, end, size, end - HDR - size, Find(h.blocks, h.lfree));
    InvShape(h, end);
    if i < |h.blocks| {
      CarveExtent(h, end, i, size);
      assert Lowest(h, end, size, h.blocks[i].addr, Next(h.blocks, end, i));
    }
  }

  lemma InvShape(h: Heap, end: int)
    requires Inv(h, end)
    ensures |h.blocks| > 0 && Spaced(h.blocks, end, HDR) && Settled(h.blocks) && h.blocks[0].addr == 0
  {
  }

  // ----- rt_realloc

  /** The block is left where it is: the size is the same, or the cut leaves more than a header and MIN_SIZE. */
  predicate InPlace(room: int, size: int)
  {
    size == room || size + HDR + MIN_SIZE < room
  }

  lemma RoundedTwice(req: nat)
    ensures AlignUp(AlignUp(req)) == AlignUp(req)
    ensures req <= TWO32 - ALIGN ==> req <= AlignUp(req) < req + ALIGN
    ensures req <= TWO32 - ALIGN ==> (AlignUp(req) == 0 <==> req == 0)
  {
    var k := (req + ALIGN - 1) % TWO32 / ALIGN;
    assert AlignUp(req) == k * ALIGN <= TWO32 - ALIGN;
    assert (k * ALIGN + ALIGN - 1) % TWO32 == k * ALIGN + ALIGN - 1;
    assert (k * ALIGN + ALIGN - 1) / ALIGN == k;
    if req <= TWO32 - ALIGN { assert (req + ALIGN - 1) % TWO32 == req + ALIGN - 1; }
  }

  /** rt_realloc of no block is rt_malloc. */
  lemma ReallocNull(h: Heap, end: int, req: nat)
    requires |h.blocks| > 0 && req <= TWO32 - ALIGN
    ensures Realloc(h, end, Null, req) == Malloc(h, end, req)
  {
    hide AlignUp, Find, FirstFit, Carve;
    RoundedTwice(req);
  }

  lemma ShrinkExtent(h: Heap, end: int, i: int, size: int)
    requires Inv(h, end) && 0 <= i < |h.blocks| && h.blocks[i].used && 0 <= size && Shrinks(h, end, i, size)
    ensures var a := h.blocks[i].addr; Swapped(h.blocks, Shrink(h, end, i, size).blocks, end, a, a, a + HDR + size)
    ensures Shrink(h, end, i, size).maxMem == h.maxMem
    ensures Shrink(h, end, i, size).usedMem == h.usedMem - (Next(h.blocks, end, i) - h.blocks[i].addr - HDR - size)
  {
    hide Extent, Plug, Spaced, Split;
    var a2 := h.blocks[i].addr + HDR + size;
    InvShape(h, end);
    SplitExtent(h.blocks, end, HDR, i, a2);
    SplitIndex(h.blocks, i, a2);
    PlugExtents(Cut(h, end, i, size), end, i + 1);
    PlugCounters(Cut(h, end, i, size), i + 1);
  }

  /** The moving branch: taken from MallocExact and FreeExact. */
  lemma MoveExtent(h: Heap, end: int, i: int, size: nat)
    requires Inv(h, end) && 0 <= i < |h.blocks| && h.blocks[i].used && Malloc(h, end, size).1 != Null
    ensures var (g, q) := Malloc(h, end, size); var k := Find(g.blocks, h.blocks[i].addr);
      && k < |g.blocks| && var f := FreeAt(g, end, k);
      && f.maxMem == Max(h.maxMem, f.usedMem + Next(h.blocks, end, i) - h.blocks[i].addr)
      && q.off - HDR != h.blocks[i].addr
      && MovesTo(h, f.blocks, end, h.blocks[i].addr, Rounded(size), q.off - HDR)
  {
    hide Inv, Malloc, FreeAt, Find, Extent, RoomAt, Spaced, Settled, AlignUp, Rounded;
    var (g, q) := Malloc(h, end, size);
    var a, b := h.blocks[i].addr, q.off - HDR;
    MallocExact(h, end, size);
    var n :| Lowest(h, end, Rounded(size), b, n) && Added(h.blocks, g.blocks, end, b, EndOf(b, n, Rounded(size)));
    FreeIsUnused(h, end, Rounded(size), b, n, i);
    MoveInv(h, end, i, size);
    var k := Find(g.blocks, a);
    FreeExact(g, end, k);
    InvShape(h, end);
    InvShape(g, end);
    ExtentAt(h.blocks, end, i);
    ExtentOnly(g.blocks, end, HDR, k, Next(h.blocks, end, i));
  }

  lemma FreeIsUnused(h: Heap, end: int, size: int, a: int, n: int, i: int)
    requires Inv(h, end) && RoomAt(h, end, size, a, n) && 0 <= i < |h.blocks| && h.blocks[i].used
    ensures a != h.blocks[i].addr
  {
    hide Bytes, Settled;
    var k :| 0 <= k < |h.blocks| && h.blocks[k] == Block(a, false);
    Gap(h.blocks, end, HDR, i, k);
    Gap(h.blocks, end, HDR, k, i);
  }

  /** rt_realloc of a live block, exactly: it fails, changing nothing, if and only if the size is too large or the
      block has to move and rt_malloc would fail; otherwise the block is cut in place or moved to where rt_malloc
      finds room, the old one is used no longer unless it is the one returned, and no other used block moves. */
  lemma ReallocExact(h: Heap, end: int, p: Ptr, n: int, req: nat)
    requires Inv(h, end) && p.At? && 0 <= p.off < end && Extent(h.blocks, end, p.off - HDR, n)
    ensures var size := AlignUp(req); var room := n - p.off; var (g, q) := Realloc(h, end, p, req);
      && (q == Null ==> g == h)
      && (q == Null <==> size > end - HDR || (!InPlace(room, size) && (size == 0 || NoRoom(h, end, Rounded(size)))))
      && (q == p <==> size <= end - HDR && InPlace(room, size))
      && (q == p ==> Swapped(h.blocks, g.blocks, end, p.off - HDR, p.off - HDR, p.off + size))
      && (q != Null && q != p ==> MovesTo(h, g.blocks, end, p.off - HDR, Rounded(size), q.off - HDR))
      && (q != Null ==> g.maxMem == if q == p then h.maxMem else Max(h.maxMem, g.usedMem + room + HDR))
  {
    hide Inv, AlignUp, Find, Shrink, Malloc, FreeAt, Extent, Swapped, Added, RoomAt, Spaced, Rounded, Lowest;
    RoundedTwice(req);
    var i := LiveAt(h, end, p, n);
    var size, room := AlignUp(req), n - p.off;
    if size <= end - HDR {
      if InPlace(room, size) {
        StaysExtent(h, end, i, size);
      } else {
        MallocExact(h, end, size);
        if Malloc(h, end, size).1 != Null { MovesExtent(h, end, p, n, i, req); }
      }
    }
  }

  lemma LiveAt(h: Heap, end: int, p: Ptr, n: int) returns (i: int)
    requires Inv(h, end) && p.At? && Extent(h.blocks, end, p.off - HDR, n)
    ensures 0 <= i < |h.blocks| && h.blocks[i] == Block(p.off - HDR, true) && Next(h.blocks, end, i) == n
    ensures Find(h.blocks, p.off - HDR) == i && p.off <= n && Live(h, p)
  {
    hide Bytes, Settled, LfreeOk;
    i :| 0 <= i < |h.blocks| && h.blocks[i] == Block(p.off - HDR, true) && Next(h.blocks, end, i) == n;
    FindUnique(h.blocks, end, HDR, i);
    HeaderRoom(h.blocks, end, i);
  }

  lemma HeaderRoom(bs: seq<Block>, end: int, i: int)
    requires Spaced(bs, end, HDR) && 0 <= i < |bs|
    ensures bs[i].addr + HDR <= Next(bs, end, i)
  {
  }

  lemma StaysExtent(h: Heap, end: int, i: int, size: nat)
    requires Inv(h, end) && 0 <= i < |h.blocks| && h.blocks[i].used && InPlace(Size(h, end, i), size)
    ensures var (g, q) := Resize(h, end, i, size); var a := h.blocks[i].addr;
      q == At(a + HDR) && g.maxMem == h.maxMem && Swapped(h.blocks, g.blocks, end, a, a, a + HDR + size)
  {
    hide Inv, Shrink, Malloc, FreeAt, Find, Extent, Spaced;
    if Size(h, end, i) == size {
      InvShape(h, end);
      forall y ensures Extent(h.blocks, end, h.blocks[i].addr, y) <==> y == Next(h.blocks, end, i) {
        ExtentOnly(h.blocks, end, HDR, i, y);
      }
    } else {
      ShrinkExtent(h, end, i, size);
    }
  }

  lemma MovesExtent(h: Heap, end: int, p: Ptr, n: int, i: int, req: nat)
    requires Inv(h, end) && p.At? && 0 <= i < |h.blocks| && h.blocks[i] == Block(p.off - HDR, true)
    requires Next(h.blocks, end, i) == n
    requires !InPlace(Size(h, end, i), AlignUp(req)) && Malloc(h, end, AlignUp(req)).1 != Null
    ensures var (g, q) := Resize(h, end, i, AlignUp(req));
      && q.At? && q != p && g.maxMem == Max(h.maxMem, g.usedMem + n - p.off + HDR)
      && MovesTo(h, g.blocks, end, p.off - HDR, Rounded(AlignUp(req)), q.off - HDR)
  {
    hide Inv, AlignUp, Find, Shrink, Malloc, FreeAt, Swapped, Rounded;
    RoundedTwice(req);
    MoveExtent(h, end, i, AlignUp(req));
  }

  /** What a caller of rt_realloc may rely on: a pointer it gets back has room for what it asked for, and the
      old one is then used no longer, unless it is the one it gets back. */
  lemma ReallocGives(h: Heap, end: int, p: Ptr, req: nat)
    requires Inv(h, end) && Live(h, p) && 0 <= p.off < end && req <= TWO32 - ALIGN
    ensures var (g, q) := Realloc(h, end, p, req);
      if q == Null then g == h else Live(g, q) && HasRoom(g.blocks, end, q.off - HDR, req) && (q != p ==> !Live(g, p))
  {
    hide Inv, Realloc, AlignUp, Extent, Lowest, Rounded;
    LiveIndex(h, end, p);
    var n := Next(h.blocks, end, Find(h.blocks, p.off - HDR));
    ExtentAt(h.blocks, end, Find(h.blocks, p.off - HDR));
    ReallocExact(h, end, p, n, req);
    RoundedTwice(req);
    RoundedCovers(AlignUp(req));
    var (g, q) := Realloc(h, end, p, req);
    UsedIn(g.blocks, end, p.off - HDR);
    if q == p {
      assert Extent(g.blocks, end, p.off - HDR, p.off + AlignUp(req));
    } else if q != Null {
      var a, size := q.off - HDR, Rounded(AlignUp(req));
      var m :| Lowest(h, end, size, a, m) && Swapped(h.blocks, g.blocks, end, p.off - HDR, a, EndOf(a, m, size));
      LowestRoom(h, end, size, a, m);
      assert Extent(g.blocks, end, a, EndOf(a, m, size));
      UsedIn(g.blocks, end, a);
    }
  }

  /** What rt_realloc does to lfree: it stays the lowest free block unless the block is cut, with neither lfree
      below it nor a free block behind it. */
  lemma ReallocLowestIff(h: Heap, end: int, p: Ptr, req: nat)
    requires Inv(h, end) && LowestFree(h) && Live(h, p) && 0 <= p.off < end
    ensures var i := Find(h.blocks, p.off - HDR);
      && i < |h.blocks|
      && (LowestFree(Realloc(h, end, p, req).0)
          <==> AlignUp(req) > end - HDR || !Shrinks(h, end, i, AlignUp(req)) || h.lfree < h.blocks[i].addr
               || (i + 1 < |h.blocks| && !h.blocks[i + 1].used))
  {
    hide Inv, LowestFree, AlignUp, Malloc, FreeAt, Shrink, Find;
    LiveIndex(h, end, p);
    var i, size := Find(h.blocks, p.off - HDR), AlignUp(req);
    InvShape(h, end);
    if size <= end - HDR {
      if Shrinks(h, end, i, size) { ShrinkLowestIff(h, end, i, size); }
      MoveInv(h, end, i, size);
      MallocInv(h, end, size);
      var g := Malloc(h, end, size).0;
      FreeAtInv(g, end, Find(g.blocks, h.blocks[i].addr));
    }
  }

  /** The used blocks decide the whole list. */
  lemma BlocksDecided(h: Heap, g: Heap, end: int)
    requires Inv(h, end) && Inv(g, end) && SameExtents(h.blocks, g.blocks, end)
    ensures h.blocks == g.blocks && h.usedMem == g.usedMem
  {
    hide SameExtents;
    ExtentsDecide(h.blocks, g.blocks, end, HDR);
  }

  lemma LowestRoom(h: Heap, end: int, size: int, a: int, n: int)
    requires Lowest(h, end, size, a, n)
    ensures n - a - HDR >= size
  {
  }

  lemma RoundedCovers(size: nat)
    requires AlignUp(size) == size
    ensures Rounded(size) >= size
  {
    hide AlignUp;
  }

  // ----- runs

  lemma StepKeeps(h: Heap, end: int, op: Op, a: int, n: int)
    requires Inv(h, end) && Legal(h, end, op) && Extent(h.blocks, end, a, n)
    requires op.DoMalloc? || op.p != At(a + HDR)
    ensures Extent(Step(h, end, op).blocks, end, a, n)
  {
    hide Inv, Malloc, Realloc, FreeAt, Extent, AlignUp, Lowest;
    match op
    case DoMalloc(req) => MallocExact(h, end, req);
    case DoFree(p) =>
      if p != Null && 0 <= p.off < end {
        LiveIndex(h, end, p);
        FreeExact(h, end, Find(h.blocks, p.off - HDR));
      }
    case DoRealloc(p, req) => ReallocKeeps(h, end, p, req, a, n);
  }

  lemma ReallocKeeps(h: Heap, end: int, p: Ptr, req: nat, a: int, n: int)
    requires Inv(h, end) && (p == Null || Live(h, p)) && Extent(h.blocks, end, a, n) && p != At(a + HDR)
    ensures Extent(Realloc(h, end, p, req).0.blocks, end, a, n)
  {
    hide Inv, Malloc, Resize, FreeAt, Extent, AlignUp, Lowest, Find;
    if p == Null {
      MallocExact(h, end, AlignUp(req));
    } else if 0 <= p.off < end {
      LiveIndex(h, end, p);
      var i := Find(h.blocks, p.off - HDR);
      ExtentAt(h.blocks, end, i);
      ReallocExact(h, end, p, Next(h.blocks, end, i), req);
    }
  }

  /** In every run a block that a client holds stays where it is, as long as it is, until it is passed to rt_free
      or rt_realloc, whatever else is allocated, cut, moved or released in between. */
  lemma {:induction false} HeldUntilPassedBack(hs: seq<Heap>, ops: seq<Op>, end: int, j: nat, k: nat, a: int, n: int)
    requires Run(hs, ops, end) && j <= k < |hs| && Extent(hs[j].blocks, end, a, n)
    requires forall i :: j <= i < k ==> ops[i].DoMalloc? || ops[i].p != At(a + HDR)
    ensures Extent(hs[k].blocks, end, a, n)
    decreases k - j
  {
    hide Extent, Step, Inv, Legal;
    if k > j {
      HeldUntilPassedBack(hs, ops, end, j, k - 1, a, n);
      RunSafe(hs, ops, end, k - 1);
      StepKeeps(hs[k - 1], end, ops[k - 1], a, n);
    }
  }
}
