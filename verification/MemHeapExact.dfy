/** What rt_memheap_alloc, rt_memheap_realloc and rt_memheap_free of memheap.c do, said from outside: which used
    blocks there are before and after, where each ends, and when a call fails. */
module MemHeapExact {
  import opened Extents
  import opened MemHeapSpec
  import opened Tiling

  lemma InvShape(p: Pool, start: int, tail: int)
    requires Inv(p, start, tail)
    ensures |p.blocks| > 0 && Spaced(p.blocks, tail, HDR) && Settled(p.blocks) && p.blocks[0].addr == start
  {
  }

  lemma ExtentsRefl(bs: seq<Block>, tail: int)
    ensures SameExtents(bs, bs, tail)
  {
  }

  lemma ExtentsTrans(bs: seq<Block>, cs: seq<Block>, ds: seq<Block>, tail: int)
    requires SameExtents(bs, cs, tail) && SameExtents(cs, ds, tail)
    ensures SameExtents(bs, ds, tail)
  {
    hide Extent;
  }

  // ----- rt_memheap_free

  lemma RightExtents(p: Pool, tail: int, i: int)
    requires 0 <= i < |p.blocks| && !p.blocks[i].used
    ensures SameExtents(p.blocks, RightMerged(p, i).blocks, tail) && RightMerged(p, i).maxUsed == p.maxUsed
  {
    hide Join, SameExtents;
    ExtentsRefl(p.blocks, tail);
    if i + 1 < |p.blocks| && !p.blocks[i + 1].used { JoinExtent(p.blocks, tail, i); }
  }

  lemma LeftExtents(p: Pool, tail: int, i: int)
    requires 0 <= i < |p.blocks| && !p.blocks[i].used && MergesLeft(p, i)
    ensures SameExtents(p.blocks, LeftMerged(p, i).blocks, tail) && LeftMerged(p, i).maxUsed == p.maxUsed
    ensures i - 1 < |LeftMerged(p, i).blocks| && !LeftMerged(p, i).blocks[i - 1].used
  {
    hide Join, SameExtents;
    JoinExtent(p.blocks, tail, i - 1);
    JoinIndex(p.blocks, i - 1);
  }

  /** rt_memheap_free makes exactly the given block free: every other used block lies where it lay. */
  lemma FreeExact(p: Pool, start: int, tail: int, i: int)
    requires Inv(p, start, tail) && 0 <= i < |p.blocks| && p.blocks[i].used
    ensures Removed(p.blocks, Free(p, tail, i).blocks, tail, p.blocks[i].addr) && Free(p, tail, i).maxUsed == p.maxUsed
  {
    hide Extent, RightMerged, LeftMerged;
    InvShape(p, start, tail);
    MarkExtent(p.blocks, tail, HDR, i, false);
    var r := Released(p, tail, i);
    if MergesLeft(r, i) {
      LeftExtents(r, tail, i);
      RightExtents(LeftMerged(r, i), tail, i - 1);
    } else {
      RightExtents(r, tail, i);
    }
  }

  /** A block that is not merged to the left is the first one a later allocation looks at. */
  lemma FreedIsFirst(p: Pool, start: int, tail: int, i: int, req: nat)
    requires Inv(p, start, tail) && 0 <= i < |p.blocks| && p.blocks[i].used && (i > 0 ==> p.blocks[i - 1].used)
    requires Clamp(req) <= Room(p.blocks, tail, i)
    ensures var f := Free(p, tail, i); Clamp(req) < f.available ==> Alloc(f, start, tail, req).1 == At(p.blocks[i].addr + HDR)
  {
    hide Inv, RightMerged, Give, Room, AlignUp, FirstFit;
    var f := Free(p, tail, i);
    FreeInv(p, start, tail, i);
    FirstIsFreed(p, start, tail, i);
    ListedBlock(f, start, tail, 0);
    FirstFitFirst(f.blocks, tail, Clamp(req), f.free, 0);
  }

  lemma FirstIsFreed(p: Pool, start: int, tail: int, i: int)
    requires Inv(p, start, tail) && 0 <= i < |p.blocks| && p.blocks[i].used && (i > 0 ==> p.blocks[i - 1].used)
    ensures var f := Free(p, tail, i);
      && f.free != [] && f.free[0] == p.blocks[i].addr && i < |f.blocks| && f.blocks[i].addr == p.blocks[i].addr
      && Find(f.blocks, f.free[0]) == i && Room(f.blocks, tail, i) >= Room(p.blocks, tail, i)
  {
    hide Lists, Counted, Join, Without;
    var r := Released(p, tail, i);
    FreeInv(p, start, tail, i);
    if i + 1 < |r.blocks| && !r.blocks[i + 1].used {
      JoinIndex(r.blocks, i);
      if i + 2 < |r.blocks| { Gap(p.blocks, tail, HDR, i + 1, i + 2); }
    }
    FindUnique(Free(p, tail, i).blocks, tail, HDR, i);
  }

  // ----- rt_memheap_alloc

  /** Where a block handed out at a in a free block up to n ends: behind its bytes if another header and
      RT_MEMHEAP_MINIALLOC bytes fit behind them, otherwise where the free block ended. */
  function EndOf(a: int, n: int, size: int): int
  {
    if n - a - HDR >= size + HDR + MINIALLOC then a + HDR + size else n
  }

  /** The unused block at a runs up to n. */
  ghost predicate UnusedAt(bs: seq<Block>, tail: int, a: int, n: int)
  {
    exists i :: 0 <= i < |bs| && bs[i] == Block(a, false) && Next(bs, tail, i) == n
  }

  /** The block at a, up to n, is the first listed one with room. */
  ghost predicate FirstListed(p: Pool, tail: int, size: int, a: int, n: int)
  {
    && UnusedAt(p.blocks, tail, a, n) && n - a - HDR >= size
    && exists k :: 0 <= k < |p.free| && p.free[k] == a && NoneFits(p, tail, size, k)
  }

  /** None of the first k listed blocks has room. */
  ghost predicate NoneFits(p: Pool, tail: int, size: int, k: nat)
  {
    forall j, n :: 0 <= j < k && j < |p.free| && UnusedAt(p.blocks, tail, p.free[j], n) ==> n - p.free[j] - HDR < size
  }

  ghost predicate HandsOut(p: Pool, cs: seq<Block>, tail: int, size: int, a: int)
  {
    exists n :: FirstListed(p, tail, size, a, n) && Added(p.blocks, cs, tail, a, EndOf(a, n, size))
  }

  ghost predicate MovesTo(p: Pool, cs: seq<Block>, tail: int, gone: int, size: int, a: int)
  {
    exists n :: FirstListed(p, tail, size, a, n) && Swapped(p.blocks, cs, tail, gone, a, EndOf(a, n, size))
  }

  /** The used block at a has room for that many bytes. */
  ghost predicate HasRoom(bs: seq<Block>, tail: int, a: int, req: int)
  {
    exists n :: Extent(bs, tail, a, n) && n - a - HDR >= req
  }

  lemma GiveExtent(p: Pool, start: int, tail: int, i: int, k: int, size: int)
    requires Inv(p, start, tail) && 0 <= i < |p.blocks| && 0 <= k < |p.free| && !p.blocks[i].used && size >= 0
    ensures var n := Next(p.blocks, tail, i); var a := p.blocks[i].addr; var g := Give(p, start, tail, i, k, size);
      && Added(p.blocks, g.blocks, tail, a, EndOf(a, n, size))
      && g.maxUsed == Max(p.maxUsed, tail + HDR - start - g.available)
  {
    hide Extent, Spaced, Split, Drop;
    var bs, ms := p.blocks, Mark(p.blocks, i, true);
    InvShape(p, start, tail);
    MarkExtent(bs, tail, HDR, i, true);
    MarkShape(bs, tail, HDR, i, true);
    SplitExtent(ms, tail, HDR, i, bs[i].addr + size + HDR);
    forall y ensures !Extent(bs, tail, bs[i].addr, y) { ExtentOnly(bs, tail, HDR, i, y); }
  }

  lemma UnusedOnly(bs: seq<Block>, tail: int, i: int, n: int)
    requires Spaced(bs, tail, HDR) && 0 <= i < |bs|
    ensures UnusedAt(bs, tail, bs[i].addr, n) <==> !bs[i].used && n == Next(bs, tail, i)
  {
    if UnusedAt(bs, tail, bs[i].addr, n) {
      var j :| 0 <= j < |bs| && bs[j] == Block(bs[i].addr, false) && Next(bs, tail, j) == n;
      Gap(bs, tail, HDR, i, j);
      Gap(bs, tail, HDR, j, i);
    }
  }

  /** The search along the list stops at the block FirstListed speaks of. */
  lemma SearchMeans(p: Pool, start: int, tail: int, size: int)
    requires Inv(p, start, tail)
    ensures var k := FirstFit(p.blocks, tail, size, p.free, 0);
      k < |p.free| ==> var i := Find(p.blocks, p.free[k]);
        && i < |p.blocks| && p.blocks[i] == Block(p.free[k], false)
        && FirstListed(p, tail, size, p.free[k], Next(p.blocks, tail, i))
  {
    hide Inv, FirstFit, Find, Spaced, Settled, UnusedAt;
    FirstFitFirst(p.blocks, tail, size, p.free, 0);
    InvShape(p, start, tail);
    var k := FirstFit(p.blocks, tail, size, p.free, 0);
    if k < |p.free| {
      ListedBlock(p, start, tail, k);
      var i := Find(p.blocks, p.free[k]);
      UnusedOnly(p.blocks, tail, i, Next(p.blocks, tail, i));
      forall j, n | 0 <= j < k && UnusedAt(p.blocks, tail, p.free[j], n) ensures n - p.free[j] - HDR < size {
        ListedBlock(p, start, tail, j);
        UnusedOnly(p.blocks, tail, Find(p.blocks, p.free[j]), n);
      }
      assert NoneFits(p, tail, size, k);
    }
  }

  /** rt_memheap_alloc, exactly: it fails, changing nothing, if and only if the size is not below available_size or
      no unused block has room; otherwise the first listed block with room becomes one used block, and no other
      used block moves. */
  lemma AllocGives(p: Pool, start: int, tail: int, req: nat)
    requires Inv(p, start, tail)
    ensures var size := Clamp(req); var (g, q) := Alloc(p, start, tail, req);
      && (q == Null <==> size >= p.available || NoRoom(p.blocks, tail, size))
      && (q == Null ==> g == p)
      && (q != Null ==> HandsOut(p, g.blocks, tail, size, q.off - HDR)
                        && g.maxUsed == Max(p.maxUsed, tail + HDR - start - g.available))
  {
    hide Inv, FirstFit, Find, AlignUp, Give, Added, FirstListed, NoRoom, Fits;
    var size := Clamp(req);
    AllocExact(p, start, tail, req);
    SearchMeans(p, start, tail, size);
    var k := FirstFit(p.blocks, tail, size, p.free, 0);
    if k < |p.free| {
      var i := Find(p.blocks, p.free[k]);
      GiveExtent(p, start, tail, i, k, size);
      assert FirstListed(p, tail, size, p.blocks[i].addr, Next(p.blocks, tail, i));
    }
  }

  // ----- rt_memheap_realloc

  lemma GrowExtent(p: Pool, start: int, tail: int, i: int, size: int)
    requires Inv(p, start, tail) && 0 <= i < |p.blocks| && p.blocks[i].used && Grows(p, tail, i, size)
    ensures var a := p.blocks[i].addr; var g := Grow(p, start, tail, i, size);
      && Swapped(p.blocks, g.blocks, tail, a, a, a + HDR + size)
      && g.maxUsed == Max(p.maxUsed, tail + HDR - start - g.available)
  {
    hide Extent, Spaced, Without;
    InvShape(p, start, tail);
    ShiftExtent(p.blocks, tail, HDR, i + 1, p.blocks[i].addr + HDR + size);
  }

  lemma CutExtent(p: Pool, start: int, tail: int, i: int, size: int)
    requires Inv(p, start, tail) && 0 <= i < |p.blocks| && p.blocks[i].used && 0 <= size && Shrinks(p, tail, i, size)
    ensures var a := p.blocks[i].addr; var g := Cut(p, tail, i, size);
      Swapped(p.blocks, g.blocks, tail, a, a, a + HDR + size) && g.maxUsed == p.maxUsed
  {
    hide Extent, Spaced, Split, Without, Join;
    InvShape(p, start, tail);
    var a2 := p.blocks[i].addr + HDR + size;
    var bs := Split(p.blocks, i, a2);
    SplitExtent(p.blocks, tail, HDR, i, a2);
    SplitIndex(p.blocks, i, a2);
    if i + 2 < |bs| && !bs[i + 2].used { JoinExtent(bs, tail, i + 1); }
  }

  lemma MoveExtent(p: Pool, start: int, tail: int, i: int, size: nat)
    requires Inv(p, start, tail) && 0 <= i < |p.blocks| && p.blocks[i].used
    ensures var (f, q) := Move(p, start, tail, i, size); var a := p.blocks[i].addr;
      && (q == Null <==> Clamp(size) >= p.available || NoRoom(p.blocks, tail, Clamp(size)))
      && (q == Null ==> f == p)
      && (q != Null ==> q.off - HDR != a && MovesTo(p, f.blocks, tail, a, Clamp(size), q.off - HDR))
  {
    hide Inv, Alloc, Free, Find, Extent, FirstListed, Spaced, Settled, AlignUp, NoRoom;
    var (g, q) := Alloc(p, start, tail, size);
    var a := p.blocks[i].addr;
    AllocGives(p, start, tail, size);
    MoveInv(p, start, tail, i, size);
    if q != Null {
      var b := q.off - HDR;
      var n :| FirstListed(p, tail, Clamp(size), b, n) && Added(p.blocks, g.blocks, tail, b, EndOf(b, n, Clamp(size)));
      ListedIsUnused(p, start, tail, Clamp(size), b, n, i);
      AllocInv(p, start, tail, size);
      var k := Find(g.blocks, a);
      FreeExact(g, start, tail, k);
    }
  }

  lemma ListedIsUnused(p: Pool, start: int, tail: int, size: int, a: int, n: int, i: int)
    requires Inv(p, start, tail) && FirstListed(p, tail, size, a, n) && 0 <= i < |p.blocks| && p.blocks[i].used
    ensures a != p.blocks[i].addr
  {
    hide UnusedAt;
    if a == p.blocks[i].addr { UnusedOnly(p.blocks, tail, i, n); }
  }

  /** The block is left where it is: it has room enough, or the unused block behind it leaves a header and more
      than RT_MEMHEAP_MINIALLOC bytes when it grows. */
  ghost predicate InPlace(p: Pool, tail: int, a: int, n: int, size: int)
  {
    size <= n - a - HDR || exists m :: UnusedAt(p.blocks, tail, n, m) && m - n - HDR + n - a - HDR > size + MINIALLOC
  }

  /** Where a block left in place ends: where it did, unless it grows or more than a header and
      RT_MEMHEAP_MINIALLOC bytes can be cut off. */
  function EndInPlace(a: int, n: int, size: int): int
  {
    if n - a - HDR < size || size + HDR + MINIALLOC < n - a - HDR then a + HDR + size else n
  }

  lemma GrowsMeans(p: Pool, start: int, tail: int, i: int, size: int)
    requires Inv(p, start, tail) && 0 <= i < |p.blocks| && p.blocks[i].used
    ensures var a, n := p.blocks[i].addr, Next(p.blocks, tail, i);
      InPlace(p, tail, a, n, size) <==> size <= Room(p.blocks, tail, i) || Grows(p, tail, i, size)
  {
    hide UnusedAt, Settled, Lists, Counted;
    var n := Next(p.blocks, tail, i);
    if i + 1 < |p.blocks| {
      UnusedOnly(p.blocks, tail, i + 1, Next(p.blocks, tail, i + 1));
      forall m ensures UnusedAt(p.blocks, tail, n, m) <==> !p.blocks[i + 1].used && m == Next(p.blocks, tail, i + 1) {
        UnusedOnly(p.blocks, tail, i + 1, m);
      }
    } else {
      forall m ensures !UnusedAt(p.blocks, tail, n, m) { NoneAtTail(p.blocks, tail, m); }
    }
  }

  lemma NoneAtTail(bs: seq<Block>, tail: int, m: int)
    requires Spaced(bs, tail, HDR)
    ensures !UnusedAt(bs, tail, tail, m)
  {
  }

  /** rt_memheap_realloc of a live block, exactly: size zero frees it; otherwise the call fails, changing nothing, if
      and only if the block has to move and rt_memheap_alloc would fail; otherwise the block is grown or cut in
      place or moved to where rt_memheap_alloc finds room, the old one is used no longer unless it is the one
      returned, and no other used block moves. */
  lemma ReallocExact(p: Pool, start: int, tail: int, ptr: Ptr, n: int, req: nat)
    requires Inv(p, start, tail) && ptr.At? && Extent(p.blocks, tail, ptr.off - HDR, n)
    ensures var a, size := ptr.off - HDR, Clamp(req); var (g, q) := Realloc(p, start, tail, ptr, req);
      if req == 0 then q == Null && Removed(p.blocks, g.blocks, tail, a) && g.maxUsed == p.maxUsed else
      && (q == Null ==> g == p)
      && (q == Null <==> !InPlace(p, tail, a, n, size) && (Clamp(size) >= p.available || NoRoom(p.blocks, tail, Clamp(size))))
      && (q == ptr <==> InPlace(p, tail, a, n, size))
      && (q == ptr ==> Swapped(p.blocks, g.blocks, tail, a, a, EndInPlace(a, n, size)))
      && (q != Null && q != ptr ==> MovesTo(p, g.blocks, tail, a, Clamp(size), q.off - HDR))
  {
    hide Inv, AlignUp, Find, Grow, Cut, Move, Free, Extent, Swapped, Removed, Clamp, NoRoom, InPlace, Spaced;
    var i := LiveAt(p, start, tail, ptr, n);
    var size := Clamp(req);
    if req == 0 {
      FreeExact(p, start, tail, i);
    } else {
      GrowsMeans(p, start, tail, i, size);
      MoveExtent(p, start, tail, i, size);
      if Grows(p, tail, i, size) { GrowExtent(p, start, tail, i, size); }
      if Shrinks(p, tail, i, size) { CutExtent(p, start, tail, i, size); }
      KeepsExtent(p, start, tail, i);
    }
  }

  lemma LiveAt(p: Pool, start: int, tail: int, ptr: Ptr, n: int) returns (i: int)
    requires Inv(p, start, tail) && ptr.At? && Extent(p.blocks, tail, ptr.off - HDR, n)
    ensures 0 <= i < |p.blocks| && p.blocks[i] == Block(ptr.off - HDR, true) && Next(p.blocks, tail, i) == n
    ensures Find(p.blocks, ptr.off - HDR) == i && Live(p, ptr)
  {
    hide Lists, Settled, Counted;
    i :| 0 <= i < |p.blocks| && p.blocks[i] == Block(ptr.off - HDR, true) && Next(p.blocks, tail, i) == n;
    FindUnique(p.blocks, tail, HDR, i);
  }

  lemma KeepsExtent(p: Pool, start: int, tail: int, i: int)
    requires Inv(p, start, tail) && 0 <= i < |p.blocks| && p.blocks[i].used
    ensures var a := p.blocks[i].addr; Swapped(p.blocks, p.blocks, tail, a, a, Next(p.blocks, tail, i))
  {
    hide Extent;
    InvShape(p, start, tail);
    forall y ensures Extent(p.blocks, tail, p.blocks[i].addr, y) <==> y == Next(p.blocks, tail, i) {
      ExtentOnly(p.blocks, tail, HDR, i, y);
    }
  }

  lemma ClampCovers(req: nat)
    requires req <= TWO32 - ALIGN
    ensures req <= Clamp(req) <= Clamp(Clamp(req))
  {
    assert (req + ALIGN - 1) % TWO32 == req + ALIGN - 1;
    ClampWhole(req);
  }

  lemma ClampWhole(req: nat)
    ensures Clamp(Clamp(req)) >= Clamp(req)
  {
    var c := AlignUp(req);
    assert c % ALIGN == 0 && c <= TWO32 - ALIGN;
    if c >= MINIALLOC { assert (c + ALIGN - 1) % TWO32 == c + ALIGN - 1; }
  }

  /** rt_memheap_realloc of no block is rt_memheap_alloc of the rounded size. */
  lemma ReallocNull(p: Pool, start: int, tail: int, req: nat)
    requires Inv(p, start, tail) && 0 < req <= TWO32 - ALIGN
    ensures var (g, q) := Realloc(p, start, tail, Null, req); var size := Clamp(Clamp(req));
      && size >= req && (q == Null <==> size >= p.available || NoRoom(p.blocks, tail, size))
      && (q == Null ==> g == p) && (q != Null ==> HandsOut(p, g.blocks, tail, size, q.off - HDR))
  {
    hide Inv, Clamp, Alloc, NoRoom, HandsOut;
    ClampCovers(req);
    AllocGives(p, start, tail, Clamp(req));
  }

  /** What a caller of rt_memheap_realloc may rely on. */
  lemma ReallocGives(p: Pool, start: int, tail: int, ptr: Ptr, req: nat)
    requires Inv(p, start, tail) && ptr != Null && Live(p, ptr) && 0 < req <= TWO32 - ALIGN
    ensures var (g, q) := Realloc(p, start, tail, ptr, req);
      if q == Null then g == p
      else Live(g, q) && HasRoom(g.blocks, tail, q.off - HDR, req) && (q != ptr ==> !Live(g, ptr))
  {
    hide Inv, Realloc, AlignUp, Extent, FirstListed, Clamp, InPlace;
    LiveIndex(p, start, tail, ptr);
    var a, i := ptr.off - HDR, Find(p.blocks, ptr.off - HDR);
    var n := Next(p.blocks, tail, i);
    ExtentAt(p.blocks, tail, i);
    ReallocExact(p, start, tail, ptr, n, req);
    ClampCovers(req);
    var (g, q) := Realloc(p, start, tail, ptr, req);
    UsedIn(g.blocks, tail, a);
    if q == ptr {
      assert Extent(g.blocks, tail, a, EndInPlace(a, n, Clamp(req)));
    } else if q != Null {
      var b, size := q.off - HDR, Clamp(Clamp(req));
      var m :| FirstListed(p, tail, size, b, m) && Swapped(p.blocks, g.blocks, tail, a, b, EndOf(b, m, size));
      ListedRoom(p, tail, size, b, m);
      assert Extent(g.blocks, tail, b, EndOf(b, m, size));
      UsedIn(g.blocks, tail, b);
    }
  }

  lemma ListedRoom(p: Pool, tail: int, size: int, a: int, n: int)
    requires FirstListed(p, tail, size, a, n)
    ensures n - a - HDR >= size
  {
  }

  // ----- runs

  lemma StepKeeps(p: Pool, start: int, tail: int, op: Op, a: int, n: int)
    requires Inv(p, start, tail) && Legal(p, op) && Extent(p.blocks, tail, a, n)
    requires op.DoAlloc? || op.ptr != At(a + HDR)
    ensures Extent(Step(p, start, tail, op).blocks, tail, a, n)
  {
    hide Inv, Alloc, Resize, Free, Extent, Clamp, FirstListed, NoRoom, InPlace, Find;
    match op
    case DoAlloc(req) => AllocGives(p, start, tail, req);
    case DoFree(ptr) =>
      if ptr != Null {
        LiveIndex(p, start, tail, ptr);
        FreeExact(p, start, tail, Find(p.blocks, ptr.off - HDR));
      }
    case DoRealloc(ptr, req) =>
      if ptr == Null {
        AllocGives(p, start, tail, Clamp(req));
      } else {
        LiveIndex(p, start, tail, ptr);
        var i := Find(p.blocks, ptr.off - HDR);
        ExtentAt(p.blocks, tail, i);
        ReallocExact(p, start, tail, ptr, Next(p.blocks, tail, i), req);
      }
  }

  /** In every run a block that a client holds stays where it is, as long as it is, until it is passed to
      rt_memheap_free or rt_memheap_realloc. */
  lemma {:induction false} HeldUntilPassedBack(ps: seq<Pool>, ops: seq<Op>, start: int, tail: int, j: nat, k: nat, a: int, n: int)
    requires Run(ps, ops, start, tail) && j <= k < |ps| && Extent(ps[j].blocks, tail, a, n)
    requires forall i :: j <= i < k ==> ops[i].DoAlloc? || ops[i].ptr != At(a + HDR)
    ensures Extent(ps[k].blocks, tail, a, n)
    decreases k - j
  {
    hide Extent, Step, Inv, Legal;
    if k > j {
      HeldUntilPassedBack(ps, ops, start, tail, j, k - 1, a, n);
      RunSafe(ps, ops, start, tail, k - 1);
      StepKeeps(ps[k - 1], start, tail, ops[k - 1], a, n);
    }
  }

  /** The used blocks decide the whole ring, the members of the free list and available_size. */
  lemma PoolDecided(p: Pool, g: Pool, start: int, tail: int)
    requires Inv(p, start, tail) && Inv(g, start, tail) && SameExtents(p.blocks, g.blocks, tail)
    ensures p.blocks == g.blocks && p.available == g.available && forall a :: a in p.free <==> a in g.free
  {
    hide SameExtents;
    ExtentsDecide(p.blocks, g.blocks, tail, HDR);
  }
}
