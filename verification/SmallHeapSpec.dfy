/** What the small-memory heap of mem.c does to its block list, and what every run keeps.
    Addresses are offsets from heap_ptr; `end` is the offset of heap_end. */
module SmallHeapSpec {
  import opened Tiling

  const ALIGN := 8          // RT_ALIGN_SIZE of this build
  const HDR := 16           // SIZEOF_STRUCT_MEM
  const MIN_SIZE := 12
  const MIN_SIZE_ALIGNED := 16
  const TWO32 := 0x1_0000_0000

  datatype Ptr = Null | At(off: int)

  datatype Heap = Heap(blocks: seq<Block>, lfree: int, usedMem: int, maxMem: int)

  /** RT_ALIGN in 32-bit arithmetic: the addition wraps. */
  function AlignUp(n: nat): nat
  {
    (n + ALIGN - 1) % TWO32 / ALIGN * ALIGN
  }

  function Max(a: int, b: int): int { if a < b then b else a }

  ghost predicate Aligned(bs: seq<Block>)
  {
    forall i :: 0 <= i < |bs| ==> bs[i].addr % ALIGN == 0
  }

  /** The blocks tile [0, end), whatever their flags. */
  ghost predicate Tiled(bs: seq<Block>, end: int)
  {
    |bs| > 0 && bs[0].addr == 0 && Spaced(bs, end, HDR)
  }

  ghost predicate LfreeOk(bs: seq<Block>, end: int, lfree: int)
  {
    lfree == end || Block(lfree, false) in bs
  }

  /** lfree is the lowest free block (heap_end when there is none). */
  ghost predicate LowestFree(h: Heap)
  {
    forall j :: 0 <= j < |h.blocks| && h.blocks[j].addr < h.lfree ==> h.blocks[j].used
  }

  ghost predicate Inv(h: Heap, end: int)
  {
    && Tiled(h.blocks, end)
    && end >= HDR + MIN_SIZE_ALIGNED
    && Settled(h.blocks)
    && LfreeOk(h.blocks, end, h.lfree)
    && h.usedMem == Bytes(h.blocks, end, true)
    && h.usedMem <= h.maxMem
  }

  // ----- plug_holes

  function PlugForward(h: Heap, i: int): Heap
    requires 0 <= i < |h.blocks|
  {
    if i + 1 < |h.blocks| && !h.blocks[i + 1].used then
      h.(blocks := Join(h.blocks, i),
         lfree := if h.lfree == h.blocks[i + 1].addr then h.blocks[i].addr else h.lfree)
    else h
  }

  function PlugBackward(h: Heap, i: int): Heap
    requires 0 <= i < |h.blocks|
  {
    if i > 0 && !h.blocks[i - 1].used then
      h.(blocks := Join(h.blocks, i - 1),
         lfree := if h.lfree == h.blocks[i].addr then h.blocks[i - 1].addr else h.lfree)
    else h
  }

  function Plug(h: Heap, i: int): Heap
    requires 0 <= i < |h.blocks|
  {
    PlugBackward(PlugForward(h, i), i)
  }

  /** Only the two borders of block i may still separate two free blocks. */
  ghost predicate SettledBut(bs: seq<Block>, i: int)
  {
    forall k :: 0 < k < |bs| && k != i && k != i + 1 ==> bs[k - 1].used || bs[k].used
  }

  ghost predicate PlugPre(h: Heap, end: int, i: int)
  {
    && Tiled(h.blocks, end) && end >= HDR + MIN_SIZE_ALIGNED
    && LfreeOk(h.blocks, end, h.lfree)
    && h.usedMem == Bytes(h.blocks, end, true) && h.usedMem <= h.maxMem
    && 0 <= i < |h.blocks| && !h.blocks[i].used
    && SettledBut(h.blocks, i)
  }

  lemma JoinKeeps(bs: seq<Block>, end: int, i: int, lfree: int)
    requires Tiled(bs, end) && 0 <= i && i + 1 < |bs|
    requires !bs[i].used && !bs[i + 1].used && LfreeOk(bs, end, lfree)
    ensures Tiled(Join(bs, i), end)
    ensures LfreeOk(Join(bs, i), end, if lfree == bs[i + 1].addr then bs[i].addr else lfree)
    ensures Bytes(Join(bs, i), end, true) == Bytes(bs, end, true)
  {
    hide Join, Spaced, Bytes, LfreeOk;
    JoinShape(bs, end, HDR, i);
    JoinBytes(bs, end, i, true);
    JoinIndex(bs, i);
    JoinLfree(bs, end, i, lfree);
  }

  lemma JoinLfree(bs: seq<Block>, end: int, i: int, lfree: int)
    requires LfreeOk(bs, end, lfree) && 0 <= i && i + 1 < |bs| && !bs[i].used
    ensures LfreeOk(Join(bs, i), end, if lfree == bs[i + 1].addr then bs[i].addr else lfree)
  {
    hide Join;
    var cs := Join(bs, i);
    JoinIndex(bs, i);
    if lfree == bs[i + 1].addr {
      assert cs[i] == Block(bs[i].addr, false);
    } else if lfree != end {
      var k :| 0 <= k < |bs| && bs[k] == Block(lfree, false);
      assert cs[if k <= i then k else k - 1] == bs[k];
    }
  }

  lemma JoinLowest(h: Heap, g: Heap, end: int, i: int)
    requires LowestFree(h) && Spaced(h.blocks, end, HDR)
    requires 0 <= i && i + 1 < |h.blocks| && !h.blocks[i].used && !h.blocks[i + 1].used
    requires g.blocks == Join(h.blocks, i)
    requires h.lfree != h.blocks[i + 1].addr ==> g.lfree == h.lfree
    ensures LowestFree(g)
  {
    hide Join;
    JoinIndex(h.blocks, i);
    LfreeNotAbove(h, i);
  }

  lemma PlugForwardPre(h: Heap, end: int, i: int)
    requires PlugPre(h, end, i)
    ensures PlugPre(PlugForward(h, i), end, i)
    ensures i + 1 < |PlugForward(h, i).blocks| ==> PlugForward(h, i).blocks[i + 1].used
    ensures LowestFree(h) ==> LowestFree(PlugForward(h, i))
  {
    hide Bytes, Join, Spaced;
    var bs := h.blocks;
    if i + 1 < |bs| && !bs[i + 1].used {
      JoinIndex(bs, i);
      JoinKeeps(bs, end, i, h.lfree);
      if i + 2 < |bs| { assert bs[i + 1].used || bs[i + 2].used; }
      if LowestFree(h) { JoinLowest(h, PlugForward(h, i), end, i); }
    }
  }

  lemma LfreeNotAbove(h: Heap, i: int)
    requires LowestFree(h) && 0 <= i < |h.blocks| && !h.blocks[i].used
    ensures h.lfree <= h.blocks[i].addr
  {
  }

  lemma PlugBackwardInv(g: Heap, end: int, i: int)
    requires PlugPre(g, end, i)
    requires i + 1 < |g.blocks| ==> g.blocks[i + 1].used
    ensures Inv(PlugBackward(g, i), end)
    ensures LowestFree(g) ==> LowestFree(PlugBackward(g, i))
  {
    hide Bytes, Join, Spaced;
    var bs := g.blocks;
    if i > 0 && !bs[i - 1].used {
      JoinIndex(bs, i - 1);
      JoinKeeps(bs, end, i - 1, g.lfree);
      assert i > 1 ==> bs[i - 2].used;
      if LowestFree(g) { JoinLowest(g, PlugBackward(g, i), end, i - 1); }
    }
  }

  /** plug_holes restores the canonical form around a freshly freed block. */
  lemma PlugInv(h: Heap, end: int, i: int)
    requires PlugPre(h, end, i)
    ensures Inv(Plug(h, i), end)
    ensures LowestFree(h) ==> LowestFree(Plug(h, i))
  {
    hide Inv, LowestFree, PlugForward, PlugBackward;
    PlugForwardPre(h, end, i);
    PlugBackwardInv(PlugForward(h, i), end, i);
  }

  // ----- rt_free

  /** rt_free before plug_holes: the block is unmarked, lfree lowered, used_mem reduced. */
  function Released(h: Heap, end: int, i: int): Heap
    requires 0 <= i < |h.blocks|
  {
    var a := h.blocks[i].addr;
    h.(blocks := Mark(h.blocks, i, false),
       lfree := if a < h.lfree then a else h.lfree,
       usedMem := h.usedMem - (Next(h.blocks, end, i) - a))
  }

  function FreeAt(h: Heap, end: int, i: int): Heap
    requires 0 <= i < |h.blocks|
  {
    Plug(Released(h, end, i), i)
  }

  lemma ReleasedPre(h: Heap, end: int, i: int)
    requires Inv(h, end) && 0 <= i < |h.blocks| && h.blocks[i].used
    ensures PlugPre(Released(h, end, i), end, i)
    ensures LowestFree(h) ==> LowestFree(Released(h, end, i))
  {
    hide Bytes, Spaced, LfreeOk;
    MarkShape(h.blocks, end, HDR, i, false);
    MarkBytes(h.blocks, end, i, false, true);
    ReleasedLfree(h, end, i);
    HeaderFits(h.blocks, end, i);
  }

  lemma HeaderFits(bs: seq<Block>, end: int, i: int)
    requires Spaced(bs, end, HDR) && 0 <= i < |bs|
    ensures bs[i].addr < Next(bs, end, i)
  {
  }

  lemma ReleasedLfree(h: Heap, end: int, i: int)
    requires LfreeOk(h.blocks, end, h.lfree) && 0 <= i < |h.blocks| && h.blocks[i].used
    ensures LfreeOk(Released(h, end, i).blocks, end, Released(h, end, i).lfree)
  {
    var a, bs := h.blocks[i].addr, Mark(h.blocks, i, false);
    if a < h.lfree {
      assert bs[i] == Block(a, false);
    } else if h.lfree != end {
      var k :| 0 <= k < |h.blocks| && h.blocks[k] == Block(h.lfree, false);
      assert bs[k] == Block(h.lfree, false);
    }
  }

  lemma FreeAtInv(h: Heap, end: int, i: int)
    requires Inv(h, end) && 0 <= i < |h.blocks| && h.blocks[i].used
    ensures Inv(FreeAt(h, end, i), end)
    ensures LowestFree(h) ==> LowestFree(FreeAt(h, end, i))
  {
    hide Inv, PlugPre, Plug, LowestFree;
    ReleasedPre(h, end, i);
    PlugInv(Released(h, end, i), end, i);
  }

  // ----- rt_malloc

  /** The search loop: the first free block from index j on that starts below limit and has room. */
  function FirstFit(bs: seq<Block>, end: int, size: int, limit: int, j: int): (i: int)
    requires 0 <= j <= |bs|
    ensures j <= i <= |bs|
    decreases |bs| - j
  {
    if j == |bs| || bs[j].addr >= limit then |bs|
    else if Fits(bs, end, size, j) then j
    else FirstFit(bs, end, size, limit, j + 1)
  }

  predicate Fits(bs: seq<Block>, end: int, size: int, j: int)
    requires 0 <= j < |bs|
  {
    !bs[j].used && Next(bs, end, j) - (bs[j].addr + HDR) >= size
  }

  lemma {:induction false} FirstFitLowest(bs: seq<Block>, end: int, size: int, limit: int, j: int)
    requires Spaced(bs, end, HDR) && 0 <= j <= |bs|
    ensures var i := FirstFit(bs, end, size, limit, j);
      && (i < |bs| ==> Fits(bs, end, size, i) && bs[i].addr < limit)
      && forall k :: j <= k < |bs| && bs[k].addr < limit && Fits(bs, end, size, k) ==> i <= k
    decreases |bs| - j
  {
    hide Fits, Spaced;
    if j < |bs| {
      if bs[j].addr >= limit {
        forall k | j < k < |bs| ensures bs[k].addr >= limit { Gap(bs, end, HDR, j, k); }
      } else if !Fits(bs, end, size, j) {
        FirstFitLowest(bs, end, size, limit, j + 1);
      }
    }
  }

  /** Where the lowest-free pointer stops: the first free block from index j on. */
  function NextFree(bs: seq<Block>, end: int, j: int): int
    requires 0 <= j <= |bs|
    decreases |bs| - j
  {
    if j == |bs| then end else if bs[j].used then NextFree(bs, end, j + 1) else bs[j].addr
  }

  lemma {:induction false} NextFreeLowest(bs: seq<Block>, end: int, j: int)
    requires Spaced(bs, end, HDR) && 0 <= j <= |bs|
    ensures LfreeOk(bs, end, NextFree(bs, end, j))
    ensures forall k :: j <= k < |bs| && bs[k].addr < NextFree(bs, end, j) ==> bs[k].used
    decreases |bs| - j
  {
    if j < |bs| {
      if bs[j].used {
        NextFreeLowest(bs, end, j + 1);
      } else {
        assert bs[j] == Block(bs[j].addr, false);
      }
    }
  }

  /** The block list after block i has been given out for size payload bytes. */
  function CarvedBlocks(bs: seq<Block>, end: int, i: int, size: int): (r: seq<Block>)
    requires 0 <= i < |bs|
    ensures i < |r|
  {
    if Next(bs, end, i) - (bs[i].addr + HDR) >= size + HDR + MIN_SIZE_ALIGNED
    then Split(Mark(bs, i, true), i, bs[i].addr + HDR + size)
    else Mark(bs, i, true)
  }

  function Carve(h: Heap, end: int, i: int, size: int): Heap
    requires 0 <= i < |h.blocks|
  {
    var bs := CarvedBlocks(h.blocks, end, i, size);
    var used := h.usedMem + Next(bs, end, i) - bs[i].addr;
    Heap(bs, if h.lfree == bs[i].addr then NextFree(bs, end, i) else h.lfree, used, Max(h.maxMem, used))
  }

  /** What the two ways of giving out block i have in common. */
  ghost predicate GivenOut(bs: seq<Block>, cs: seq<Block>, end: int, i: int, size: int)
  {
    && 0 <= i < |bs| && i < |cs|
    && Tiled(cs, end) && Settled(cs)
    && Bytes(cs, end, true) == Bytes(bs, end, true) + Next(cs, end, i) - bs[i].addr
    && cs[i] == Block(bs[i].addr, true) && Next(cs, end, i) - (cs[i].addr + HDR) >= size
    && (forall k :: 0 <= k < i ==> cs[k] == bs[k])
    && (forall b :: b in bs && b != bs[i] ==> b in cs)
  }

  lemma CarveWhole(bs: seq<Block>, end: int, i: int, size: int)
    requires Tiled(bs, end) && Settled(bs) && 0 <= i < |bs| && Fits(bs, end, size, i)
    ensures GivenOut(bs, Mark(bs, i, true), end, i, size)
  {
    hide Bytes, Spaced, Settled;
    MarkShape(bs, end, HDR, i, true);
    MarkBytes(bs, end, i, true, true);
    var cs := Mark(bs, i, true);
    assert forall k :: 0 <= k < |bs| && k != i ==> cs[k] == bs[k];
  }

  lemma NeighboursOfFree(bs: seq<Block>, i: int)
    requires Settled(bs) && 0 <= i < |bs| && !bs[i].used
    ensures i > 0 ==> bs[i - 1].used
    ensures i + 1 < |bs| ==> bs[i + 1].used
  {
  }

  lemma CarveSplit(bs: seq<Block>, end: int, i: int, a: int, size: int)
    requires Tiled(bs, end) && Settled(bs) && 0 <= i < |bs| && !bs[i].used
    requires bs[i].addr + HDR + size == a <= Next(bs, end, i) - HDR && 0 <= size
    ensures GivenOut(bs, Split(Mark(bs, i, true), i, a), end, i, size)
  {
    hide Bytes, Spaced, Settled, Split;
    NeighboursOfFree(bs, i);
    var ms := Mark(bs, i, true);
    MarkShape(bs, end, HDR, i, true);
    MarkBytes(bs, end, i, true, true);
    SplitShape(ms, end, HDR, i, a);
    SplitBytes(ms, end, i, a, true);
    SplitIndex(ms, i, a);
    OthersStay(bs, i, a);
  }

  lemma OthersStay(bs: seq<Block>, i: int, a: int)
    requires 0 <= i < |bs|
    ensures forall b :: b in bs && b != bs[i] ==> b in Split(Mark(bs, i, true), i, a)
  {
    hide Split;
    var cs := Split(Mark(bs, i, true), i, a);
    SplitIndex(Mark(bs, i, true), i, a);
    forall k | 0 <= k < |bs| && k != i ensures bs[k] in cs {
      assert cs[if k < i then k else k + 1] == bs[k];
    }
  }

  lemma CarvedBlocksShape(bs: seq<Block>, end: int, i: int, size: int)
    requires Tiled(bs, end) && Settled(bs) && 0 <= i < |bs|
    requires MIN_SIZE_ALIGNED <= size && Fits(bs, end, size, i)
    ensures GivenOut(bs, CarvedBlocks(bs, end, i, size), end, i, size)
  {
    hide GivenOut, Tiled, Settled;
    if Next(bs, end, i) - (bs[i].addr + HDR) >= size + HDR + MIN_SIZE_ALIGNED {
      CarveSplit(bs, end, i, bs[i].addr + HDR + size, size);
    } else {
      CarveWhole(bs, end, i, size);
    }
  }

  lemma CarveInv(h: Heap, end: int, i: int, size: int)
    requires Inv(h, end) && 0 <= i < |h.blocks|
    requires MIN_SIZE_ALIGNED <= size && Fits(h.blocks, end, size, i)
    ensures Inv(Carve(h, end, i, size), end)
    ensures LowestFree(h) ==> LowestFree(Carve(h, end, i, size))
  {
    var bs, g := h.blocks, Carve(h, end, i, size);
    CarvedBlocksShape(bs, end, i, size);
    NextFreeLowest(g.blocks, end, i);
    if LowestFree(h) {
      LfreeNotAbove(h, i);
      forall k | 0 <= k < |g.blocks| && g.blocks[k].addr < g.lfree ensures g.blocks[k].used {
        if k < i { assert g.blocks[k] == bs[k] && g.blocks[k].addr < g.blocks[i].addr; }
      }
    }
  }

  /** The payload size rt_malloc works with. */
  function Rounded(req: nat): nat
  {
    Max(AlignUp(req), MIN_SIZE_ALIGNED)
  }

  function Malloc(h: Heap, end: int, req: nat): (Heap, Ptr)
    requires |h.blocks| > 0
  {
    var size := Rounded(req);
    if req == 0 || AlignUp(req) > end - HDR then (h, Null)
    else
      var i := FirstFit(h.blocks, end, size, end - HDR - size, Find(h.blocks, h.lfree));
      if i == |h.blocks| then (h, Null)
      else (Carve(h, end, i, size), At(h.blocks[i].addr + HDR))
  }

  /** rt_malloc keeps the heap well formed and lfree lowest. */
  lemma MallocInv(h: Heap, end: int, req: nat)
    requires Inv(h, end)
    ensures Inv(Malloc(h, end, req).0, end)
    ensures LowestFree(h) ==> LowestFree(Malloc(h, end, req).0)
  {
    hide AlignUp, LowestFree, Carve;
    var size := Rounded(req);
    if req != 0 && AlignUp(req) <= end - HDR {
      FirstFitLowest(h.blocks, end, size, end - HDR - size, Find(h.blocks, h.lfree));
      var i := FirstFit(h.blocks, end, size, end - HDR - size, Find(h.blocks, h.lfree));
      if i < |h.blocks| { CarveInv(h, end, i, size); }
    }
  }

  /** Block i is free, has room, starts below the bound, and is the lowest such block. */
  ghost predicate LowestFit(bs: seq<Block>, end: int, size: int, i: int)
  {
    && 0 <= i < |bs| && Fits(bs, end, size, i) && bs[i].addr < end - HDR - size
    && forall k :: 0 <= k < |bs| && bs[k].addr < end - HDR - size && Fits(bs, end, size, k) ==> i <= k
  }

  /** First fit, exactly: with lfree lowest, rt_malloc gives out the lowest free block with room
      that starts below mem_size_aligned - size, and fails, changing nothing, if and only if
      there is none. */
  lemma MallocFirstFit(h: Heap, end: int, req: nat)
    requires Inv(h, end) && LowestFree(h)
    requires 0 < req < TWO32 && AlignUp(req) <= end - HDR
    ensures var size := Rounded(req); var (g, p) := Malloc(h, end, req);
      && (p == Null ==> g == h && forall i :: 0 <= i < |h.blocks| && h.blocks[i].addr < end - HDR - size ==>
                                     h.blocks[i].used || Next(h.blocks, end, i) - (h.blocks[i].addr + HDR) < size)
      && (p != Null ==> exists i :: LowestFit(h.blocks, end, size, i) && p == At(h.blocks[i].addr + HDR)
                                 && GivenOut(h.blocks, g.blocks, end, i, size))
  {
    hide AlignUp, Settled, GivenOut, LfreeOk, Bytes, Fits, CarvedBlocks, FirstFit, Spaced, Find;
    var bs, size := h.blocks, Rounded(req);
    var limit := end - HDR - size;
    var j := Find(bs, h.lfree);
    FirstFitLowest(bs, end, size, limit, j);
    var i := FirstFit(bs, end, size, limit, j);
    BelowLfree(h, end, size);
    RoomIsFit(bs, end, size);
    if i < |bs| {
      CarvedBlocksShape(bs, end, i, size);
      assert LowestFit(bs, end, size, i);
    }
  }

  lemma RoomIsFit(bs: seq<Block>, end: int, size: int)
    ensures forall i :: 0 <= i < |bs| ==>
      (Fits(bs, end, size, i) <==> !bs[i].used && Next(bs, end, i) - (bs[i].addr + HDR) >= size)
  {
  }

  lemma BelowLfree(h: Heap, end: int, size: int)
    requires Spaced(h.blocks, end, HDR) && LowestFree(h)
    ensures LfreeOk(h.blocks, end, h.lfree) ==>
              forall k :: 0 <= k < Find(h.blocks, h.lfree) ==> !Fits(h.blocks, end, size, k)
  {
    var bs, j := h.blocks, Find(h.blocks, h.lfree);
    if j < |bs| { assert forall k :: 0 <= k < j ==> bs[k].addr < bs[j].addr; }
  }

  /** The rounding never loses bytes unless the 32-bit addition wraps. */
  lemma RoundedIsEnough(req: nat)
    requires req < TWO32
    ensures Rounded(req) >= req <==> req <= TWO32 - ALIGN || req <= MIN_SIZE_ALIGNED
  {
    if req <= TWO32 - ALIGN {
      assert (req + ALIGN - 1) % TWO32 == req + ALIGN - 1;
    } else {
      assert (req + ALIGN - 1) % TWO32 == req + ALIGN - 1 - TWO32;
    }
  }

  /** The strict bound of the search loop leaves out a last block that fits exactly:
      on a fresh heap a request for everything fails. */
  lemma WholeHeapRefused(msa: int)
    requires MIN_SIZE_ALIGNED <= msa < TWO32 - ALIGN && msa % ALIGN == 0
    ensures var end := msa + HDR; var h := Heap([Block(0, false)], 0, 0, 0);
      && Inv(h, end) && LowestFree(h)
      && Fits(h.blocks, end, Rounded(msa), 0)
      && Malloc(h, end, msa).1 == Null
  {
    var h := Heap([Block(0, false)], 0, 0, 0);
    assert h.blocks[0] == Block(0, false);
    assert Bytes(h.blocks, msa + HDR, true) == 0 + Bytes(h.blocks[1..], msa + HDR, true);
    assert Find(h.blocks, 0) == 0;
    assert AlignUp(msa) == msa;
  }

  // ----- rt_realloc, the branch that splits in place

  /** rt_realloc before plug_holes: block i cut to newsize payload bytes. */
  function Cut(h: Heap, end: int, i: int, newsize: int): Heap
    requires 0 <= i < |h.blocks|
  {
    var a2 := h.blocks[i].addr + HDR + newsize;
    h.(blocks := Split(h.blocks, i, a2), usedMem := h.usedMem - (Next(h.blocks, end, i) - a2))
  }

  function Shrink(h: Heap, end: int, i: int, newsize: int): Heap
    requires 0 <= i < |h.blocks|
  {
    Plug(Cut(h, end, i, newsize), i + 1)
  }

  /** When rt_realloc splits: newsize + SIZEOF_STRUCT_MEM + MIN_SIZE < size. */
  predicate Shrinks(h: Heap, end: int, i: int, newsize: int)
    requires 0 <= i < |h.blocks|
  {
    newsize + HDR + MIN_SIZE < Next(h.blocks, end, i) - h.blocks[i].addr - HDR
  }

  lemma CutPre(h: Heap, end: int, i: int, newsize: int)
    requires Inv(h, end) && 0 <= i < |h.blocks| && h.blocks[i].used
    requires 0 <= newsize && Shrinks(h, end, i, newsize)
    ensures PlugPre(Cut(h, end, i, newsize), end, i + 1)
  {
    hide Bytes, Split, Spaced;
    var bs := h.blocks;
    var a2 := bs[i].addr + HDR + newsize;
    SplitShape(bs, end, HDR, i, a2);
    SplitBytes(bs, end, i, a2, true);
    SplitIndex(bs, i, a2);
    CutLfree(bs, end, i, a2, h.lfree);
    CutSettled(bs, i, a2);
    MaxStillMax(h, end, i, newsize);
  }

  lemma CutLfree(bs: seq<Block>, end: int, i: int, a2: int, lfree: int)
    requires LfreeOk(bs, end, lfree) && 0 <= i < |bs|
    ensures LfreeOk(Split(bs, i, a2), end, lfree)
  {
    hide Split;
    SplitIndex(bs, i, a2);
    if lfree != end {
      var k :| 0 <= k < |bs| && bs[k] == Block(lfree, false);
      assert Split(bs, i, a2)[if k <= i then k else k + 1] == bs[k];
    }
  }

  lemma CutSettled(bs: seq<Block>, i: int, a2: int)
    requires Settled(bs) && 0 <= i < |bs|
    ensures SettledBut(Split(bs, i, a2), i + 1)
  {
    hide Split;
    var cs := Split(bs, i, a2);
    SplitIndex(bs, i, a2);
    forall k | 0 < k < |cs| && k != i + 1 && k != i + 2 ensures cs[k - 1].used || cs[k].used {
      if k <= i {
        assert cs[k - 1] == bs[k - 1] && cs[k] == bs[k];
      } else {
        assert cs[k - 1] == bs[k - 2] && cs[k] == bs[k - 1];
      }
    }
  }

  lemma MaxStillMax(h: Heap, end: int, i: int, newsize: int)
    requires h.usedMem <= h.maxMem && 0 <= i < |h.blocks| && Shrinks(h, end, i, newsize)
    ensures Cut(h, end, i, newsize).usedMem <= h.maxMem
  {
  }

  lemma ShrinkInv(h: Heap, end: int, i: int, newsize: int)
    requires Inv(h, end) && 0 <= i < |h.blocks| && h.blocks[i].used
    requires 0 <= newsize && Shrinks(h, end, i, newsize)
    ensures Inv(Shrink(h, end, i, newsize), end)
  {
    hide Inv, PlugPre, Plug, LowestFree, Cut;
    CutPre(h, end, i, newsize);
    PlugInv(Cut(h, end, i, newsize), end, i + 1);
  }

  /** The split does not lower lfree: it stays lowest exactly when it already lay below the
      shrunk block, or the block behind was free and so gets merged. */
  lemma ShrinkLowestIff(h: Heap, end: int, i: int, newsize: int)
    requires Inv(h, end) && LowestFree(h) && 0 <= i < |h.blocks| && h.blocks[i].used
    requires 0 <= newsize && Shrinks(h, end, i, newsize)
    ensures LowestFree(Shrink(h, end, i, newsize))
       <==> h.lfree < h.blocks[i].addr || (i + 1 < |h.blocks| && !h.blocks[i + 1].used)
  {
    hide Split, Join, Bytes, Spaced, Settled;
    var a2 := h.blocks[i].addr + HDR + newsize;
    SplitIndex(h.blocks, i, a2);
    LfreeOnBlock(h, end, i);
    ShrinkInv(h, end, i, newsize);
    if i + 1 < |h.blocks| && !h.blocks[i + 1].used {
      JoinIndex(Split(h.blocks, i, a2), i + 1);
      MergedLowest(h, Shrink(h, end, i, newsize), end, i, a2);
    } else if h.lfree < h.blocks[i].addr {
      UnmergedLowest(h, Cut(h, end, i, newsize), end, i, a2);
    } else {
      assert Cut(h, end, i, newsize).blocks[i + 1].addr < h.lfree;
    }
  }

  lemma MergedLowest(h: Heap, g: Heap, end: int, i: int, a2: int)
    requires LowestFree(h) && Spaced(h.blocks, end, HDR) && Spaced(g.blocks, end, HDR)
    requires 0 <= i && i + 1 < |h.blocks| == |g.blocks| && !h.blocks[i + 1].used
    requires h.blocks[i].used && h.blocks[i].addr < a2 && g.blocks[i + 1] == Block(a2, false)
    requires forall k :: 0 <= k <= i ==> g.blocks[k] == h.blocks[k]
    requires h.lfree <= h.blocks[i].addr || h.lfree >= h.blocks[i + 1].addr
    requires g.lfree == if h.lfree == h.blocks[i + 1].addr then a2 else h.lfree
    ensures LowestFree(g)
  {
    LfreeNotAbove(h, i + 1);
    forall k | 0 <= k < |g.blocks| && g.blocks[k].addr < g.lfree ensures g.blocks[k].used {
      if k <= i { assert g.blocks[k] == h.blocks[k] && h.blocks[k].addr + HDR <= h.blocks[i + 1].addr; }
    }
  }

  lemma UnmergedLowest(h: Heap, g: Heap, end: int, i: int, a2: int)
    requires LowestFree(h) && Spaced(h.blocks, end, HDR) && g.lfree == h.lfree
    requires 0 <= i < |h.blocks| && h.lfree < h.blocks[i].addr <= a2
    requires g.blocks == Split(h.blocks, i, a2)
    ensures LowestFree(g)
  {
    hide Split;
    SplitIndex(h.blocks, i, a2);
  }

  /** lfree never lies strictly inside a block. */
  lemma LfreeOnBlock(h: Heap, end: int, i: int)
    requires Inv(h, end) && 0 <= i < |h.blocks|
    ensures h.lfree <= h.blocks[i].addr || h.lfree >= Next(h.blocks, end, i)
    ensures h.blocks[i].used ==> h.lfree != h.blocks[i].addr
  {
    if h.lfree != end {
      var k :| 0 <= k < |h.blocks| && h.blocks[k] == Block(h.lfree, false);
      if k > i { Ordered(h.blocks, end, HDR, i, k); }
    }
  }

  // ----- rt_realloc, whole

  function Size(h: Heap, end: int, i: int): int
    requires 0 <= i < |h.blocks|
  {
    Next(h.blocks, end, i) - h.blocks[i].addr - HDR
  }

  /** The block is left alone, cut in place, or moved: a fresh block is taken, the old one freed. */
  function Resize(h: Heap, end: int, i: int, newsize: nat): (Heap, Ptr)
    requires 0 <= i < |h.blocks|
  {
    var p := At(h.blocks[i].addr + HDR);
    if Size(h, end, i) == newsize then (h, p)
    else if Shrinks(h, end, i, newsize) then (Shrink(h, end, i, newsize), p)
    else
      var (g, q) := Malloc(h, end, newsize);
      if q == Null then (g, Null)
      else
        var k := Find(g.blocks, h.blocks[i].addr);
        (if k < |g.blocks| then FreeAt(g, end, k) else g, q)
  }

  function Realloc(h: Heap, end: int, p: Ptr, req: nat): (Heap, Ptr)
    requires |h.blocks| > 0
  {
    var newsize := AlignUp(req);
    if newsize > end - HDR then (h, Null)
    else if p == Null then Malloc(h, end, newsize)
    else if p.off < 0 || p.off >= end then (h, p)
    else
      var i := Find(h.blocks, p.off - HDR);
      if i == |h.blocks| then (h, p) else Resize(h, end, i, newsize)
  }

  /** A witness of the lost block, from a freshly initialised heap: one request fills it, a realloc shrinks
      the block, and the next request is refused although a free block with room starts low enough. */
  lemma ShrinkHidesFreeBlock()
    ensures var end := 128 + HDR; var h0 := Heap([Block(0, false)], 0, 0, 0);
      var (h, p) := Malloc(h0, end, 120);
      && Inv(h0, end) && LowestFree(h0) && p == At(HDR) && |h.blocks| > 0 && LowestFree(h)
      && var (g, q) := Realloc(h, end, p, 16);
         && q == p && g.blocks == [Block(0, true), Block(32, false)]
         && Fits(g.blocks, end, Rounded(40), 1) && g.blocks[1].addr < end - HDR - Rounded(40)
         && Malloc(g, end, 40).1 == Null
  {
    hide Malloc, Realloc, Shrink, Inv, LowestFree, Fits, Rounded;
    var h := FilledHeap();
    ShrunkHeap(h);
    HiddenBlock(Shrink(h, 128 + HDR, 0, 16));
  }

  lemma HiddenBlock(g: Heap)
    requires g.blocks == [Block(0, true), Block(32, false)] && g.lfree == 128 + HDR
    ensures var end := 128 + HDR;
      && Fits(g.blocks, end, Rounded(40), 1) && 32 < end - HDR - Rounded(40) && Malloc(g, end, 40).1 == Null
  {
    var end := 128 + HDR;
    assert Rounded(40) == 40;
    assert Find(g.blocks, end) == 2 by {
      assert g.blocks[1..] == [Block(32, false)];
      assert g.blocks[1..][1..] == [];
    }
  }

  lemma FilledHeap() returns (h: Heap)
    ensures var end := 128 + HDR; var h0 := Heap([Block(0, false)], 0, 0, 0);
      && Inv(h0, end) && LowestFree(h0) && Malloc(h0, end, 120) == (h, At(HDR))
    ensures h == Heap([Block(0, true)], 128 + HDR, 128 + HDR, 128 + HDR) && LowestFree(h)
  {
    var end := 128 + HDR;
    var h0 := Heap([Block(0, false)], 0, 0, 0);
    FreshHeap(h0);
    assert Rounded(120) == 120 && AlignUp(120) == 120;
    assert Find(h0.blocks, 0) == 0;
    assert Fits(h0.blocks, end, 120, 0);
    assert FirstFit(h0.blocks, end, 120, end - HDR - 120, 0) == 0;
    assert CarvedBlocks(h0.blocks, end, 0, 120) == [Block(0, true)];
    assert NextFree([Block(0, true)], end, 0) == end;
    h := Carve(h0, end, 0, 120);
  }

  lemma FreshHeap(h0: Heap)
    requires h0 == Heap([Block(0, false)], 0, 0, 0)
    ensures Inv(h0, 128 + HDR) && LowestFree(h0)
  {
    assert h0.blocks[0] == Block(0, false) && h0.blocks[1..] == [];
  }

  lemma ShrunkHeap(h: Heap)
    requires h == Heap([Block(0, true)], 128 + HDR, 128 + HDR, 128 + HDR)
    ensures var end := 128 + HDR;
      && Realloc(h, end, At(HDR), 16) == (Shrink(h, end, 0, 16), At(HDR))
      && Shrink(h, end, 0, 16).blocks == [Block(0, true), Block(32, false)] && Shrink(h, end, 0, 16).lfree == end
  {
    var end := 128 + HDR;
    assert Split(h.blocks, 0, 32) == [Block(0, true), Block(32, false)];
    assert AlignUp(16) == 16;
    assert Find(h.blocks, 0) == 0;
  }

  /** rt_malloc leaves every used block in place. */
  lemma MallocKeepsUsed(h: Heap, end: int, req: nat, b: Block)
    requires Inv(h, end) && b in h.blocks && b.used
    ensures b in Malloc(h, end, req).0.blocks
  {
    hide AlignUp, Settled, LfreeOk, Bytes, GivenOut, CarvedBlocks, FirstFit, Find, Spaced;
    var size := Rounded(req);
    var j := Find(h.blocks, h.lfree);
    FirstFitLowest(h.blocks, end, size, end - HDR - size, j);
    var i := FirstFit(h.blocks, end, size, end - HDR - size, j);
    if i < |h.blocks| {
      CarvedBlocksShape(h.blocks, end, i, size);
      GivenOutKeeps(h.blocks, CarvedBlocks(h.blocks, end, i, size), end, i, size, b);
    }
  }

  lemma GivenOutKeeps(bs: seq<Block>, cs: seq<Block>, end: int, i: int, size: int, b: Block)
    requires GivenOut(bs, cs, end, i, size) && b in bs && b != bs[i]
    ensures b in cs
  {
  }

  lemma MoveInv(h: Heap, end: int, i: int, newsize: nat)
    requires Inv(h, end) && 0 <= i < |h.blocks| && h.blocks[i].used
    ensures var g := Malloc(h, end, newsize).0; var k := Find(g.blocks, h.blocks[i].addr);
      k < |g.blocks| && g.blocks[k] == h.blocks[i] && Inv(g, end) && Inv(FreeAt(g, end, k), end)
  {
    hide Malloc, Bytes, FreeAt, LowestFree;
    var g := Malloc(h, end, newsize).0;
    MallocInv(h, end, newsize);
    MallocKeepsUsed(h, end, newsize, h.blocks[i]);
    var k :| 0 <= k < |g.blocks| && g.blocks[k] == h.blocks[i];
    FindUnique(g.blocks, end, HDR, k);
    FreeAtInv(g, end, k);
  }

  lemma ResizeInv(h: Heap, end: int, i: int, newsize: nat)
    requires Inv(h, end) && 0 <= i < |h.blocks| && h.blocks[i].used
    ensures Inv(Resize(h, end, i, newsize).0, end)
  {
    hide Inv, Shrink, Malloc, FreeAt, Find, LowestFree;
    if Shrinks(h, end, i, newsize) {
      ShrinkInv(h, end, i, newsize);
    }
    MoveInv(h, end, i, newsize);
  }

  // ----- alignment

  lemma MallocAligned(h: Heap, end: int, req: nat)
    requires |h.blocks| > 0 && Aligned(h.blocks)
    ensures Aligned(Malloc(h, end, req).0.blocks)
  {
    hide FirstFit, Rounded, AlignUp, CarvedBlocks, Aligned;
    var i := FirstFit(h.blocks, end, Rounded(req), end - HDR - Rounded(req), Find(h.blocks, h.lfree));
    if i < |h.blocks| {
      AlignUpAligned(req);
      RoundedAligned(req);
      CarvedAligned(h.blocks, end, i, Rounded(req));
    }
  }

  lemma RoundedAligned(req: nat)
    requires AlignUp(req) % ALIGN == 0
    ensures Rounded(req) % ALIGN == 0
  {
    hide AlignUp;
  }

  lemma CarvedAligned(bs: seq<Block>, end: int, i: int, size: int)
    requires Aligned(bs) && 0 <= i < |bs| && size % ALIGN == 0
    ensures Aligned(CarvedBlocks(bs, end, i, size))
  {
    hide Split;
    var a2 := bs[i].addr + HDR + size;
    assert a2 % ALIGN == 0;
    SplitIndex(Mark(bs, i, true), i, a2);
  }

  lemma PlugAligned(h: Heap, i: int)
    requires 0 <= i < |h.blocks| && Aligned(h.blocks)
    ensures Aligned(Plug(h, i).blocks)
  {
  }

  lemma CutAligned(h: Heap, end: int, i: int, newsize: int)
    requires 0 <= i < |h.blocks| && Aligned(h.blocks) && newsize % ALIGN == 0
    ensures Aligned(Cut(h, end, i, newsize).blocks)
  {
    assert (h.blocks[i].addr + HDR + newsize) % ALIGN == 0;
  }

  // ----- runs

  datatype Op = DoMalloc(req: nat) | DoFree(p: Ptr) | DoRealloc(p: Ptr, req: nat)

  ghost predicate Live(h: Heap, p: Ptr)
  {
    p.At? && Block(p.off - HDR, true) in h.blocks
  }

  lemma LiveIndex(h: Heap, end: int, p: Ptr)
    requires Inv(h, end) && Live(h, p)
    ensures var i := Find(h.blocks, p.off - HDR);
      i < |h.blocks| && h.blocks[i] == Block(p.off - HDR, true)
  {
    var k :| 0 <= k < |h.blocks| && h.blocks[k] == Block(p.off - HDR, true);
    FindUnique(h.blocks, end, HDR, k);
  }

  lemma ReallocInv(h: Heap, end: int, p: Ptr, req: nat)
    requires Inv(h, end) && (p == Null || Live(h, p))
    ensures Inv(Realloc(h, end, p, req).0, end)
  {
    hide Inv, Resize, Malloc, Find, LowestFree, AlignUp;
    if p == Null {
      MallocInv(h, end, AlignUp(req));
    } else {
      LiveIndex(h, end, p);
      ResizeInv(h, end, Find(h.blocks, p.off - HDR), AlignUp(req));
    }
  }

  /** Callers pass back only what they were given. */
  ghost predicate Legal(h: Heap, end: int, op: Op)
  {
    match op
    case DoMalloc(req) => req < TWO32
    case DoFree(p) => p == Null || Live(h, p)
    case DoRealloc(p, req) => req < TWO32 && (p == Null || Live(h, p))
  }

  function Step(h: Heap, end: int, op: Op): Heap
    requires |h.blocks| > 0
  {
    match op
    case DoMalloc(req) => Malloc(h, end, req).0
    case DoFree(p) =>
      if p == Null || p.off < 0 || p.off >= end then h
      else var i := Find(h.blocks, p.off - HDR);
        if i == |h.blocks| then h else FreeAt(h, end, i)
    case DoRealloc(p, req) => Realloc(h, end, p, req).0
  }

  lemma StepInv(h: Heap, end: int, op: Op)
    requires Inv(h, end) && Legal(h, end, op)
    ensures Inv(Step(h, end, op), end)
    ensures !op.DoRealloc? && LowestFree(h) ==> LowestFree(Step(h, end, op))
  {
    hide Inv, LowestFree, FreeAt, Realloc, Malloc;
    match op
    case DoMalloc(req) => MallocInv(h, end, req);
    case DoFree(p) =>
      if p != Null {
        LiveIndex(h, end, p);
        FreeAtInv(h, end, Find(h.blocks, p.off - HDR));
      }
    case DoRealloc(p, req) => ReallocInv(h, end, p, req);
  }

  lemma FreeAligned(h: Heap, end: int, i: int)
    requires 0 <= i < |h.blocks| && Aligned(h.blocks)
    ensures Aligned(FreeAt(h, end, i).blocks)
  {
    hide Aligned, Plug, Released;
    ReleasedAligned(h, end, i);
    PlugAligned(Released(h, end, i), i);
  }

  lemma ShrinkAligned(h: Heap, end: int, i: int, newsize: nat)
    requires 0 <= i < |h.blocks| && Aligned(h.blocks) && newsize % ALIGN == 0
    ensures Aligned(Shrink(h, end, i, newsize).blocks)
  {
    hide Aligned, Cut, Plug;
    CutLength(h, end, i, newsize);
    CutAligned(h, end, i, newsize);
    PlugAligned(Cut(h, end, i, newsize), i + 1);
  }

  lemma ReallocAligned(h: Heap, end: int, p: Ptr, req: nat)
    requires |h.blocks| > 0 && Aligned(h.blocks)
    ensures Aligned(Realloc(h, end, p, req).0.blocks)
  {
    hide Aligned, Shrink, Malloc, FreeAt, AlignUp;
    MallocAligned(h, end, AlignUp(req));
    AlignUpAligned(req);
    if p != Null && Find(h.blocks, p.off - HDR) < |h.blocks| {
      var i := Find(h.blocks, p.off - HDR);
      ShrinkAligned(h, end, i, AlignUp(req));
      var g := Malloc(h, end, AlignUp(req)).0;
      if Find(g.blocks, h.blocks[i].addr) < |g.blocks| { FreeAligned(g, end, Find(g.blocks, h.blocks[i].addr)); }
    }
  }

  lemma AlignUpAligned(n: nat)
    ensures AlignUp(n) % ALIGN == 0
  {
    Multiple((n + ALIGN - 1) % TWO32 / ALIGN);
  }

  lemma Multiple(k: nat)
    ensures k * ALIGN % ALIGN == 0
  {
  }

  lemma StepAligned(h: Heap, end: int, op: Op)
    requires |h.blocks| > 0 && Aligned(h.blocks) && Legal(h, end, op)
    ensures Aligned(Step(h, end, op).blocks)
  {
    hide Aligned, FreeAt, Malloc, Realloc;
    match op
    case DoMalloc(req) => MallocAligned(h, end, req);
    case DoFree(p) =>
      if p != Null && 0 <= p.off < end && Find(h.blocks, p.off - HDR) < |h.blocks| {
        FreeAligned(h, end, Find(h.blocks, p.off - HDR));
      }
    case DoRealloc(p, req) => ReallocAligned(h, end, p, req);
  }

  lemma ReleasedAligned(h: Heap, end: int, i: int)
    requires 0 <= i < |h.blocks| && Aligned(h.blocks)
    ensures Aligned(Released(h, end, i).blocks) && |Released(h, end, i).blocks| == |h.blocks|
  {
  }

  lemma CutLength(h: Heap, end: int, i: int, newsize: int)
    requires 0 <= i < |h.blocks|
    ensures |Cut(h, end, i, newsize).blocks| == |h.blocks| + 1
  {
  }

  /** A run is a sequence of states, each reached from the one before by a legal call. */
  ghost predicate Run(hs: seq<Heap>, ops: seq<Op>, end: int)
  {
    && |hs| == |ops| + 1
    && Inv(hs[0], end) && LowestFree(hs[0]) && Aligned(hs[0].blocks)
    && forall n :: 0 <= n < |ops| ==>
         |hs[n].blocks| > 0 && Legal(hs[n], end, ops[n]) && hs[n + 1] == Step(hs[n], end, ops[n])
  }

  /** Every state of every run is well formed and aligned, with used_mem the total length of the used blocks;
      until the first rt_realloc, lfree is also the lowest free block. */
  lemma {:induction false} RunSafe(hs: seq<Heap>, ops: seq<Op>, end: int, n: nat)
    requires Run(hs, ops, end) && n < |hs|
    ensures Inv(hs[n], end)
    ensures (forall k :: 0 <= k < n ==> !ops[k].DoRealloc?) ==> LowestFree(hs[n])
    ensures Aligned(hs[n].blocks)
  {
    hide Aligned, Inv, LowestFree, Legal, Step;
    if n > 0 {
      RunSafe(hs, ops, end, n - 1);
      StepInv(hs[n - 1], end, ops[n - 1]);
      StepAligned(hs[n - 1], end, ops[n - 1]);
    }
  }
}
