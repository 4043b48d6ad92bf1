/** What the heaps of memheap.c do to their block ring and free list, and what every run keeps.
    The pool's blocks tile [start, tail); `tail` is the used zero-length block at the end. */
module MemHeapSpec {
  import opened Tiling

  const ALIGN := 8       // RT_ALIGN_SIZE of this build
  const HDR := 24        // RT_MEMHEAP_SIZE
  const MINIALLOC := 12
  const TWO32 := 0x1_0000_0000

  datatype Ptr = Null | At(off: int)

  datatype Pool = Pool(blocks: seq<Block>, free: seq<int>, available: int, maxUsed: int)

  function AlignUp(n: nat): nat
  {
    (n + ALIGN - 1) % TWO32 / ALIGN * ALIGN
  }

  /** The size an allocation works with. */
  function Clamp(req: nat): nat
  {
    if AlignUp(req) < MINIALLOC then MINIALLOC else AlignUp(req)
  }

  function Max(a: int, b: int): int { if a < b then b else a }

  /** MEMITEM_SIZE */
  function Room(bs: seq<Block>, tail: int, i: int): int
    requires 0 <= i < |bs|
  {
    Next(bs, tail, i) - bs[i].addr - HDR
  }

  // ----- the free list

  ghost predicate NoDup(fl: seq<int>)
  {
    forall i, j :: 0 <= i < j < |fl| ==> fl[i] != fl[j]
  }

  /** The free list holds exactly the unused blocks, each once. */
  ghost predicate Lists(bs: seq<Block>, fl: seq<int>)
  {
    NoDup(fl) && forall a :: a in fl <==> Block(a, false) in bs
  }

  function Pos(fl: seq<int>, a: int): (k: int)
    ensures 0 <= k <= |fl|
    ensures k < |fl| ==> fl[k] == a
    ensures k == |fl| ==> a !in fl
  {
    if fl == [] then 0 else if fl[0] == a then 0 else 1 + Pos(fl[1..], a)
  }

  function Drop(fl: seq<int>, k: int): seq<int>
    requires 0 <= k < |fl|
  {
    fl[..k] + fl[k + 1..]
  }

  function Without(fl: seq<int>, a: int): seq<int>
  {
    if Pos(fl, a) < |fl| then Drop(fl, Pos(fl, a)) else fl
  }

  lemma DropMembers(fl: seq<int>, k: int)
    requires NoDup(fl) && 0 <= k < |fl|
    ensures NoDup(Drop(fl, k))
    ensures forall a :: a in Drop(fl, k) <==> a in fl && a != fl[k]
  {
    var r := Drop(fl, k);
    assert forall j :: 0 <= j < |r| ==> r[j] == fl[if j < k then j else j + 1];
    forall a | a in fl && a != fl[k] ensures a in r {
      var j :| 0 <= j < |fl| && fl[j] == a;
      assert r[if j < k then j else j - 1] == a;
    }
  }

  lemma WithoutMembers(fl: seq<int>, a: int)
    requires NoDup(fl)
    ensures NoDup(Without(fl, a))
    ensures forall b :: b in Without(fl, a) <==> b in fl && b != a
  {
    hide Drop;
    if Pos(fl, a) < |fl| { DropMembers(fl, Pos(fl, a)); }
  }

  lemma PushMembers(fl: seq<int>, a: int)
    requires NoDup(fl) && a !in fl
    ensures NoDup([a] + fl)
    ensures forall b :: b in [a] + fl <==> b in fl || b == a
  {
  }

  // ----- the invariant

  ghost predicate Tiled(bs: seq<Block>, start: int, tail: int)
  {
    |bs| > 0 && bs[0].addr == start && Spaced(bs, tail, HDR)
  }

  /** available_size is the sum of the free payload sizes. */
  ghost predicate Counted(bs: seq<Block>, tail: int, available: int)
  {
    available == Bytes(bs, tail, false) - HDR * Count(bs, false)
  }

  ghost predicate Inv(p: Pool, start: int, tail: int)
  {
    && Tiled(p.blocks, start, tail)
    && Settled(p.blocks)
    && Lists(p.blocks, p.free)
    && Counted(p.blocks, tail, p.available)
    && tail + HDR - start - p.available <= p.maxUsed
  }

  /** Nothing is lost: free payload, free headers and used blocks fill the pool up to the tail. */
  lemma Conservation(p: Pool, start: int, tail: int)
    requires Inv(p, start, tail)
    ensures p.available + HDR * Count(p.blocks, false) + Bytes(p.blocks, tail, true) == tail - start
    ensures 0 <= p.available <= tail - start
  {
    hide Spaced, Settled, Lists;
    BytesConserved(p.blocks, tail);
    BytesNonNegative(p.blocks, tail, HDR, false);
    BytesNonNegative(p.blocks, tail, HDR, true);
  }

  // ----- members of edited block lists

  lemma MarkMembers(bs: seq<Block>, tail: int, i: int, v: bool)
    requires Spaced(bs, tail, HDR) && 0 <= i < |bs|
    ensures forall b :: b in Mark(bs, i, v) <==> (b in bs && b != bs[i]) || b == Block(bs[i].addr, v)
  {
    var cs := Mark(bs, i, v);
    assert cs[i] == Block(bs[i].addr, v);
    forall b | b in bs && b != bs[i] ensures b in cs {
      var j :| 0 <= j < |bs| && bs[j] == b;
      assert cs[j] == b;
    }
    forall j | 0 <= j < |cs| && j != i ensures cs[j] in bs && cs[j] != bs[i] { assert cs[j] == bs[j]; }
  }

  lemma SplitMembers(bs: seq<Block>, i: int, a: int)
    requires 0 <= i < |bs|
    ensures forall b :: b in Split(bs, i, a) <==> b in bs || b == Block(a, false)
  {
    var cs := Split(bs, i, a);
    SplitIndex(bs, i, a);
    forall j | 0 <= j < |bs| ensures bs[j] in cs { assert cs[if j <= i then j else j + 1] == bs[j]; }
  }

  lemma JoinMembers(bs: seq<Block>, tail: int, i: int)
    requires Spaced(bs, tail, HDR) && 0 <= i && i + 1 < |bs|
    ensures forall b :: b in Join(bs, i) <==> b in bs && b != bs[i + 1]
  {
    hide Join;
    var cs := Join(bs, i);
    JoinIndex(bs, i);
    forall b | b in bs && b != bs[i + 1] ensures b in cs {
      var j :| 0 <= j < |bs| && bs[j] == b;
      assert cs[if j <= i then j else j - 1] == b;
    }
    forall j | 0 <= j < |cs| ensures cs[j] in bs && cs[j] != bs[i + 1] {
      assert cs[j] == bs[if j <= i then j else j + 1];
    }
  }

  lemma ShiftMembers(bs: seq<Block>, tail: int, i: int, a: int)
    requires Spaced(bs, tail, HDR) && 0 <= i < |bs|
    ensures forall b :: b in Shift(bs, i, a) <==> (b in bs && b != bs[i]) || b == Block(a, bs[i].used)
  {
    var cs := Shift(bs, i, a);
    assert cs[i] == Block(a, bs[i].used);
    forall b | b in bs && b != bs[i] ensures b in cs {
      var j :| 0 <= j < |bs| && bs[j] == b;
      assert cs[j] == b;
    }
    forall j | 0 <= j < |cs| && j != i ensures cs[j] in bs && cs[j] != bs[i] { assert cs[j] == bs[j]; }
  }

  /** A fresh header strictly inside a block is not yet listed. */
  lemma InsideUnlisted(bs: seq<Block>, tail: int, i: int, a: int)
    requires Spaced(bs, tail, HDR) && 0 <= i < |bs| && bs[i].addr < a < Next(bs, tail, i)
    ensures Block(a, false) !in bs
  {
    forall j | 0 <= j < |bs| ensures bs[j].addr != a {
      if j < i { assert bs[j].addr < bs[i].addr; } else if i < j { Ordered(bs, tail, HDR, i, j); }
    }
  }

  // ----- rt_memheap_alloc

  predicate Fits(bs: seq<Block>, tail: int, size: int, a: int)
  {
    var i := Find(bs, a);
    i < |bs| && Room(bs, tail, i) >= size
  }

  /** The search along the free list. */
  function FirstFit(bs: seq<Block>, tail: int, size: int, fl: seq<int>, k: int): (r: int)
    requires 0 <= k <= |fl|
    ensures k <= r <= |fl|
    decreases |fl| - k
  {
    if k == |fl| || Fits(bs, tail, size, fl[k]) then k else FirstFit(bs, tail, size, fl, k + 1)
  }

  lemma {:induction false} FirstFitFirst(bs: seq<Block>, tail: int, size: int, fl: seq<int>, k: int)
    requires 0 <= k <= |fl|
    ensures var r := FirstFit(bs, tail, size, fl, k);
      && (r < |fl| ==> Fits(bs, tail, size, fl[r]))
      && forall j :: k <= j < r ==> !Fits(bs, tail, size, fl[j])
    decreases |fl| - k
  {
    if k < |fl| && !Fits(bs, tail, size, fl[k]) { FirstFitFirst(bs, tail, size, fl, k + 1); }
  }

  /** Block i, listed at k, is given out for size bytes. */
  function Give(p: Pool, start: int, tail: int, i: int, k: int, size: int): Pool
    requires 0 <= i < |p.blocks| && 0 <= k < |p.free|
  {
    var room, marked := Room(p.blocks, tail, i), Mark(p.blocks, i, true);
    if room >= size + HDR + MINIALLOC then
      var a2 := p.blocks[i].addr + size + HDR;
      Topped(Pool(Split(marked, i, a2), [a2] + Drop(p.free, k), p.available - size - HDR, p.maxUsed), start, tail)
    else
      Topped(Pool(marked, Drop(p.free, k), p.available - room, p.maxUsed), start, tail)
  }

  /** max_used_size follows pool_size - available_size upwards. */
  function Topped(p: Pool, start: int, tail: int): Pool
  {
    p.(maxUsed := Max(p.maxUsed, tail + HDR - start - p.available))
  }

  function Alloc(p: Pool, start: int, tail: int, req: nat): (Pool, Ptr)
  {
    var size := Clamp(req);
    if size >= p.available then (p, Null)
    else
      var k := FirstFit(p.blocks, tail, size, p.free, 0);
      if k == |p.free| || Find(p.blocks, p.free[k]) == |p.blocks| then (p, Null)
      else (Give(p, start, tail, Find(p.blocks, p.free[k]), k, size), At(p.free[k] + HDR))
  }

  lemma MarkedLists(bs: seq<Block>, tail: int, fl: seq<int>, i: int, k: int)
    requires Spaced(bs, tail, HDR) && Lists(bs, fl) && 0 <= i < |bs| && 0 <= k < |fl|
    requires bs[i] == Block(fl[k], false)
    ensures Lists(Mark(bs, i, true), Drop(fl, k))
  {
    hide Spaced, Mark, Drop, NoDup;
    MarkMembers(bs, tail, i, true);
    DropMembers(fl, k);
  }

  lemma SplitLists(bs: seq<Block>, tail: int, fl: seq<int>, i: int, a: int)
    requires Spaced(bs, tail, HDR) && Lists(bs, fl) && 0 <= i < |bs|
    requires bs[i].addr < a < Next(bs, tail, i)
    ensures Lists(Split(bs, i, a), [a] + fl)
  {
    hide Spaced, Split, NoDup;
    InsideUnlisted(bs, tail, i, a);
    SplitMembers(bs, i, a);
    PushMembers(fl, a);
  }

  lemma JoinLists(bs: seq<Block>, tail: int, fl: seq<int>, i: int)
    requires Spaced(bs, tail, HDR) && Lists(bs, fl) && 0 <= i && i + 1 < |bs| && !bs[i + 1].used
    ensures Lists(Join(bs, i), Without(fl, bs[i + 1].addr))
  {
    hide Spaced, Join, NoDup, Without;
    JoinMembers(bs, tail, i);
    WithoutMembers(fl, bs[i + 1].addr);
  }

  lemma GiveWhole(p: Pool, start: int, tail: int, i: int, k: int)
    requires Inv(p, start, tail) && 0 <= i < |p.blocks| && 0 <= k < |p.free|
    requires p.blocks[i] == Block(p.free[k], false)
    ensures Inv(Topped(Pool(Mark(p.blocks, i, true), Drop(p.free, k), p.available - Room(p.blocks, tail, i), p.maxUsed),
                       start, tail), start, tail)
  {
    hide Spaced, Settled, Lists, Bytes, Count, Drop;
    MarkShape(p.blocks, tail, HDR, i, true);
    MarkBytes(p.blocks, tail, i, true, false);
    MarkedLists(p.blocks, tail, p.free, i, k);
  }

  lemma NeighboursOfFree(bs: seq<Block>, i: int)
    requires Settled(bs) && 0 <= i < |bs| && !bs[i].used
    ensures i > 0 ==> bs[i - 1].used
    ensures i + 1 < |bs| ==> bs[i + 1].used
  {
  }

  lemma GivePart(p: Pool, start: int, tail: int, i: int, k: int, size: int)
    requires Inv(p, start, tail) && 0 <= i < |p.blocks| && 0 <= k < |p.free| && 0 <= size
    requires p.blocks[i] == Block(p.free[k], false) && Room(p.blocks, tail, i) >= size + HDR + MINIALLOC
    ensures var a2 := p.blocks[i].addr + size + HDR;
      Inv(Topped(Pool(Split(Mark(p.blocks, i, true), i, a2), [a2] + Drop(p.free, k), p.available - size - HDR, p.maxUsed),
                 start, tail), start, tail)
  {
    hide Spaced, Settled, Lists, Bytes, Count, Drop, Split;
    var a2 := p.blocks[i].addr + size + HDR;
    var ms := Mark(p.blocks, i, true);
    NeighboursOfFree(p.blocks, i);
    MarkShape(p.blocks, tail, HDR, i, true);
    MarkBytes(p.blocks, tail, i, true, false);
    MarkedLists(p.blocks, tail, p.free, i, k);
    SplitShape(ms, tail, HDR, i, a2);
    SplitBytes(ms, tail, i, a2, false);
    SplitIndex(ms, i, a2);
    SplitLists(ms, tail, Drop(p.free, k), i, a2);
  }

  lemma GiveInv(p: Pool, start: int, tail: int, i: int, k: int, size: int)
    requires Inv(p, start, tail) && 0 <= i < |p.blocks| && 0 <= k < |p.free| && 0 <= size
    requires p.blocks[i] == Block(p.free[k], false)
    ensures Inv(Give(p, start, tail, i, k, size), start, tail)
  {
    hide Inv, Drop, Split;
    if Room(p.blocks, tail, i) >= size + HDR + MINIALLOC {
      GivePart(p, start, tail, i, k, size);
    } else {
      GiveWhole(p, start, tail, i, k);
    }
  }

  /** A listed address is the header of an unused block, found under its own index. */
  lemma ListedBlock(p: Pool, start: int, tail: int, k: int)
    requires Inv(p, start, tail) && 0 <= k < |p.free|
    ensures var i := Find(p.blocks, p.free[k]); i < |p.blocks| && p.blocks[i] == Block(p.free[k], false)
  {
    assert p.free[k] in p.free;
    var j :| 0 <= j < |p.blocks| && p.blocks[j] == Block(p.free[k], false);
    FindUnique(p.blocks, tail, HDR, j);
  }

  lemma AllocInv(p: Pool, start: int, tail: int, req: nat)
    requires Inv(p, start, tail)
    ensures Inv(Alloc(p, start, tail, req).0, start, tail)
  {
    hide Inv, Give, AlignUp;
    var size := Clamp(req);
    var k := FirstFit(p.blocks, tail, size, p.free, 0);
    if size < p.available && k < |p.free| {
      ListedBlock(p, start, tail, k);
      GiveInv(p, start, tail, Find(p.blocks, p.free[k]), k, size);
    }
  }

  ghost predicate NoRoom(bs: seq<Block>, tail: int, size: int)
  {
    forall i :: 0 <= i < |bs| && !bs[i].used ==> Room(bs, tail, i) < size
  }

  /** rt_memheap_alloc fails, changing nothing, exactly when the size is not below available_size
      or no unused block has room; otherwise the first listed block with room is given out. */
  lemma AllocExact(p: Pool, start: int, tail: int, req: nat)
    requires Inv(p, start, tail)
    ensures var size := Clamp(req); var (g, q) := Alloc(p, start, tail, req);
      && (q == Null <==> size >= p.available || NoRoom(p.blocks, tail, size))
      && (q == Null ==> g == p)
      && (q != Null ==> exists k :: 0 <= k < |p.free| && q == At(p.free[k] + HDR) && Fits(p.blocks, tail, size, p.free[k])
                                 && (forall j :: 0 <= j < k ==> !Fits(p.blocks, tail, size, p.free[j]))
                                 && Block(p.free[k], true) in g.blocks)
  {
    hide Inv, AlignUp, Fits, Split, Drop, Room;
    var size := Clamp(req);
    FirstFitFirst(p.blocks, tail, size, p.free, 0);
    FitsListed(p, start, tail, size);
    var k := FirstFit(p.blocks, tail, size, p.free, 0);
    if k < |p.free| {
      ListedBlock(p, start, tail, k);
      var i := Find(p.blocks, p.free[k]);
      SplitIndex(Mark(p.blocks, i, true), i, p.blocks[i].addr + size + HDR);
      GivenBlock(p, start, tail, i, k, size);
    }
  }

  lemma GivenBlock(p: Pool, start: int, tail: int, i: int, k: int, size: int)
    requires 0 <= i < |p.blocks| && 0 <= k < |p.free| && p.blocks[i].addr == p.free[k]
    ensures Block(p.free[k], true) in Give(p, start, tail, i, k, size).blocks
  {
    hide Split, Drop;
    var ms := Mark(p.blocks, i, true);
    SplitIndex(ms, i, p.blocks[i].addr + size + HDR);
    assert ms[i] == Block(p.free[k], true);
    assert Give(p, start, tail, i, k, size).blocks[i] == ms[i];
  }

  /** Being listed with room and being an unused block with room are the same thing. */
  lemma FitsListed(p: Pool, start: int, tail: int, size: int)
    requires Inv(p, start, tail)
    ensures forall k :: 0 <= k < |p.free| && Fits(p.blocks, tail, size, p.free[k]) ==>
              exists i :: 0 <= i < |p.blocks| && !p.blocks[i].used && Room(p.blocks, tail, i) >= size
    ensures forall i :: 0 <= i < |p.blocks| && !p.blocks[i].used && Room(p.blocks, tail, i) >= size ==>
              exists k :: 0 <= k < |p.free| && Fits(p.blocks, tail, size, p.free[k])
  {
    forall k | 0 <= k < |p.free| && Fits(p.blocks, tail, size, p.free[k])
      ensures exists i :: 0 <= i < |p.blocks| && !p.blocks[i].used && Room(p.blocks, tail, i) >= size
    {
      ListedBlock(p, start, tail, k);
    }
    forall i | 0 <= i < |p.blocks| && !p.blocks[i].used && Room(p.blocks, tail, i) >= size
      ensures exists k :: 0 <= k < |p.free| && Fits(p.blocks, tail, size, p.free[k])
    {
      assert p.blocks[i] == Block(p.blocks[i].addr, false);
      var k :| 0 <= k < |p.free| && p.free[k] == p.blocks[i].addr;
      FindUnique(p.blocks, tail, HDR, i);
    }
  }

  // ----- rt_memheap_free

  /** The magic word is cleared and the payload counted. */
  function Released(p: Pool, tail: int, i: int): Pool
    requires 0 <= i < |p.blocks|
  {
    p.(blocks := Mark(p.blocks, i, false), available := p.available + Room(p.blocks, tail, i))
  }

  function MergesLeft(p: Pool, i: int): bool
    requires 0 <= i < |p.blocks|
  {
    i > 0 && !p.blocks[i - 1].used
  }

  function LeftMerged(p: Pool, i: int): Pool
    requires 0 <= i < |p.blocks|
  {
    if MergesLeft(p, i) then p.(blocks := Join(p.blocks, i - 1), available := p.available + HDR) else p
  }

  function RightMerged(p: Pool, i: int): Pool
    requires 0 <= i < |p.blocks|
  {
    if i + 1 < |p.blocks| && !p.blocks[i + 1].used then
      p.(blocks := Join(p.blocks, i), available := p.available + HDR, free := Without(p.free, p.blocks[i + 1].addr))
    else p
  }

  function Listed(p: Pool, a: int): Pool
  {
    p.(free := [a] + p.free)
  }

  function Free(p: Pool, tail: int, i: int): Pool
    requires 0 <= i < |p.blocks|
  {
    var r := Released(p, tail, i);
    if MergesLeft(r, i) then RightMerged(LeftMerged(r, i), i - 1)
    else Listed(RightMerged(r, i), p.blocks[i].addr)
  }

  /** All of Inv, but block i may have free neighbours, and is listed only if `listed`. */
  ghost predicate Loose(p: Pool, start: int, tail: int, i: int, listed: bool)
  {
    && Tiled(p.blocks, start, tail)
    && 0 <= i < |p.blocks| && !p.blocks[i].used
    && (forall k :: 0 < k < |p.blocks| && k != i && k != i + 1 ==> p.blocks[k - 1].used || p.blocks[k].used)
    && Lists(p.blocks, if listed then p.free else [p.blocks[i].addr] + p.free)
    && Counted(p.blocks, tail, p.available)
    && tail + HDR - start - p.available <= p.maxUsed
  }

  lemma ReleasedLoose(p: Pool, start: int, tail: int, i: int)
    requires Inv(p, start, tail) && 0 <= i < |p.blocks| && p.blocks[i].used
    ensures Loose(Released(p, tail, i), start, tail, i, false)
  {
    hide Spaced, Lists, Bytes, Count;
    MarkShape(p.blocks, tail, HDR, i, false);
    MarkBytes(p.blocks, tail, i, false, false);
    ReleasedLists(p.blocks, tail, p.free, i);
    RoomNonNegative(p.blocks, tail, i);
  }

  lemma RoomNonNegative(bs: seq<Block>, tail: int, i: int)
    requires Spaced(bs, tail, HDR) && 0 <= i < |bs|
    ensures Room(bs, tail, i) >= 0
  {
  }

  lemma ReleasedLists(bs: seq<Block>, tail: int, fl: seq<int>, i: int)
    requires Spaced(bs, tail, HDR) && Lists(bs, fl) && 0 <= i < |bs| && bs[i].used
    ensures Lists(Mark(bs, i, false), [bs[i].addr] + fl)
  {
    hide Mark;
    MarkMembers(bs, tail, i, false);
    assert Block(bs[i].addr, false) !in bs;
    PushMembers(fl, bs[i].addr);
  }

  lemma LeftMergedLoose(p: Pool, start: int, tail: int, i: int)
    requires Loose(p, start, tail, i, false) && MergesLeft(p, i)
    ensures Loose(LeftMerged(p, i), start, tail, i - 1, true)
    ensures LeftMerged(p, i).blocks[i - 1] == p.blocks[i - 1]
    ensures i > 1 ==> LeftMerged(p, i).blocks[i - 2].used
  {
    hide Spaced, Lists, Bytes, Count, Join;
    var bs := p.blocks;
    JoinShape(bs, tail, HDR, i - 1);
    JoinBytes(bs, tail, i - 1, false);
    JoinIndex(bs, i - 1);
    JoinLists(bs, tail, [bs[i].addr] + p.free, i - 1);
    WithoutFirst(p.free, bs[i].addr);
  }

  lemma WithoutFirst(fl: seq<int>, a: int)
    ensures Without([a] + fl, a) == fl
  {
    assert Drop([a] + fl, 0) == fl;
  }

  lemma RightMergedLoose(p: Pool, start: int, tail: int, i: int, listed: bool)
    requires Loose(p, start, tail, i, listed) && (i > 0 ==> p.blocks[i - 1].used)
    ensures Loose(RightMerged(p, i), start, tail, i, listed)
    ensures Settled(RightMerged(p, i).blocks)
    ensures RightMerged(p, i).blocks[i] == p.blocks[i]
  {
    hide Spaced, Lists, Bytes, Count, Join, Without;
    var bs := p.blocks;
    if i + 1 < |bs| && !bs[i + 1].used {
      JoinShape(bs, tail, HDR, i);
      JoinBytes(bs, tail, i, false);
      JoinIndex(bs, i);
      JoinLists(bs, tail, if listed then p.free else [bs[i].addr] + p.free, i);
      WithoutSecond(p.free, bs, tail, i, listed);
      assert i + 2 < |bs| ==> bs[i + 2].used;
    }
  }

  lemma WithoutSecond(fl: seq<int>, bs: seq<Block>, tail: int, i: int, listed: bool)
    requires Spaced(bs, tail, HDR) && 0 <= i && i + 1 < |bs|
    ensures Without([bs[i].addr] + fl, bs[i + 1].addr) == [bs[i].addr] + Without(fl, bs[i + 1].addr)
  {
    var a, b := bs[i].addr, bs[i + 1].addr;
    assert a != b;
    assert ([a] + fl)[1..] == fl;
    if Pos(fl, b) < |fl| { assert Drop([a] + fl, Pos(fl, b) + 1) == [a] + Drop(fl, Pos(fl, b)); }
  }

  lemma FreeInv(p: Pool, start: int, tail: int, i: int)
    requires Inv(p, start, tail) && 0 <= i < |p.blocks| && p.blocks[i].used
    ensures Inv(Free(p, tail, i), start, tail)
  {
    hide Inv, Tiled, Lists, Counted, Join, Settled, LeftMerged, RightMerged, Released;
    var r := Released(p, tail, i);
    ReleasedLoose(p, start, tail, i);
    ReleasedBlock(p, tail, i);
    if MergesLeft(r, i) {
      LeftMergedLoose(r, start, tail, i);
      RightMergedLoose(LeftMerged(r, i), start, tail, i - 1, true);
      Tighten(RightMerged(LeftMerged(r, i), i - 1), start, tail, i - 1);
    } else {
      RightMergedLoose(r, start, tail, i, false);
      TightenListed(RightMerged(r, i), start, tail, i);
    }
  }

  lemma ReleasedBlock(p: Pool, tail: int, i: int)
    requires 0 <= i < |p.blocks|
    ensures |Released(p, tail, i).blocks| == |p.blocks|
    ensures Released(p, tail, i).blocks[i] == Block(p.blocks[i].addr, false)
  {
  }

  lemma Tighten(p: Pool, start: int, tail: int, i: int)
    requires Loose(p, start, tail, i, true) && Settled(p.blocks)
    ensures Inv(p, start, tail)
  {
  }

  lemma TightenListed(p: Pool, start: int, tail: int, i: int)
    requires Loose(p, start, tail, i, false) && Settled(p.blocks)
    ensures Inv(Listed(p, p.blocks[i].addr), start, tail)
  {
  }

  // ----- rt_memheap_realloc

  /** The free block behind block i moves up so that block i has newsize bytes. */
  predicate Grows(p: Pool, tail: int, i: int, newsize: int)
    requires 0 <= i < |p.blocks|
  {
    i + 1 < |p.blocks| && !p.blocks[i + 1].used
    && Room(p.blocks, tail, i + 1) + Room(p.blocks, tail, i) > newsize + MINIALLOC
  }

  function Grow(p: Pool, start: int, tail: int, i: int, newsize: int): Pool
    requires 0 <= i && i + 1 < |p.blocks|
  {
    var a2 := p.blocks[i].addr + HDR + newsize;
    Topped(Pool(Shift(p.blocks, i + 1, a2), [a2] + Without(p.free, p.blocks[i + 1].addr),
                p.available - (newsize - Room(p.blocks, tail, i)), p.maxUsed), start, tail)
  }

  lemma ShiftLists(bs: seq<Block>, tail: int, fl: seq<int>, i: int, a: int)
    requires Spaced(bs, tail, HDR) && Lists(bs, fl) && 0 < i < |bs| && !bs[i].used
    requires bs[i - 1].addr < a < Next(bs, tail, i)
    ensures Lists(Shift(bs, i, a), [a] + Without(fl, bs[i].addr))
  {
    hide Spaced, Shift, NoDup, Without;
    ShiftMembers(bs, tail, i, a);
    WithoutMembers(fl, bs[i].addr);
    BetweenUnlisted(bs, tail, i, a);
    PushMembers(Without(fl, bs[i].addr), a);
  }

  lemma BetweenUnlisted(bs: seq<Block>, tail: int, i: int, a: int)
    requires Spaced(bs, tail, HDR) && 0 < i < |bs| && bs[i - 1].addr < a < Next(bs, tail, i)
    ensures a == bs[i].addr || Block(a, false) !in bs
  {
    forall j | 0 <= j < |bs| && j != i ensures bs[j].addr != a {
      if j < i - 1 { assert bs[j].addr < bs[i - 1].addr; } else if i < j { Ordered(bs, tail, HDR, i, j); }
    }
  }

  lemma GrowInv(p: Pool, start: int, tail: int, i: int, newsize: int)
    requires Inv(p, start, tail) && 0 <= i < |p.blocks| && p.blocks[i].used
    requires newsize > Room(p.blocks, tail, i) && newsize >= 0 && Grows(p, tail, i, newsize)
    ensures Inv(Grow(p, start, tail, i, newsize), start, tail)
  {
    hide Spaced, Settled, Lists, Bytes, Count, Without;
    var a2 := p.blocks[i].addr + HDR + newsize;
    ShiftShape(p.blocks, tail, HDR, i + 1, a2);
    ShiftBytes(p.blocks, tail, i + 1, a2, false);
    ShiftLists(p.blocks, tail, p.free, i + 1, a2);
  }

  predicate Shrinks(p: Pool, tail: int, i: int, newsize: int)
    requires 0 <= i < |p.blocks|
  {
    newsize + HDR + MINIALLOC < Room(p.blocks, tail, i)
  }

  /** Block i is cut and the rest merged with a free successor; the new block goes on the list. */
  function Cut(p: Pool, tail: int, i: int, newsize: int): Pool
    requires 0 <= i < |p.blocks|
  {
    var a2 := p.blocks[i].addr + HDR + newsize;
    var bs := Split(p.blocks, i, a2);
    if i + 2 < |bs| && !bs[i + 2].used then
      var cs := Join(bs, i + 1);
      Pool(cs, [a2] + Without(p.free, bs[i + 2].addr),
           p.available - Room(bs, tail, i + 2) + Room(cs, tail, i + 1), p.maxUsed)
    else
      Pool(bs, [a2] + p.free, p.available + Room(bs, tail, i + 1), p.maxUsed)
  }

  /** The cut as split, count and list, then merge to the right. */
  function Halved(p: Pool, tail: int, i: int, newsize: int): Pool
    requires 0 <= i < |p.blocks|
  {
    var a2 := p.blocks[i].addr + HDR + newsize;
    p.(blocks := Split(p.blocks, i, a2), available := p.available + Next(p.blocks, tail, i) - a2 - HDR)
  }

  lemma CutIsMerge(p: Pool, tail: int, i: int, newsize: int)
    requires 0 <= i < |p.blocks|
    ensures i + 1 < |Halved(p, tail, i, newsize).blocks|
    ensures Cut(p, tail, i, newsize)
         == Listed(RightMerged(Halved(p, tail, i, newsize), i + 1), p.blocks[i].addr + HDR + newsize)
  {
    hide Split, Join, Without;
    var a2 := p.blocks[i].addr + HDR + newsize;
    var bs := Split(p.blocks, i, a2);
    SplitIndex(p.blocks, i, a2);
    if i + 2 < |bs| { JoinIndex(bs, i + 1); }
  }

  lemma HalvedLoose(p: Pool, start: int, tail: int, i: int, newsize: int)
    requires Inv(p, start, tail) && 0 <= i < |p.blocks| && p.blocks[i].used
    requires 0 <= newsize && Shrinks(p, tail, i, newsize)
    ensures Loose(Halved(p, tail, i, newsize), start, tail, i + 1, false)
    ensures Halved(p, tail, i, newsize).blocks[i].used
    ensures Halved(p, tail, i, newsize).blocks[i + 1].addr == p.blocks[i].addr + HDR + newsize
  {
    hide Spaced, Lists, Bytes, Count, Split;
    var a2 := p.blocks[i].addr + HDR + newsize;
    SplitShape(p.blocks, tail, HDR, i, a2);
    SplitBytes(p.blocks, tail, i, a2, false);
    SplitIndex(p.blocks, i, a2);
    SplitLists(p.blocks, tail, p.free, i, a2);
    HalvedSettled(p.blocks, i, a2);
  }

  lemma HalvedSettled(bs: seq<Block>, i: int, a2: int)
    requires Settled(bs) && 0 <= i < |bs|
    ensures var cs := Split(bs, i, a2);
      forall k :: 0 < k < |cs| && k != i + 1 && k != i + 2 ==> cs[k - 1].used || cs[k].used
  {
    hide Split;
    var cs := Split(bs, i, a2);
    SplitIndex(bs, i, a2);
    forall k | 0 < k < |cs| && k != i + 1 && k != i + 2 ensures cs[k - 1].used || cs[k].used {
      if k <= i {
        assert cs[k - 1] == bs[k - 1] && cs[k] == bs[k];
      } else {
        assert cs[k - 1] == bs[k - 2] && cs[k] == bs[k - 1];
      }
    }
  }

  lemma CutInv(p: Pool, start: int, tail: int, i: int, newsize: int)
    requires Inv(p, start, tail) && 0 <= i < |p.blocks| && p.blocks[i].used
    requires 0 <= newsize && Shrinks(p, tail, i, newsize)
    ensures Inv(Cut(p, tail, i, newsize), start, tail)
  {
    hide Inv, Tiled, Lists, Counted, Settled, RightMerged, Halved, Cut, Room;
    CutIsMerge(p, tail, i, newsize);
    HalvedLoose(p, start, tail, i, newsize);
    RightMergedLoose(Halved(p, tail, i, newsize), start, tail, i + 1, false);
    TightenListed(RightMerged(Halved(p, tail, i, newsize), i + 1), start, tail, i + 1);
  }

  /** rt_memheap_alloc leaves every used block in place. */
  lemma AllocKeepsUsed(p: Pool, start: int, tail: int, req: nat, b: Block)
    requires Inv(p, start, tail) && b in p.blocks && b.used
    ensures b in Alloc(p, start, tail, req).0.blocks
  {
    hide AlignUp, Settled, Lists, Counted, Split, Drop, Fits, FirstFit, Room;
    var k := FirstFit(p.blocks, tail, Clamp(req), p.free, 0);
    if k < |p.free| {
      ListedBlock(p, start, tail, k);
      var i := Find(p.blocks, p.free[k]);
      MarkMembers(p.blocks, tail, i, true);
      SplitMembers(Mark(p.blocks, i, true), i, p.blocks[i].addr + Clamp(req) + HDR);
    }
  }

  /** Take a fresh block, then free block i. */
  function Move(p: Pool, start: int, tail: int, i: int, newsize: nat): (Pool, Ptr)
    requires 0 <= i < |p.blocks|
  {
    var (g, q) := Alloc(p, start, tail, newsize);
    var k := Find(g.blocks, p.blocks[i].addr);
    if q == Null || k == |g.blocks| then (g, q) else (Free(g, tail, k), q)
  }

  lemma MoveInv(p: Pool, start: int, tail: int, i: int, newsize: nat)
    requires Inv(p, start, tail) && 0 <= i < |p.blocks| && p.blocks[i].used
    ensures Inv(Move(p, start, tail, i, newsize).0, start, tail)
    ensures var g := Alloc(p, start, tail, newsize).0; var k := Find(g.blocks, p.blocks[i].addr);
      k < |g.blocks| && g.blocks[k] == p.blocks[i]
  {
    hide Alloc, Free, Settled, Lists, Counted;
    var g := Alloc(p, start, tail, newsize).0;
    AllocInv(p, start, tail, newsize);
    AllocKeepsUsed(p, start, tail, newsize, p.blocks[i]);
    var k :| 0 <= k < |g.blocks| && g.blocks[k] == p.blocks[i];
    FindUnique(g.blocks, tail, HDR, k);
    FreeInv(g, start, tail, k);
  }

  function Resize(p: Pool, start: int, tail: int, i: int, newsize: nat): (Pool, Ptr)
    requires 0 <= i < |p.blocks|
  {
    var q := At(p.blocks[i].addr + HDR);
    if newsize > Room(p.blocks, tail, i) then
      if Grows(p, tail, i, newsize) then (Grow(p, start, tail, i, newsize), q) else Move(p, start, tail, i, newsize)
    else if Shrinks(p, tail, i, newsize) then (Cut(p, tail, i, newsize), q)
    else (p, q)
  }

  lemma ResizeInv(p: Pool, start: int, tail: int, i: int, newsize: nat)
    requires Inv(p, start, tail) && 0 <= i < |p.blocks| && p.blocks[i].used
    ensures Inv(Resize(p, start, tail, i, newsize).0, start, tail)
  {
    hide Inv, Grow, Cut, Move, Room, Alloc;
    if newsize > Room(p.blocks, tail, i) {
      if Grows(p, tail, i, newsize) {
        GrowInv(p, start, tail, i, newsize);
      } else {
        MoveInv(p, start, tail, i, newsize);
      }
    } else if Shrinks(p, tail, i, newsize) {
      CutInv(p, start, tail, i, newsize);
    }
  }

  // ----- runs

  datatype Op = DoAlloc(req: nat) | DoFree(ptr: Ptr) | DoRealloc(ptr: Ptr, req: nat)

  ghost predicate Live(p: Pool, ptr: Ptr)
  {
    ptr == Null || Block(ptr.off - HDR, true) in p.blocks
  }

  function FreePtr(p: Pool, tail: int, ptr: Ptr): Pool
  {
    if ptr == Null || Find(p.blocks, ptr.off - HDR) == |p.blocks| then p
    else Free(p, tail, Find(p.blocks, ptr.off - HDR))
  }

  function Realloc(p: Pool, start: int, tail: int, ptr: Ptr, req: nat): (Pool, Ptr)
  {
    if req == 0 then (FreePtr(p, tail, ptr), Null)
    else if ptr == Null then Alloc(p, start, tail, Clamp(req))
    else
      var i := Find(p.blocks, ptr.off - HDR);
      if i == |p.blocks| then (p, Null) else Resize(p, start, tail, i, Clamp(req))
  }

  function Step(p: Pool, start: int, tail: int, op: Op): Pool
  {
    match op
    case DoAlloc(req) => Alloc(p, start, tail, req).0
    case DoFree(ptr) => FreePtr(p, tail, ptr)
    case DoRealloc(ptr, req) => Realloc(p, start, tail, ptr, req).0
  }

  /** Callers pass back only what they were given. */
  ghost predicate Legal(p: Pool, op: Op)
  {
    op.DoAlloc? || Live(p, op.ptr)
  }

  lemma LiveIndex(p: Pool, start: int, tail: int, ptr: Ptr)
    requires Inv(p, start, tail) && Live(p, ptr) && ptr != Null
    ensures var i := Find(p.blocks, ptr.off - HDR);
      i < |p.blocks| && p.blocks[i] == Block(ptr.off - HDR, true)
  {
    var k :| 0 <= k < |p.blocks| && p.blocks[k] == Block(ptr.off - HDR, true);
    FindUnique(p.blocks, tail, HDR, k);
  }

  lemma StepInv(p: Pool, start: int, tail: int, op: Op)
    requires Inv(p, start, tail) && Legal(p, op)
    ensures Inv(Step(p, start, tail, op), start, tail)
  {
    hide Inv, Alloc, Resize, Free, AlignUp;
    match op
    case DoAlloc(req) => AllocInv(p, start, tail, req);
    case DoFree(ptr) =>
      if ptr != Null {
        LiveIndex(p, start, tail, ptr);
        FreeInv(p, start, tail, Find(p.blocks, ptr.off - HDR));
      }
    case DoRealloc(ptr, req) =>
      if ptr == Null {
        AllocInv(p, start, tail, Clamp(req));
      } else {
        LiveIndex(p, start, tail, ptr);
        FreeInv(p, start, tail, Find(p.blocks, ptr.off - HDR));
        ResizeInv(p, start, tail, Find(p.blocks, ptr.off - HDR), Clamp(req));
      }
  }

  ghost predicate Run(ps: seq<Pool>, ops: seq<Op>, start: int, tail: int)
  {
    && |ps| == |ops| + 1
    && Inv(ps[0], start, tail)
    && forall n :: 0 <= n < |ops| ==> Legal(ps[n], ops[n]) && ps[n + 1] == Step(ps[n], start, tail, ops[n])
  }

  /** Every state of every run is canonical: the blocks tile the pool, no two neighbours are free,
      the list is exact and available_size is the sum of the free payloads. */
  lemma {:induction false} RunSafe(ps: seq<Pool>, ops: seq<Op>, start: int, tail: int, n: nat)
    requires Run(ps, ops, start, tail) && n < |ps|
    ensures Inv(ps[n], start, tail)
  {
    hide Inv, Legal, Step;
    if n > 0 {
      RunSafe(ps, ops, start, tail, n - 1);
      StepInv(ps[n - 1], start, tail, ops[n - 1]);
    }
  }

  // ----- alignment

  /** Every header, and with it every address handed out, is 8-byte aligned. */
  ghost predicate Aligned(bs: seq<Block>)
  {
    forall b :: b in bs ==> OnAlign(b.addr)
  }

  predicate OnAlign(a: int)
  {
    a % ALIGN == 0
  }

  lemma HeaderBehind(a: int, size: int)
    requires OnAlign(a)
    ensures OnAlign(a + HDR + size) <==> OnAlign(size)
  {
  }

  /** RT_MEMHEAP_MINIALLOC is no multiple of RT_ALIGN_SIZE: the size an operation works with is aligned
      exactly for the requests above 8 bytes whose rounding does not wrap around 32 bits. */
  lemma ClampAlignedIff(req: nat)
    requires req < TWO32
    ensures OnAlign(Clamp(req)) <==> ALIGN < req <= TWO32 - ALIGN
  {
    if req > TWO32 - ALIGN {
      assert (req + ALIGN - 1) % TWO32 < ALIGN;
    } else {
      assert (req + ALIGN - 1) % TWO32 == req + ALIGN - 1;
    }
  }

  lemma GiveAlignedIff(p: Pool, start: int, tail: int, i: int, k: int, size: int)
    requires Inv(p, start, tail) && Aligned(p.blocks) && 0 <= i < |p.blocks| && 0 <= k < |p.free|
    ensures Aligned(Give(p, start, tail, i, k, size).blocks) <==>
              Room(p.blocks, tail, i) < size + HDR + MINIALLOC || OnAlign(size)
  {
    hide Spaced, Settled, Lists, Counted, Mark, Split, Drop, Room, OnAlign;
    var marked, a2 := Mark(p.blocks, i, true), p.blocks[i].addr + size + HDR;
    MarkMembers(p.blocks, tail, i, true);
    assert p.blocks[i] in p.blocks;
    HeaderBehind(p.blocks[i].addr, size);
    assert a2 == p.blocks[i].addr + HDR + size;
    MarkLength(p.blocks, i, true);
    SplitMembers(marked, i, a2);
    assert Block(a2, false) in Split(marked, i, a2);
  }

  lemma MarkLength(bs: seq<Block>, i: int, u: bool)
    requires 0 <= i < |bs|
    ensures |Mark(bs, i, u)| == |bs|
  {
  }

  /** From an aligned pool rt_memheap_alloc leaves an aligned pool if and only if it fails, or gives the
      block it found out whole, or works with an aligned size. */
  lemma AllocAlignedIff(p: Pool, start: int, tail: int, req: nat)
    requires Inv(p, start, tail) && Aligned(p.blocks)
    ensures var size := Clamp(req); var k := FirstFit(p.blocks, tail, size, p.free, 0);
      && (k < |p.free| ==> Find(p.blocks, p.free[k]) < |p.blocks|)
      && (Aligned(Alloc(p, start, tail, req).0.blocks) <==>
            || size >= p.available || k == |p.free|
            || Room(p.blocks, tail, Find(p.blocks, p.free[k])) < size + HDR + MINIALLOC
            || OnAlign(size))
  {
    hide Inv, Aligned, AlignUp, Give, Fits, Room, OnAlign;
    var size := Clamp(req);
    var k := FirstFit(p.blocks, tail, size, p.free, 0);
    if k < |p.free| {
      ListedBlock(p, start, tail, k);
      GiveAlignedIff(p, start, tail, Find(p.blocks, p.free[k]), k, size);
    }
  }

  /** Freeing, with all its merges, never makes a header. */
  lemma FreeAligned(p: Pool, start: int, tail: int, i: int)
    requires Inv(p, start, tail) && Aligned(p.blocks) && 0 <= i < |p.blocks| && p.blocks[i].used
    ensures Aligned(Free(p, tail, i).blocks)
  {
    hide Inv, Loose, OnAlign, Mark, Join, Room;
    var r := Released(p, tail, i);
    ReleasedLoose(p, start, tail, i);
    ReleasedBlock(p, tail, i);
    InvSpaced(p, start, tail);
    MarkMembers(p.blocks, tail, i, false);
    assert p.blocks[i] in p.blocks;
    LooseSpaced(r, start, tail, i, false);
    if MergesLeft(r, i) {
      LeftMergedLoose(r, start, tail, i);
      JoinMembers(r.blocks, tail, i - 1);
      LooseSpaced(LeftMerged(r, i), start, tail, i - 1, true);
      RightAligned(LeftMerged(r, i), tail, i - 1);
    } else {
      RightAligned(r, tail, i);
    }
  }

  lemma InvSpaced(p: Pool, start: int, tail: int)
    requires Inv(p, start, tail)
    ensures Spaced(p.blocks, tail, HDR)
  {
  }

  lemma LooseSpaced(p: Pool, start: int, tail: int, i: int, listed: bool)
    requires Loose(p, start, tail, i, listed)
    ensures Spaced(p.blocks, tail, HDR) && 0 <= i < |p.blocks|
  {
  }

  lemma RightAligned(p: Pool, tail: int, i: int)
    requires Spaced(p.blocks, tail, HDR) && Aligned(p.blocks) && 0 <= i < |p.blocks|
    ensures Aligned(RightMerged(p, i).blocks)
  {
    hide Spaced, Join, OnAlign, Without;
    if i + 1 < |p.blocks| && !p.blocks[i + 1].used { JoinMembers(p.blocks, tail, i); }
  }

  /** Growing in place keeps alignment if and only if the new size is aligned. */
  lemma GrowAlignedIff(p: Pool, start: int, tail: int, i: int, newsize: int)
    requires Inv(p, start, tail) && Aligned(p.blocks) && 0 <= i < |p.blocks| && Grows(p, tail, i, newsize)
    ensures Aligned(Grow(p, start, tail, i, newsize).blocks) <==> OnAlign(newsize)
  {
    hide Spaced, Settled, Lists, Counted, Shift, Without, OnAlign;
    var a2 := p.blocks[i].addr + HDR + newsize;
    assert p.blocks[i] in p.blocks;
    HeaderBehind(p.blocks[i].addr, newsize);
    ShiftMembers(p.blocks, tail, i + 1, a2);
    assert Block(a2, p.blocks[i + 1].used) in Shift(p.blocks, i + 1, a2);
  }

  /** Cutting in place keeps alignment if and only if the new size is aligned. */
  lemma CutAlignedIff(p: Pool, start: int, tail: int, i: int, newsize: int)
    requires Inv(p, start, tail) && Aligned(p.blocks) && 0 <= i < |p.blocks| && p.blocks[i].used
    requires 0 <= newsize && Shrinks(p, tail, i, newsize)
    ensures Aligned(Cut(p, tail, i, newsize).blocks) <==> OnAlign(newsize)
  {
    hide Spaced, Settled, Lists, Counted, Split, Join, Without, OnAlign, Loose, RightMerged, Cut;
    var a2 := p.blocks[i].addr + HDR + newsize;
    var h := Halved(p, tail, i, newsize);
    assert p.blocks[i] in p.blocks;
    HeaderBehind(p.blocks[i].addr, newsize);
    SplitMembers(p.blocks, i, a2);
    CutIsMerge(p, tail, i, newsize);
    HalvedLoose(p, start, tail, i, newsize);
    LooseSpaced(h, start, tail, i + 1, false);
    SplitIndex(p.blocks, i, a2);
    MergedMembers(h, tail, i + 1);
    assert h.blocks[i + 1] == Block(a2, false);
  }

  /** A merge to the right drops one header at most, and never its own. */
  lemma MergedMembers(p: Pool, tail: int, i: int)
    requires Spaced(p.blocks, tail, HDR) && 0 <= i < |p.blocks| && !p.blocks[i].used
    ensures p.blocks[i] in RightMerged(p, i).blocks
    ensures forall b :: b in RightMerged(p, i).blocks ==> b in p.blocks
    ensures forall b :: b in p.blocks && b !in RightMerged(p, i).blocks ==>
              i + 1 < |p.blocks| && b == p.blocks[i + 1] && !b.used
  {
    hide Join, Without;
    assert p.blocks[i] in p.blocks;
    if i + 1 < |p.blocks| && !p.blocks[i + 1].used {
      assert p.blocks[i].addr < p.blocks[i + 1].addr;
      JoinMembers(p.blocks, tail, i);
    }
  }

  /** rt_memheap_realloc keeps alignment for every aligned size. */
  lemma ResizeAligned(p: Pool, start: int, tail: int, i: int, newsize: nat)
    requires Inv(p, start, tail) && Aligned(p.blocks) && 0 <= i < |p.blocks| && p.blocks[i].used
    requires OnAlign(newsize) && OnAlign(Clamp(newsize))
    ensures Aligned(Resize(p, start, tail, i, newsize).0.blocks)
  {
    hide Inv, Aligned, Grow, Cut, Room, Alloc, Free, OnAlign, AlignUp;
    if newsize > Room(p.blocks, tail, i) {
      if Grows(p, tail, i, newsize) {
        GrowAlignedIff(p, start, tail, i, newsize);
      } else {
        AllocAlignedIff(p, start, tail, newsize);
        AllocInv(p, start, tail, newsize);
        MoveInv(p, start, tail, i, newsize);
        var g := Alloc(p, start, tail, newsize).0;
        FreeAligned(g, start, tail, Find(g.blocks, p.blocks[i].addr));
      }
    } else if Shrinks(p, tail, i, newsize) {
      CutAlignedIff(p, start, tail, i, newsize);
    }
  }

  /** Requests above 8 bytes that do not wrap; a realloc to zero is a free. */
  predicate Sizeable(op: Op)
  {
    match op
    case DoAlloc(req) => ALIGN < req <= TWO32 - ALIGN
    case DoFree(_) => true
    case DoRealloc(_, req) => req == 0 || ALIGN < req <= TWO32 - ALIGN
  }

  lemma StepAligned(p: Pool, start: int, tail: int, op: Op)
    requires Inv(p, start, tail) && Legal(p, op) && Aligned(p.blocks) && Sizeable(op)
    ensures Aligned(Step(p, start, tail, op).blocks)
  {
    hide Inv, Aligned, Alloc, Resize, Free, AlignUp, OnAlign, Clamp;
    match op
    case DoAlloc(req) =>
      ClampAlignedIff(req);
      AllocAlignedIff(p, start, tail, req);
    case DoFree(ptr) =>
      if ptr != Null {
        LiveIndex(p, start, tail, ptr);
        FreeAligned(p, start, tail, Find(p.blocks, ptr.off - HDR));
      }
    case DoRealloc(ptr, req) =>
      if req > 0 {
        ClampAlignedIff(req);
        ClampTwice(req);
      }
      if ptr == Null {
        if req > 0 { AllocAlignedIff(p, start, tail, Clamp(req)); }
      } else {
        LiveIndex(p, start, tail, ptr);
        var i := Find(p.blocks, ptr.off - HDR);
        if req > 0 { ResizeAligned(p, start, tail, i, Clamp(req)); } else { FreeAligned(p, start, tail, i); }
      }
  }

  lemma ClampTwice(req: nat)
    requires ALIGN < req <= TWO32 - ALIGN
    ensures Clamp(Clamp(req)) == Clamp(req)
  {
    var n := AlignUp(req);
    assert (req + ALIGN - 1) % TWO32 == req + ALIGN - 1;
    assert (n + ALIGN - 1) % TWO32 == n + ALIGN - 1;
  }

  /** In every run whose requests are above 8 bytes, every header stays aligned. */
  lemma {:induction false} RunAligned(ps: seq<Pool>, ops: seq<Op>, start: int, tail: int, n: nat)
    requires Run(ps, ops, start, tail) && n < |ps| && Aligned(ps[0].blocks)
    requires forall k :: 0 <= k < n ==> Sizeable(ops[k])
    ensures Aligned(ps[n].blocks)
  {
    hide Inv, Aligned, Legal, Step;
    if n > 0 {
      RunSafe(ps, ops, start, tail, n - 1);
      RunAligned(ps, ops, start, tail, n - 1);
      StepAligned(ps[n - 1], start, tail, ops[n - 1]);
    }
  }

  /** The smallest example: after one request of at most 8 bytes the next block starts 4 bytes off
      alignment, although the pool itself is aligned. */
  lemma SmallRequestMisaligns(start: int, tail: int, req: nat)
    requires start % ALIGN == 0 && tail - start >= 200 && req <= ALIGN
    ensures var p := Pool([Block(start, false)], [start], tail - start - HDR, 2 * HDR);
      && Inv(p, start, tail)
      && var g := Alloc(p, start, tail, req).0;
         |g.blocks| == 2 && g.blocks[1].addr % ALIGN == 4
  {
    var p := Pool([Block(start, false)], [start], tail - start - HDR, 2 * HDR);
    assert p.blocks[0] == Block(start, false) && p.free[0] == start;
    assert p.blocks[1..] == [];
    assert Clamp(req) == MINIALLOC;
    assert Find(p.blocks, start) == 0;
    var k := FirstFit(p.blocks, tail, MINIALLOC, p.free, 0);
    assert Fits(p.blocks, tail, MINIALLOC, start);
  }
}
