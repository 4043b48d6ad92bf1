/** The small-memory heap of mem.c, with its block headers inside the memory it manages.
    Cell k of `heap` stands for the memory at heap_ptr + k; a header field occupies the cell at
    its struct offset. */
module SmallHeap {
  import opened Tiling
  import opened Payload
  import opened SmallHeapSpec

  const HEAP_MAGIC := 0x1ea0
  const USED := 2   // offsets in struct heap_mem; magic is at 0
  const NEXT := 4
  const PREV := 8

  ghost predicate HeaderAt(m: Mem, a: int, used: bool, next: int, prev: int)
  {
    && 0 <= a && a + HDR <= |m|
    && m[a + USED] == (if used then 1 else 0)
    && m[a + NEXT] == next
    && m[a + PREV] == prev
    && (used ==> m[a] == HEAP_MAGIC)
  }

  ghost predicate Headers(m: Mem, bs: seq<Block>, end: int)
  {
    forall i :: 0 <= i < |bs| ==> HeaderAt(m, bs[i].addr, bs[i].used, Next(bs, end, i), Prev(bs, i))
  }

  /** heap_end is a used block that is its own successor; its prev is never read. */
  ghost predicate Sentinel(m: Mem, end: int)
  {
    0 <= end && |m| == end + HDR && m[end + USED] == 1 && m[end + NEXT] == end
  }

  /** Memory m holds exactly the headers of the block list bs. */
  ghost predicate Rep(m: Mem, bs: seq<Block>, end: int)
  {
    Tiled(bs, end) && Headers(m, bs, end) && Sentinel(m, end)
  }

  /** Nothing outside block i's header has changed. */
  ghost predicate OnlyHeader(m: Mem, n: Mem, a: int)
  {
    |m| == |n| && forall k :: 0 <= k < |m| && !(a <= k < a + HDR) ==> n[k] == m[k]
  }

  lemma RepMark(m: Mem, n: Mem, bs: seq<Block>, end: int, i: int, v: bool)
    requires Rep(m, bs, end) && 0 <= i < |bs| && OnlyHeader(m, n, bs[i].addr)
    requires HeaderAt(n, bs[i].addr, v, Next(bs, end, i), Prev(bs, i))
    ensures Rep(n, Mark(bs, i, v), end)
  {
    MarkShape(bs, end, HDR, i, v);
    MarkHeaders(m, n, bs, end, i, v);
  }

  lemma MarkHeaders(m: Mem, n: Mem, bs: seq<Block>, end: int, i: int, v: bool)
    requires Rep(m, bs, end) && 0 <= i < |bs| && OnlyHeader(m, n, bs[i].addr)
    requires HeaderAt(n, bs[i].addr, v, Next(bs, end, i), Prev(bs, i))
    ensures Headers(n, Mark(bs, i, v), end)
  {
    hide Rep, HeaderAt, OnlyHeader;
    var cs := Mark(bs, i, v);
    forall j | 0 <= j < |cs| ensures HeaderAt(n, cs[j].addr, cs[j].used, Next(cs, end, j), Prev(cs, j)) {
      if j != i { MarkOther(m, n, bs, end, i, j); }
    }
  }

  lemma MarkOther(m: Mem, n: Mem, bs: seq<Block>, end: int, i: int, j: int)
    requires Rep(m, bs, end) && 0 <= i < |bs| && 0 <= j < |bs| && i != j
    requires OnlyHeader(m, n, bs[i].addr)
    ensures HeaderAt(n, bs[j].addr, bs[j].used, Next(bs, end, j), Prev(bs, j))
  {
    if j < i {
      assert bs[j].addr + HDR <= bs[i].addr;
    } else {
      assert bs[i].addr + HDR <= bs[j].addr;
    }
  }

  /** The stores that cut block i at a2, in any order. */
  ghost predicate SplitStores(m: Mem, n: Mem, a: int, a2: int, next: int, end: int)
  {
    && |m| == |n| == end + HDR && 0 <= a && a + HDR <= a2 && a2 + HDR <= next <= end
    && HeaderAt(n, a2, false, next, a)
    && n[a + NEXT] == a2
    && (next != end ==> n[next + PREV] == a2)
    && forall k :: 0 <= k < |m| && !(a2 <= k < a2 + HDR) && k != a + NEXT && (k != next + PREV || next == end)
         ==> n[k] == m[k]
  }

  lemma RepSplit(m: Mem, n: Mem, bs: seq<Block>, end: int, i: int, a2: int)
    requires Rep(m, bs, end) && 0 <= i < |bs|
    requires SplitStores(m, n, bs[i].addr, a2, Next(bs, end, i), end)
    ensures Rep(n, Split(bs, i, a2), end)
  {
    hide Split, Spaced, Headers, HeaderAt;
    SplitShape(bs, end, HDR, i, a2);
    SplitIndex(bs, i, a2);
    SplitHeaders(m, n, bs, end, i, a2);
    SplitSentinel(m, n, bs, end, i, a2);
  }

  lemma SplitSentinel(m: Mem, n: Mem, bs: seq<Block>, end: int, i: int, a2: int)
    requires Spaced(bs, end, HDR) && Sentinel(m, end) && 0 <= i < |bs|
    requires SplitStores(m, n, bs[i].addr, a2, Next(bs, end, i), end)
    ensures Sentinel(n, end)
  {
  }

  lemma SplitHeaders(m: Mem, n: Mem, bs: seq<Block>, end: int, i: int, a2: int)
    requires Rep(m, bs, end) && 0 <= i < |bs|
    requires SplitStores(m, n, bs[i].addr, a2, Next(bs, end, i), end)
    ensures Headers(n, Split(bs, i, a2), end)
  {
    hide Split, Rep, HeaderAt, SplitStores;
    var cs := Split(bs, i, a2);
    SplitIndex(bs, i, a2);
    SplitMid(m, n, bs, end, i, a2);
    forall j | 0 <= j < |cs| ensures HeaderAt(n, cs[j].addr, cs[j].used, Next(cs, end, j), Prev(cs, j)) {
      if j <= i {
        SplitLow(m, n, bs, end, i, a2, j);
      } else if j > i + 1 {
        SplitHigh(m, n, bs, end, i, a2, j - 1);
      }
    }
  }

  lemma SplitMid(m: Mem, n: Mem, bs: seq<Block>, end: int, i: int, a2: int)
    requires Rep(m, bs, end) && 0 <= i < |bs|
    requires SplitStores(m, n, bs[i].addr, a2, Next(bs, end, i), end)
    ensures HeaderAt(n, a2, false, Next(bs, end, i), bs[i].addr)
  {
  }

  lemma SplitLow(m: Mem, n: Mem, bs: seq<Block>, end: int, i: int, a2: int, j: int)
    requires Rep(m, bs, end) && 0 <= j <= i < |bs|
    requires SplitStores(m, n, bs[i].addr, a2, Next(bs, end, i), end)
    ensures HeaderAt(n, bs[j].addr, bs[j].used, if j == i then a2 else Next(bs, end, j), Prev(bs, j))
  {
    if j < i { assert bs[j].addr + HDR <= bs[i].addr; }
  }

  lemma SplitHigh(m: Mem, n: Mem, bs: seq<Block>, end: int, i: int, a2: int, j: int)
    requires Rep(m, bs, end) && 0 <= i < j < |bs|
    requires SplitStores(m, n, bs[i].addr, a2, Next(bs, end, i), end)
    ensures HeaderAt(n, bs[j].addr, bs[j].used, Next(bs, end, j), if j == i + 1 then a2 else Prev(bs, j))
  {
    Ordered(bs, end, HDR, i, j);
    if j > i + 1 { assert bs[i + 1].addr + HDR <= bs[j].addr; }
  }

  /** The two stores that unlink the header after block i. */
  function JoinStores(m: Mem, a: int, next: int): Mem
    requires 0 <= a && a + HDR <= |m| && 0 <= next && next + HDR <= |m|
  {
    m[a + NEXT := next][next + PREV := a]
  }

  lemma RepJoin(m: Mem, bs: seq<Block>, end: int, i: int)
    requires Rep(m, bs, end) && 0 <= i && i + 1 < |bs|
    ensures 0 <= bs[i].addr && bs[i].addr + HDR <= |m| && 0 <= Next(bs, end, i + 1) <= |m| - HDR
    ensures Rep(JoinStores(m, bs[i].addr, Next(bs, end, i + 1)), Join(bs, i), end)
  {
    hide Join, Headers, HeaderAt;
    JoinShape(bs, end, HDR, i);
    JoinIndex(bs, i);
    JoinHeaders(m, bs, end, i);
  }

  lemma JoinHeaders(m: Mem, bs: seq<Block>, end: int, i: int)
    requires Rep(m, bs, end) && 0 <= i && i + 1 < |bs|
    requires 0 <= bs[i].addr && bs[i].addr + HDR <= |m| && 0 <= Next(bs, end, i + 1) <= |m| - HDR
    ensures Headers(JoinStores(m, bs[i].addr, Next(bs, end, i + 1)), Join(bs, i), end)
  {
    hide Join, Rep, HeaderAt, JoinStores;
    var cs := Join(bs, i);
    var n := JoinStores(m, bs[i].addr, Next(bs, end, i + 1));
    JoinIndex(bs, i);
    forall j | 0 <= j < |cs| ensures HeaderAt(n, cs[j].addr, cs[j].used, Next(cs, end, j), Prev(cs, j)) {
      if j <= i { JoinLow(m, bs, end, i, j); } else { JoinHigh(m, bs, end, i, j + 1); }
    }
  }

  lemma JoinLow(m: Mem, bs: seq<Block>, end: int, i: int, j: int)
    requires Rep(m, bs, end) && 0 <= j <= i && i + 1 < |bs|
    ensures HeaderAt(JoinStores(m, bs[i].addr, Next(bs, end, i + 1)), bs[j].addr, bs[j].used,
                     if j == i then Next(bs, end, i + 1) else Next(bs, end, j), Prev(bs, j))
  {
    hide Spaced, Headers;
    ReadHeader(m, bs, end, i);
    ReadHeader(m, bs, end, i + 1);
    ReadHeader(m, bs, end, j);
    Gap(bs, end, HDR, j, i);
    Gap(bs, end, HDR, j, i + 1);
  }

  lemma JoinHigh(m: Mem, bs: seq<Block>, end: int, i: int, j: int)
    requires Rep(m, bs, end) && 0 <= i && i + 1 < j < |bs|
    ensures HeaderAt(JoinStores(m, bs[i].addr, Next(bs, end, i + 1)), bs[j].addr, bs[j].used,
                     Next(bs, end, j), if j == i + 2 then bs[i].addr else Prev(bs, j))
  {
    hide Spaced, Headers;
    ReadHeader(m, bs, end, i);
    ReadHeader(m, bs, end, i + 2);
    ReadHeader(m, bs, end, j);
    Gap(bs, end, HDR, i, j);
    Gap(bs, end, HDR, i + 2, j);
  }

  lemma JoinStoresSame(m: Mem, bs: seq<Block>, end: int, i: int)
    requires Rep(m, bs, end) && 0 <= i && i + 1 < |bs|
    ensures SamePayload(m, JoinStores(m, bs[i].addr, Next(bs, end, i + 1)), bs, end, HDR)
  {
    hide InPayload, Headers;
    assert bs[i].addr + HDR <= bs[i + 1].addr;
    NotPayload(bs, end, HDR, i, bs[i].addr + NEXT);
    if i + 2 < |bs| {
      NotPayload(bs, end, HDR, i + 2, bs[i + 2].addr + PREV);
    } else {
      EndNotPayload(bs, end, HDR, end + PREV);
    }
  }

  lemma ReadHeader(m: Mem, bs: seq<Block>, end: int, i: int)
    requires Rep(m, bs, end) && 0 <= i < |bs|
    ensures HeaderAt(m, bs[i].addr, bs[i].used, Next(bs, end, i), Prev(bs, i))
    ensures |m| == end + HDR && bs[i].addr + HDR <= Next(bs, end, i) <= end
    ensures i > 0 ==> Prev(bs, i) < bs[i].addr
    ensures bs[0].addr == 0
  {
  }

  /** The word after block i is a readable header: the next block's, or the sentinel's. */
  lemma ReadNext(m: Mem, bs: seq<Block>, end: int, i: int)
    requires Rep(m, bs, end) && 0 <= i < |bs|
    ensures 0 <= Next(bs, end, i) && Next(bs, end, i) + HDR <= |m| == end + HDR
    ensures Next(bs, end, i) == end <==> i + 1 == |bs|
    ensures i + 1 < |bs| ==> HeaderAt(m, bs[i + 1].addr, bs[i + 1].used, Next(bs, end, i + 1), bs[i].addr)
    ensures i + 1 < |bs| ==> bs[i].addr + HDR <= bs[i + 1].addr
    ensures i + 1 == |bs| ==> m[end + USED] == 1
  {
  }

  lemma PlugTarget(h: Heap, end: int, i: int)
    requires PlugPre(h, end, i)
    ensures 0 <= i < |h.blocks| && !h.blocks[i].used && i < |PlugForward(h, i).blocks|
    ensures PlugForward(h, i).blocks[i] == h.blocks[i]
    ensures Spaced(h.blocks, end, HDR)
  {
  }

  lemma SameThroughForward(m: Mem, n: Mem, o: Mem, h: Heap, end: int, i: int)
    requires Spaced(h.blocks, end, HDR) && 0 <= i < |h.blocks| && !h.blocks[i].used
    requires SamePayload(m, n, h.blocks, end, HDR) && SamePayload(n, o, PlugForward(h, i).blocks, end, HDR)
    ensures SamePayload(m, o, h.blocks, end, HDR)
  {
    hide InPayload, Spaced, Join;
    if i + 1 < |h.blocks| && !h.blocks[i + 1].used {
      forall k { JoinPayload(h.blocks, end, HDR, i, k); }
    }
  }

  lemma MarkLooks(bs: seq<Block>, end: int, i: int)
    requires 0 <= i < |bs|
    ensures Next(Mark(bs, i, true), end, i) == Next(bs, end, i)
  {
  }

  lemma EndIsUsed(m: Mem, bs: seq<Block>, end: int)
    requires Rep(m, bs, end)
    ensures m[end + USED] == 1 && bs[0].addr == 0
  {
  }

  lemma MarkSame(m: Mem, n: Mem, bs: seq<Block>, end: int, i: int, v: bool)
    requires Rep(m, bs, end) && 0 <= i < |bs| && OnlyHeader(m, n, bs[i].addr)
    ensures SamePayload(m, n, Mark(bs, i, v), end, HDR)
  {
    hide InPayload, Spaced, Headers;
    MarkShape(bs, end, HDR, i, v);
    forall k | bs[i].addr <= k < bs[i].addr + HDR ensures !InPayload(Mark(bs, i, v), end, HDR, k) {
      HeaderBelowNext(bs, end, HDR, i);
      NotPayload(Mark(bs, i, v), end, HDR, i, k);
    }
  }

  lemma FreeHeaderSame(m: Mem, n: Mem, bs: seq<Block>, end: int, i: int)
    requires Rep(m, bs, end) && 0 <= i < |bs| && OnlyHeader(m, n, bs[i].addr)
    ensures SamePayload(m, n, bs, end, HDR)
  {
    hide InPayload, Spaced, Headers;
    HeaderBelowNext(bs, end, HDR, i);
    forall k | bs[i].addr <= k < bs[i].addr + HDR ensures !InPayload(bs, end, HDR, k) {
      NotPayload(bs, end, HDR, i, k);
    }
  }

  /** Stores inside a free block, and to the prev word behind it, hit no payload. */
  lemma SplitSame(m: Mem, n: Mem, bs: seq<Block>, end: int, i: int)
    requires Rep(m, bs, end) && 0 <= i < |bs| && !bs[i].used && |m| == |n|
    requires forall k :: 0 <= k < |m| && !(bs[i].addr <= k < Next(bs, end, i)) && k != Next(bs, end, i) + PREV
               ==> n[k] == m[k]
    ensures SamePayload(m, n, bs, end, HDR)
  {
    hide InPayload, Spaced, Headers;
    HeaderBelowNext(bs, end, HDR, i);
    forall k | bs[i].addr <= k < Next(bs, end, i) ensures !InPayload(bs, end, HDR, k) {
      NotPayload(bs, end, HDR, i, k);
    }
    if i + 1 < |bs| {
      NotPayload(bs, end, HDR, i + 1, Next(bs, end, i) + PREV);
    } else {
      EndNotPayload(bs, end, HDR, end + PREV);
    }
  }

  /** The stores of rt_malloc that cut a free block and mark its lower part, in program order. */
  function CutStores(m: Mem, ptr: int, ptr2: int, next: int, end: int): Mem
    requires 0 <= ptr && ptr + HDR <= ptr2 && ptr2 + HDR <= next <= end && |m| == end + HDR
  {
    var n := m[ptr2 + USED := 0][ptr2 + NEXT := next][ptr2 + PREV := ptr][ptr + NEXT := ptr2][ptr + USED := 1];
    (if next != end then n[next + PREV := ptr2] else n)[ptr := HEAP_MAGIC]
  }

  lemma CutStoresRep(m: Mem, bs: seq<Block>, end: int, i: int, ptr2: int)
    requires Rep(m, bs, end) && 0 <= i < |bs| && !bs[i].used
    requires |m| == end + HDR && 0 <= bs[i].addr
    requires bs[i].addr + HDR <= ptr2 && ptr2 + HDR <= Next(bs, end, i) <= end
    ensures var n := CutStores(m, bs[i].addr, ptr2, Next(bs, end, i), end);
      Rep(n, Split(Mark(bs, i, true), i, ptr2), end) && SamePayload(m, n, bs, end, HDR)
  {
    hide Rep, SamePayload, Split, CutStores, SplitStores;
    var ptr, n := bs[i].addr, CutStores(m, bs[i].addr, ptr2, Next(bs, end, i), end);
    var marked := m[ptr + USED := 1][ptr := HEAP_MAGIC];
    ReadHeader(m, bs, end, i);
    ReadNext(m, bs, end, i);
    RepMark(m, marked, bs, end, i, true);
    MarkLooks(bs, end, i);
    CutStoresSplit(m, marked, ptr, ptr2, Next(bs, end, i), end);
    RepSplit(marked, n, Mark(bs, i, true), end, i, ptr2);
    SplitSame(m, n, bs, end, i);
  }

  lemma CutStoresSplit(m: Mem, marked: Mem, ptr: int, ptr2: int, next: int, end: int)
    requires 0 <= ptr && ptr + HDR <= ptr2 && ptr2 + HDR <= next <= end && |m| == end + HDR
    requires marked == m[ptr + USED := 1][ptr := HEAP_MAGIC]
    ensures SplitStores(marked, CutStores(m, ptr, ptr2, next, end), ptr, ptr2, next, end)
    ensures forall k :: 0 <= k < |m| && !(ptr <= k < next) && k != next + PREV
              ==> CutStores(m, ptr, ptr2, next, end)[k] == m[k]
  {
  }

  lemma InvBasics(h: Heap, end: int)
    requires Inv(h, end)
    ensures |h.blocks| > 0 && Spaced(h.blocks, end, HDR)
    ensures Find(h.blocks, h.lfree) == |h.blocks| ==> h.lfree == end
    ensures end >= HDR + MIN_SIZE_ALIGNED
  {
  }

  lemma FitsMeans(bs: seq<Block>, end: int, size: int, j: int)
    requires 0 <= j < |bs|
    ensures Fits(bs, end, size, j) <==> !bs[j].used && Next(bs, end, j) - (bs[j].addr + HDR) >= size
  {
  }

  lemma FirstFitStep(bs: seq<Block>, end: int, size: int, limit: int, j: int)
    requires 0 <= j <= |bs|
    ensures FirstFit(bs, end, size, limit, j) ==
      if j == |bs| || bs[j].addr >= limit then |bs|
      else if Fits(bs, end, size, j) then j
      else FirstFit(bs, end, size, limit, j + 1)
  {
  }

  /** The header rt_malloc's search looks at in its n-th iteration. */
  ghost function Visited(m: Mem, start: int, n: nat): int
  {
    if n == 0 then start
    else
      var p := Visited(m, start, n - 1);
      if 0 <= p && p + NEXT < |m| then m[p + NEXT] else p
  }

  /** Why a usable heap needs MIN_SIZE_ALIGNED bytes: below that, for a request that passes the size guard,
      mem_size_aligned - size wraps, so in every iteration the loop condition holds and the header looked at
      does not fit. */
  lemma {:induction false} TinyHeapSearchNeverEnds(m: Mem, msa: int, req: nat, n: nat)
    requires 0 <= msa < MIN_SIZE_ALIGNED && Rep(m, [Block(0, false)], msa + HDR)
    requires 0 < req < TWO32 && AlignUp(req) <= msa
    ensures var p, size := Visited(m, 0, n), Rounded(req);
      && (p == 0 || p == msa + HDR)
      && p < (msa - size) % TWO32
      && !(m[p + USED] == 0 && m[p + NEXT] - (p + HDR) >= size)
  {
    hide AlignUp;
    ReadHeader(m, [Block(0, false)], msa + HDR, 0);
    if n > 0 { TinyHeapSearchNeverEnds(m, msa, req, n - 1); }
  }

  lemma MovedRefl(m: Mem, h: Heap, end: int, i: int)
    requires Rep(m, h.blocks, end) && 0 <= i < |h.blocks|
    ensures Moved(m, m, h.blocks[i].addr + HDR, h.blocks[i].addr + HDR, Size(h, end, i))
  {
    hide Headers;
    ReadHeader(m, h.blocks, end, i);
  }

  /** The stores of rt_realloc that cut a used block, in program order. */
  function CutUsedStores(m: Mem, ptr: int, ptr2: int, next: int, end: int): Mem
    requires 0 <= ptr && ptr + HDR <= ptr2 && ptr2 + HDR <= next <= end && |m| == end + HDR
  {
    var n := m[ptr2 := HEAP_MAGIC][ptr2 + USED := 0][ptr2 + NEXT := next][ptr2 + PREV := ptr][ptr + NEXT := ptr2];
    if next != end then n[next + PREV := ptr2] else n
  }

  lemma CutUsedRep(m: Mem, bs: seq<Block>, end: int, i: int, ptr2: int)
    requires Rep(m, bs, end) && 0 <= i < |bs| && bs[i].used
    requires |m| == end + HDR && 0 <= bs[i].addr
    requires bs[i].addr + HDR <= ptr2 && ptr2 + HDR <= Next(bs, end, i) <= end
    ensures var n := CutUsedStores(m, bs[i].addr, ptr2, Next(bs, end, i), end);
      Rep(n, Split(bs, i, ptr2), end) && SamePayload(m, n, Split(bs, i, ptr2), end, HDR)
  {
    hide Rep, SamePayload, Split;
    var n := CutUsedStores(m, bs[i].addr, ptr2, Next(bs, end, i), end);
    ReadHeader(m, bs, end, i);
    ReadNext(m, bs, end, i);
    RepSplit(m, n, bs, end, i, ptr2);
    CutUsedSame(m, n, bs, end, i, ptr2);
  }

  lemma CutUsedSame(m: Mem, n: Mem, bs: seq<Block>, end: int, i: int, ptr2: int)
    requires 0 <= i < |bs| && Rep(n, Split(bs, i, ptr2), end) && |m| == |n|
    requires forall k ::
      (0 <= k < |m| && k != bs[i].addr + NEXT && !(ptr2 <= k < ptr2 + HDR) && k != Next(bs, end, i) + PREV)
      ==> n[k] == m[k]
    ensures SamePayload(m, n, Split(bs, i, ptr2), end, HDR)
  {
    hide InPayload, Spaced, Headers, Split;
    var cs := Split(bs, i, ptr2);
    SplitIndex(bs, i, ptr2);
    HeaderBelowNext(cs, end, HDR, i + 1);
    HeaderBelowNext(cs, end, HDR, i);
    NotPayload(cs, end, HDR, i, cs[i].addr + NEXT);
    forall k | ptr2 <= k < ptr2 + HDR ensures !InPayload(cs, end, HDR, k) {
      NotPayload(cs, end, HDR, i + 1, k);
    }
    if i + 2 < |cs| {
      NotPayload(cs, end, HDR, i + 2, cs[i + 2].addr + PREV);
    } else {
      EndNotPayload(cs, end, HDR, end + PREV);
    }
  }

  /** Writing payload cells of a used block leaves every header alone. */
  lemma RepPayload(m: Mem, n: Mem, bs: seq<Block>, end: int, i: int)
    requires Rep(m, bs, end) && 0 <= i < |bs|
    requires OnlyPayload(m, n, bs[i].addr + HDR, Next(bs, end, i))
    ensures Rep(n, bs, end)
  {
    hide Spaced, HeaderAt, OnlyPayload;
    forall j | 0 <= j < |bs| ensures HeaderAt(n, bs[j].addr, bs[j].used, Next(bs, end, j), Prev(bs, j)) {
      PayloadOther(m, n, bs, end, i, j);
    }
    PayloadSentinel(m, n, bs, end, i);
  }

  lemma PayloadOther(m: Mem, n: Mem, bs: seq<Block>, end: int, i: int, j: int)
    requires Rep(m, bs, end) && 0 <= i < |bs| && 0 <= j < |bs|
    requires OnlyPayload(m, n, bs[i].addr + HDR, Next(bs, end, i))
    ensures HeaderAt(n, bs[j].addr, bs[j].used, Next(bs, end, j), Prev(bs, j))
  {
    ReadHeader(m, bs, end, j);
    if i < j {
      Ordered(bs, end, HDR, i, j);
    } else if j < i {
      assert bs[j].addr + HDR <= bs[i].addr;
    }
  }

  lemma PayloadSentinel(m: Mem, n: Mem, bs: seq<Block>, end: int, i: int)
    requires Rep(m, bs, end) && 0 <= i < |bs|
    requires OnlyPayload(m, n, bs[i].addr + HDR, Next(bs, end, i))
    ensures Sentinel(n, end)
  {
    hide Headers;
    ReadHeader(m, bs, end, i);
  }

  lemma AlignUpBound(n: nat)
    ensures AlignUp(n) <= TWO32 - ALIGN
  {
  }

  /** Where a moving rt_realloc copies to: the block rt_malloc just carved out of free block i0. */
  lemma Destination(h: Heap, g: Heap, end: int, i: int, newsize: nat, p: Ptr) returns (i0: int)
    requires Inv(h, end) && 0 <= i < |h.blocks| && h.blocks[i].used
    requires (g, p) == Malloc(h, end, newsize) && p.At? && newsize <= TWO32 - ALIGN
    ensures 0 <= i0 < |h.blocks| && !h.blocks[i0].used && p.off == h.blocks[i0].addr + HDR
    ensures g.blocks == CarvedBlocks(h.blocks, end, i0, Rounded(newsize)) && Inv(g, end)
    ensures i0 < |g.blocks| && g.blocks[i0] == Block(p.off - HDR, true)
    ensures p.off + newsize <= Next(g.blocks, end, i0) <= Next(h.blocks, end, i0)
    ensures Next(h.blocks, end, i0) <= h.blocks[i].addr || Next(h.blocks, end, i) <= h.blocks[i0].addr
  {
    hide AlignUp, Inv, LowestFree, Find, FirstFit, GivenOut, Spaced, CarvedBlocks, NextFree;
    var bs, size := h.blocks, Rounded(newsize);
    RoundedIsEnough(newsize);
    MallocInv(h, end, newsize);
    InvBasics(h, end);
    InvTiled(h, end);
    FirstFitLowest(bs, end, size, end - HDR - size, Find(bs, h.lfree));
    i0 := FirstFit(bs, end, size, end - HDR - size, Find(bs, h.lfree));
    CarvedBlocksShape(bs, end, i0, size);
    CarvedRoom(bs, g.blocks, end, i0, size);
    if i < i0 { Ordered(bs, end, HDR, i, i0); } else { Ordered(bs, end, HDR, i0, i); }
  }

  lemma InvTiled(h: Heap, end: int)
    requires Inv(h, end)
    ensures Tiled(h.blocks, end) && Settled(h.blocks)
  {
  }

  lemma CarvedRoom(bs: seq<Block>, cs: seq<Block>, end: int, i: int, size: int)
    requires 0 <= i < |bs| && Fits(bs, end, size, i) && 0 <= size && Spaced(bs, end, HDR)
    requires cs == CarvedBlocks(bs, end, i, size) && GivenOut(bs, cs, end, i, size)
    ensures i < |cs| && cs[i] == Block(bs[i].addr, true)
    ensures bs[i].addr + HDR + size <= Next(cs, end, i) <= Next(bs, end, i)
  {
    hide Bytes, Tiled;
  }

  lemma CarvedIsGiven(bs: seq<Block>, end: int, i: int, size: int)
    requires 0 <= i < |bs| && !bs[i].used
    ensures Given(bs, CarvedBlocks(bs, end, i, size), i, bs[i].addr + HDR + size)
  {
  }

  lemma MoveDone(m: Mem, n: Mem, o: Mem, f: Mem, h: Heap, g: Heap, end: int, i: int, i0: int, newsize: nat)
    requires Inv(h, end) && Inv(g, end) && Rep(m, h.blocks, end)
    requires 0 <= i < |h.blocks| && h.blocks[i].used && 0 <= i0 < |h.blocks| && !h.blocks[i0].used
    requires g.blocks == CarvedBlocks(h.blocks, end, i0, Rounded(newsize))
    requires i0 < |g.blocks| && g.blocks[i0] == Block(h.blocks[i0].addr, true)
    requires h.blocks[i0].addr + HDR + newsize <= Next(g.blocks, end, i0) <= Next(h.blocks, end, i0)
    requires SamePayload(m, n, h.blocks, end, HDR)
    requires var len := Lesser(Size(h, end, i), newsize); var dst := h.blocks[i0].addr + HDR;
      Moved(n, o, h.blocks[i].addr + HDR, dst, len) && OnlyPayload(n, o, dst, dst + len)
    requires var k := Find(g.blocks, h.blocks[i].addr);
      k < |g.blocks| && g.blocks[k] == h.blocks[i] && SamePayload(o, f, Mark(g.blocks, k, false), end, HDR)
    ensures SamePayload(m, f, Mark(h.blocks, i, false), end, HDR)
    ensures Moved(m, f, h.blocks[i].addr + HDR, h.blocks[i0].addr + HDR, Lesser(Size(h, end, i), newsize))
  {
    hide Inv, Rep, SamePayload, Moved, OnlyPayload, CarvedBlocks, Rounded, Find, LowestFree, AlignUp;
    hide Spaced, Given, Next, Mark;
    InvBasics(h, end);
    InvBasics(g, end);
    InRange(m, h.blocks, end, i);
    InRange(m, h.blocks, end, i0);
    Distinct(h.blocks, end, i, i0);
    CarvedIsGiven(h.blocks, end, i0, Rounded(newsize));
    MoveKeeps(m, n, o, f, h.blocks, g.blocks, end, HDR, i, i0, Find(g.blocks, h.blocks[i].addr),
              h.blocks[i0].addr + HDR + Rounded(newsize), Lesser(Size(h, end, i), newsize));
  }

  lemma InRange(m: Mem, bs: seq<Block>, end: int, i: int)
    requires Rep(m, bs, end) && 0 <= i < |bs|
    ensures 0 <= bs[i].addr && bs[i].addr + HDR <= Next(bs, end, i) <= end <= |m|
  {
  }

  lemma Distinct(bs: seq<Block>, end: int, i: int, j: int)
    requires Spaced(bs, end, HDR) && 0 <= i < |bs| && 0 <= j < |bs| && i != j
    ensures bs[i].addr != bs[j].addr
  {
  }

  class SmallMem {
    var heap: array<int>
    var memSizeAligned: int
    var lfree: int
    var usedMem: int
    var maxMem: int
    ghost var blocks: seq<Block>

    ghost function End(): int
      reads this
    {
      memSizeAligned + HDR
    }

    ghost function Abs(): Heap
      reads this
    {
      Heap(blocks, lfree, usedMem, maxMem)
    }

    /** The bytes in memory are the headers of the ghost block list. */
    ghost predicate Shaped()
      reads this, heap
    {
      Rep(heap[..], blocks, End())
    }

    ghost predicate Valid()
      reads this, heap
    {
      Shaped() && Inv(Abs(), End())
    }

    constructor Create(size: int)
      requires size >= 0
      ensures fresh(heap) && memSizeAligned == size && lfree == 0 && usedMem == 0 && maxMem == 0
      ensures blocks == [Block(0, false)]
      ensures Shaped()
    {
      var mem := new int[size + HDR + HDR];
      mem[0] := HEAP_MAGIC;
      mem[NEXT] := size + HDR;
      mem[PREV] := 0;
      mem[USED] := 0;
      var end := size + HDR;
      mem[end] := HEAP_MAGIC;
      mem[end + USED] := 1;
      mem[end + NEXT] := size + HDR;
      mem[end + PREV] := size + HDR;
      heap := mem;
      memSizeAligned, lfree, usedMem, maxMem := size, 0, 0, 0;
      blocks := [Block(0, false)];
    }

    /** rt_system_heap_init: nothing is set up when the range is too small for the two headers;
        the heap is ready for use when at least MIN_SIZE_ALIGNED bytes remain. */
    static method Init(beginAddr: nat, endAddr: nat) returns (h: SmallMem?)
      requires beginAddr < TWO32 && endAddr < TWO32
      ensures h == null <==> !(endAddr / ALIGN * ALIGN > 2 * HDR
                               && endAddr / ALIGN * ALIGN - 2 * HDR >= AlignUp(beginAddr))
      ensures h != null ==>
        fresh(h) && h.memSizeAligned == endAddr / ALIGN * ALIGN - AlignUp(beginAddr) - 2 * HDR
        && (h.memSizeAligned >= MIN_SIZE_ALIGNED ==> h.Valid() && LowestFree(h.Abs()) && Aligned(h.blocks))
    {
      var beginAlign, endAlign := AlignUp(beginAddr), endAddr / ALIGN * ALIGN;
      if endAlign > 2 * HDR && endAlign - 2 * HDR >= beginAlign {
        h := new SmallMem.Create(endAlign - beginAlign - 2 * HDR);
        assert Bytes(h.blocks, h.End(), true) == 0 + Bytes(h.blocks[1..], h.End(), true);
        assert h.blocks[0] == Block(0, false);
      } else {
        h := null;
      }
    }

    /** Free block i, at mem, swallows its free successor. */
    method JoinNext(mem: int, ghost i: int)
      requires Shaped() && 0 <= i && i + 1 < |blocks| && blocks[i] == Block(mem, false) && !blocks[i + 1].used
      modifies this`blocks, heap
      ensures Shaped() && blocks == Join(old(blocks), i)
      ensures SamePayload(old(heap[..]), heap[..], old(blocks), End(), HDR)
    {
      hide Rep, SamePayload, Join;
      ghost var m := heap[..];
      ReadNext(m, blocks, End(), i);
      ReadHeader(m, blocks, End(), i);
      ReadNext(m, blocks, End(), i + 1);
      RepJoin(m, blocks, End(), i);
      JoinStoresSame(m, blocks, End(), i);
      var nmem := heap[mem + NEXT];
      heap[mem + NEXT] := heap[nmem + NEXT];
      heap[heap[nmem + NEXT] + PREV] := mem;
      assert heap[..] == JoinStores(m, mem, Next(blocks, End(), i + 1));
      blocks := Join(blocks, i);
    }

    /** The forward half of plug_holes. */
    method PlugNext(mem: int, ghost i: int)
      requires Shaped() && 0 <= i < |blocks| && blocks[i] == Block(mem, false)
      modifies this`lfree, this`blocks, heap
      ensures Shaped() && Abs() == PlugForward(old(Abs()), i)
      ensures SamePayload(old(heap[..]), heap[..], old(blocks), End(), HDR)
    {
      hide Rep, SamePayload, Join;
      SameRefl(heap[..], blocks, End(), HDR);
      ReadHeader(heap[..], blocks, End(), i);
      ReadNext(heap[..], blocks, End(), i);
      var nmem := heap[mem + NEXT];
      if mem != nmem && heap[nmem + USED] == 0 && nmem != memSizeAligned + HDR {
        if lfree == nmem {
          lfree := mem;
        }
        JoinNext(mem, i);
      }
    }

    /** The backward half of plug_holes. */
    method PlugPrev(mem: int, ghost i: int)
      requires Shaped() && 0 <= i < |blocks| && blocks[i] == Block(mem, false)
      modifies this`lfree, this`blocks, heap
      ensures Shaped() && Abs() == PlugBackward(old(Abs()), i)
      ensures SamePayload(old(heap[..]), heap[..], old(blocks), End(), HDR)
    {
      hide Rep, SamePayload, Join;
      SameRefl(heap[..], blocks, End(), HDR);
      ReadHeader(heap[..], blocks, End(), i);
      if i > 0 { ReadHeader(heap[..], blocks, End(), i - 1); }
      var pmem := heap[mem + PREV];
      if pmem != mem && heap[pmem + USED] == 0 {
        if lfree == mem {
          lfree := pmem;
        }
        JoinNext(pmem, i - 1);
      }
    }

    /** plug_holes(mem), mem being block i. */
    method PlugHoles(mem: int, ghost i: int)
      requires Shaped() && 0 <= i < |blocks| && PlugPre(Abs(), End(), i) && blocks[i].addr == mem
      modifies this`lfree, this`blocks, heap
      ensures Shaped() && Abs() == Plug(old(Abs()), i) && Inv(Abs(), End())
      ensures SamePayload(old(heap[..]), heap[..], old(blocks), End(), HDR)
    {
      hide Rep, InPayload, Inv, PlugPre, SamePayload, PlugForward, PlugBackward, LowestFree;
      ghost var h, m := Abs(), heap[..];
      PlugTarget(h, End(), i);
      PlugInv(h, End(), i);
      PlugNext(mem, i);
      ghost var n := heap[..];
      PlugPrev(mem, i);
      SameThroughForward(m, n, heap[..], h, End(), i);
    }

    /** rt_free. The payload of every block that stays in use is untouched. */
    method Free(rmem: Ptr)
      requires Valid()
      requires rmem == Null || rmem.off < 0 || rmem.off >= End() || Live(Abs(), rmem)
      modifies this`lfree, this`blocks, this`usedMem, heap
      ensures Valid()
      ensures rmem == Null || rmem.off < 0 || rmem.off >= End() ==>
                Abs() == old(Abs()) && heap[..] == old(heap[..])
      ensures rmem.At? && 0 <= rmem.off < End() ==>
                var i := Find(old(blocks), rmem.off - HDR);
                i < |old(blocks)| && Abs() == FreeAt(old(Abs()), End(), i)
                && SamePayload(old(heap[..]), heap[..], Mark(old(blocks), i, false), End(), HDR)
    {
      hide Rep, InPayload, Inv, PlugPre, SamePayload, LowestFree, Plug;
      if rmem == Null { return; }
      if rmem.off < 0 || rmem.off >= memSizeAligned + HDR { return; }
      var mem := rmem.off - HDR;
      ghost var h, m := Abs(), heap[..];
      LiveIndex(h, End(), rmem);
      ghost var i := Find(blocks, mem);
      ReleasedPre(h, End(), i);
      UnmarkBlock(mem, i);
      ghost var n := heap[..];
      if mem < lfree {
        lfree := mem;
      }
      usedMem := usedMem - (heap[mem + NEXT] - mem);
      PlugHoles(mem, i);
      SameTrans(m, n, heap[..], Mark(h.blocks, i, false), End(), HDR);
    }

    method UnmarkBlock(mem: int, ghost i: int)
      requires Shaped() && 0 <= i < |blocks| && blocks[i] == Block(mem, true)
      modifies this`blocks, heap
      ensures Shaped() && blocks == Mark(old(blocks), i, false)
      ensures SamePayload(old(heap[..]), heap[..], blocks, End(), HDR)
      ensures 0 <= mem && mem + HDR <= heap.Length && heap[mem + NEXT] == Next(old(blocks), End(), i)
    {
      hide Rep, InPayload, SamePayload;
      ghost var m := heap[..];
      ReadHeader(m, blocks, End(), i);
      assert heap[mem + USED] == 1 && heap[mem] == HEAP_MAGIC;  // what rt_free asserts
      heap[mem + USED] := 0;
      heap[mem] := 0;
      RepMark(m, heap[..], blocks, End(), i, false);
      MarkSame(m, heap[..], blocks, End(), i, false);
      blocks := Mark(blocks, i, false);
    }

    /** The loop of rt_malloc that moves lfree up to the next free block. */
    method AdvanceLfree(ghost i: int)
      requires Shaped() && 0 <= i < |blocks| && blocks[i].addr == lfree
      modifies this`lfree
      ensures lfree == NextFree(blocks, End(), i)
    {
      hide Rep;
      ghost var j := i;
      ReadHeader(heap[..], blocks, End(), j);
      while heap[lfree + USED] != 0 && lfree != memSizeAligned + HDR
        invariant i <= j <= |blocks|
        invariant lfree == if j < |blocks| then blocks[j].addr else End()
        invariant 0 <= lfree && lfree + HDR <= heap.Length
        invariant j < |blocks| ==> heap[lfree + USED] == if blocks[j].used then 1 else 0
        invariant NextFree(blocks, End(), i) == NextFree(blocks, End(), j)
        decreases |blocks| - j
      {
        if j < |blocks| {
          ReadHeader(heap[..], blocks, End(), j);
          ReadNext(heap[..], blocks, End(), j);
        }
        lfree := heap[lfree + NEXT];
        j := j + 1;
      }
      EndIsUsed(heap[..], blocks, End());
      if j < |blocks| {
        ReadHeader(heap[..], blocks, End(), j);
      }
    }

    /** What rt_malloc does once the search has stopped at block i. */
    method TakeBlock(ptr: int, size: int, ghost i: int)
      requires Shaped() && 0 <= i < |blocks| && blocks[i].addr == ptr
      requires 0 <= size && Fits(blocks, End(), size, i)
      modifies this`lfree, this`blocks, this`usedMem, this`maxMem, heap
      ensures Shaped() && Abs() == Carve(old(Abs()), End(), i, size)
      ensures SamePayload(old(heap[..]), heap[..], old(blocks), End(), HDR)
    {
      hide Rep, InPayload, SamePayload, NextFree, CarvedBlocks;
      GiveOut(ptr, size, i);
      if maxMem < usedMem {
        maxMem := usedMem;
      }
      if ptr == lfree {
        AdvanceLfree(i);
      }
    }

    /** Block i leaves the free blocks, cut or whole. */
    method GiveOut(ptr: int, size: int, ghost i: int)
      requires Shaped() && 0 <= i < |blocks| && blocks[i].addr == ptr
      requires 0 <= size && Fits(blocks, End(), size, i)
      modifies this`blocks, this`usedMem, heap
      ensures Shaped() && blocks == CarvedBlocks(old(blocks), End(), i, size) && blocks[i].addr == ptr
      ensures usedMem == old(usedMem) + Next(blocks, End(), i) - ptr
      ensures SamePayload(old(heap[..]), heap[..], old(blocks), End(), HDR)
    {
      hide Rep, InPayload, SamePayload, Split;
      ReadHeader(heap[..], blocks, End(), i);
      SplitIndex(Mark(blocks, i, true), i, ptr + HDR + size);
      if heap[ptr + NEXT] - (ptr + HDR) >= size + HDR + MIN_SIZE_ALIGNED {
        SplitBlock(ptr, size, i);
        usedMem := usedMem + (size + HDR);
      } else {
        MarkBlock(ptr, i);
        usedMem := usedMem + (heap[ptr + NEXT] - ptr);
      }
    }

    method MarkBlock(ptr: int, ghost i: int)
      requires Shaped() && 0 <= i < |blocks| && blocks[i] == Block(ptr, false)
      modifies this`blocks, heap
      ensures Shaped() && blocks == Mark(old(blocks), i, true)
      ensures SamePayload(old(heap[..]), heap[..], old(blocks), End(), HDR)
      ensures 0 <= ptr && ptr + HDR <= heap.Length && heap[ptr + NEXT] == Next(blocks, End(), i)
    {
      hide Rep, InPayload, SamePayload;
      ghost var m := heap[..];
      ReadHeader(m, blocks, End(), i);
      heap[ptr + USED] := 1;
      heap[ptr] := HEAP_MAGIC;
      RepMark(m, heap[..], blocks, End(), i, true);
      FreeHeaderSame(m, heap[..], blocks, End(), i);
      blocks := Mark(blocks, i, true);
    }

    /** Cut block i behind size payload bytes and mark the lower part used. */
    method SplitBlock(ptr: int, size: int, ghost i: int)
      requires Shaped() && 0 <= i < |blocks| && blocks[i] == Block(ptr, false)
      requires 0 <= size && Next(blocks, End(), i) - (ptr + HDR) >= size + HDR + MIN_SIZE_ALIGNED
      modifies this`blocks, heap
      ensures Shaped() && blocks == Split(Mark(old(blocks), i, true), i, ptr + HDR + size)
      ensures SamePayload(old(heap[..]), heap[..], old(blocks), End(), HDR)
    {
      hide Rep, InPayload, SamePayload, Split, CutStores;
      ghost var m := heap[..];
      ReadHeader(m, blocks, End(), i);
      ReadNext(m, blocks, End(), i);
      var ptr2 := ptr + HDR + size;
      CutStoresRep(m, blocks, End(), i, ptr2);
      StoreCut(ptr, ptr2);
      blocks := Split(Mark(blocks, i, true), i, ptr2);
    }

    /** The header stores of that split. */
    method StoreCut(ptr: int, ptr2: int)
      requires 0 <= ptr && ptr + HDR <= ptr2 && heap.Length == End() + HDR && ptr + HDR <= heap.Length
      requires ptr2 + HDR <= heap[ptr + NEXT] <= End()
      modifies heap
      ensures heap[..] == CutStores(old(heap[..]), ptr, ptr2, old(heap[ptr + NEXT]), End())
    {
      heap[ptr2 + USED] := 0;
      heap[ptr2 + NEXT] := heap[ptr + NEXT];
      heap[ptr2 + PREV] := ptr;
      heap[ptr + NEXT] := ptr2;
      heap[ptr + USED] := 1;
      if heap[ptr2 + NEXT] != memSizeAligned + HDR {
        heap[heap[ptr2 + NEXT] + PREV] := ptr2;
      }
      heap[ptr] := HEAP_MAGIC;
    }

    /** rt_malloc: first fit from lfree. No live payload is touched. */
    method Malloc(request: nat) returns (p: Ptr)
      requires Valid() && request < TWO32
      modifies this`lfree, this`blocks, this`usedMem, this`maxMem, heap
      ensures Valid() && (Abs(), p) == SmallHeapSpec.Malloc(old(Abs()), End(), request)
      ensures SamePayload(old(heap[..]), heap[..], old(blocks), End(), HDR)
    {
      hide Rep, InPayload, Inv, SamePayload, LowestFree, Fits, SmallHeapSpec.Carve, AlignUp, FirstFit, Find, Spaced;
      MallocInv(Abs(), End(), request);
      InvBasics(Abs(), End());
      SameRefl(heap[..], blocks, End(), HDR);
      if request == 0 { return Null; }
      var size := AlignUp(request);
      if size > memSizeAligned { return Null; }
      if size < MIN_SIZE_ALIGNED {
        size := MIN_SIZE_ALIGNED;
      }
      var ptr := lfree;
      ghost var first := Find(blocks, lfree);
      ghost var j := first;
      ghost var limit := memSizeAligned - size;
      while ptr < memSizeAligned - size
        invariant Shaped() && Abs() == old(Abs()) && heap[..] == old(heap[..])
        invariant first <= j <= |blocks|
        invariant ptr == if j < |blocks| then blocks[j].addr else End()
        invariant FirstFit(blocks, End(), size, limit, first) == FirstFit(blocks, End(), size, limit, j)
        decreases |blocks| - j
      {
        ReadHeader(heap[..], blocks, End(), j);
        FitsMeans(blocks, End(), size, j);
        FirstFitStep(blocks, End(), size, limit, j);
        if heap[ptr + USED] == 0 && heap[ptr + NEXT] - (ptr + HDR) >= size {
          TakeBlock(ptr, size, j);
          return At(ptr + HDR);
        }
        ptr := heap[ptr + NEXT];
        j := j + 1;
      }
      FirstFitStep(blocks, End(), size, limit, j);
      return Null;
    }

    /** rt_realloc. Every other live block keeps its payload, and the caller's data moves along. */
    method Realloc(rmem: Ptr, request: nat) returns (p: Ptr)
      requires Valid() && request < TWO32
      requires rmem == Null || rmem.off < 0 || rmem.off >= End() || Live(Abs(), rmem)
      modifies this`lfree, this`blocks, this`usedMem, this`maxMem, heap
      ensures Valid()
      ensures (Abs(), p) == SmallHeapSpec.Realloc(old(Abs()), End(), rmem, request)
      ensures rmem.At? && !(0 <= rmem.off < End()) ==>
                Abs() == old(Abs()) && p == if AlignUp(request) > memSizeAligned then Null else rmem
      ensures !(rmem.At? && 0 <= rmem.off < End() && AlignUp(request) <= memSizeAligned) ==>
                SamePayload(old(heap[..]), heap[..], old(blocks), End(), HDR)
      ensures rmem.At? && 0 <= rmem.off < End() && AlignUp(request) <= memSizeAligned ==>
                var i := Find(old(blocks), rmem.off - HDR);
                i < |old(blocks)| && SamePayload(old(heap[..]), heap[..], Mark(old(blocks), i, false), End(), HDR)
                && (p != Null ==> Moved(old(heap[..]), heap[..], rmem.off, p.off,
                                        Lesser(Size(old(Abs()), End(), i), AlignUp(request))))
    {
      hide Rep, InPayload, Inv, SamePayload, LowestFree, AlignUp, Resize, SmallHeapSpec.Malloc, Moved;
      var newsize := AlignUp(request);
      AlignUpBound(request);
      SameRefl(heap[..], blocks, End(), HDR);
      if newsize > memSizeAligned { return Null; }
      if rmem == Null {
        p := Malloc(newsize);
        return;
      }
      if rmem.off < 0 || rmem.off >= memSizeAligned + HDR { return rmem; }
      ghost var h := Abs();
      LiveIndex(h, End(), rmem);
      p := Rework(rmem, newsize, Find(blocks, rmem.off - HDR));
    }

    /** rt_realloc once the block is known to be block i. */
    method Rework(rmem: Ptr, newsize: nat, ghost i: int) returns (p: Ptr)
      requires Valid() && 0 <= i < |blocks| && rmem.At? && blocks[i] == Block(rmem.off - HDR, true)
      requires rmem.off < End()
      requires newsize <= memSizeAligned && newsize <= TWO32 - ALIGN
      modifies this`lfree, this`blocks, this`usedMem, this`maxMem, heap
      ensures Valid()
      ensures (Abs(), p) == Resize(old(Abs()), End(), i, newsize)
      ensures SamePayload(old(heap[..]), heap[..], Mark(old(blocks), i, false), End(), HDR)
      ensures p != Null ==> Moved(old(heap[..]), heap[..], rmem.off, p.off, Lesser(Size(old(Abs()), End(), i), newsize))
    {
      hide Rep, InPayload, Inv, SamePayload, LowestFree, FreeAt, Shrink, SmallHeapSpec.Malloc, Moved, Find;
      ghost var h, m := Abs(), heap[..];
      ReadHeader(m, blocks, End(), i);
      SameRefl(m, Mark(blocks, i, false), End(), HDR);
      MovedRefl(m, h, End(), i);
      var mem := rmem.off - HDR;
      var size := heap[mem + NEXT] - mem - HDR;
      if size == newsize { return rmem; }
      if newsize + HDR + MIN_SIZE < size {
        CutInPlace(mem, newsize, size, i);
        return rmem;
      }
      p := Malloc(newsize);
      OthersSubset(m, heap[..], h.blocks, End(), HDR, i);
      if p != Null {
        MoveInv(h, End(), i, newsize);
        MoveAndFree(rmem, p, size, newsize, h, m, i);
      }
    }

    /** The split branch of rt_realloc. */
    method CutInPlace(ptr: int, newsize: nat, size: int, ghost i: int)
      requires Valid() && 0 <= i < |blocks| && blocks[i] == Block(ptr, true)
      requires Shrinks(Abs(), End(), i, newsize) && size == Size(Abs(), End(), i)
      modifies this`lfree, this`blocks, this`usedMem, heap
      ensures Valid() && Abs() == Shrink(old(Abs()), End(), i, newsize)
      ensures SamePayload(old(heap[..]), heap[..], Mark(old(blocks), i, false), End(), HDR)
      ensures Moved(old(heap[..]), heap[..], ptr + HDR, ptr + HDR, newsize)
    {
      hide Rep, InPayload, Inv, SamePayload, PlugPre, Split, Moved, LowestFree, Plug;
      ghost var h, m := Abs(), heap[..];
      CutPre(h, End(), i, newsize);
      ReadHeader(m, blocks, End(), i);
      usedMem := usedMem - (size - newsize);
      var ptr2 := ptr + HDR + newsize;
      CutHeader(ptr, ptr2, i);
      ghost var n := heap[..];
      SplitIndex(h.blocks, i, ptr2);
      PlugHoles(ptr2, i + 1);
      SameTrans(m, n, heap[..], Split(h.blocks, i, ptr2), End(), HDR);
      CutKeeps(m, heap[..], h.blocks, End(), HDR, i, ptr2);
    }

    /** The header stores of that branch. */
    method CutHeader(ptr: int, ptr2: int, ghost i: int)
      requires Shaped() && 0 <= i < |blocks| && blocks[i] == Block(ptr, true)
      requires ptr + HDR <= ptr2 && ptr2 + HDR <= Next(blocks, End(), i)
      modifies this`blocks, heap
      ensures Shaped() && blocks == Split(old(blocks), i, ptr2)
      ensures SamePayload(old(heap[..]), heap[..], blocks, End(), HDR)
    {
      hide Rep, SamePayload, Split, CutUsedStores;
      ghost var m := heap[..];
      ReadHeader(m, blocks, End(), i);
      ReadNext(m, blocks, End(), i);
      CutUsedRep(m, blocks, End(), i, ptr2);
      StoreCutUsed(ptr, ptr2);
      blocks := Split(blocks, i, ptr2);
    }

    method StoreCutUsed(ptr: int, ptr2: int)
      requires 0 <= ptr && ptr + HDR <= ptr2 && heap.Length == End() + HDR && ptr + HDR <= heap.Length
      requires ptr2 + HDR <= heap[ptr + NEXT] <= End()
      modifies heap
      ensures heap[..] == CutUsedStores(old(heap[..]), ptr, ptr2, old(heap[ptr + NEXT]), End())
    {
      heap[ptr2] := HEAP_MAGIC;
      heap[ptr2 + USED] := 0;
      heap[ptr2 + NEXT] := heap[ptr + NEXT];
      heap[ptr2 + PREV] := ptr;
      heap[ptr + NEXT] := ptr2;
      if heap[ptr2 + NEXT] != memSizeAligned + HDR {
        heap[heap[ptr2 + NEXT] + PREV] := ptr2;
      }
    }

    /** The moving branch of rt_realloc: copy into the fresh block p, then free the old one. */
    method MoveAndFree(rmem: Ptr, p: Ptr, size: int, newsize: nat, ghost h: Heap, ghost m: Mem, ghost i: int)
      requires Valid() && Inv(h, End()) && Rep(m, h.blocks, End()) && rmem.At? && p.At?
      requires rmem.off < End()
      requires 0 <= i < |h.blocks| && h.blocks[i] == Block(rmem.off - HDR, true) && size == Size(h, End(), i)
      requires (Abs(), p) == SmallHeapSpec.Malloc(h, End(), newsize) && newsize <= TWO32 - ALIGN
      requires SamePayload(m, heap[..], h.blocks, End(), HDR)
      modifies this`lfree, this`blocks, this`usedMem, heap
      ensures Valid()
      ensures var k := Find(old(blocks), rmem.off - HDR);
        k < |old(blocks)| && Abs() == FreeAt(old(Abs()), End(), k)
      ensures SamePayload(m, heap[..], Mark(h.blocks, i, false), End(), HDR)
      ensures Moved(m, heap[..], rmem.off, p.off, Lesser(size, newsize))
    {
      hide Rep, InPayload, Inv, SamePayload, FreeAt, LowestFree, SmallHeapSpec.Malloc, Find, OnlyPayload, Moved;
      ghost var g, n := Abs(), heap[..];
      ghost var i0 := Destination(h, g, End(), i, newsize, p);
      InRange(m, h.blocks, End(), i);
      InRange(n, g.blocks, End(), i0);
      FillBlock(rmem.off, p.off, Lesser(size, newsize), i0);
      ghost var o := heap[..];
      MoveInv(h, End(), i, newsize);
      Free(rmem);
      MoveDone(m, n, o, heap[..], h, g, End(), i, i0, newsize);
    }

    /** Copy into the payload of used block i. */
    method FillBlock(src: int, dst: int, len: int, ghost i: int)
      requires Shaped() && 0 <= i < |blocks| && dst == blocks[i].addr + HDR
      requires 0 <= len && 0 <= src && src + len <= heap.Length && dst + len <= Next(blocks, End(), i)
      requires src + len <= dst || dst + len <= src
      modifies heap
      ensures Shaped()
      ensures Moved(old(heap[..]), heap[..], src, dst, len)
      ensures OnlyPayload(old(heap[..]), heap[..], dst, dst + len)
    {
      hide Rep, Moved, OnlyPayload;
      ghost var n := heap[..];
      ReadHeader(n, blocks, End(), i);
      CopyBytes(heap, src, dst, len);
      OnlyPart(n, heap[..], dst, dst + len, Next(blocks, End(), i));
      RepPayload(n, heap[..], blocks, End(), i);
    }
  }
}
