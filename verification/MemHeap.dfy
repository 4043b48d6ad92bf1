/** The pool heap of memheap.c: a ring of blocks and a circular free list, both threaded through
    the pool itself. Cell k of `mem` is the memory at address k; a field of rt_memheap_item
    occupies the cell at its struct offset. The list header free_header sits at address 0. */
module MemHeap {
  import opened Tiling
  import opened Payload
  import opened MemHeapSpec

  const FREE_HEADER := 0
  const NULL_PTR := -1
  const HEAP := 1            // what pool_ptr holds
  const RT_MEMHEAP_MAGIC := 0x1ea01ea0
  const POOL := 4            // offsets in struct rt_memheap_item; magic is at 0
  const NEXT := 8
  const PREV := 12
  const NFREE := 16
  const PFREE := 20

  ghost predicate ItemAt(m: Mem, a: int, used: bool, next: int, prev: int)
  {
    && 0 <= a && a + HDR <= |m|
    && m[a] == RT_MEMHEAP_MAGIC + (if used then 1 else 0)
    && m[a + POOL] == HEAP && m[a + NEXT] == next && m[a + PREV] == prev
  }

  /** The ring: the first block's predecessor is the tail. */
  function PrevOf(bs: seq<Block>, tail: int, i: int): int
    requires 0 <= i < |bs|
  {
    if i == 0 then tail else bs[i - 1].addr
  }

  ghost predicate Items(m: Mem, bs: seq<Block>, tail: int)
  {
    forall i :: 0 <= i < |bs| ==> ItemAt(m, bs[i].addr, bs[i].used, Next(bs, tail, i), PrevOf(bs, tail, i))
  }

  ghost predicate TailOk(m: Mem, bs: seq<Block>, start: int, tail: int)
  {
    |bs| > 0 && |m| == tail + HDR && ItemAt(m, tail, true, start, bs[|bs| - 1].addr)
  }

  ghost predicate Ring(m: Mem, bs: seq<Block>, start: int, tail: int)
  {
    HDR <= start && Tiled(bs, start, tail) && Items(m, bs, tail) && TailOk(m, bs, start, tail)
  }

  // ----- the free list in memory

  /** Nodes of the circular list; positions 0 and |fl| + 1 are the header. */
  function Node(fl: seq<int>, k: int): int
  {
    if 1 <= k <= |fl| then fl[k - 1] else FREE_HEADER
  }

  ghost predicate Link(m: Mem, x: int, y: int)
  {
    && 0 <= x && x + HDR <= |m| && 0 <= y && y + HDR <= |m|
    && m[x + NFREE] == y && m[y + PFREE] == x
  }

  ghost predicate Chain(m: Mem, fl: seq<int>)
  {
    forall k :: 0 <= k <= |fl| ==> Link(m, Node(fl, k), Node(fl, k + 1))
  }

  /** Two headers coincide or do not overlap. */
  predicate Apart(x: int, y: int)
  {
    x == y || x + HDR <= y || y + HDR <= x
  }

  /** A place where the link words of a node overlap no foreign header word. */
  ghost predicate Clear(bs: seq<Block>, tail: int, x: int)
  {
    0 <= x && x + HDR <= tail + HDR && Apart(x, tail) && forall i :: 0 <= i < |bs| ==> Apart(x, bs[i].addr)
  }

  ghost predicate Nodes(bs: seq<Block>, tail: int, fl: seq<int>)
  {
    && NoDup(fl)
    && (forall k :: 0 <= k < |fl| ==> HDR <= fl[k] && Clear(bs, tail, fl[k]))
    && (forall j, k :: 0 <= j < |fl| && 0 <= k < |fl| ==> Apart(fl[j], fl[k]))
  }

  ghost predicate Rep(m: Mem, bs: seq<Block>, fl: seq<int>, start: int, tail: int)
  {
    Ring(m, bs, start, tail) && Nodes(bs, tail, fl) && Chain(m, fl)
  }

  // ----- one store at a time

  /** A store to a link word of a clear place leaves the ring alone. */
  lemma RingUnderLink(m: Mem, bs: seq<Block>, start: int, tail: int, x: int, off: int, v: int)
    requires Ring(m, bs, start, tail) && Clear(bs, tail, x) && (off == NFREE || off == PFREE)
    requires 0 <= x && x + HDR <= |m|
    ensures Ring(m[x + off := v], bs, start, tail)
  {
    hide Spaced, ItemAt, Apart;
    forall i | 0 <= i < |bs| ensures ItemAt(m[x + off := v], bs[i].addr, bs[i].used, Next(bs, tail, i), PrevOf(bs, tail, i)) {
      ItemUnderLink(m, bs[i].addr, bs[i].used, Next(bs, tail, i), PrevOf(bs, tail, i), x, off, v);
    }
    ItemUnderLink(m, tail, true, start, bs[|bs| - 1].addr, x, off, v);
  }

  lemma ItemUnderLink(m: Mem, a: int, used: bool, next: int, prev: int, x: int, off: int, v: int)
    requires ItemAt(m, a, used, next, prev) && Apart(x, a) && (off == NFREE || off == PFREE)
    requires 0 <= x && x + HDR <= |m|
    ensures ItemAt(m[x + off := v], a, used, next, prev)
  {
  }

  /** A store to a ring word of a header apart from all nodes leaves the free list alone. */
  lemma ChainUnderItem(m: Mem, fl: seq<int>, a: int, off: int, v: int)
    requires Chain(m, fl) && 0 <= off < NFREE && 0 <= a && a + HDR <= |m|
    requires Apart(a, FREE_HEADER) && forall k :: 0 <= k < |fl| ==> Apart(fl[k], a)
    ensures Chain(m[a + off := v], fl)
  {
    var n := m[a + off := v];
    forall k | 0 <= k <= |fl| ensures Link(n, Node(fl, k), Node(fl, k + 1)) {
      assert Link(m, Node(fl, k), Node(fl, k + 1));
      assert Apart(Node(fl, k), a) && Apart(Node(fl, k + 1), a);
    }
  }

  // ----- list surgery

  /** next_free->prev_free = prev_free; prev_free->next_free = next_free. */
  function UnlinkStores(m: Mem, nx: int, px: int): Mem
    requires 0 <= nx && nx + HDR <= |m| && 0 <= px && px + HDR <= |m|
  {
    m[nx + PFREE := px][px + NFREE := nx]
  }

  lemma DropIndex(fl: seq<int>, k: int)
    requires 0 <= k < |fl|
    ensures |Drop(fl, k)| == |fl| - 1
    ensures forall j :: 0 <= j < k ==> Drop(fl, k)[j] == fl[j]
    ensures forall j :: k <= j < |fl| - 1 ==> Drop(fl, k)[j] == fl[j + 1]
  {
  }

  lemma NodeFacts(bs: seq<Block>, tail: int, fl: seq<int>, p: int, q: int)
    requires Nodes(bs, tail, fl) && 0 <= p <= |fl| && 0 <= q <= |fl|
    ensures Apart(Node(fl, p), Node(fl, q))
    ensures p != q ==> Node(fl, p) != Node(fl, q)
  {
  }

  /** Links other than the two around node k survive its removal. */
  lemma UnlinkOther(m: Mem, bs: seq<Block>, tail: int, fl: seq<int>, k: int, j: int)
    requires Chain(m, fl) && Nodes(bs, tail, fl) && 0 <= k < |fl|
    requires 0 <= j <= |fl| && j != k && j != k + 1
    requires var nx, px := Node(fl, k + 2), Node(fl, k); 0 <= nx && nx + HDR <= |m| && 0 <= px && px + HDR <= |m|
    ensures Link(UnlinkStores(m, Node(fl, k + 2), Node(fl, k)), Node(fl, j), Node(fl, j + 1))
  {
    hide Nodes, NoDup, Clear;
    assert Link(m, Node(fl, j), Node(fl, j + 1));
    var last := |fl|;
    NodeFacts(bs, tail, fl, j, k);
    NodeFacts(bs, tail, fl, if j == last then 0 else j + 1, k);
    NodeFacts(bs, tail, fl, j, if k + 1 == last then 0 else k + 2);
    NodeFacts(bs, tail, fl, if j == last then 0 else j + 1, if k + 1 == last then 0 else k + 2);
  }

  lemma UnlinkAround(m: Mem, fl: seq<int>, k: int)
    requires Chain(m, fl) && 0 <= k < |fl| && Apart(Node(fl, k), Node(fl, k + 2))
    ensures var nx, px := Node(fl, k + 2), Node(fl, k);
      && 0 <= nx && nx + HDR <= |m| && 0 <= px && px + HDR <= |m| && 0 <= fl[k] && fl[k] + HDR <= |m|
      && m[fl[k] + NFREE] == nx && m[fl[k] + PFREE] == px
      && Link(UnlinkStores(m, nx, px), px, nx)
  {
    assert Link(m, Node(fl, k), Node(fl, k + 1));
    assert Link(m, Node(fl, k + 1), Node(fl, k + 2));
  }

  lemma ChainUnlink(m: Mem, bs: seq<Block>, tail: int, fl: seq<int>, k: int)
    requires Chain(m, fl) && Nodes(bs, tail, fl) && 0 <= k < |fl|
    requires var nx, px := Node(fl, k + 2), Node(fl, k); 0 <= nx && nx + HDR <= |m| && 0 <= px && px + HDR <= |m|
    ensures Chain(UnlinkStores(m, Node(fl, k + 2), Node(fl, k)), Drop(fl, k))
  {
    hide Drop, Nodes, Link, UnlinkStores, Chain, NoDup;
    NodeFacts(bs, tail, fl, k, if k + 1 == |fl| then 0 else k + 2);
    UnlinkAround(m, fl, k);
    var n := UnlinkStores(m, Node(fl, k + 2), Node(fl, k));
    var r := Drop(fl, k);
    DropIndex(fl, k);
    forall j | 0 <= j <= |r| ensures Link(n, Node(r, j), Node(r, j + 1)) {
      DropNode(fl, k, j);
      DropNode(fl, k, j + 1);
      if j != k { UnlinkOther(m, bs, tail, fl, k, if j < k then j else j + 1); }
    }
    LinksAreChain(n, r);
  }

  lemma DropNode(fl: seq<int>, k: int, j: int)
    requires 0 <= k < |fl| && 0 <= j <= |fl|
    ensures Node(Drop(fl, k), j) == Node(fl, if j <= k then j else j + 1)
  {
  }

  lemma LinksAreChain(m: Mem, fl: seq<int>)
    requires forall k :: 0 <= k <= |fl| ==> Link(m, Node(fl, k), Node(fl, k + 1))
    ensures Chain(m, fl)
  {
  }

  /** Insert x behind the list header. */
  function PushStores(m: Mem, x: int, first: int): Mem
    requires 0 <= x && x + HDR <= |m| && 0 <= first && first + HDR <= |m|
  {
    m[x + NFREE := first][x + PFREE := FREE_HEADER][first + PFREE := x][FREE_HEADER + NFREE := x]
  }

  lemma ChainPush(m: Mem, bs: seq<Block>, tail: int, fl: seq<int>, x: int)
    requires Chain(m, fl) && Nodes(bs, tail, fl) && HDR <= x && x + HDR <= |m|
    requires forall k :: 0 <= k < |fl| ==> Apart(fl[k], x) && fl[k] != x
    ensures var first := Node(fl, 1);
      && 0 <= first && first + HDR <= |m| && m[FREE_HEADER + NFREE] == first
      && Chain(PushStores(m, x, first), [x] + fl)
  {
    hide Nodes, Chain, Link, PushStores;
    var first := Node(fl, 1);
    FirstLink(m, fl, x);
    NodeFacts(bs, tail, fl, 0, if |fl| == 0 then 0 else 1);
    var n := PushStores(m, x, first);
    var r := [x] + fl;
    assert forall j :: 1 <= j <= |fl| ==> r[j] == fl[j - 1];
    forall j | 0 <= j <= |r| ensures Link(n, Node(r, j), Node(r, j + 1)) {
      if j >= 2 {
        assert Node(r, j) == Node(fl, j - 1) && Node(r, j + 1) == Node(fl, j);
        LinkUnderPush(m, bs, tail, fl, x, j - 1);
      } else {
        PushedLinks(m, x, first);
      }
    }
    LinksAreChain(n, r);
  }

  lemma FirstLink(m: Mem, fl: seq<int>, x: int)
    requires Chain(m, fl)
    ensures var first := Node(fl, 1);
      && 0 <= first && first + HDR <= |m| && m[FREE_HEADER + NFREE] == first
  {
    assert Link(m, Node(fl, 0), Node(fl, 1));
  }

  lemma PushedLinks(m: Mem, x: int, first: int)
    requires HDR <= x && x + HDR <= |m| && 0 <= first && first + HDR <= |m|
    requires Apart(first, x) && first != x && Apart(first, FREE_HEADER)
    ensures Link(PushStores(m, x, first), FREE_HEADER, x) && Link(PushStores(m, x, first), x, first)
  {
  }

  /** The links behind the first node are not touched. */
  lemma LinkUnderPush(m: Mem, bs: seq<Block>, tail: int, fl: seq<int>, x: int, j: int)
    requires Chain(m, fl) && Nodes(bs, tail, fl) && HDR <= x && x + HDR <= |m| && 1 <= j <= |fl|
    requires forall k :: 0 <= k < |fl| ==> Apart(fl[k], x) && fl[k] != x
    requires 0 <= Node(fl, 1) && Node(fl, 1) + HDR <= |m|
    ensures Link(PushStores(m, x, Node(fl, 1)), Node(fl, j), Node(fl, j + 1))
  {
    hide Nodes, Chain;
    LinkAt(m, fl, j);
    var q := if j == |fl| then 0 else j + 1;
    NodeFacts(bs, tail, fl, j, 0);
    NodeFacts(bs, tail, fl, j, 1);
    NodeFacts(bs, tail, fl, q, 0);
    NodeFacts(bs, tail, fl, q, 1);
  }

  lemma LinkAt(m: Mem, fl: seq<int>, k: int)
    requires Chain(m, fl) && 0 <= k <= |fl|
    ensures Link(m, Node(fl, k), Node(fl, k + 1))
  {
  }

  // ----- ring surgery

  function CutStores(m: Mem, a: int, a2: int, next: int): Mem
    requires 0 <= a && a + HDR <= a2 && a2 + HDR <= next && next + HDR <= |m|
  {
    m[a2 := RT_MEMHEAP_MAGIC][a2 + POOL := HEAP][a2 + PREV := a][a2 + NEXT := next][next + PREV := a2][a + NEXT := a2]
  }

  function JoinStores(m: Mem, a: int, next: int): Mem
    requires 0 <= a && a + HDR <= |m| && 0 <= next && next + HDR <= |m|
  {
    m[a + NEXT := next][next + PREV := a]
  }

  lemma ReadItem(m: Mem, bs: seq<Block>, start: int, tail: int, i: int)
    requires Ring(m, bs, start, tail) && 0 <= i < |bs|
    ensures ItemAt(m, bs[i].addr, bs[i].used, Next(bs, tail, i), PrevOf(bs, tail, i))
    ensures bs[i].addr + HDR <= Next(bs, tail, i) <= tail && |m| == tail + HDR
    ensures HDR <= start <= bs[i].addr
    ensures i > 0 ==> ItemAt(m, bs[i - 1].addr, bs[i - 1].used, bs[i].addr, PrevOf(bs, tail, i - 1))
    ensures ItemAt(m, tail, true, start, bs[|bs| - 1].addr)
  {
    if i > 0 { assert bs[i - 1].addr + HDR <= bs[i].addr; }
    if i > 0 { assert bs[0].addr + HDR <= bs[i].addr; }
  }

  lemma ReadNext(m: Mem, bs: seq<Block>, start: int, tail: int, i: int)
    requires Ring(m, bs, start, tail) && 0 <= i < |bs|
    ensures Next(bs, tail, i) == tail <==> i + 1 == |bs|
    ensures i + 1 < |bs| ==> ItemAt(m, bs[i + 1].addr, bs[i + 1].used, Next(bs, tail, i + 1), bs[i].addr)
    ensures i + 1 < |bs| ==> bs[i + 1].addr + HDR <= Next(bs, tail, i + 1) <= tail
  {
    if i + 1 < |bs| { assert bs[i + 1].addr + HDR <= tail; }
  }

  lemma CutKeepsItem(m: Mem, a: int, a2: int, next: int, x: int, used: bool, nx: int, px: int)
    requires 0 <= a && a + HDR <= a2 && a2 + HDR <= next && next + HDR <= |m| && ItemAt(m, x, used, nx, px)
    requires x + HDR <= a || x == a || x == next || next + HDR <= x
    ensures ItemAt(CutStores(m, a, a2, next), x, used, if x == a then a2 else nx, if x == next then a2 else px)
  {
  }

  lemma JoinKeepsItem(m: Mem, a: int, next: int, x: int, used: bool, nx: int, px: int)
    requires 0 <= a && a + HDR <= |m| && 0 <= next && next + HDR <= |m| && ItemAt(m, x, used, nx, px)
    requires Apart(x, a) && Apart(x, next)
    ensures ItemAt(JoinStores(m, a, next), x, used, if x == a then next else nx, if x == next then a else px)
  {
  }

  // marking

  lemma RingMark(m: Mem, bs: seq<Block>, start: int, tail: int, i: int, v: bool)
    requires Ring(m, bs, start, tail) && 0 <= i < |bs| && 0 <= bs[i].addr < |m|
    ensures Ring(m[bs[i].addr := RT_MEMHEAP_MAGIC + (if v then 1 else 0)], Mark(bs, i, v), start, tail)
  {
    hide ItemAt, Spaced, Items;
    MarkShape(bs, tail, HDR, i, v);
    MarkItems(m, bs, start, tail, i, v);
    MarkTail(m, bs, start, tail, i, v);
  }

  lemma MarkItems(m: Mem, bs: seq<Block>, start: int, tail: int, i: int, v: bool)
    requires Ring(m, bs, start, tail) && 0 <= i < |bs| && 0 <= bs[i].addr < |m|
    ensures Items(m[bs[i].addr := RT_MEMHEAP_MAGIC + (if v then 1 else 0)], Mark(bs, i, v), tail)
  {
    hide ItemAt, Ring;
    var cs := Mark(bs, i, v);
    forall j | 0 <= j < |cs|
      ensures ItemAt(m[bs[i].addr := RT_MEMHEAP_MAGIC + (if v then 1 else 0)],
                     cs[j].addr, cs[j].used, Next(cs, tail, j), PrevOf(cs, tail, j))
    {
      MarkItem(m, bs, start, tail, i, v, j);
    }
  }

  lemma MarkItem(m: Mem, bs: seq<Block>, start: int, tail: int, i: int, v: bool, j: int)
    requires Ring(m, bs, start, tail) && 0 <= i < |bs| && 0 <= j < |bs| && 0 <= bs[i].addr < |m|
    ensures ItemAt(m[bs[i].addr := RT_MEMHEAP_MAGIC + (if v then 1 else 0)],
                   bs[j].addr, if j == i then v else bs[j].used, Next(bs, tail, j), PrevOf(bs, tail, j))
  {
    if j < i {
      assert bs[j].addr + HDR <= bs[i].addr;
    } else if i < j {
      assert bs[i].addr + HDR <= bs[j].addr;
    }
  }

  lemma MarkTail(m: Mem, bs: seq<Block>, start: int, tail: int, i: int, v: bool)
    requires Ring(m, bs, start, tail) && 0 <= i < |bs| && 0 <= bs[i].addr < |m|
    ensures ItemAt(m[bs[i].addr := RT_MEMHEAP_MAGIC + (if v then 1 else 0)], tail, true, start, bs[|bs| - 1].addr)
  {
    hide Items;
  }

  // cutting

  ghost predicate CutPre(m: Mem, bs: seq<Block>, start: int, tail: int, i: int, a2: int)
  {
    && Ring(m, bs, start, tail) && 0 <= i < |bs| && 0 <= bs[i].addr
    && bs[i].addr + HDR <= a2 && a2 + HDR <= Next(bs, tail, i) <= |m| - HDR
  }

  lemma RingCut(m: Mem, bs: seq<Block>, start: int, tail: int, i: int, a2: int)
    requires CutPre(m, bs, start, tail, i, a2)
    ensures Ring(CutStores(m, bs[i].addr, a2, Next(bs, tail, i)), Split(bs, i, a2), start, tail)
  {
    hide ItemAt, Spaced, Split, Items, CutStores;
    SplitShape(bs, tail, HDR, i, a2);
    SplitIndex(bs, i, a2);
    CutItems(m, bs, start, tail, i, a2);
    CutTail(m, bs, start, tail, i, a2);
  }

  lemma CutItems(m: Mem, bs: seq<Block>, start: int, tail: int, i: int, a2: int)
    requires CutPre(m, bs, start, tail, i, a2)
    ensures Items(CutStores(m, bs[i].addr, a2, Next(bs, tail, i)), Split(bs, i, a2), tail)
  {
    hide ItemAt, Ring, Split, CutStores;
    var n := CutStores(m, bs[i].addr, a2, Next(bs, tail, i));
    var cs := Split(bs, i, a2);
    SplitIndex(bs, i, a2);
    forall j | 0 <= j < |cs| ensures ItemAt(n, cs[j].addr, cs[j].used, Next(cs, tail, j), PrevOf(cs, tail, j)) {
      if j <= i {
        CutLow(m, bs, start, tail, i, a2, j);
      } else if j == i + 1 {
        CutMid(m, bs, start, tail, i, a2);
      } else {
        CutHigh(m, bs, start, tail, i, a2, j - 1);
      }
    }
  }

  lemma CutLow(m: Mem, bs: seq<Block>, start: int, tail: int, i: int, a2: int, j: int)
    requires CutPre(m, bs, start, tail, i, a2) && 0 <= j <= i
    ensures ItemAt(CutStores(m, bs[i].addr, a2, Next(bs, tail, i)), bs[j].addr, bs[j].used,
                   if j == i then a2 else Next(bs, tail, j), PrevOf(bs, tail, j))
  {
    hide ItemAt, CutStores;
    if j < i { assert bs[j].addr + HDR <= bs[i].addr; }
    CutKeepsItem(m, bs[i].addr, a2, Next(bs, tail, i), bs[j].addr, bs[j].used, Next(bs, tail, j), PrevOf(bs, tail, j));
  }

  lemma CutMid(m: Mem, bs: seq<Block>, start: int, tail: int, i: int, a2: int)
    requires CutPre(m, bs, start, tail, i, a2)
    ensures ItemAt(CutStores(m, bs[i].addr, a2, Next(bs, tail, i)), a2, false, Next(bs, tail, i), bs[i].addr)
  {
    hide Items;
  }

  lemma CutHigh(m: Mem, bs: seq<Block>, start: int, tail: int, i: int, a2: int, j: int)
    requires CutPre(m, bs, start, tail, i, a2) && i < j < |bs|
    ensures ItemAt(CutStores(m, bs[i].addr, a2, Next(bs, tail, i)), bs[j].addr, bs[j].used,
                   Next(bs, tail, j), if j == i + 1 then a2 else PrevOf(bs, tail, j))
  {
    hide ItemAt, CutStores;
    Ordered(bs, tail, HDR, i, j);
    if j > i + 1 { assert bs[i + 1].addr + HDR <= bs[j].addr; }
    CutKeepsItem(m, bs[i].addr, a2, Next(bs, tail, i), bs[j].addr, bs[j].used, Next(bs, tail, j), PrevOf(bs, tail, j));
  }

  lemma CutTail(m: Mem, bs: seq<Block>, start: int, tail: int, i: int, a2: int)
    requires CutPre(m, bs, start, tail, i, a2)
    ensures ItemAt(CutStores(m, bs[i].addr, a2, Next(bs, tail, i)), tail, true, start,
                   if i + 1 == |bs| then a2 else bs[|bs| - 1].addr)
    ensures |CutStores(m, bs[i].addr, a2, Next(bs, tail, i))| == |m|
  {
    hide Items;
    if i + 1 < |bs| { assert bs[i + 1].addr + HDR <= tail; }
  }

  // joining

  ghost predicate JoinPre(m: Mem, bs: seq<Block>, start: int, tail: int, i: int)
  {
    && Ring(m, bs, start, tail) && 0 <= i && i + 1 < |bs| && 0 <= bs[i].addr && bs[i].addr + HDR <= |m|
    && 0 <= Next(bs, tail, i + 1) && Next(bs, tail, i + 1) + HDR <= |m|
  }

  lemma RingJoin(m: Mem, bs: seq<Block>, start: int, tail: int, i: int)
    requires JoinPre(m, bs, start, tail, i)
    ensures Ring(JoinStores(m, bs[i].addr, Next(bs, tail, i + 1)), Join(bs, i), start, tail)
  {
    hide ItemAt, Spaced, Join, Items, JoinStores;
    JoinShape(bs, tail, HDR, i);
    JoinIndex(bs, i);
    JoinItems(m, bs, start, tail, i);
    JoinTail(m, bs, start, tail, i);
  }

  lemma JoinItems(m: Mem, bs: seq<Block>, start: int, tail: int, i: int)
    requires JoinPre(m, bs, start, tail, i)
    ensures Items(JoinStores(m, bs[i].addr, Next(bs, tail, i + 1)), Join(bs, i), tail)
  {
    hide ItemAt, Ring, Join, JoinStores;
    var n := JoinStores(m, bs[i].addr, Next(bs, tail, i + 1));
    var cs := Join(bs, i);
    JoinIndex(bs, i);
    forall j | 0 <= j < |cs| ensures ItemAt(n, cs[j].addr, cs[j].used, Next(cs, tail, j), PrevOf(cs, tail, j)) {
      if j <= i { JoinLow(m, bs, start, tail, i, j); } else { JoinHigh(m, bs, start, tail, i, j + 1); }
    }
  }

  lemma JoinLow(m: Mem, bs: seq<Block>, start: int, tail: int, i: int, j: int)
    requires JoinPre(m, bs, start, tail, i) && 0 <= j <= i
    ensures ItemAt(JoinStores(m, bs[i].addr, Next(bs, tail, i + 1)), bs[j].addr, bs[j].used,
                   if j == i then Next(bs, tail, i + 1) else Next(bs, tail, j), PrevOf(bs, tail, j))
  {
    hide ItemAt, JoinStores;
    if j < i { assert bs[j].addr + HDR <= bs[i].addr; }
    BelowJoin(bs, tail, i, j);
    JoinKeepsItem(m, bs[i].addr, Next(bs, tail, i + 1), bs[j].addr, bs[j].used, Next(bs, tail, j), PrevOf(bs, tail, j));
  }

  lemma BelowJoin(bs: seq<Block>, tail: int, i: int, j: int)
    requires Spaced(bs, tail, HDR) && 0 <= j <= i && i + 1 < |bs|
    ensures bs[j].addr + HDR <= Next(bs, tail, i + 1)
  {
    assert bs[j].addr + HDR <= bs[i + 1].addr;
  }

  lemma JoinHigh(m: Mem, bs: seq<Block>, start: int, tail: int, i: int, j: int)
    requires JoinPre(m, bs, start, tail, i) && i + 1 < j < |bs|
    ensures ItemAt(JoinStores(m, bs[i].addr, Next(bs, tail, i + 1)), bs[j].addr, bs[j].used,
                   Next(bs, tail, j), if j == i + 2 then bs[i].addr else PrevOf(bs, tail, j))
  {
    hide ItemAt, JoinStores;
    assert bs[i].addr + HDR <= bs[j].addr;
    if j > i + 2 { assert bs[i + 2].addr + HDR <= bs[j].addr; }
    JoinKeepsItem(m, bs[i].addr, Next(bs, tail, i + 1), bs[j].addr, bs[j].used, Next(bs, tail, j), PrevOf(bs, tail, j));
  }

  lemma JoinTail(m: Mem, bs: seq<Block>, start: int, tail: int, i: int)
    requires JoinPre(m, bs, start, tail, i)
    ensures ItemAt(JoinStores(m, bs[i].addr, Next(bs, tail, i + 1)), tail, true, start,
                   if i + 2 == |bs| then bs[i].addr else bs[|bs| - 1].addr)
    ensures |JoinStores(m, bs[i].addr, Next(bs, tail, i + 1))| == |m|
  {
    hide Items;
    if i + 2 < |bs| { assert bs[i + 2].addr + HDR <= tail; }
  }

  // ----- what ring surgery means for the free list

  lemma ChainUnderCut(m: Mem, bs: seq<Block>, start: int, tail: int, fl: seq<int>, i: int, a2: int)
    requires CutPre(m, bs, start, tail, i, a2) && Chain(m, fl) && Nodes(bs, tail, fl)
    requires forall k :: 0 <= k < |fl| ==> Apart(fl[k], a2)
    ensures Chain(CutStores(m, bs[i].addr, a2, Next(bs, tail, i)), fl)
  {
    hide Chain, Items, ItemAt, NoDup, Spaced;
    var a, next := bs[i].addr, Next(bs, tail, i);
    ReadItem(m, bs, start, tail, i);
    assert forall k :: 0 <= k < |fl| ==> Apart(fl[k], a) && Apart(fl[k], next);
    ChainUnderItem(m, fl, a2, 0, RT_MEMHEAP_MAGIC);
    var m1 := m[a2 := RT_MEMHEAP_MAGIC];
    ChainUnderItem(m1, fl, a2, POOL, HEAP);
    var m2 := m1[a2 + POOL := HEAP];
    ChainUnderItem(m2, fl, a2, PREV, a);
    var m3 := m2[a2 + PREV := a];
    ChainUnderItem(m3, fl, a2, NEXT, next);
    var m4 := m3[a2 + NEXT := next];
    ChainUnderItem(m4, fl, next, PREV, a2);
    ChainUnderItem(m4[next + PREV := a2], fl, a, NEXT, a2);
  }

  lemma ChainUnderJoin(m: Mem, bs: seq<Block>, start: int, tail: int, fl: seq<int>, i: int)
    requires JoinPre(m, bs, start, tail, i) && Chain(m, fl) && Nodes(bs, tail, fl)
    ensures Chain(JoinStores(m, bs[i].addr, Next(bs, tail, i + 1)), fl)
  {
    hide Chain, Items, ItemAt, NoDup, Spaced;
    var a, next := bs[i].addr, Next(bs, tail, i + 1);
    ReadItem(m, bs, start, tail, i);
    ReadItem(m, bs, start, tail, i + 1);
    assert forall k :: 0 <= k < |fl| ==> Apart(fl[k], a) && Apart(fl[k], next);
    ChainUnderItem(m, fl, a, NEXT, next);
    ChainUnderItem(m[a + NEXT := next], fl, next, PREV, a);
  }

  lemma NodesSplit(bs: seq<Block>, tail: int, fl: seq<int>, i: int, a2: int)
    requires Nodes(bs, tail, fl) && 0 <= i < |bs| && forall k :: 0 <= k < |fl| ==> Apart(fl[k], a2)
    ensures Nodes(Split(bs, i, a2), tail, fl)
  {
    hide Split;
    SplitIndex(bs, i, a2);
  }

  lemma NodesJoin(bs: seq<Block>, tail: int, fl: seq<int>, i: int)
    requires Nodes(bs, tail, fl) && 0 <= i && i + 1 < |bs|
    ensures Nodes(Join(bs, i), tail, fl)
  {
    hide Join;
    JoinIndex(bs, i);
  }

  lemma NodesDrop(bs: seq<Block>, tail: int, fl: seq<int>, k: int)
    requires Nodes(bs, tail, fl) && 0 <= k < |fl|
    ensures Nodes(bs, tail, Drop(fl, k))
  {
    hide Drop, Clear, Apart;
    DropIndex(fl, k);
  }

  lemma NodesPush(bs: seq<Block>, tail: int, fl: seq<int>, x: int)
    requires Nodes(bs, tail, fl) && HDR <= x && Clear(bs, tail, x)
    requires forall k :: 0 <= k < |fl| ==> Apart(fl[k], x) && fl[k] != x
    ensures Nodes(bs, tail, [x] + fl)
  {
    hide Clear;
    assert forall j :: 1 <= j <= |fl| ==> ([x] + fl)[j] == fl[j - 1];
  }

  lemma RingUnderUnlink(m: Mem, bs: seq<Block>, start: int, tail: int, nx: int, px: int)
    requires Ring(m, bs, start, tail) && Clear(bs, tail, nx) && Clear(bs, tail, px)
    requires 0 <= nx && nx + HDR <= |m| && 0 <= px && px + HDR <= |m|
    ensures Ring(UnlinkStores(m, nx, px), bs, start, tail)
  {
    hide Ring, Clear;
    RingUnderLink(m, bs, start, tail, nx, PFREE, px);
    RingUnderLink(m[nx + PFREE := px], bs, start, tail, px, NFREE, nx);
  }

  lemma RingUnderPush(m: Mem, bs: seq<Block>, start: int, tail: int, x: int, first: int)
    requires Ring(m, bs, start, tail) && Clear(bs, tail, x) && Clear(bs, tail, first) && Clear(bs, tail, FREE_HEADER)
    requires 0 <= x && x + HDR <= |m| && 0 <= first && first + HDR <= |m|
    ensures Ring(PushStores(m, x, first), bs, start, tail)
  {
    hide Ring, Clear;
    RingUnderLink(m, bs, start, tail, x, NFREE, first);
    var m1 := m[x + NFREE := first];
    RingUnderLink(m1, bs, start, tail, x, PFREE, FREE_HEADER);
    var m2 := m1[x + PFREE := FREE_HEADER];
    RingUnderLink(m2, bs, start, tail, first, PFREE, x);
    RingUnderLink(m2[first + PFREE := x], bs, start, tail, FREE_HEADER, NFREE, x);
  }

  /** Every position of the list, header included, is clear. */
  lemma NodeClear(m: Mem, bs: seq<Block>, start: int, tail: int, fl: seq<int>, k: int)
    requires Ring(m, bs, start, tail) && Nodes(bs, tail, fl) && 0 <= k <= |fl| + 1
    ensures Clear(bs, tail, Node(fl, k))
  {
    hide Items, NoDup;
    forall i | 0 <= i < |bs| ensures HDR <= bs[i].addr {
      if i > 0 { assert bs[0].addr + HDR <= bs[i].addr; }
    }
  }

  // ----- the steps of the operations, ring and list together

  lemma RepMark(m: Mem, bs: seq<Block>, fl: seq<int>, start: int, tail: int, i: int, v: bool)
    requires Rep(m, bs, fl, start, tail) && 0 <= i < |bs| && 0 <= bs[i].addr && bs[i].addr + HDR <= |m|
    ensures Rep(m[bs[i].addr := RT_MEMHEAP_MAGIC + (if v then 1 else 0)], Mark(bs, i, v), fl, start, tail)
  {
    hide Ring, Chain, NoDup, Apart;
    RingMark(m, bs, start, tail, i, v);
    ClearOfBlock(m, bs, fl, start, tail, i);
    ChainUnderItem(m, fl, bs[i].addr, 0, RT_MEMHEAP_MAGIC + (if v then 1 else 0));
    assert forall j :: 0 <= j < |bs| ==> Mark(bs, i, v)[j].addr == bs[j].addr;
  }

  lemma ClearOfBlock(m: Mem, bs: seq<Block>, fl: seq<int>, start: int, tail: int, i: int)
    requires Rep(m, bs, fl, start, tail) && 0 <= i < |bs|
    ensures Apart(bs[i].addr, FREE_HEADER)
    ensures forall k :: 0 <= k < |fl| ==> Apart(fl[k], bs[i].addr)
  {
    hide Chain, Items, NoDup, TailOk;
    if i > 0 { assert bs[0].addr + HDR <= bs[i].addr; }
  }

  lemma RepCut(m: Mem, bs: seq<Block>, fl: seq<int>, start: int, tail: int, i: int, a2: int)
    requires Rep(m, bs, fl, start, tail) && CutPre(m, bs, start, tail, i, a2)
    requires forall k :: 0 <= k < |fl| ==> Apart(fl[k], a2)
    ensures Rep(CutStores(m, bs[i].addr, a2, Next(bs, tail, i)), Split(bs, i, a2), fl, start, tail)
  {
    hide Ring, Chain, Nodes, Split, CutStores;
    RingCut(m, bs, start, tail, i, a2);
    ChainUnderCut(m, bs, start, tail, fl, i, a2);
    NodesSplit(bs, tail, fl, i, a2);
  }

  lemma RepJoin(m: Mem, bs: seq<Block>, fl: seq<int>, start: int, tail: int, i: int)
    requires Rep(m, bs, fl, start, tail) && JoinPre(m, bs, start, tail, i)
    ensures Rep(JoinStores(m, bs[i].addr, Next(bs, tail, i + 1)), Join(bs, i), fl, start, tail)
  {
    hide Ring, Chain, Nodes, Join, JoinStores;
    RingJoin(m, bs, start, tail, i);
    ChainUnderJoin(m, bs, start, tail, fl, i);
    NodesJoin(bs, tail, fl, i);
  }

  lemma ApartSymmetric()
    ensures forall x, y :: Apart(x, y) <==> Apart(y, x)
  {
  }

  lemma RepUnlink(m: Mem, bs: seq<Block>, fl: seq<int>, start: int, tail: int, k: int)
    requires Rep(m, bs, fl, start, tail) && 0 <= k < |fl|
    ensures var nx, px := Node(fl, k + 2), Node(fl, k);
      && 0 <= nx && nx + HDR <= |m| && 0 <= px && px + HDR <= |m| && 0 <= fl[k] && fl[k] + HDR <= |m|
      && m[fl[k] + NFREE] == nx && m[fl[k] + PFREE] == px
      && Apart(nx, fl[k]) && nx != fl[k] && Apart(px, fl[k]) && px != fl[k] && Apart(nx, px)
      && Rep(UnlinkStores(m, nx, px), bs, Drop(fl, k), start, tail)
  {
    hide Ring, Chain, Nodes, Drop, UnlinkStores, Clear, Apart;
    NodeFacts(bs, tail, fl, k, if k + 1 == |fl| then 0 else k + 2);
    NodeFacts(bs, tail, fl, k, k + 1);
    NodeFacts(bs, tail, fl, k + 1, if k + 1 == |fl| then 0 else k + 2);
    ApartSymmetric();
    UnlinkAround(m, fl, k);
    NodeClear(m, bs, start, tail, fl, k);
    NodeClear(m, bs, start, tail, fl, k + 2);
    RingUnderUnlink(m, bs, start, tail, Node(fl, k + 2), Node(fl, k));
    ChainUnlink(m, bs, tail, fl, k);
    NodesDrop(bs, tail, fl, k);
  }

  lemma RepPush(m: Mem, bs: seq<Block>, fl: seq<int>, start: int, tail: int, x: int)
    requires Rep(m, bs, fl, start, tail) && HDR <= x && x + HDR <= |m| && Clear(bs, tail, x)
    requires forall k :: 0 <= k < |fl| ==> Apart(fl[k], x) && fl[k] != x
    ensures var first := Node(fl, 1);
      && 0 <= first && first + HDR <= |m| && m[FREE_HEADER + NFREE] == first
      && Rep(PushStores(m, x, first), bs, [x] + fl, start, tail)
  {
    hide Ring, Chain, Nodes, PushStores, Clear, Apart;
    NodeClear(m, bs, start, tail, fl, 0);
    NodeClear(m, bs, start, tail, fl, 1);
    ChainPush(m, bs, tail, fl, x);
    RingUnderPush(m, bs, start, tail, x, Node(fl, 1));
    NodesPush(bs, tail, fl, x);
  }

  // ----- links between the exact list and the block headers

  /** With an exact list, a fresh header in the middle of a block overlaps no node. */
  lemma MiddleApart(bs: seq<Block>, tail: int, fl: seq<int>, i: int, a2: int)
    requires Spaced(bs, tail, HDR) && Headed(bs, fl) && 0 <= i < |bs|
    requires bs[i].addr + HDR <= a2 && a2 + HDR <= Next(bs, tail, i)
    ensures forall k :: 0 <= k < |fl| ==> Apart(fl[k], a2) && fl[k] != a2
  {
    forall k | 0 <= k < |fl| ensures Apart(fl[k], a2) && fl[k] != a2 {
      assert IsHeader(bs, fl[k]);
      var j :| 0 <= j < |bs| && bs[j].addr == fl[k];
      if j < i { assert bs[j].addr + HDR <= bs[i].addr; } else if i < j { Ordered(bs, tail, HDR, i, j); }
    }
  }

  /** Every listed address is some block's header. */
  ghost predicate Headed(bs: seq<Block>, fl: seq<int>)
  {
    forall k :: 0 <= k < |fl| ==> IsHeader(bs, fl[k])
  }

  ghost predicate IsHeader(bs: seq<Block>, a: int)
  {
    exists j :: 0 <= j < |bs| && bs[j].addr == a
  }

  lemma ListsHeaded(bs: seq<Block>, fl: seq<int>)
    requires Lists(bs, fl)
    ensures Headed(bs, fl)
  {
    forall k | 0 <= k < |fl| ensures IsHeader(bs, fl[k]) {
      assert fl[k] in fl;
      var j :| 0 <= j < |bs| && bs[j] == Block(fl[k], false);
    }
  }

  lemma HeadedSplit(bs: seq<Block>, fl: seq<int>, i: int, a2: int)
    requires Headed(bs, fl) && 0 <= i < |bs|
    ensures Headed(Split(bs, i, a2), fl)
  {
    hide Split;
    SplitIndex(bs, i, a2);
    forall k | 0 <= k < |fl| ensures IsHeader(Split(bs, i, a2), fl[k]) {
      assert IsHeader(bs, fl[k]);
      var j :| 0 <= j < |bs| && bs[j].addr == fl[k];
      assert Split(bs, i, a2)[if j <= i then j else j + 1].addr == fl[k];
    }
  }

  lemma HeadedDrop(bs: seq<Block>, fl: seq<int>, k: int)
    requires Headed(bs, fl) && 0 <= k < |fl|
    ensures Headed(bs, Drop(fl, k))
  {
    hide Drop;
    DropIndex(fl, k);
  }

  /** A block header is clear of every other header. */
  lemma HeaderClear(m: Mem, bs: seq<Block>, start: int, tail: int, i: int)
    requires Ring(m, bs, start, tail) && 0 <= i < |bs|
    ensures Clear(bs, tail, bs[i].addr) && HDR <= bs[i].addr
  {
    hide Items;
    if i > 0 { assert bs[0].addr + HDR <= bs[i].addr; }
    forall j | 0 <= j < |bs| ensures Apart(bs[i].addr, bs[j].addr) {
      if i < j { assert bs[i].addr + HDR <= bs[j].addr; } else if j < i { assert bs[j].addr + HDR <= bs[i].addr; }
    }
  }

  lemma HeadersApart(bs: seq<Block>, tail: int, fl: seq<int>, i: int)
    requires Spaced(bs, tail, HDR) && Headed(bs, fl) && 0 <= i < |bs|
    ensures forall k :: 0 <= k < |fl| ==> Apart(fl[k], bs[i].addr)
  {
    forall k | 0 <= k < |fl| ensures Apart(fl[k], bs[i].addr) {
      assert IsHeader(bs, fl[k]);
      var j :| 0 <= j < |bs| && bs[j].addr == fl[k];
      if i < j { assert bs[i].addr + HDR <= bs[j].addr; } else if j < i { assert bs[j].addr + HDR <= bs[i].addr; }
    }
  }

  lemma FreshRep(m: Mem, start: int, tail: int)
    requires HDR <= start && start + HDR <= tail && |m| == tail + HDR
    requires ItemAt(m, start, false, tail, tail) && ItemAt(m, tail, true, start, start)
    requires Link(m, FREE_HEADER, start) && Link(m, start, FREE_HEADER)
    ensures Rep(m, [Block(start, false)], [start], start, tail)
  {
  }

  lemma FreshInv(start: int, tail: int)
    requires start + HDR <= tail
    ensures Inv(Pool([Block(start, false)], [start], tail - start - HDR, 2 * HDR), start, tail)
  {
    var bs, fl := [Block(start, false)], [start];
    assert bs[0] == Block(start, false) && fl[0] == start;
    assert bs[1..] == [];
  }

  /** A store to the link words of an unlisted header leaves ring and list alone. */
  lemma RepUnderForeign(m: Mem, bs: seq<Block>, fl: seq<int>, start: int, tail: int, i: int, off: int, v: int)
    requires Rep(m, bs, fl, start, tail) && 0 <= i < |bs| && bs[i].addr !in fl && (off == NFREE || off == PFREE)
    requires 0 <= bs[i].addr && bs[i].addr + HDR <= |m|
    ensures Rep(m[bs[i].addr + off := v], bs, fl, start, tail)
  {
    hide Ring, Chain, NoDup, Apart, Clear;
    HeaderClear(m, bs, start, tail, i);
    ClearOfBlock(m, bs, fl, start, tail, i);
    RingUnderLink(m, bs, start, tail, bs[i].addr, off, v);
    ChainUnderForeign(m, fl, bs[i].addr, off, v);
  }

  lemma ChainUnderForeign(m: Mem, fl: seq<int>, x: int, off: int, v: int)
    requires Chain(m, fl) && (off == NFREE || off == PFREE) && HDR <= x && x + HDR <= |m| && x !in fl
    requires forall k :: 0 <= k < |fl| ==> Apart(fl[k], x)
    ensures Chain(m[x + off := v], fl)
  {
    var n := m[x + off := v];
    forall k | 0 <= k <= |fl| ensures Link(n, Node(fl, k), Node(fl, k + 1)) {
      assert Link(m, Node(fl, k), Node(fl, k + 1));
    }
  }

  // ----- what the stores leave alone

  /** Address c lies outside the header at a. */
  predicate Off(a: int, c: int)
  {
    !(a <= c < a + HDR)
  }

  /** A promise about the payload cells of the block list ks: they still hold what `was` holds. */
  datatype Guard = Guard(was: Mem, ks: seq<Block>)

  /** No header, in the ring or on the list, covers a payload cell of ks. */
  ghost predicate Clean(ks: seq<Block>, bs: seq<Block>, fl: seq<int>, tail: int)
  {
    forall c :: InPayload(ks, tail, HDR, c) ==>
      && HDR <= c < tail
      && (forall i :: 0 <= i < |bs| ==> Off(bs[i].addr, c))
      && (forall k :: 0 <= k < |fl| ==> Off(fl[k], c))
  }

  ghost predicate Guarded(g: Guard, m: Mem, bs: seq<Block>, fl: seq<int>, tail: int)
  {
    SamePayload(g.was, m, g.ks, tail, HDR) && Clean(g.ks, bs, fl, tail)
  }

  ghost predicate Away(ks: seq<Block>, tail: int, a: int)
  {
    forall c :: InPayload(ks, tail, HDR, c) ==> Off(a, c)
  }

  lemma GuardStart(m: Mem, bs: seq<Block>, fl: seq<int>, start: int, tail: int)
    requires Rep(m, bs, fl, start, tail) && Headed(bs, fl)
    ensures Guarded(Guard(m, bs), m, bs, fl, tail)
  {
    hide Ring, Nodes, Chain, Headed, InPayload;
    SameRefl(m, bs, tail, HDR);
    forall c | InPayload(bs, tail, HDR, c)
      ensures HDR <= c < tail
      ensures forall i :: 0 <= i < |bs| ==> Off(bs[i].addr, c)
      ensures forall k :: 0 <= k < |fl| ==> Off(fl[k], c)
    {
      PayloadPlace(m, bs, fl, start, tail, c);
      forall k | 0 <= k < |fl| ensures Off(fl[k], c) { ListedIsHeader(bs, fl, k); }
    }
  }

  lemma ListedIsHeader(bs: seq<Block>, fl: seq<int>, k: int)
    requires Headed(bs, fl) && 0 <= k < |fl|
    ensures exists j :: 0 <= j < |bs| && bs[j].addr == fl[k]
  {
    assert IsHeader(bs, fl[k]);
  }

  lemma PayloadPlace(m: Mem, bs: seq<Block>, fl: seq<int>, start: int, tail: int, c: int)
    requires Rep(m, bs, fl, start, tail) && InPayload(bs, tail, HDR, c)
    ensures HDR <= c < tail && forall i :: 0 <= i < |bs| ==> Off(bs[i].addr, c)
  {
    hide Nodes, Chain, Items;
    var j :| 0 <= j < |bs| && bs[j].used && bs[j].addr + HDR <= c < Next(bs, tail, j);
    ReadBlock(m, bs, fl, start, tail, j);
    forall i | 0 <= i < |bs| ensures Off(bs[i].addr, c) {
      if i < j { assert bs[i].addr + HDR <= bs[j].addr; } else if j < i { Ordered(bs, tail, HDR, j, i); }
    }
  }

  /** A promise about fewer cells. */
  lemma GuardLess(g: Guard, m: Mem, bs: seq<Block>, fl: seq<int>, tail: int, ks: seq<Block>)
    requires Guarded(g, m, bs, fl, tail)
    requires forall c :: InPayload(ks, tail, HDR, c) ==> InPayload(g.ks, tail, HDR, c)
    ensures Guarded(Guard(g.was, ks), m, bs, fl, tail)
  {
    hide InPayload;
  }

  lemma GuardMark(g: Guard, m: Mem, bs: seq<Block>, fl: seq<int>, tail: int, i: int, u: bool, v: int)
    requires Guarded(g, m, bs, fl, tail) && 0 <= i < |bs| && 0 <= bs[i].addr < |m|
    ensures Guarded(g, m[bs[i].addr := v], Mark(bs, i, u), fl, tail)
  {
    hide InPayload;
    assert forall c :: Off(bs[i].addr, c) ==> c != bs[i].addr;
  }

  lemma GuardCut(g: Guard, m: Mem, bs: seq<Block>, fl: seq<int>, tail: int, i: int, a2: int)
    requires Guarded(g, m, bs, fl, tail) && 0 <= i < |bs| && Away(g.ks, tail, a2)
    requires 0 <= bs[i].addr && bs[i].addr + HDR <= a2 && a2 + HDR <= Next(bs, tail, i) <= tail && |m| == tail + HDR
    ensures Guarded(g, CutStores(m, bs[i].addr, a2, Next(bs, tail, i)), Split(bs, i, a2), fl, tail)
  {
    hide InPayload, Split;
    var n := CutStores(m, bs[i].addr, a2, Next(bs, tail, i));
    SplitIndex(bs, i, a2);
    forall c | 0 <= c < |m| && InPayload(g.ks, tail, HDR, c) ensures n[c] == m[c] {
      assert Off(a2, c) && Off(bs[i].addr, c) && (i + 1 < |bs| ==> Off(bs[i + 1].addr, c));
    }
  }

  lemma GuardJoin(g: Guard, m: Mem, bs: seq<Block>, fl: seq<int>, tail: int, i: int)
    requires Guarded(g, m, bs, fl, tail) && 0 <= i && i + 1 < |bs|
    requires 0 <= bs[i].addr && bs[i].addr + HDR <= |m| && 0 <= Next(bs, tail, i + 1) && |m| == tail + HDR
    requires Next(bs, tail, i + 1) + HDR <= |m|
    ensures Guarded(g, JoinStores(m, bs[i].addr, Next(bs, tail, i + 1)), Join(bs, i), fl, tail)
  {
    hide InPayload, Join;
    var n := JoinStores(m, bs[i].addr, Next(bs, tail, i + 1));
    JoinIndex(bs, i);
    forall c | 0 <= c < |m| && InPayload(g.ks, tail, HDR, c) ensures n[c] == m[c] {
      assert Off(bs[i].addr, c) && (i + 2 < |bs| ==> Off(bs[i + 2].addr, c));
    }
  }

  lemma NodeOff(g: Guard, m: Mem, bs: seq<Block>, fl: seq<int>, tail: int, k: int, c: int)
    requires Guarded(g, m, bs, fl, tail) && InPayload(g.ks, tail, HDR, c)
    ensures Off(Node(fl, k), c)
  {
    hide InPayload;
  }

  lemma GuardUnlink(g: Guard, m: Mem, bs: seq<Block>, fl: seq<int>, tail: int, k: int)
    requires Guarded(g, m, bs, fl, tail) && 0 <= k < |fl|
    requires var nx, px := Node(fl, k + 2), Node(fl, k); 0 <= nx && nx + HDR <= |m| && 0 <= px && px + HDR <= |m|
    ensures Guarded(g, UnlinkStores(m, Node(fl, k + 2), Node(fl, k)), bs, Drop(fl, k), tail)
  {
    hide InPayload, Drop, Node;
    var n := UnlinkStores(m, Node(fl, k + 2), Node(fl, k));
    DropIndex(fl, k);
    forall c | 0 <= c < |m| && InPayload(g.ks, tail, HDR, c) ensures n[c] == m[c] {
      NodeOff(g, m, bs, fl, tail, k, c);
      NodeOff(g, m, bs, fl, tail, k + 2, c);
    }
  }

  lemma GuardPush(g: Guard, m: Mem, bs: seq<Block>, fl: seq<int>, tail: int, i: int)
    requires Guarded(g, m, bs, fl, tail) && 0 <= i < |bs|
    requires 0 <= bs[i].addr && bs[i].addr + HDR <= |m| && 0 <= Node(fl, 1) && Node(fl, 1) + HDR <= |m|
    ensures Guarded(g, PushStores(m, bs[i].addr, Node(fl, 1)), bs, [bs[i].addr] + fl, tail)
  {
    hide InPayload, Node;
    var n := PushStores(m, bs[i].addr, Node(fl, 1));
    forall c | 0 <= c < |m| && InPayload(g.ks, tail, HDR, c) ensures n[c] == m[c] {
      NodeOff(g, m, bs, fl, tail, 1, c);
      assert Off(bs[i].addr, c);
    }
  }

  lemma GuardForeign(g: Guard, m: Mem, bs: seq<Block>, fl: seq<int>, tail: int, i: int, off: int, v: int)
    requires Guarded(g, m, bs, fl, tail) && 0 <= i < |bs| && 0 <= off < HDR
    requires 0 <= bs[i].addr && bs[i].addr + HDR <= |m|
    ensures Guarded(g, m[bs[i].addr + off := v], bs, fl, tail)
  {
    hide InPayload;
    assert forall c :: Off(bs[i].addr, c) ==> c != bs[i].addr + off;
  }

  /** Cells of a free block, headers inside it included, belong to nobody. */
  lemma InsideAway(bs: seq<Block>, tail: int, i: int, a2: int)
    requires Spaced(bs, tail, HDR) && 0 <= i < |bs| && !bs[i].used
    requires bs[i].addr <= a2 && a2 + HDR <= Next(bs, tail, i)
    ensures Away(bs, tail, a2)
  {
    hide InPayload, Spaced;
    forall c | InPayload(bs, tail, HDR, c) ensures Off(a2, c) {
      if !Off(a2, c) { NotPayload(bs, tail, HDR, i, c); }
    }
  }

  /** The cells a cut block keeps were its own. */
  lemma CutLess(bs: seq<Block>, tail: int, i: int, a2: int, c: int)
    requires 0 <= i < |bs| && a2 <= Next(bs, tail, i) && InPayload(Split(bs, i, a2), tail, HDR, c)
    ensures InPayload(bs, tail, HDR, c)
  {
    hide Split;
    var cs := Split(bs, i, a2);
    SplitIndex(bs, i, a2);
    var j :| 0 <= j < |cs| && cs[j].used && cs[j].addr + HDR <= c < Next(cs, tail, j);
    var q := if j <= i then j else j - 1;
    assert bs[q] == cs[j];
  }

  /** What realloc leaves of the rest of the pool when nothing moves. */
  lemma SameInPlace(m: Mem, n: Mem, bs: seq<Block>, tail: int, i: int, len: int)
    requires SamePayload(m, n, bs, tail, HDR) && 0 <= i < |bs| && bs[i].used && 0 <= bs[i].addr
    requires 0 <= len <= Room(bs, tail, i) && Next(bs, tail, i) <= |m|
    ensures SamePayload(m, n, Mark(bs, i, false), tail, HDR)
    ensures Moved(m, n, bs[i].addr + HDR, bs[i].addr + HDR, len)
  {
    hide InPayload;
    OthersSubset(m, n, bs, tail, HDR, i);
    SliceSame(m, n, bs, tail, HDR, i, len);
  }

  lemma GuardAll(p: Pool, m: Mem, start: int, tail: int)
    requires Inv(p, start, tail) && Rep(m, p.blocks, p.free, start, tail)
    ensures Guarded(Guard(m, p.blocks), m, p.blocks, p.free, tail)
  {
    hide Rep, Guarded, Headed, Inv;
    ExactList(p, start, tail);
    GuardStart(m, p.blocks, p.free, start, tail);
  }

  lemma GuardOthers(p: Pool, m: Mem, start: int, tail: int, i: int)
    requires Inv(p, start, tail) && Rep(m, p.blocks, p.free, start, tail) && 0 <= i < |p.blocks|
    ensures Guarded(Guard(m, Mark(p.blocks, i, false)), m, p.blocks, p.free, tail)
  {
    hide Rep, Guarded, Inv, InPayload;
    GuardAll(p, m, start, tail);
    forall c | InPayload(Mark(p.blocks, i, false), tail, HDR, c) ensures InPayload(p.blocks, tail, HDR, c) {
      OtherPayload(p.blocks, tail, HDR, i, c);
    }
    GuardLess(Guard(m, p.blocks), m, p.blocks, p.free, tail, Mark(p.blocks, i, false));
  }

  lemma GrowAway(p: Pool, start: int, tail: int, i: int, newsize: int)
    requires Inv(p, start, tail) && 0 <= i < |p.blocks| && newsize > Room(p.blocks, tail, i)
    requires Grows(p, tail, i, newsize)
    ensures Away(p.blocks, tail, p.blocks[i].addr + HDR + newsize)
  {
    hide Inv, Away, Headed, Lists, Spaced;
    ExactList(p, start, tail);
    InsideAway(p.blocks, tail, i + 1, p.blocks[i].addr + HDR + newsize);
  }

  lemma GuardFront(p: Pool, m: Mem, start: int, tail: int, i: int, newsize: int)
    requires Inv(p, start, tail) && Rep(m, p.blocks, p.free, start, tail) && 0 <= i < |p.blocks|
    requires 0 <= newsize && Shrinks(p, tail, i, newsize)
    ensures var a2 := p.blocks[i].addr + HDR + newsize; var ks := Split(p.blocks, i, a2);
      Guarded(Guard(m, ks), m, p.blocks, p.free, tail) && Away(ks, tail, a2)
  {
    hide Rep, Guarded, Inv, InPayload, Split, Away, Headed, Lists, Spaced;
    var a2 := p.blocks[i].addr + HDR + newsize;
    var ks := Split(p.blocks, i, a2);
    GuardAll(p, m, start, tail);
    ExactList(p, start, tail);
    SplitShape(p.blocks, tail, HDR, i, a2);
    SplitIndex(p.blocks, i, a2);
    InsideAway(ks, tail, i + 1, a2);
    forall c | InPayload(ks, tail, HDR, c) ensures InPayload(p.blocks, tail, HDR, c) { CutLess(p.blocks, tail, i, a2, c); }
    GuardLess(Guard(m, p.blocks), m, p.blocks, p.free, tail, ks);
  }

  /** Writing payload cells of a used block leaves the ring and the list alone. */
  lemma RepPayload(m: Mem, n: Mem, p: Pool, start: int, tail: int, i: int)
    requires Inv(p, start, tail) && Rep(m, p.blocks, p.free, start, tail) && 0 <= i < |p.blocks| && p.blocks[i].used
    requires OnlyPayload(m, n, p.blocks[i].addr + HDR, Next(p.blocks, tail, i))
    ensures Rep(n, p.blocks, p.free, start, tail)
  {
    hide Inv, Headed, Nodes, Lists, Items, Chain, Spaced, OnlyPayload, TailOk;
    ExactList(p, start, tail);
    RingPayload(m, n, p.blocks, start, tail, i);
    forall k | 0 <= k <= |p.free| ensures Link(n, Node(p.free, k), Node(p.free, k + 1)) {
      LinkPayload(m, n, p, start, tail, i, k);
    }
    LinksAreChain(n, p.free);
  }

  lemma RingPayload(m: Mem, n: Mem, bs: seq<Block>, start: int, tail: int, i: int)
    requires Ring(m, bs, start, tail) && 0 <= i < |bs|
    requires OnlyPayload(m, n, bs[i].addr + HDR, Next(bs, tail, i))
    ensures Ring(n, bs, start, tail)
  {
    ReadItem(m, bs, start, tail, i);
    forall j | 0 <= j < |bs| ensures ItemAt(n, bs[j].addr, bs[j].used, Next(bs, tail, j), PrevOf(bs, tail, j)) {
      ReadItem(m, bs, start, tail, j);
      if i < j { Ordered(bs, tail, HDR, i, j); } else if j < i { assert bs[j].addr + HDR <= bs[i].addr; }
    }
  }

  lemma LinkPayload(m: Mem, n: Mem, p: Pool, start: int, tail: int, i: int, k: int)
    requires Inv(p, start, tail) && Rep(m, p.blocks, p.free, start, tail) && 0 <= i < |p.blocks| && p.blocks[i].used
    requires OnlyPayload(m, n, p.blocks[i].addr + HDR, Next(p.blocks, tail, i)) && 0 <= k <= |p.free|
    ensures Link(n, Node(p.free, k), Node(p.free, k + 1))
  {
    hide Inv, Ring, Nodes, Headed, Lists, Node;
    ReadBlock(m, p.blocks, p.free, start, tail, i);
    NodeBeside(p, start, tail, i, k);
    NodeBeside(p, start, tail, i, k + 1);
    assert Link(m, Node(p.free, k), Node(p.free, k + 1));
  }

  /** A list node lies below or above the payload of a used block. */
  lemma NodeBeside(p: Pool, start: int, tail: int, i: int, k: int)
    requires Inv(p, start, tail) && 0 <= i < |p.blocks| && p.blocks[i].used && HDR <= start
    ensures var x := Node(p.free, k); x + HDR <= p.blocks[i].addr + HDR || Next(p.blocks, tail, i) <= x
  {
    hide Headed;
    ExactList(p, start, tail);
    if 1 <= k <= |p.free| {
      ListedIsHeader(p.blocks, p.free, k - 1);
      var j :| 0 <= j < |p.blocks| && p.blocks[j].addr == p.free[k - 1];
      if i < j { Ordered(p.blocks, tail, HDR, i, j); }
    } else if i > 0 {
      assert p.blocks[0].addr + HDR <= p.blocks[i].addr;
    }
  }

  /** The sizes rt_memheap_realloc works with. */
  predicate Whole(n: nat)
  {
    n == MINIALLOC || (n % ALIGN == 0 && n < TWO32)
  }

  /** Where a moving realloc copies to: the block just given out of free block i0. */
  lemma Destination(p: Pool, b: Pool, start: int, tail: int, i: int, newsize: nat, q: Ptr) returns (i0: int, a2: int)
    requires Inv(p, start, tail) && 0 <= i < |p.blocks| && p.blocks[i].used
    requires Whole(newsize)
    requires (b, q) == Alloc(p, start, tail, newsize) && q.At?
    ensures 0 <= i0 < |p.blocks| && !p.blocks[i0].used && q.off == p.blocks[i0].addr + HDR
    ensures Given(p.blocks, b.blocks, i0, a2) && Inv(b, start, tail) && Spaced(p.blocks, tail, HDR) && Spaced(b.blocks, tail, HDR)
    ensures i0 < |b.blocks| && b.blocks[i0] == Block(p.blocks[i0].addr, true)
    ensures q.off + newsize <= Next(b.blocks, tail, i0) <= Next(p.blocks, tail, i0)
    ensures Next(p.blocks, tail, i0) <= p.blocks[i].addr || Next(p.blocks, tail, i) <= p.blocks[i0].addr
  {
    hide Inv, Headed, Lists, Spaced, Split, Drop, FirstFit, AlignUp, Fits;
    var size := Clamp(newsize);
    ClampBound(newsize);
    AllocInv(p, start, tail, newsize);
    ExactList(p, start, tail);
    ExactList(b, start, tail);
    var k := FirstFit(p.blocks, tail, size, p.free, 0);
    FirstFitFirst(p.blocks, tail, size, p.free, 0);
    ListedBlock(p, start, tail, k);
    i0 := Find(p.blocks, p.free[k]);
    a2 := p.blocks[i0].addr + size + HDR;
    FitsMeans(p.blocks, tail, size, p.free[k]);
    SplitIndex(Mark(p.blocks, i0, true), i0, a2);
    if i < i0 { Ordered(p.blocks, tail, HDR, i, i0); } else { Ordered(p.blocks, tail, HDR, i0, i); }
  }

  /** An aligned size survives the alignment of the allocation. */
  lemma ClampBound(n: nat)
    requires Whole(n)
    ensures Clamp(n) >= n
  {
    if n % ALIGN == 0 { assert (n + ALIGN - 1) % TWO32 == n + ALIGN - 1; }
  }

  lemma ClampWhole(n: nat)
    ensures Whole(Clamp(n))
  {
  }

  /** All words of one header. */
  ghost predicate Header(m: Mem, a: int, used: bool, next: int, prev: int, nfree: int, pfree: int)
  {
    ItemAt(m, a, used, next, prev) && m[a + NFREE] == nfree && m[a + PFREE] == pfree
  }

  method WriteHeader(m: array<int>, a: int, used: bool, next: int, prev: int, nfree: int, pfree: int)
    requires 0 <= a && a + HDR <= m.Length
    modifies m
    ensures Header(m[..], a, used, next, prev, nfree, pfree) && OnlyPayload(old(m[..]), m[..], a, a + HDR)
  {
    m[a], m[a + POOL] := RT_MEMHEAP_MAGIC + (if used then 1 else 0), HEAP;
    m[a + NEXT], m[a + PREV] := next, prev;
    m[a + NFREE], m[a + PFREE] := nfree, pfree;
  }

  /** The stores of rt_memheap_init: list header, first block, its links, tailer. */
  method BuildPool(m: array<int>, start: int, tail: int)
    requires HDR <= start && start + HDR <= tail && m.Length == tail + HDR
    modifies m
    ensures Rep(m[..], [Block(start, false)], [start], start, tail)
  {
    hide Rep, Header, OnlyPayload;
    WriteHeader(m, FREE_HEADER, false, NULL_PTR, NULL_PTR, FREE_HEADER, FREE_HEADER);
    ghost var m1 := m[..];
    ListHeaderAlone(m1);
    WriteHeader(m, start, false, tail, tail, m[FREE_HEADER + NFREE], FREE_HEADER);
    ghost var m2 := m[..];
    ListHeaderStays(m1, m2, start);
    m[m[FREE_HEADER + NFREE] + PFREE] := start;
    m[FREE_HEADER + NFREE] := start;
    ghost var m3 := m[..];
    WriteHeader(m, tail, true, start, start, NULL_PTR, NULL_PTR);
    PoolBuilt(m1, m2, m3, m[..], start, tail);
  }

  lemma ListHeaderAlone(m: Mem)
    requires Header(m, FREE_HEADER, false, NULL_PTR, NULL_PTR, FREE_HEADER, FREE_HEADER)
    ensures |m| >= HDR && m[FREE_HEADER + NFREE] == FREE_HEADER
  {
  }

  lemma ListHeaderStays(m1: Mem, m2: Mem, start: int)
    requires |m1| >= HDR && OnlyPayload(m1, m2, start, start + HDR) && HDR <= start
    ensures |m2| == |m1| && m2[FREE_HEADER + NFREE] == m1[FREE_HEADER + NFREE]
  {
  }

  lemma PoolBuilt(m1: Mem, m2: Mem, m3: Mem, m: Mem, start: int, tail: int)
    requires HDR <= start && start + HDR <= tail && |m| == |m2| == tail + HDR
    requires Header(m2, start, false, tail, tail, FREE_HEADER, FREE_HEADER)
    requires m3 == m2[FREE_HEADER + PFREE := start][FREE_HEADER + NFREE := start]
    requires Header(m, tail, true, start, start, NULL_PTR, NULL_PTR) && OnlyPayload(m3, m, tail, tail + HDR)
    ensures Rep(m, [Block(start, false)], [start], start, tail)
  {
    hide Rep;
    FreshRep(m, start, tail);
  }

  class RtMemHeap {
    var mem: array<int>
    var startAddr: int
    var poolSize: int
    var availableSize: int
    var maxUsedSize: int
    ghost var blocks: seq<Block>
    ghost var free: seq<int>

    ghost function Tail(): int
      reads this
    {
      startAddr + poolSize - HDR
    }

    ghost function Abs(): Pool
      reads this
    {
      Pool(blocks, free, availableSize, maxUsedSize)
    }

    /** Memory holds the ring of the ghost blocks and the circular list of the ghost free list. */
    ghost predicate Shaped()
      reads this, mem
    {
      Rep(mem[..], blocks, free, startAddr, Tail())
    }

    ghost predicate Valid()
      reads this, mem
    {
      Shaped() && Inv(Abs(), startAddr, Tail())
    }

    /** The promise g holds of the current memory. */
    ghost predicate Guards(g: Guard)
      reads this, mem
    {
      Guarded(g, mem[..], blocks, free, Tail())
    }

    /** rt_memheap_init over a pool that has room for two headers. */
    constructor Init(start: int, size: nat)
      requires start >= HDR && size < TWO32 && size / ALIGN * ALIGN >= 2 * HDR
      ensures Valid() && fresh(mem) && startAddr == start && poolSize == size / ALIGN * ALIGN
      ensures Abs() == Pool([Block(start, false)], [start], poolSize - 2 * HDR, 2 * HDR)
    {
      hide Rep, Inv;
      var pool := size / ALIGN * ALIGN;
      var available := pool - 2 * HDR;
      var m := new int[start + pool];
      BuildPool(m, start, start + available + HDR);
      mem := m;
      startAddr, poolSize, availableSize, maxUsedSize := start, pool, available, pool - available;
      blocks, free := [Block(start, false)], [start];
      FreshInv(start, start + available + HDR);
    }

    // the pieces of the operations

    method SetMagic(a: int, used: bool, ghost i: int, ghost g: Guard)
      requires Shaped() && 0 <= i < |blocks| && blocks[i].addr == a && Guards(g)
      modifies this`blocks, mem
      ensures Shaped() && blocks == Mark(old(blocks), i, used) && Guards(g)
    {
      hide Rep, Guarded;
      ReadBlock(mem[..], blocks, free, startAddr, Tail(), i);
      RepMark(mem[..], blocks, free, startAddr, Tail(), i, used);
      GuardMark(g, mem[..], blocks, free, Tail(), i, used, RT_MEMHEAP_MAGIC + (if used then 1 else 0));
      mem[a] := RT_MEMHEAP_MAGIC + (if used then 1 else 0);
      blocks := Mark(blocks, i, used);
    }

    /** Build a free block at a2 behind the header a and link it into the ring. */
    method CutRing(a: int, a2: int, ghost i: int, ghost g: Guard)
      requires Shaped() && 0 <= i < |blocks| && blocks[i].addr == a
      requires a + HDR <= a2 && a2 + HDR <= Next(blocks, Tail(), i)
      requires Headed(blocks, free) && Guards(g) && Away(g.ks, Tail(), a2)
      modifies this`blocks, mem
      ensures Shaped() && blocks == Split(old(blocks), i, a2) && Headed(blocks, free) && a2 !in free && Guards(g)
    {
      hide Rep, Split, Headed, CutPre, Guarded, Away, CutStores;
      ReadBlock(mem[..], blocks, free, startAddr, Tail(), i);
      CutAllowed(mem[..], blocks, free, startAddr, Tail(), i, a2);
      RepCut(mem[..], blocks, free, startAddr, Tail(), i, a2);
      HeadedSplit(blocks, free, i, a2);
      GuardCut(g, mem[..], blocks, free, Tail(), i, a2);
      StoreCut(a, a2);
      blocks := Split(blocks, i, a2);
    }

    /** The header stores of a cut. */
    method StoreCut(a: int, a2: int)
      requires 0 <= a && a + HDR <= a2 && a + HDR <= mem.Length && a2 + HDR <= mem[a + NEXT] <= mem.Length - HDR
      modifies mem
      ensures mem[..] == CutStores(old(mem[..]), a, a2, old(mem[a + NEXT]))
    {
      mem[a2] := RT_MEMHEAP_MAGIC;
      mem[a2 + POOL] := HEAP;
      mem[a2 + PREV] := a;
      mem[a2 + NEXT] := mem[a + NEXT];
      mem[mem[a + NEXT] + PREV] := a2;
      mem[a + NEXT] := a2;
    }

    /** Unlink the block behind a from the ring. */
    method JoinRing(a: int, ghost i: int, ghost g: Guard)
      requires Shaped() && 0 <= i && i + 1 < |blocks| && blocks[i].addr == a && Guards(g)
      modifies this`blocks, mem
      ensures Shaped() && blocks == Join(old(blocks), i) && Guards(g)
    {
      hide Rep, Join, JoinPre, Guarded;
      ReadBlock(mem[..], blocks, free, startAddr, Tail(), i);
      ReadBlock(mem[..], blocks, free, startAddr, Tail(), i + 1);
      JoinAllowed(mem[..], blocks, free, startAddr, Tail(), i);
      RepJoin(mem[..], blocks, free, startAddr, Tail(), i);
      GuardJoin(g, mem[..], blocks, free, Tail(), i);
      ghost var m := mem[..];
      var b := mem[a + NEXT];
      mem[a + NEXT] := mem[b + NEXT];
      mem[mem[b + NEXT] + PREV] := a;
      assert mem[..] == JoinStores(m, a, Next(blocks, Tail(), i + 1));
      blocks := Join(blocks, i);
    }

    /** Take the node at x off the free list. */
    method Unlink(x: int, ghost k: int, ghost g: Guard)
      requires Shaped() && 0 <= k < |free| && free[k] == x && Guards(g)
      modifies this`free, mem
      ensures Shaped() && free == Drop(old(free), k) && Guards(g)
      ensures Headed(blocks, old(free)) ==> Headed(blocks, free)
    {
      hide Rep, Drop, Headed, Guarded;
      RepUnlink(mem[..], blocks, free, startAddr, Tail(), k);
      GuardUnlink(g, mem[..], blocks, free, Tail(), k);
      if Headed(blocks, free) { HeadedDrop(blocks, free, k); }
      ghost var m := mem[..];
      mem[mem[x + NFREE] + PFREE] := mem[x + PFREE];
      mem[mem[x + PFREE] + NFREE] := mem[x + NFREE];
      assert mem[..] == UnlinkStores(m, Node(free, k + 2), Node(free, k));
      free := Drop(free, k);
    }

    /** The link words of a block just taken off the list are cleared. */
    method ClearLinks(x: int, ghost i: int, ghost g: Guard)
      requires Shaped() && 0 <= i < |blocks| && blocks[i].addr == x && x !in free && Guards(g)
      modifies mem
      ensures Shaped() && Guards(g)
    {
      hide Rep, Guarded;
      ReadBlock(mem[..], blocks, free, startAddr, Tail(), i);
      RepUnderForeign(mem[..], blocks, free, startAddr, Tail(), i, NFREE, NULL_PTR);
      GuardForeign(g, mem[..], blocks, free, Tail(), i, NFREE, NULL_PTR);
      mem[x + NFREE] := NULL_PTR;
      RepUnderForeign(mem[..], blocks, free, startAddr, Tail(), i, PFREE, NULL_PTR);
      GuardForeign(g, mem[..], blocks, free, Tail(), i, PFREE, NULL_PTR);
      mem[x + PFREE] := NULL_PTR;
    }

    /** Insert block i behind the list header. */
    method Push(x: int, ghost i: int, ghost g: Guard)
      requires Shaped() && 0 <= i < |blocks| && blocks[i].addr == x && x !in free && Headed(blocks, free) && Guards(g)
      modifies this`free, mem
      ensures Shaped() && free == [x] + old(free) && Guards(g)
    {
      hide Rep, Headed, Clear, Guarded;
      ReadBlock(mem[..], blocks, free, startAddr, Tail(), i);
      PushAllowed(mem[..], blocks, free, startAddr, Tail(), i);
      RepPush(mem[..], blocks, free, startAddr, Tail(), x);
      GuardPush(g, mem[..], blocks, free, Tail(), i);
      ghost var m := mem[..];
      mem[x + NFREE] := mem[FREE_HEADER + NFREE];
      mem[x + PFREE] := FREE_HEADER;
      mem[mem[FREE_HEADER + NFREE] + PFREE] := x;
      mem[FREE_HEADER + NFREE] := x;
      assert mem[..] == PushStores(m, x, Node(free, 1));
      free := [x] + free;
    }

    /** Hand out block i, listed at k, for size bytes. */
    method TakeBlock(a: int, freeSize: int, size: int, ghost i: int, ghost k: int)
      requires Valid() && 0 <= i < |blocks| && blocks[i] == Block(a, false)
      requires 0 <= k < |free| && free[k] == a && freeSize == Room(blocks, Tail(), i) && 0 <= size <= freeSize
      modifies this`blocks, this`free, this`availableSize, this`maxUsedSize, mem
      ensures Shaped() && Abs() == Give(old(Abs()), startAddr, Tail(), i, k, size)
      ensures SamePayload(old(mem[..]), mem[..], old(blocks), Tail(), HDR)
    {
      hide Rep, Inv, Split, Drop, Headed, Clean, SamePayload, Away;
      ghost var p, g := Abs(), Guard(mem[..], blocks);
      ExactList(p, startAddr, Tail());
      GuardStart(mem[..], blocks, free, startAddr, Tail());
      UnlistedAfterDrop(free, k);
      if freeSize >= size + HDR + MINIALLOC {
        var a2 := a + size + HDR;
        InsideUnlisted(blocks, Tail(), i, a2);
        DropKeepsOut(free, k, a2);
        InsideAway(blocks, Tail(), i, a2);
        CutRing(a, a2, i, g);
        SplitIndex(p.blocks, i, a2);
        Unlink(a, k, g);
        ClearLinks(a, i, g);
        Push(a2, i + 1, g);
        availableSize := availableSize - size - HDR;
        MarkSplit(p.blocks, i, a2);
      } else {
        availableSize := availableSize - freeSize;
        Unlink(a, k, g);
        ClearLinks(a, i, g);
      }
      if poolSize - availableSize > maxUsedSize {
        maxUsedSize := poolSize - availableSize;
      }
      SetMagic(a, true, i, g);
    }

    /** rt_memheap_alloc */
    method Alloc(request: nat) returns (p: Ptr)
      requires Valid()
      modifies this`blocks, this`free, this`availableSize, this`maxUsedSize, mem
      ensures Valid() && (Abs(), p) == MemHeapSpec.Alloc(old(Abs()), startAddr, Tail(), request)
      ensures SamePayload(old(mem[..]), mem[..], old(blocks), Tail(), HDR)
    {
      hide Rep, Inv, Give, AlignUp, Fits, SamePayload, FirstFit;
      SameRefl(mem[..], blocks, Tail(), HDR);
      AllocInv(Abs(), startAddr, Tail(), request);
      var size := AlignUp(request);
      if size < MINIALLOC {
        size := MINIALLOC;
      }
      if size >= availableSize { return Null; }
      var header, freeSize, k := SearchFree(size);
      if freeSize >= size {
        TakeBlock(header, freeSize, size, Find(blocks, header), k);
        return At(header + HDR);
      }
      return Null;
    }

    /** The search of rt_memheap_alloc along the free list. */
    method SearchFree(size: int) returns (header: int, freeSize: int, ghost k: int)
      requires Valid() && size > 0
      ensures 0 <= k <= |free| && k == FirstFit(blocks, Tail(), size, free, 0)
      ensures if freeSize < size then k == |free| else
        var i := Find(blocks, header);
        k < |free| && header == free[k] && i < |blocks| && blocks[i] == Block(header, false) && freeSize == Room(blocks, Tail(), i)
    {
      hide Rep, Inv, Fits, FirstFit;
      freeSize := 0;
      ReadList(mem[..], blocks, free, startAddr, Tail(), 0);
      header := mem[FREE_HEADER + NFREE];
      k := 0;
      while header != FREE_HEADER && freeSize < size
        invariant 0 <= k <= |free| && header == Node(free, k + 1)
        invariant FirstFit(blocks, Tail(), size, free, 0) == FirstFit(blocks, Tail(), size, free, k)
        invariant freeSize >= size ==> k < |free| && Fits(blocks, Tail(), size, free[k])
        invariant freeSize >= size ==> var i := Find(blocks, header);
          i < |blocks| && blocks[i] == Block(header, false) && freeSize == Room(blocks, Tail(), i)
        decreases |free| - k, if freeSize < size then 1 else 0
      {
        ListedBlock(Abs(), startAddr, Tail(), k);
        ReadBlock(mem[..], blocks, free, startAddr, Tail(), Find(blocks, header));
        FitsMeans(blocks, Tail(), size, header);
        FirstFitStep(blocks, Tail(), size, free, k);
        freeSize := mem[header + NEXT] - header - HDR;
        if freeSize < size {
          ReadList(mem[..], blocks, free, startAddr, Tail(), k + 1);
          header := mem[header + NFREE];
          k := k + 1;
        }
      }
      FirstFitStep(blocks, Tail(), size, free, k);
      ReadList(mem[..], blocks, free, startAddr, Tail(), k);
    }

    /** Merge block i with a free successor, in ring and list. */
    method MergeRight(header: int, ghost i: int, ghost listed: bool, ghost g: Guard)
      requires Shaped() && Loose(Abs(), startAddr, Tail(), i, listed) && blocks[i].addr == header && Guards(g)
      modifies this`blocks, this`free, this`availableSize, mem
      ensures Shaped() && Abs() == RightMerged(old(Abs()), i) && Guards(g)
    {
      hide Rep, Loose, Join, Drop, Headed, Guarded;
      LooseIndex(Abs(), startAddr, Tail(), i, listed);
      ReadBlock(mem[..], blocks, free, startAddr, Tail(), i);
      if i + 1 < |blocks| { ReadBlock(mem[..], blocks, free, startAddr, Tail(), i + 1); }
      if !IsUsed(mem[mem[header + NEXT]]) {
        LooseListed(Abs(), startAddr, Tail(), i, listed);
        availableSize := availableSize + HDR;
        SwallowNext(header, i, g);
      }
    }

    /** The free block behind block i leaves the ring and the list. */
    method SwallowNext(header: int, ghost i: int, ghost g: Guard)
      requires Shaped() && 0 <= i && i + 1 < |blocks| && blocks[i].addr == header && Guards(g)
      requires Pos(free, blocks[i + 1].addr) < |free|
      modifies this`blocks, this`free, mem
      ensures Shaped() && blocks == Join(old(blocks), i) && Guards(g)
      ensures free == Drop(old(free), Pos(old(free), old(blocks[i + 1].addr)))
    {
      hide Rep, Join, Drop, Headed, Guarded;
      ReadBlock(mem[..], blocks, free, startAddr, Tail(), i);
      var next := mem[header + NEXT];
      JoinRing(header, i, g);
      Unlink(next, Pos(free, next), g);
    }

    /** rt_memheap_free of block i. */
    method FreeBlock(block: int, ghost i: int)
      requires Valid() && 0 <= i < |blocks| && blocks[i] == Block(block, true)
      modifies this`blocks, this`free, this`availableSize, mem
      ensures Valid() && Abs() == MemHeapSpec.Free(old(Abs()), Tail(), i)
      ensures SamePayload(old(mem[..]), mem[..], Mark(old(blocks), i, false), Tail(), HDR)
    {
      hide Rep, Inv, Loose, RightMerged, LeftMerged, Headed, Clear, Clean, InPayload;
      ghost var p, g := Abs(), Guard(mem[..], Mark(blocks, i, false));
      GuardOthers(Abs(), mem[..], startAddr, Tail(), i);
      FreeInv(Abs(), startAddr, Tail(), i);
      ReleasedLoose(Abs(), startAddr, Tail(), i);
      MarkBlock(blocks, Tail(), i);
      Release(block, i, g);
      ghost var r := Abs();
      var insertHeader := MergeFreed(block, i, g);
      if insertHeader {
        RightMergedLoose(r, startAddr, Tail(), i, false);
        LooseIndex(Abs(), startAddr, Tail(), i, false);
        LoosePush(Abs(), startAddr, Tail(), i);
        Push(block, i, g);
      }
    }

    /** The block is marked free and its bytes counted. */
    method Release(block: int, ghost i: int, ghost g: Guard)
      requires Shaped() && 0 <= i < |blocks| && blocks[i].addr == block && Guards(g)
      modifies this`blocks, this`availableSize, mem
      ensures Shaped() && Abs() == Released(old(Abs()), Tail(), i) && Guards(g)
    {
      hide Rep, Guarded;
      MarkBlock(blocks, Tail(), i);
      SetMagic(block, false, i, g);
      availableSize := availableSize + RoomAt(block, i);
    }

    /** The two merges of rt_memheap_free, with the predecessor and with the successor. */
    method MergeFreed(block: int, ghost i: int, ghost g: Guard) returns (insertHeader: bool)
      requires Shaped() && Loose(Abs(), startAddr, Tail(), i, false) && blocks[i].addr == block && Guards(g)
      modifies this`blocks, this`free, this`availableSize, mem
      ensures Shaped() && Guards(g) && i < |old(blocks)|
      ensures insertHeader <==> !MergesLeft(old(Abs()), i)
      ensures Abs() == if insertHeader then RightMerged(old(Abs()), i) else RightMerged(LeftMerged(old(Abs()), i), i - 1)
    {
      hide Rep, Loose, Join, RightMerged, Guarded;
      ghost var r := Abs();
      LooseIndex(r, startAddr, Tail(), i, false);
      ReadBlock(mem[..], blocks, free, startAddr, Tail(), i);
      if i > 0 { ReadBlock(mem[..], blocks, free, startAddr, Tail(), i - 1); }
      insertHeader := IsUsed(mem[mem[block + PREV]]);
      if !insertHeader {
        availableSize := availableSize + HDR;
        LeftMergedLoose(r, startAddr, Tail(), i);
        var prev := mem[block + PREV];
        JoinRing(prev, i - 1, g);
        MergeRight(prev, i - 1, true, g);
      } else {
        MergeRight(block, i, false, g);
      }
    }

    /** MEMITEM_SIZE read from the header of block i. */
    function RoomAt(header: int, ghost i: int): (room: int)
      requires Shaped() && 0 <= i < |blocks| && blocks[i].addr == header
      reads this, mem
      ensures room == Room(blocks, Tail(), i)
    {
      ReadBlock(mem[..], blocks, free, startAddr, Tail(), i);
      mem[header + NEXT] - header - HDR
    }

    /** rt_memheap_free */
    method Free(ptr: Ptr)
      requires Valid() && Live(Abs(), ptr)
      modifies this`blocks, this`free, this`availableSize, mem
      ensures Valid() && Abs() == FreePtr(old(Abs()), Tail(), ptr)
      ensures ptr == Null ==> mem[..] == old(mem[..])
      ensures ptr != Null ==> var i := Find(old(blocks), ptr.off - HDR);
                i < |old(blocks)| && SamePayload(old(mem[..]), mem[..], Mark(old(blocks), i, false), Tail(), HDR)
    {
      hide Rep, Inv, MemHeapSpec.Free, SamePayload;
      if ptr == Null { return; }
      LiveIndex(Abs(), startAddr, Tail(), ptr);
      FreeBlock(ptr.off - HDR, Find(blocks, ptr.off - HDR));
    }

    /** Give block i the room it needs out of its free successor. */
    method GrowBlock(header: int, oldsize: int, newsize: nat, ghost i: int)
      requires Valid() && 0 <= i < |blocks| && blocks[i] == Block(header, true) && oldsize == Room(blocks, Tail(), i)
      requires newsize > oldsize && Grows(Abs(), Tail(), i, newsize)
      modifies this`blocks, this`free, this`availableSize, this`maxUsedSize, mem
      ensures Valid() && Abs() == Grow(old(Abs()), startAddr, Tail(), i, newsize)
      ensures SamePayload(old(mem[..]), mem[..], old(blocks), Tail(), HDR)
    {
      hide Rep, Inv, Split, Join, Drop, Headed, Lists, Shift, Clean, SamePayload, Away;
      ghost var p, g := Abs(), Guard(mem[..], blocks);
      GrowInv(p, startAddr, Tail(), i, newsize);
      GrowFacts(p, startAddr, Tail(), i, newsize);
      GuardAll(p, mem[..], startAddr, Tail());
      GrowAway(p, startAddr, Tail(), i, newsize);
      ReadBlock(mem[..], blocks, free, startAddr, Tail(), i);
      availableSize := availableSize - (newsize - oldsize);
      if poolSize - availableSize > maxUsedSize {
        maxUsedSize := poolSize - availableSize;
      }
      var next := mem[header + NEXT];
      Unlink(next, Pos(free, next), g);
      JoinRing(header, i, g);
      JoinIndex(p.blocks, i);
      var a2 := header + HDR + newsize;
      CutRing(header, a2, i, g);
      SplitIndex(Join(p.blocks, i), i, a2);
      Push(a2, i + 1, g);
    }

    /** Cut block i and merge the rest with a free successor. */
    method CutBlock(header: int, newsize: nat, ghost i: int)
      requires Valid() && 0 <= i < |blocks| && blocks[i] == Block(header, true)
      requires Shrinks(Abs(), Tail(), i, newsize)
      modifies this`blocks, this`free, this`availableSize, mem
      ensures Valid() && Abs() == Cut(old(Abs()), Tail(), i, newsize)
      ensures SamePayload(old(mem[..]), mem[..], Split(old(blocks), i, header + HDR + newsize), Tail(), HDR)
    {
      hide Rep, Inv, Split, Join, Drop, Headed, Loose, Clean, SamePayload, Away;
      ghost var p, g := Abs(), Guard(mem[..], Split(blocks, i, header + HDR + newsize));
      GuardFront(p, mem[..], startAddr, Tail(), i, newsize);
      CutInv(p, startAddr, Tail(), i, newsize);
      CutFacts(p, startAddr, Tail(), i, newsize);
      var a2 := header + HDR + newsize;
      CutRing(header, a2, i, g);
      SplitIndex(p.blocks, i, a2);
      MergeRest(a2, i + 1, g);
      Push(a2, i + 1, g);
      availableSize := availableSize + RoomAt(a2, i + 1);
    }

    /** The rest of a cut block, block i, swallows a free successor before it is counted and listed. */
    method MergeRest(a2: int, ghost i: int, ghost g: Guard)
      requires Shaped() && 0 <= i < |blocks| && blocks[i].addr == a2 && Guards(g)
      requires i + 1 < |blocks| && !blocks[i + 1].used ==> Pos(free, blocks[i + 1].addr) < |free|
      modifies this`blocks, this`free, this`availableSize, mem
      ensures Shaped() && Guards(g) && i < |blocks| && blocks[i] == old(blocks[i])
      ensures if i + 1 < |old(blocks)| && !old(blocks[i + 1].used)
        then blocks == Join(old(blocks), i) && free == Drop(old(free), Pos(old(free), old(blocks[i + 1].addr)))
             && availableSize == old(availableSize - Room(blocks, Tail(), i + 1))
        else blocks == old(blocks) && free == old(free) && availableSize == old(availableSize)
    {
      hide Rep, Join, Drop, Guarded;
      ReadBlock(mem[..], blocks, free, startAddr, Tail(), i);
      if i + 1 < |blocks| {
        ReadBlock(mem[..], blocks, free, startAddr, Tail(), i + 1);
        JoinIndex(blocks, i);
      }
      if !IsUsed(mem[mem[a2 + NEXT]]) {
        var freePtr := mem[a2 + NEXT];
        availableSize := availableSize - RoomAt(freePtr, i + 1);
        SwallowNext(a2, i, g);
      }
    }

    /** rt_memheap_realloc once block i is known. */
    method ResizeBlock(header: int, newsize: nat, ghost i: int) returns (q: Ptr)
      requires Valid() && 0 <= i < |blocks| && blocks[i] == Block(header, true)
      requires Whole(newsize)
      modifies this`blocks, this`free, this`availableSize, this`maxUsedSize, mem
      ensures Valid() && (Abs(), q) == Resize(old(Abs()), startAddr, Tail(), i, newsize)
      ensures SamePayload(old(mem[..]), mem[..], Mark(old(blocks), i, false), Tail(), HDR)
      ensures q != Null ==> Moved(old(mem[..]), mem[..], header + HDR, q.off, Lesser(Room(old(blocks), Tail(), i), newsize))
    {
      hide Rep, Inv, Grow, Cut, Move, SamePayload, Moved, InPayload;
      ghost var p, m := Abs(), mem[..];
      ReadBlock(mem[..], blocks, free, startAddr, Tail(), i);
      var oldsize := RoomAt(header, i);
      SameRefl(m, blocks, Tail(), HDR);
      SameInPlace(m, m, blocks, Tail(), i, Lesser(oldsize, newsize));
      if newsize > oldsize {
        q := Enlarge(header, oldsize, newsize, i);
        return;
      }
      if newsize + HDR + MINIALLOC >= oldsize { return At(header + HDR); }
      CutBlock(header, newsize, i);
      CutKeeps(m, mem[..], p.blocks, Tail(), HDR, i, header + HDR + newsize);
      return At(header + HDR);
    }

    /** The branch of rt_memheap_realloc for a larger size. */
    method Enlarge(header: int, oldsize: int, newsize: nat, ghost i: int) returns (q: Ptr)
      requires Valid() && 0 <= i < |blocks| && blocks[i] == Block(header, true)
      requires oldsize == Room(blocks, Tail(), i) && newsize > oldsize && Whole(newsize)
      modifies this`blocks, this`free, this`availableSize, this`maxUsedSize, mem
      ensures Valid()
      ensures (Abs(), q) == if Grows(old(Abs()), Tail(), i, newsize)
        then (Grow(old(Abs()), startAddr, Tail(), i, newsize), At(header + HDR))
        else Move(old(Abs()), startAddr, Tail(), i, newsize)
      ensures SamePayload(old(mem[..]), mem[..], Mark(old(blocks), i, false), Tail(), HDR)
      ensures q != Null ==> Moved(old(mem[..]), mem[..], header + HDR, q.off, oldsize)
    {
      hide Rep, Inv, Grow, Move, SamePayload, Moved, InPayload;
      ghost var p, m := Abs(), mem[..];
      ReadBlock(m, blocks, free, startAddr, Tail(), i);
      if i + 1 < |blocks| { ReadBlock(m, blocks, free, startAddr, Tail(), i + 1); }
      var next := mem[header + NEXT];
      if !IsUsed(mem[next]) {
        var nextsize := mem[next + NEXT] - next - HDR;
        if nextsize + oldsize > newsize + MINIALLOC {
          GrowBlock(header, oldsize, newsize, i);
          SameInPlace(m, mem[..], p.blocks, Tail(), i, oldsize);
          return At(header + HDR);
        }
      }
      q := MoveBlock(header, oldsize, newsize, i);
    }

    /** When the block cannot grow where it is, it moves. */
    method MoveBlock(header: int, oldsize: int, newsize: nat, ghost i: int) returns (q: Ptr)
      requires Valid() && 0 <= i < |blocks| && blocks[i] == Block(header, true)
      requires oldsize == Room(blocks, Tail(), i) && newsize > oldsize && Whole(newsize)
      modifies this`blocks, this`free, this`availableSize, this`maxUsedSize, mem
      ensures Valid() && (Abs(), q) == Move(old(Abs()), startAddr, Tail(), i, newsize)
      ensures SamePayload(old(mem[..]), mem[..], Mark(old(blocks), i, false), Tail(), HDR)
      ensures q != Null ==> Moved(old(mem[..]), mem[..], header + HDR, q.off, oldsize)
    {
      hide Rep, Inv, MemHeapSpec.Alloc, MemHeapSpec.Free, SamePayload, Moved, InPayload, Find;
      ghost var p, m := Abs(), mem[..];
      q := Alloc(newsize);
      OthersSubset(m, mem[..], p.blocks, Tail(), HDR, i);
      MoveInv(p, startAddr, Tail(), i, newsize);
      if q != Null {
        MoveAndFree(header, q, oldsize, newsize, p, m, i);
      }
    }

    /** The moving branch of rt_memheap_realloc: copy into the fresh block q, then free the old one. */
    method MoveAndFree(header: int, q: Ptr, oldsize: int, newsize: nat, ghost p: Pool, ghost m: Mem, ghost i: int)
      requires Valid() && Inv(p, startAddr, Tail()) && Rep(m, p.blocks, p.free, startAddr, Tail()) && q.At?
      requires 0 <= i < |p.blocks| && p.blocks[i] == Block(header, true)
      requires oldsize == Room(p.blocks, Tail(), i) && newsize > oldsize
      requires Whole(newsize)
      requires (Abs(), q) == MemHeapSpec.Alloc(p, startAddr, Tail(), newsize)
      requires SamePayload(m, mem[..], p.blocks, Tail(), HDR)
      modifies this`blocks, this`free, this`availableSize, mem
      ensures Valid()
      ensures var k := Find(old(blocks), header); k < |old(blocks)| && Abs() == MemHeapSpec.Free(old(Abs()), Tail(), k)
      ensures SamePayload(m, mem[..], Mark(p.blocks, i, false), Tail(), HDR)
      ensures Moved(m, mem[..], header + HDR, q.off, oldsize)
    {
      hide Rep, Inv, MemHeapSpec.Alloc, MemHeapSpec.Free, SamePayload, Moved, InPayload, OnlyPayload, Given, Find;
      ghost var b, n := Abs(), mem[..];
      ghost var i0, a2 := Destination(p, b, startAddr, Tail(), i, newsize, q);
      ReadBlock(m, p.blocks, p.free, startAddr, Tail(), i);
      ReadBlock(m, p.blocks, p.free, startAddr, Tail(), i0);
      ReadBlock(n, blocks, free, startAddr, Tail(), i0);
      FillBlock(header + HDR, q.off, oldsize, i0);
      ghost var o := mem[..];
      MoveInv(p, startAddr, Tail(), i, newsize);
      FreeBlock(header, Find(blocks, header));
      MoveKeeps(m, n, o, mem[..], p.blocks, b.blocks, Tail(), HDR, i, i0, Find(b.blocks, header), a2, oldsize);
    }

    /** Copy into the payload of used block i. */
    method FillBlock(src: int, dst: int, len: int, ghost i: int)
      requires Valid() && 0 <= i < |blocks| && blocks[i].used && dst == blocks[i].addr + HDR
      requires 0 <= len && 0 <= src && src + len <= mem.Length && dst + len <= Next(blocks, Tail(), i)
      requires src + len <= dst || dst + len <= src
      modifies mem
      ensures Valid() && Abs() == old(Abs())
      ensures Moved(old(mem[..]), mem[..], src, dst, len)
      ensures OnlyPayload(old(mem[..]), mem[..], dst, dst + len)
    {
      hide Rep, Inv, Moved, OnlyPayload;
      ghost var n := mem[..];
      ReadBlock(n, blocks, free, startAddr, Tail(), i);
      CopyBytes(mem, src, dst, len);
      OnlyPart(n, mem[..], dst, dst + len, Next(blocks, Tail(), i));
      RepPayload(n, mem[..], Abs(), startAddr, Tail(), i);
    }

    /** rt_memheap_realloc, for requests whose size arithmetic does not wrap. */
    method Realloc(ptr: Ptr, request: nat) returns (q: Ptr)
      requires Valid() && Live(Abs(), ptr) && request <= TWO32 - 2 * HDR - 2 * MINIALLOC
      modifies this`blocks, this`free, this`availableSize, this`maxUsedSize, mem
      ensures Valid() && (Abs(), q) == MemHeapSpec.Realloc(old(Abs()), startAddr, Tail(), ptr, request)
      ensures ptr == Null ==> SamePayload(old(mem[..]), mem[..], old(blocks), Tail(), HDR)
      ensures ptr != Null ==> var i := Find(old(blocks), ptr.off - HDR);
                i < |old(blocks)| && SamePayload(old(mem[..]), mem[..], Mark(old(blocks), i, false), Tail(), HDR)
                && (q != Null ==> Moved(old(mem[..]), mem[..], ptr.off, q.off,
                                        Lesser(Room(old(blocks), Tail(), i), Clamp(request))))
    {
      hide Rep, Inv, Resize, MemHeapSpec.Alloc, AlignUp, FreePtr, SamePayload, Moved;
      ClampWhole(request);
      SameRefl(mem[..], blocks, Tail(), HDR);
      if request == 0 {
        Free(ptr);
        return Null;
      }
      var newsize := AlignUp(request);
      if newsize < MINIALLOC {
        newsize := MINIALLOC;
      }
      if ptr == Null {
        q := Alloc(newsize);
        return;
      }
      LiveIndex(Abs(), startAddr, Tail(), ptr);
      q := ResizeBlock(ptr.off - HDR, newsize, Find(blocks, ptr.off - HDR));
    }
  }

  lemma MarkBlock(bs: seq<Block>, tail: int, i: int)
    requires 0 <= i < |bs|
    ensures |Mark(bs, i, false)| == |bs| && Mark(bs, i, false)[i] == Block(bs[i].addr, false)
    ensures Room(Mark(bs, i, false), tail, i) == Room(bs, tail, i)
  {
  }

  lemma GrowFacts(p: Pool, start: int, tail: int, i: int, newsize: int)
    requires Inv(p, start, tail) && 0 <= i < |p.blocks| && p.blocks[i].used
    requires newsize > Room(p.blocks, tail, i) && Grows(p, tail, i, newsize)
    ensures var next := p.blocks[i + 1].addr; var k := Pos(p.free, next);
      var a2 := p.blocks[i].addr + HDR + newsize;
      && Next(p.blocks, tail, i) == next
      && k < |p.free| && Without(p.free, next) == Drop(p.free, k)
      && Headed(Join(p.blocks, i), Drop(p.free, k))
      && Split(Join(p.blocks, i), i, a2) == Shift(p.blocks, i + 1, a2)
      && a2 + HDR <= Next(Join(p.blocks, i), tail, i)
      && Room(p.blocks, tail, i) >= 0
  {
    hide Counted, Settled, Headed, Split, Join, Shift, Drop, NoDup;
    var b := p.blocks[i + 1];
    assert b == Block(b.addr, false) && b in p.blocks;
    JoinLists(p.blocks, tail, p.free, i);
    ListsHeaded(Join(p.blocks, i), Without(p.free, b.addr));
    JoinIndex(p.blocks, i);
    JoinSplit(p.blocks, i, p.blocks[i].addr + HDR + newsize);
  }

  lemma JoinSplit(bs: seq<Block>, i: int, a2: int)
    requires 0 <= i && i + 1 < |bs| && !bs[i + 1].used
    ensures i < |Join(bs, i)| && Split(Join(bs, i), i, a2) == Shift(bs, i + 1, a2)
  {
  }

  lemma CutFacts(p: Pool, start: int, tail: int, i: int, newsize: int)
    requires Inv(p, start, tail) && 0 <= i < |p.blocks| && p.blocks[i].used
    requires 0 <= newsize && Shrinks(p, tail, i, newsize)
    ensures Headed(p.blocks, p.free)
    ensures var a2 := p.blocks[i].addr + HDR + newsize; var bs := Split(p.blocks, i, a2);
      && i + 1 < |bs| && (i + 2 < |bs| && !bs[i + 2].used ==> Pos(p.free, bs[i + 2].addr) < |p.free|)
      && (i + 2 < |bs| && !bs[i + 2].used ==>
            var k := Pos(p.free, bs[i + 2].addr); Headed(Join(bs, i + 1), Drop(p.free, k)) && a2 !in Drop(p.free, k))
  {
    hide Counted, Settled, Headed, Split, Loose, RightMerged, Spaced, Join, Drop;
    var a2 := p.blocks[i].addr + HDR + newsize;
    var h := Halved(p, tail, i, newsize);
    ListsHeaded(p.blocks, p.free);
    SplitIndex(p.blocks, i, a2);
    HalvedLoose(p, start, tail, i, newsize);
    if i + 2 < |h.blocks| && !h.blocks[i + 2].used {
      LooseListed(h, start, tail, i + 1, false);
      RightMergedLoose(h, start, tail, i + 1, false);
      MergedIs(h, i + 1);
      LoosePush(RightMerged(h, i + 1), start, tail, i + 1);
    }
  }

  lemma MergedIs(p: Pool, i: int)
    requires 0 <= i && i + 1 < |p.blocks| && !p.blocks[i + 1].used && Pos(p.free, p.blocks[i + 1].addr) < |p.free|
    ensures RightMerged(p, i).blocks == Join(p.blocks, i) && i < |Join(p.blocks, i)|
    ensures Join(p.blocks, i)[i] == p.blocks[i]
    ensures RightMerged(p, i).free == Drop(p.free, Pos(p.free, p.blocks[i + 1].addr))
  {
  }

  /** RT_MEMHEAP_IS_USED: the low bit of the magic word. */
  predicate IsUsed(magic: int)
  {
    magic % 2 == 1
  }

  lemma LooseIndex(p: Pool, start: int, tail: int, i: int, listed: bool)
    requires Loose(p, start, tail, i, listed)
    ensures 0 <= i < |p.blocks| && !p.blocks[i].used
  {
  }

  /** A free successor is on the list. */
  lemma LooseListed(p: Pool, start: int, tail: int, i: int, listed: bool)
    requires Loose(p, start, tail, i, listed) && i + 1 < |p.blocks| && !p.blocks[i + 1].used
    ensures Pos(p.free, p.blocks[i + 1].addr) < |p.free|
  {
    hide Counted;
    var b := p.blocks[i + 1];
    assert p.blocks[i].addr + HDR <= b.addr;
    assert b == Block(b.addr, false) && b in p.blocks;
    assert b.addr in (if listed then p.free else [p.blocks[i].addr] + p.free);
  }

  /** A block that is not yet listed can be pushed. */
  lemma LoosePush(p: Pool, start: int, tail: int, i: int)
    requires Loose(p, start, tail, i, false)
    ensures p.blocks[i].addr !in p.free && Headed(p.blocks, p.free)
  {
    hide Counted, Spaced;
    var fl := [p.blocks[i].addr] + p.free;
    ListsHeaded(p.blocks, fl);
    forall k | 0 <= k < |p.free| ensures p.free[k] != fl[0] && IsHeader(p.blocks, p.free[k]) {
      assert p.free[k] == fl[k + 1];
    }
  }

  lemma ExactList(p: Pool, start: int, tail: int)
    requires Inv(p, start, tail)
    ensures Spaced(p.blocks, tail, HDR) && Lists(p.blocks, p.free) && Headed(p.blocks, p.free)
  {
    hide Headed;
    ListsHeaded(p.blocks, p.free);
  }

  lemma UnlistedAfterDrop(fl: seq<int>, k: int)
    requires NoDup(fl) && 0 <= k < |fl|
    ensures fl[k] !in Drop(fl, k)
  {
    hide Drop;
    assert fl[k] in fl;
    DropMembers(fl, k);
  }

  lemma DropKeepsOut(fl: seq<int>, k: int, a: int)
    requires NoDup(fl) && 0 <= k < |fl| && a !in fl
    ensures a !in Drop(fl, k)
  {
    hide Drop;
    DropMembers(fl, k);
  }

  lemma MarkSplit(bs: seq<Block>, i: int, a2: int)
    requires 0 <= i < |bs|
    ensures |Split(bs, i, a2)| == |bs| + 1
    ensures Mark(Split(bs, i, a2), i, true) == Split(Mark(bs, i, true), i, a2)
  {
  }

  lemma FirstFitStep(bs: seq<Block>, tail: int, size: int, fl: seq<int>, k: int)
    requires 0 <= k <= |fl|
    ensures FirstFit(bs, tail, size, fl, k)
         == if k == |fl| || Fits(bs, tail, size, fl[k]) then k else FirstFit(bs, tail, size, fl, k + 1)
  {
  }

  lemma FitsMeans(bs: seq<Block>, tail: int, size: int, a: int)
    requires Find(bs, a) < |bs|
    ensures Fits(bs, tail, size, a) <==> Room(bs, tail, Find(bs, a)) >= size
  {
  }

  /** Following next_free from node k of the list. */
  lemma ReadList(m: Mem, bs: seq<Block>, fl: seq<int>, start: int, tail: int, k: int)
    requires Rep(m, bs, fl, start, tail) && 0 <= k <= |fl|
    ensures 0 <= Node(fl, k) && Node(fl, k) + HDR <= |m| && m[Node(fl, k) + NFREE] == Node(fl, k + 1)
    ensures Node(fl, k + 1) == FREE_HEADER <==> k == |fl|
  {
    hide Ring, Clear;
    assert Link(m, Node(fl, k), Node(fl, k + 1));
  }

  lemma ReadBlock(m: Mem, bs: seq<Block>, fl: seq<int>, start: int, tail: int, i: int)
    requires Rep(m, bs, fl, start, tail) && 0 <= i < |bs|
    ensures ItemAt(m, bs[i].addr, bs[i].used, Next(bs, tail, i), PrevOf(bs, tail, i))
    ensures bs[i].addr + HDR <= Next(bs, tail, i) <= tail && |m| == tail + HDR
    ensures HDR <= start <= bs[i].addr
    ensures Next(bs, tail, i) == tail <==> i + 1 == |bs|
    ensures ItemAt(m, tail, true, start, bs[|bs| - 1].addr)
    ensures Spaced(bs, tail, HDR)
  {
    hide Items, Chain, Nodes, TailOk, Spaced, ItemAt;
    ReadItem(m, bs, start, tail, i);
    ReadNext(m, bs, start, tail, i);
  }

  lemma CutAllowed(m: Mem, bs: seq<Block>, fl: seq<int>, start: int, tail: int, i: int, a2: int)
    requires Rep(m, bs, fl, start, tail) && 0 <= i < |bs| && Headed(bs, fl)
    requires bs[i].addr + HDR <= a2 && a2 + HDR <= Next(bs, tail, i)
    ensures CutPre(m, bs, start, tail, i, a2)
    ensures forall k :: 0 <= k < |fl| ==> Apart(fl[k], a2) && fl[k] != a2
  {
    hide Items, Chain, Nodes, TailOk, Spaced, Headed, Apart;
    ReadBlock(m, bs, fl, start, tail, i);
    MiddleApart(bs, tail, fl, i, a2);
  }

  lemma JoinAllowed(m: Mem, bs: seq<Block>, fl: seq<int>, start: int, tail: int, i: int)
    requires Rep(m, bs, fl, start, tail) && 0 <= i && i + 1 < |bs|
    ensures JoinPre(m, bs, start, tail, i)
    ensures bs[i].addr + HDR <= bs[i + 1].addr
  {
    hide Items, Chain, Nodes, TailOk, Spaced;
    ReadBlock(m, bs, fl, start, tail, i);
    ReadBlock(m, bs, fl, start, tail, i + 1);
  }

  lemma PushAllowed(m: Mem, bs: seq<Block>, fl: seq<int>, start: int, tail: int, i: int)
    requires Rep(m, bs, fl, start, tail) && 0 <= i < |bs| && bs[i].addr !in fl && Headed(bs, fl)
    ensures HDR <= bs[i].addr && bs[i].addr + HDR <= |m| && Clear(bs, tail, bs[i].addr)
    ensures forall k :: 0 <= k < |fl| ==> Apart(fl[k], bs[i].addr) && fl[k] != bs[i].addr
  {
    hide Items, Chain, Nodes, TailOk, Spaced, Headed, Apart, Clear;
    ReadBlock(m, bs, fl, start, tail, i);
    HeaderClear(m, bs, start, tail, i);
    HeadersApart(bs, tail, fl, i);
  }
}
