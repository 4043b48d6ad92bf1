/** Block lists that tile an address range: the shape shared by the two heaps
    whose headers sit in the memory they manage (mem.c, memheap.c). */
module Tiling {

  /** A block runs from its header address up to the next header. */
  datatype Block = Block(addr: int, used: bool)

  function Next(bs: seq<Block>, end: int, i: int): int
    requires 0 <= i < |bs|
  {
    if i + 1 < |bs| then bs[i + 1].addr else end
  }

  function Prev(bs: seq<Block>, i: int): int
    requires 0 <= i < |bs|
  {
    if i == 0 then bs[0].addr else bs[i - 1].addr
  }

  /** Headers of hdr bytes never overlap and stay below end. */
  ghost predicate Spaced(bs: seq<Block>, end: int, hdr: int)
  {
    && 0 < hdr
    && (forall i, j :: 0 <= i < j < |bs| ==> bs[i].addr + hdr <= bs[j].addr)
    && (forall i :: 0 <= i < |bs| ==> bs[i].addr + hdr <= end)
  }

  /** No two neighbouring blocks are both free. */
  ghost predicate Settled(bs: seq<Block>)
  {
    forall i :: 0 < i < |bs| ==> bs[i - 1].used || bs[i].used
  }

  /** Total length, headers included, of the blocks whose flag is u. */
  function Bytes(bs: seq<Block>, end: int, u: bool): int
  {
    if bs == [] then 0
    else (if bs[0].used == u then Next(bs, end, 0) - bs[0].addr else 0) + Bytes(bs[1..], end, u)
  }

  function Count(bs: seq<Block>, u: bool): nat
  {
    if bs == [] then 0 else (if bs[0].used == u then 1 else 0) + Count(bs[1..], u)
  }

  // ----- the three edits every heap operation is made of

  function Mark(bs: seq<Block>, i: int, u: bool): seq<Block>
    requires 0 <= i < |bs|
  {
    bs[i := Block(bs[i].addr, u)]
  }

  /** Cut block i at address a; the upper part becomes a free block. */
  function Split(bs: seq<Block>, i: int, a: int): seq<Block>
    requires 0 <= i < |bs|
  {
    bs[..i + 1] + [Block(a, false)] + bs[i + 1..]
  }

  /** Block i swallows its successor. */
  function Join(bs: seq<Block>, i: int): seq<Block>
    requires 0 <= i && i + 1 < |bs|
  {
    bs[..i + 1] + bs[i + 2..]
  }

  /** Block i starts at a instead; its predecessor takes up or gives up the difference. */
  function Shift(bs: seq<Block>, i: int, a: int): seq<Block>
    requires 0 <= i < |bs|
  {
    bs[i := Block(a, bs[i].used)]
  }

  // ----- conservation

  /** Used and free bytes always add up to the whole range. */
  lemma {:induction false} BytesConserved(bs: seq<Block>, end: int)
    requires bs != []
    ensures Bytes(bs, end, true) + Bytes(bs, end, false) == end - bs[0].addr
  {
    if |bs| > 1 { BytesConserved(bs[1..], end); }
  }

  lemma {:induction false} BytesNonNegative(bs: seq<Block>, end: int, hdr: int, u: bool)
    requires Spaced(bs, end, hdr)
    ensures Bytes(bs, end, u) >= hdr * Count(bs, u)
  {
    if bs != [] {
      BytesNonNegative(bs[1..], end, hdr, u);
      assert Next(bs, end, 0) - bs[0].addr >= hdr;
      if bs[0].used == u {
        assert hdr * (1 + Count(bs[1..], u)) == hdr + hdr * Count(bs[1..], u);
      }
    }
  }

  lemma BytesStep(bs: seq<Block>, end: int, u: bool)
    requires bs != []
    ensures Bytes(bs, end, u) == (if bs[0].used == u then Next(bs, end, 0) - bs[0].addr else 0) + Bytes(bs[1..], end, u)
    ensures Count(bs, u) == (if bs[0].used == u then 1 else 0) + Count(bs[1..], u)
  {
  }

  lemma {:induction false} MarkBytes(bs: seq<Block>, end: int, i: int, v: bool, u: bool)
    requires 0 <= i < |bs|
    ensures Bytes(Mark(bs, i, v), end, u)
         == Bytes(bs, end, u) - (if bs[i].used == u then Next(bs, end, i) - bs[i].addr else 0)
                              + (if v == u then Next(bs, end, i) - bs[i].addr else 0)
    ensures Count(Mark(bs, i, v), u)
         == Count(bs, u) - (if bs[i].used == u then 1 else 0) + (if v == u then 1 else 0)
  {
    hide Bytes, Count;
    BytesStep(bs, end, u);
    BytesStep(Mark(bs, i, v), end, u);
    if i == 0 {
      assert Mark(bs, i, v)[1..] == bs[1..];
    } else {
      MarkBytes(bs[1..], end, i - 1, v, u);
      assert Mark(bs, i, v)[1..] == Mark(bs[1..], i - 1, v);
    }
  }

  lemma {:induction false} SplitBytes(bs: seq<Block>, end: int, i: int, a: int, u: bool)
    requires 0 <= i < |bs|
    ensures Bytes(Split(bs, i, a), end, u)
         == Bytes(bs, end, u) - (if bs[i].used == u then Next(bs, end, i) - a else 0)
                              + (if !u then Next(bs, end, i) - a else 0)
    ensures Count(Split(bs, i, a), u) == Count(bs, u) + (if !u then 1 else 0)
  {
    hide Bytes, Count;
    BytesStep(bs, end, u);
    BytesStep(Split(bs, i, a), end, u);
    if i == 0 {
      BytesStep([Block(a, false)] + bs[1..], end, u);
      assert Split(bs, i, a)[1..] == [Block(a, false)] + bs[1..];
      assert ([Block(a, false)] + bs[1..])[1..] == bs[1..];
    } else {
      SplitBytes(bs[1..], end, i - 1, a, u);
      assert Split(bs, i, a)[1..] == Split(bs[1..], i - 1, a);
    }
  }

  lemma {:induction false} JoinBytes(bs: seq<Block>, end: int, i: int, u: bool)
    requires 0 <= i && i + 1 < |bs| && bs[i].used == bs[i + 1].used
    ensures Bytes(Join(bs, i), end, u) == Bytes(bs, end, u)
    ensures Count(Join(bs, i), u) == Count(bs, u) - (if bs[i].used == u then 1 else 0)
  {
    if i == 0 {
      assert Join(bs, i)[1..] == bs[2..] == bs[1..][1..];
    } else {
      JoinBytes(bs[1..], end, i - 1, u);
      assert Join(bs, i)[1..] == Join(bs[1..], i - 1);
    }
  }

  lemma {:induction false} ShiftBytes(bs: seq<Block>, end: int, i: int, a: int, u: bool)
    requires 0 < i < |bs|
    ensures Bytes(Shift(bs, i, a), end, u)
         == Bytes(bs, end, u) + (if bs[i - 1].used == u then a - bs[i].addr else 0)
                              - (if bs[i].used == u then a - bs[i].addr else 0)
    ensures Count(Shift(bs, i, a), u) == Count(bs, u)
  {
    var cs := Shift(bs, i, a);
    if i == 1 {
      assert cs[1..][1..] == bs[1..][1..];
    } else {
      ShiftBytes(bs[1..], end, i - 1, a, u);
      assert cs[1..] == Shift(bs[1..], i - 1, a);
    }
  }

  // ----- geometry

  lemma ShiftShape(bs: seq<Block>, end: int, hdr: int, i: int, a: int)
    requires Spaced(bs, end, hdr) && 0 < i < |bs|
    requires bs[i - 1].addr + hdr <= a <= Next(bs, end, i) - hdr
    ensures Spaced(Shift(bs, i, a), end, hdr)
    ensures Settled(bs) ==> Settled(Shift(bs, i, a))
  {
    var cs := Shift(bs, i, a);
    forall p, q | 0 <= p < q < |cs| ensures cs[p].addr + hdr <= cs[q].addr {
      if q == i && p < i - 1 {
        assert bs[p].addr + hdr <= bs[i - 1].addr;
      } else if p == i && q > i + 1 {
        assert bs[i + 1].addr + hdr <= bs[q].addr;
      }
    }
  }

  /** Index of the block at address a, |bs| when there is none. */
  function Find(bs: seq<Block>, a: int): (i: int)
    ensures 0 <= i <= |bs|
    ensures i < |bs| ==> bs[i].addr == a
    ensures i == |bs| ==> forall j :: 0 <= j < |bs| ==> bs[j].addr != a
  {
    if bs == [] then 0 else if bs[0].addr == a then 0 else 1 + Find(bs[1..], a)
  }

  lemma FindUnique(bs: seq<Block>, end: int, hdr: int, i: int)
    requires Spaced(bs, end, hdr) && 0 <= i < |bs|
    ensures Find(bs, bs[i].addr) == i
  {
  }

  lemma SplitIndex(bs: seq<Block>, i: int, a: int)
    requires 0 <= i < |bs|
    ensures var cs := Split(bs, i, a);
      && |cs| == |bs| + 1 && cs[i + 1] == Block(a, false)
      && (forall k :: 0 <= k <= i ==> cs[k] == bs[k])
      && (forall k :: i + 1 < k < |cs| ==> cs[k] == bs[k - 1])
  {
  }

  lemma JoinIndex(bs: seq<Block>, i: int)
    requires 0 <= i && i + 1 < |bs|
    ensures var cs := Join(bs, i);
      && |cs| == |bs| - 1
      && (forall k :: 0 <= k <= i ==> cs[k] == bs[k])
      && (forall k :: i < k < |cs| ==> cs[k] == bs[k + 1])
  {
  }

  /** Blocks do not overlap: an earlier block ends where a later one starts, or before. */
  lemma Ordered(bs: seq<Block>, end: int, hdr: int, i: int, j: int)
    requires Spaced(bs, end, hdr) && 0 <= i < j < |bs|
    ensures Next(bs, end, i) <= bs[j].addr
  {
    if i + 1 < j { assert bs[i + 1].addr + hdr <= bs[j].addr; }
  }

  lemma MarkShape(bs: seq<Block>, end: int, hdr: int, i: int, v: bool)
    requires Spaced(bs, end, hdr) && 0 <= i < |bs|
    ensures Spaced(Mark(bs, i, v), end, hdr)
    ensures Settled(bs) && v ==> Settled(Mark(bs, i, v))
  {
  }

  lemma SplitShape(bs: seq<Block>, end: int, hdr: int, i: int, a: int)
    requires Spaced(bs, end, hdr) && 0 <= i < |bs|
    requires bs[i].addr + hdr <= a <= Next(bs, end, i) - hdr
    ensures Spaced(Split(bs, i, a), end, hdr)
    ensures Settled(bs) && bs[i].used && (i + 1 < |bs| ==> bs[i + 1].used) ==> Settled(Split(bs, i, a))
  {
    hide Split;
    var cs := Split(bs, i, a);
    SplitIndex(bs, i, a);
    SplitSettled(bs, i, a);
    forall p, q | 0 <= p < q < |cs| ensures cs[p].addr + hdr <= cs[q].addr { SplitGap(bs, end, hdr, i, a, p, q); }
    forall p | 0 <= p < |cs| ensures cs[p].addr + hdr <= end {
      if p > i + 1 { assert cs[p] == bs[p - 1]; }
    }
  }

  lemma SplitGap(bs: seq<Block>, end: int, hdr: int, i: int, a: int, p: int, q: int)
    requires Spaced(bs, end, hdr) && 0 <= i < |bs| && 0 <= p < q <= |bs|
    requires bs[i].addr + hdr <= a <= Next(bs, end, i) - hdr
    ensures Split(bs, i, a)[p].addr + hdr <= Split(bs, i, a)[q].addr
  {
    hide Split, Spaced;
    SplitIndex(bs, i, a);
    Gap(bs, end, hdr, i, i + 1);
    if q == i + 1 {
      Gap(bs, end, hdr, p, i);
    } else if p == i + 1 {
      Gap(bs, end, hdr, i + 1, q - 1);
    } else {
      Gap(bs, end, hdr, if p <= i then p else p - 1, if q <= i then q else q - 1);
    }
  }

  lemma Gap(bs: seq<Block>, end: int, hdr: int, p: int, q: int)
    requires Spaced(bs, end, hdr)
    ensures hdr > 0 && (0 <= p < q < |bs| ==> bs[p].addr + hdr <= bs[q].addr)
  {
  }

  lemma SplitSettled(bs: seq<Block>, i: int, a: int)
    requires 0 <= i < |bs|
    ensures Settled(bs) && bs[i].used && (i + 1 < |bs| ==> bs[i + 1].used) ==> Settled(Split(bs, i, a))
  {
    hide Split;
    SplitIndex(bs, i, a);
  }

  lemma JoinShape(bs: seq<Block>, end: int, hdr: int, i: int)
    requires Spaced(bs, end, hdr) && 0 <= i && i + 1 < |bs|
    ensures Spaced(Join(bs, i), end, hdr)
  {
  }
}
