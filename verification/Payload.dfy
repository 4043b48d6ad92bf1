/** The cells the two header-carrying heaps (mem.c, memheap.c) hand to their callers, and what
    leaves them alone. A block's payload runs from behind its hdr header bytes to the next header. */
module Payload {
  import opened Tiling

  type Mem = seq<int>

  /** Cell k belongs to the payload of a used block. */
  ghost predicate InPayload(bs: seq<Block>, end: int, hdr: int, k: int)
  {
    exists i :: 0 <= i < |bs| && bs[i].used && bs[i].addr + hdr <= k < Next(bs, end, i)
  }

  /** Every payload cell of bs has the same value in m and n. */
  ghost predicate SamePayload(m: Mem, n: Mem, bs: seq<Block>, end: int, hdr: int)
  {
    |m| == |n| && forall k :: 0 <= k < |m| && InPayload(bs, end, hdr, k) ==> n[k] == m[k]
  }

  /** len bytes at offset src of memory m are now at offset dst of memory n. */
  ghost predicate Moved(m: Mem, n: Mem, src: int, dst: int, len: int)
  {
    && 0 <= len && 0 <= src && 0 <= dst && src + len <= |m| && dst + len <= |n|
    && n[dst..dst + len] == m[src..src + len]
  }

  /** Nothing outside [lo, hi) has changed. */
  ghost predicate OnlyPayload(m: Mem, n: Mem, lo: int, hi: int)
  {
    |m| == |n| && forall k :: 0 <= k < |m| && !(lo <= k < hi) ==> n[k] == m[k]
  }

  function Lesser(a: int, b: int): int { if a < b then a else b }

  lemma HeaderBelowNext(bs: seq<Block>, end: int, hdr: int, i: int)
    requires Spaced(bs, end, hdr) && 0 <= i < |bs|
    ensures bs[i].addr + hdr <= Next(bs, end, i) <= end
    ensures i + 1 < |bs| ==> Next(bs, end, i) + hdr <= Next(bs, end, i + 1)
  {
  }

  /** Header cells and free blocks are nobody's payload. */
  lemma NotPayload(bs: seq<Block>, end: int, hdr: int, i: int, k: int)
    requires Spaced(bs, end, hdr) && 0 <= i < |bs|
    requires bs[i].addr <= k < (if bs[i].used then bs[i].addr + hdr else Next(bs, end, i))
    ensures !InPayload(bs, end, hdr, k)
  {
    forall j | 0 <= j < |bs| && bs[j].used ensures !(bs[j].addr + hdr <= k < Next(bs, end, j)) {
      if j < i { Ordered(bs, end, hdr, j, i); } else if i < j { Ordered(bs, end, hdr, i, j); }
    }
  }

  lemma EndNotPayload(bs: seq<Block>, end: int, hdr: int, k: int)
    requires Spaced(bs, end, hdr) && end <= k
    ensures !InPayload(bs, end, hdr, k)
  {
  }

  /** Joining two free blocks leaves the payload cells what they were. */
  lemma JoinPayload(bs: seq<Block>, end: int, hdr: int, i: int, k: int)
    requires 0 <= i && i + 1 < |bs| && !bs[i].used && !bs[i + 1].used
    ensures InPayload(Join(bs, i), end, hdr, k) <==> InPayload(bs, end, hdr, k)
  {
    hide Join;
    var cs := Join(bs, i);
    JoinIndex(bs, i);
    if InPayload(bs, end, hdr, k) {
      var j :| 0 <= j < |bs| && bs[j].used && bs[j].addr + hdr <= k < Next(bs, end, j);
      var q := if j < i then j else j - 1;
      assert cs[q] == bs[j] && Next(cs, end, q) == Next(bs, end, j);
    }
    if InPayload(cs, end, hdr, k) {
      var j :| 0 <= j < |cs| && cs[j].used && cs[j].addr + hdr <= k < Next(cs, end, j);
      var q := if j < i then j else j + 1;
      assert bs[q] == cs[j] && Next(bs, end, q) == Next(cs, end, j);
    }
  }

  lemma SameTrans(m: Mem, n: Mem, o: Mem, bs: seq<Block>, end: int, hdr: int)
    requires SamePayload(m, n, bs, end, hdr) && SamePayload(n, o, bs, end, hdr)
    ensures SamePayload(m, o, bs, end, hdr)
  {
    hide InPayload;
  }

  lemma SameRefl(m: Mem, bs: seq<Block>, end: int, hdr: int)
    ensures SamePayload(m, m, bs, end, hdr)
  {
    hide InPayload;
  }

  lemma Covered(bs: seq<Block>, end: int, hdr: int, i: int, k: int)
    requires 0 <= i < |bs| && bs[i].used && bs[i].addr + hdr <= k < Next(bs, end, i)
    ensures InPayload(bs, end, hdr, k)
  {
  }

  lemma OtherPayload(bs: seq<Block>, end: int, hdr: int, i: int, c: int)
    requires 0 <= i < |bs| && InPayload(Mark(bs, i, false), end, hdr, c)
    ensures InPayload(bs, end, hdr, c)
  {
    var j :| 0 <= j < |bs| && Mark(bs, i, false)[j].used
             && bs[j].addr + hdr <= c < Next(Mark(bs, i, false), end, j);
    assert bs[j].used && Next(bs, end, j) == Next(Mark(bs, i, false), end, j);
  }

  lemma OthersSubset(m: Mem, n: Mem, bs: seq<Block>, end: int, hdr: int, i: int)
    requires SamePayload(m, n, bs, end, hdr) && 0 <= i < |bs|
    ensures SamePayload(m, n, Mark(bs, i, false), end, hdr)
  {
    hide InPayload;
    forall k | InPayload(Mark(bs, i, false), end, hdr, k) ensures InPayload(bs, end, hdr, k) {
      OtherPayload(bs, end, hdr, i, k);
    }
  }

  lemma SliceSame(m: Mem, n: Mem, bs: seq<Block>, end: int, hdr: int, i: int, len: int)
    requires SamePayload(m, n, bs, end, hdr) && 0 <= i < |bs| && bs[i].used && 0 <= bs[i].addr + hdr
    requires 0 <= len <= Next(bs, end, i) - bs[i].addr - hdr && Next(bs, end, i) <= |m|
    ensures var lo := bs[i].addr + hdr; n[lo..lo + len] == m[lo..lo + len]
  {
    hide InPayload;
    forall k | bs[i].addr + hdr <= k < bs[i].addr + hdr + len ensures InPayload(bs, end, hdr, k) {
      Covered(bs, end, hdr, i, k);
    }
  }

  lemma OnlyPart(m: Mem, n: Mem, lo: int, mid: int, hi: int)
    requires OnlyPayload(m, n, lo, mid) && mid <= hi
    ensures OnlyPayload(m, n, lo, hi)
  {
  }

  /** After a cut the other blocks and the front of the cut block are payload. */
  lemma CutPayload(bs: seq<Block>, end: int, hdr: int, i: int, a2: int, k: int)
    requires 0 <= i < |bs| && InPayload(Mark(bs, i, false), end, hdr, k)
    ensures InPayload(Split(bs, i, a2), end, hdr, k)
  {
    hide Split;
    var cs := Split(bs, i, a2);
    SplitIndex(bs, i, a2);
    var j :| 0 <= j < |bs| && Mark(bs, i, false)[j].used
             && bs[j].addr + hdr <= k < Next(Mark(bs, i, false), end, j);
    var q := if j < i then j else j + 1;
    assert cs[q] == bs[j] && Next(cs, end, q) == Next(bs, end, j);
  }

  /** What a cut leaves alone: the other blocks and the front of the cut one. */
  lemma CutKeeps(m: Mem, n: Mem, bs: seq<Block>, end: int, hdr: int, i: int, a2: int)
    requires 0 <= i < |bs| && bs[i].used && SamePayload(m, n, Split(bs, i, a2), end, hdr)
    requires 0 <= bs[i].addr + hdr <= a2 <= |m|
    ensures SamePayload(m, n, Mark(bs, i, false), end, hdr)
    ensures Moved(m, n, bs[i].addr + hdr, bs[i].addr + hdr, a2 - bs[i].addr - hdr)
  {
    hide Split, InPayload;
    var cs := Split(bs, i, a2);
    SplitIndex(bs, i, a2);
    forall k | InPayload(Mark(bs, i, false), end, hdr, k) ensures InPayload(cs, end, hdr, k) {
      CutPayload(bs, end, hdr, i, a2, k);
    }
    assert cs[i] == bs[i] && Next(cs, end, i) == a2;
    SliceSame(m, n, cs, end, hdr, i, a2 - bs[i].addr - hdr);
  }

  /** Free block i is given out, whole or cut at a2. */
  ghost predicate Given(bs: seq<Block>, cs: seq<Block>, i: int, a2: int)
  {
    0 <= i < |bs| && !bs[i].used && (cs == Mark(bs, i, true) || cs == Split(Mark(bs, i, true), i, a2))
  }

  /** The used blocks other than block i keep their payload cells when free block i0 is given out. */
  lemma GivenCovers(bs: seq<Block>, cs: seq<Block>, end: int, hdr: int, i: int, i0: int, a2: int, k: int, c: int)
    requires 0 <= i < |bs| && bs[i].used && Given(bs, cs, i0, a2)
    requires Spaced(cs, end, hdr) && 0 <= k < |cs| && cs[k] == bs[i]
    requires InPayload(Mark(bs, i, false), end, hdr, c)
    ensures InPayload(Mark(cs, k, false), end, hdr, c)
  {
    hide Split;
    var j :| 0 <= j < |bs| && Mark(bs, i, false)[j].used
             && bs[j].addr + hdr <= c < Next(Mark(bs, i, false), end, j);
    SplitIndex(Mark(bs, i0, true), i0, a2);
    GivenIndex(bs, cs, end, i0, a2, i);
    GivenIndex(bs, cs, end, i0, a2, j);
    var q := if j < i0 || |cs| == |bs| then j else j + 1;
    assert j != i && q != k;
    assert Mark(cs, k, false)[q] == cs[q] && Next(Mark(cs, k, false), end, q) == Next(cs, end, q);
  }

  lemma GivenIndex(bs: seq<Block>, cs: seq<Block>, end: int, i0: int, a2: int, j: int)
    requires Given(bs, cs, i0, a2) && 0 <= j < |bs| && bs[j].used
    ensures var q := if j < i0 || |cs| == |bs| then j else j + 1;
      q < |cs| && cs[q] == bs[j] && Next(cs, end, q) == Next(bs, end, j)
  {
    hide Split;
    SplitIndex(Mark(bs, i0, true), i0, a2);
  }

  /** After allocation (m to n), copy (n to o) and release (o to f): the others are untouched, the data moved. */
  lemma MoveKeeps(m: Mem, n: Mem, o: Mem, f: Mem, bs: seq<Block>, cs: seq<Block>, end: int, hdr: int,
                  i: int, i0: int, k: int, a2: int, len: int)
    requires 0 <= i < |bs| && bs[i].used && Given(bs, cs, i0, a2)
    requires 0 <= i0 < |bs| && !bs[i0].used && i0 < |cs| && 0 <= k < |cs| && k != i0 && cs[k] == bs[i]
    requires Spaced(bs, end, hdr) && Spaced(cs, end, hdr) && 0 <= bs[i].addr && 0 <= bs[i0].addr && end <= |m|
    requires cs[i0] == Block(bs[i0].addr, true) && bs[i0].addr + hdr + len <= Next(cs, end, i0) <= Next(bs, end, i0)
    requires 0 <= len <= Next(bs, end, i) - bs[i].addr - hdr
    requires SamePayload(m, n, bs, end, hdr)
    requires Moved(n, o, bs[i].addr + hdr, bs[i0].addr + hdr, len)
    requires OnlyPayload(n, o, bs[i0].addr + hdr, bs[i0].addr + hdr + len)
    requires SamePayload(o, f, Mark(cs, k, false), end, hdr)
    ensures SamePayload(m, f, Mark(bs, i, false), end, hdr)
    ensures Moved(m, f, bs[i].addr + hdr, bs[i0].addr + hdr, len)
  {
    hide InPayload, Spaced, Given;
    MoveOthers(m, n, o, f, bs, cs, end, hdr, i, i0, k, a2, len);
    HeaderBelowNext(bs, end, hdr, i);
    HeaderBelowNext(cs, end, hdr, i0);
    SliceSame(m, n, bs, end, hdr, i, len);
    SliceSame(o, f, Mark(cs, k, false), end, hdr, i0, len);
  }

  lemma MoveOthers(m: Mem, n: Mem, o: Mem, f: Mem, bs: seq<Block>, cs: seq<Block>, end: int, hdr: int,
                   i: int, i0: int, k: int, a2: int, len: int)
    requires 0 <= i < |bs| && bs[i].used && Given(bs, cs, i0, a2) && 0 <= i0 < |bs| && !bs[i0].used
    requires Spaced(bs, end, hdr) && Spaced(cs, end, hdr) && 0 <= k < |cs| && cs[k] == bs[i]
    requires bs[i0].addr + hdr + len <= Next(bs, end, i0)
    requires SamePayload(m, n, bs, end, hdr)
    requires OnlyPayload(n, o, bs[i0].addr + hdr, bs[i0].addr + hdr + len)
    requires SamePayload(o, f, Mark(cs, k, false), end, hdr)
    ensures SamePayload(m, f, Mark(bs, i, false), end, hdr)
  {
    hide InPayload, Given;
    assert hdr > 0;
    hide Spaced;
    forall c | 0 <= c < |m| && InPayload(Mark(bs, i, false), end, hdr, c) ensures f[c] == m[c] {
      GivenCovers(bs, cs, end, hdr, i, i0, a2, k, c);
      OtherPayload(bs, end, hdr, i, c);
      if bs[i0].addr + hdr <= c < bs[i0].addr + hdr + len { NotPayload(bs, end, hdr, i0, c); }
    }
  }

  /** rt_memcpy between two ranges that do not overlap. */
  method CopyBytes(mem: array<int>, src: int, dst: int, len: int)
    requires 0 <= len && 0 <= src && src + len <= mem.Length && 0 <= dst && dst + len <= mem.Length
    requires src + len <= dst || dst + len <= src
    modifies mem
    ensures Moved(old(mem[..]), mem[..], src, dst, len)
    ensures OnlyPayload(old(mem[..]), mem[..], dst, dst + len)
  {
    var c := 0;
    while c < len
      invariant 0 <= c <= len
      invariant forall k :: dst <= k < dst + c ==> mem[k] == old(mem[..])[k - dst + src]
      invariant forall k :: 0 <= k < mem.Length && !(dst <= k < dst + c) ==> mem[k] == old(mem[k])
    {
      mem[dst + c] := mem[src + c];
      c := c + 1;
    }
  }
}
