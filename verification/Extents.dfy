/** Where the used blocks of a header-carrying heap lie: the callers' view of the block list. What an operation
    does to the extents of the used blocks decides the whole list. */
module Extents {
  import opened Tiling

  /** A used block runs from address a up to n. */
  ghost predicate Extent(bs: seq<Block>, end: int, a: int, n: int)
  {
    exists i :: 0 <= i < |bs| && bs[i] == Block(a, true) && Next(bs, end, i) == n
  }

  ghost predicate UsedAt(bs: seq<Block>, end: int, a: int)
  {
    exists n :: Extent(bs, end, a, n)
  }

  /** The used blocks of cs are those of bs, without the one at `gone` and with one from a to n. */
  ghost predicate Swapped(bs: seq<Block>, cs: seq<Block>, end: int, gone: int, a: int, n: int)
  {
    forall x, y :: Extent(cs, end, x, y) <==> (Extent(bs, end, x, y) && x != gone) || (x == a && y == n)
  }

  /** The same, with nothing new. */
  ghost predicate Removed(bs: seq<Block>, cs: seq<Block>, end: int, gone: int)
  {
    forall x, y :: Extent(cs, end, x, y) <==> Extent(bs, end, x, y) && x != gone
  }

  /** The same, with nothing gone. */
  ghost predicate Added(bs: seq<Block>, cs: seq<Block>, end: int, a: int, n: int)
  {
    forall x, y :: Extent(cs, end, x, y) <==> Extent(bs, end, x, y) || (x == a && y == n)
  }

  ghost predicate SameExtents(bs: seq<Block>, cs: seq<Block>, end: int)
  {
    forall x, y :: Extent(cs, end, x, y) <==> Extent(bs, end, x, y)
  }

  lemma UsedIn(bs: seq<Block>, end: int, a: int)
    ensures UsedAt(bs, end, a) <==> Block(a, true) in bs
  {
    if Block(a, true) in bs {
      var i :| 0 <= i < |bs| && bs[i] == Block(a, true);
      ExtentAt(bs, end, i);
    }
  }

  lemma ExtentAt(bs: seq<Block>, end: int, i: int)
    requires 0 <= i < |bs| && bs[i].used
    ensures Extent(bs, end, bs[i].addr, Next(bs, end, i))
  {
  }

  /** The block at an address is the only one there. */
  lemma ExtentOnly(bs: seq<Block>, end: int, hdr: int, i: int, n: int)
    requires Spaced(bs, end, hdr) && 0 <= i < |bs|
    ensures Extent(bs, end, bs[i].addr, n) <==> bs[i].used && n == Next(bs, end, i)
  {
    if Extent(bs, end, bs[i].addr, n) {
      var j :| 0 <= j < |bs| && bs[j] == Block(bs[i].addr, true) && Next(bs, end, j) == n;
      Gap(bs, end, hdr, i, j);
      Gap(bs, end, hdr, j, i);
    }
  }

  lemma MarkExtent(bs: seq<Block>, end: int, hdr: int, i: int, v: bool)
    requires Spaced(bs, end, hdr) && 0 <= i < |bs|
    ensures v && !bs[i].used ==> Added(bs, Mark(bs, i, v), end, bs[i].addr, Next(bs, end, i))
    ensures !v ==> Removed(bs, Mark(bs, i, v), end, bs[i].addr)
  {
    hide Spaced;
    var cs := Mark(bs, i, v);
    forall x, y ensures Extent(cs, end, x, y)
      <==> (Extent(bs, end, x, y) && x != bs[i].addr) || (v && x == bs[i].addr && y == Next(bs, end, i)) {
      MarkExtentOne(bs, end, hdr, i, v, x, y);
    }
    forall y ensures Extent(bs, end, bs[i].addr, y) <==> bs[i].used && y == Next(bs, end, i) {
      ExtentOnly(bs, end, hdr, i, y);
    }
  }

  lemma MarkIndex(bs: seq<Block>, end: int, i: int, v: bool)
    requires 0 <= i < |bs|
    ensures var cs := Mark(bs, i, v);
      && |cs| == |bs| && cs[i] == Block(bs[i].addr, v)
      && forall j :: 0 <= j < |bs| ==> Next(cs, end, j) == Next(bs, end, j) && (j != i ==> cs[j] == bs[j])
  {
  }

  lemma MarkExtentOne(bs: seq<Block>, end: int, hdr: int, i: int, v: bool, x: int, y: int)
    requires Spaced(bs, end, hdr) && 0 <= i < |bs|
    ensures Extent(Mark(bs, i, v), end, x, y)
       <==> (Extent(bs, end, x, y) && x != bs[i].addr) || (v && x == bs[i].addr && y == Next(bs, end, i))
  {
    hide Spaced, Mark, Next;
    var cs := Mark(bs, i, v);
    MarkIndex(bs, end, i, v);
    if Extent(cs, end, x, y) {
      var j :| 0 <= j < |cs| && cs[j] == Block(x, true) && Next(cs, end, j) == y;
      if j != i {
        SpacedApart(bs, end, hdr, i, j);
        assert bs[j] == Block(x, true) && Next(bs, end, j) == y;
      }
    }
    if v && x == bs[i].addr && y == Next(bs, end, i) { assert cs[i] == Block(x, true); }
    if Extent(bs, end, x, y) && x != bs[i].addr {
      var j :| 0 <= j < |bs| && bs[j] == Block(x, true) && Next(bs, end, j) == y;
      assert cs[j] == bs[j];
    }
  }

  lemma SpacedApart(bs: seq<Block>, end: int, hdr: int, i: int, j: int)
    requires Spaced(bs, end, hdr) && 0 <= i < |bs| && 0 <= j < |bs| && i != j
    ensures bs[i].addr != bs[j].addr
  {
    hide Spaced;
    Gap(bs, end, hdr, i, j);
    Gap(bs, end, hdr, j, i);
  }

  /** Joining two free blocks moves no used one. */
  lemma JoinExtent(bs: seq<Block>, end: int, i: int)
    requires 0 <= i && i + 1 < |bs| && !bs[i].used && !bs[i + 1].used
    ensures SameExtents(bs, Join(bs, i), end)
  {
    hide Join;
    forall x, y ensures Extent(Join(bs, i), end, x, y) <==> Extent(bs, end, x, y) {
      JoinIndex(bs, i);
      var cs := Join(bs, i);
      if Extent(bs, end, x, y) {
        var j :| 0 <= j < |bs| && bs[j] == Block(x, true) && Next(bs, end, j) == y;
        var q := if j < i then j else j - 1;
        assert cs[q] == bs[j] && Next(cs, end, q) == Next(bs, end, j);
      }
      if Extent(cs, end, x, y) {
        var j :| 0 <= j < |cs| && cs[j] == Block(x, true) && Next(cs, end, j) == y;
        var q := if j < i then j else j + 1;
        assert bs[q] == cs[j] && Next(bs, end, q) == Next(cs, end, j);
      }
    }
  }

  /** A cut shortens the cut block, if it is used, and moves no other. */
  lemma SplitExtent(bs: seq<Block>, end: int, hdr: int, i: int, a2: int)
    requires Spaced(bs, end, hdr) && 0 <= i < |bs|
    ensures bs[i].used ==> Swapped(bs, Split(bs, i, a2), end, bs[i].addr, bs[i].addr, a2)
    ensures !bs[i].used ==> SameExtents(bs, Split(bs, i, a2), end)
  {
    hide Split, Spaced;
    forall x, y ensures Extent(Split(bs, i, a2), end, x, y)
      <==> (Extent(bs, end, x, y) && x != bs[i].addr) || (bs[i].used && x == bs[i].addr && y == a2) {
      SplitExtentOne(bs, end, hdr, i, a2, x, y);
    }
    forall y ensures Extent(bs, end, bs[i].addr, y) <==> bs[i].used && y == Next(bs, end, i) {
      ExtentOnly(bs, end, hdr, i, y);
    }
  }

  lemma SplitExtentOne(bs: seq<Block>, end: int, hdr: int, i: int, a2: int, x: int, y: int)
    requires Spaced(bs, end, hdr) && 0 <= i < |bs|
    ensures Extent(Split(bs, i, a2), end, x, y)
       <==> (Extent(bs, end, x, y) && x != bs[i].addr) || (bs[i].used && x == bs[i].addr && y == a2)
  {
    hide Split, Spaced;
    var cs := Split(bs, i, a2);
    SplitIndex(bs, i, a2);
    if Extent(cs, end, x, y) {
      var j :| 0 <= j < |cs| && cs[j] == Block(x, true) && Next(cs, end, j) == y;
      if j != i {
        var q := if j < i then j else j - 1;
        assert bs[q] == cs[j] && Next(bs, end, q) == Next(cs, end, j);
        if q != i { SpacedApart(bs, end, hdr, i, q); }
      }
    }
    if bs[i].used && x == bs[i].addr && y == a2 { assert cs[i] == Block(x, true) && Next(cs, end, i) == a2; }
    if Extent(bs, end, x, y) && x != bs[i].addr {
      var j :| 0 <= j < |bs| && bs[j] == Block(x, true) && Next(bs, end, j) == y;
      var q := if j < i then j else j + 1;
      assert cs[q] == bs[j] && Next(cs, end, q) == Next(bs, end, j);
    }
  }

  /** Moving the border between a used block and the free one behind it. */
  lemma ShiftExtent(bs: seq<Block>, end: int, hdr: int, i: int, a2: int)
    requires Spaced(bs, end, hdr) && 0 < i < |bs| && bs[i - 1].used && !bs[i].used
    ensures Swapped(bs, Shift(bs, i, a2), end, bs[i - 1].addr, bs[i - 1].addr, a2)
  {
    hide Spaced, Shift;
    forall x, y ensures Extent(Shift(bs, i, a2), end, x, y)
      <==> (Extent(bs, end, x, y) && x != bs[i - 1].addr) || (x == bs[i - 1].addr && y == a2) {
      ShiftExtentOne(bs, end, hdr, i, a2, x, y);
    }
  }

  lemma ShiftIndex(bs: seq<Block>, end: int, i: int, a2: int)
    requires 0 < i < |bs|
    ensures var cs := Shift(bs, i, a2);
      && |cs| == |bs| && cs[i].used == bs[i].used && Next(cs, end, i - 1) == a2
      && (forall j :: 0 <= j < |bs| && j != i ==> cs[j] == bs[j])
      && forall j :: 0 <= j < |bs| && j != i - 1 ==> Next(cs, end, j) == Next(bs, end, j)
  {
  }

  lemma ShiftExtentOne(bs: seq<Block>, end: int, hdr: int, i: int, a2: int, x: int, y: int)
    requires Spaced(bs, end, hdr) && 0 < i < |bs| && bs[i - 1].used && !bs[i].used
    ensures Extent(Shift(bs, i, a2), end, x, y)
       <==> (Extent(bs, end, x, y) && x != bs[i - 1].addr) || (x == bs[i - 1].addr && y == a2)
  {
    hide Spaced, Shift, Next;
    var cs := Shift(bs, i, a2);
    ShiftIndex(bs, end, i, a2);
    if Extent(cs, end, x, y) {
      var j :| 0 <= j < |cs| && cs[j] == Block(x, true) && Next(cs, end, j) == y;
      if j != i - 1 {
        SpacedApart(bs, end, hdr, i - 1, j);
        assert bs[j] == Block(x, true) && Next(bs, end, j) == y;
      }
    }
    if x == bs[i - 1].addr && y == a2 { assert cs[i - 1] == Block(x, true) && Next(cs, end, i - 1) == y; }
    if Extent(bs, end, x, y) && x != bs[i - 1].addr {
      var j :| 0 <= j < |bs| && bs[j] == Block(x, true) && Next(bs, end, j) == y;
      assert cs[j] == Block(x, true) && Next(cs, end, j) == y;
    }
  }

  // ----- the extents decide the block list

  lemma TailExtent(bs: seq<Block>, end: int, hdr: int, x: int, y: int)
    requires Spaced(bs, end, hdr) && bs != []
    ensures Extent(bs[1..], end, x, y) <==> Extent(bs, end, x, y) && x != bs[0].addr
  {
    hide Spaced;
    if Extent(bs[1..], end, x, y) {
      var j :| 0 <= j < |bs[1..]| && bs[1..][j] == Block(x, true) && Next(bs[1..], end, j) == y;
      assert bs[j + 1] == Block(x, true) && Next(bs, end, j + 1) == y;
      Gap(bs, end, hdr, 0, j + 1);
    }
    if Extent(bs, end, x, y) && x != bs[0].addr {
      var j :| 0 <= j < |bs| && bs[j] == Block(x, true) && Next(bs, end, j) == y;
      assert bs[1..][j - 1] == Block(x, true) && Next(bs[1..], end, j - 1) == y;
    }
  }

  /** The first blocks of two lists with the same extents agree, and end at the same address. */
  lemma FirstAgrees(bs: seq<Block>, cs: seq<Block>, end: int, hdr: int)
    requires Spaced(bs, end, hdr) && Spaced(cs, end, hdr) && Settled(bs) && Settled(cs) && bs != [] && cs != []
    requires bs[0].addr == cs[0].addr && SameExtents(bs, cs, end)
    ensures bs[0] == cs[0] && Next(bs, end, 0) == Next(cs, end, 0)
  {
    hide Spaced;
    if bs[0].used {
      ExtentAt(bs, end, 0);
      ExtentOnly(cs, end, hdr, 0, Next(bs, end, 0));
    } else {
      if cs[0].used {
        ExtentAt(cs, end, 0);
        ExtentOnly(bs, end, hdr, 0, Next(cs, end, 0));
      }
      SecondNotBefore(bs, cs, end, hdr);
      SecondNotBefore(cs, bs, end, hdr);
    }
  }

  /** Behind a first free block the next used one starts no earlier in bs than in cs. */
  lemma SecondNotBefore(bs: seq<Block>, cs: seq<Block>, end: int, hdr: int)
    requires Spaced(bs, end, hdr) && Spaced(cs, end, hdr) && Settled(bs) && bs != [] && cs != []
    requires bs[0].addr == cs[0].addr && !bs[0].used && !cs[0].used && SameExtents(bs, cs, end)
    ensures Next(bs, end, 0) >= Next(cs, end, 0)
  {
    if |bs| > 1 {
      assert bs[0].used || bs[1].used;
      ExtentAt(bs, end, 1);
      assert Extent(cs, end, bs[1].addr, Next(bs, end, 1));
      var j :| 0 <= j < |cs| && cs[j] == Block(bs[1].addr, true);
      if j > 1 { Gap(cs, end, hdr, 1, j); }
    }
  }

  /** Two block lists without neighbouring free blocks and with the same used ones are the same. */
  lemma {:induction false} ExtentsDecide(bs: seq<Block>, cs: seq<Block>, end: int, hdr: int)
    requires Spaced(bs, end, hdr) && Spaced(cs, end, hdr) && Settled(bs) && Settled(cs)
    requires bs != [] && cs != [] && bs[0].addr == cs[0].addr && SameExtents(bs, cs, end)
    ensures bs == cs
    decreases |bs|
  {
    hide Extent, Spaced;
    FirstAgrees(bs, cs, end, hdr);
    TailShape(bs, end, hdr);
    TailShape(cs, end, hdr);
    if |bs| > 1 {
      forall x, y ensures Extent(cs[1..], end, x, y) <==> Extent(bs[1..], end, x, y) {
        TailExtent(bs, end, hdr, x, y);
        TailExtent(cs, end, hdr, x, y);
      }
      ExtentsDecide(bs[1..], cs[1..], end, hdr);
    }
    assert bs == [bs[0]] + bs[1..] && cs == [cs[0]] + cs[1..];
  }

  lemma TailShape(bs: seq<Block>, end: int, hdr: int)
    requires Spaced(bs, end, hdr) && Settled(bs) && bs != []
    ensures Spaced(bs[1..], end, hdr) && Settled(bs[1..]) && (|bs| > 1 <==> Next(bs, end, 0) < end)
  {
  }
}
