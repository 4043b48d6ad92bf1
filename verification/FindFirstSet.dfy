/** __rt_ffs of kservice.c: a table of the lowest set bits of a byte, extended to 32-bit words. */
module FindFirstSet {

  const LOWEST_BIT: seq<seq<bv8>> := [
    [0, 0, 1, 0, 2, 0, 1, 0, 3, 0, 1, 0, 2, 0, 1, 0],
    [4, 0, 1, 0, 2, 0, 1, 0, 3, 0, 1, 0, 2, 0, 1, 0],
    [5, 0, 1, 0, 2, 0, 1, 0, 3, 0, 1, 0, 2, 0, 1, 0],
    [4, 0, 1, 0, 2, 0, 1, 0, 3, 0, 1, 0, 2, 0, 1, 0],
    [6, 0, 1, 0, 2, 0, 1, 0, 3, 0, 1, 0, 2, 0, 1, 0],
    [4, 0, 1, 0, 2, 0, 1, 0, 3, 0, 1, 0, 2, 0, 1, 0],
    [5, 0, 1, 0, 2, 0, 1, 0, 3, 0, 1, 0, 2, 0, 1, 0],
    [4, 0, 1, 0, 2, 0, 1, 0, 3, 0, 1, 0, 2, 0, 1, 0],
    [7, 0, 1, 0, 2, 0, 1, 0, 3, 0, 1, 0, 2, 0, 1, 0],
    [4, 0, 1, 0, 2, 0, 1, 0, 3, 0, 1, 0, 2, 0, 1, 0],
    [5, 0, 1, 0, 2, 0, 1, 0, 3, 0, 1, 0, 2, 0, 1, 0],
    [4, 0, 1, 0, 2, 0, 1, 0, 3, 0, 1, 0, 2, 0, 1, 0],
    [6, 0, 1, 0, 2, 0, 1, 0, 3, 0, 1, 0, 2, 0, 1, 0],
    [4, 0, 1, 0, 2, 0, 1, 0, 3, 0, 1, 0, 2, 0, 1, 0],
    [5, 0, 1, 0, 2, 0, 1, 0, 3, 0, 1, 0, 2, 0, 1, 0],
    [4, 0, 1, 0, 2, 0, 1, 0, 3, 0, 1, 0, 2, 0, 1, 0]
  ]

  /** Bit k is the lowest one set in x. */
  predicate IsLowest(k: bv8, x: bv8)
  {
    k < 8 && x & (1 << k) != 0 && x & ((1 << k) - 1) == 0
  }

  predicate RowMatches(row: seq<bv8>, b: bv8)
  {
    && |row| == 16 && (b != 0 ==> IsLowest(row[0], b))
    && IsLowest(row[1], b + 1) && IsLowest(row[2], b + 2) && IsLowest(row[3], b + 3) && IsLowest(row[4], b + 4)
    && IsLowest(row[5], b + 5) && IsLowest(row[6], b + 6) && IsLowest(row[7], b + 7) && IsLowest(row[8], b + 8)
    && IsLowest(row[9], b + 9) && IsLowest(row[10], b + 10) && IsLowest(row[11], b + 11) && IsLowest(row[12], b + 12)
    && IsLowest(row[13], b + 13) && IsLowest(row[14], b + 14) && IsLowest(row[15], b + 15)
  }

  lemma Rows0()
    ensures RowMatches(LOWEST_BIT[0], 0x00)
    ensures RowMatches(LOWEST_BIT[1], 0x10)
    ensures RowMatches(LOWEST_BIT[2], 0x20)
    ensures RowMatches(LOWEST_BIT[3], 0x30)
  {
  }

  lemma Rows1()
    ensures RowMatches(LOWEST_BIT[4], 0x40)
    ensures RowMatches(LOWEST_BIT[5], 0x50)
    ensures RowMatches(LOWEST_BIT[6], 0x60)
    ensures RowMatches(LOWEST_BIT[7], 0x70)
  {
  }

  lemma Rows2()
    ensures RowMatches(LOWEST_BIT[8], 0x80)
    ensures RowMatches(LOWEST_BIT[9], 0x90)
    ensures RowMatches(LOWEST_BIT[10], 0xA0)
    ensures RowMatches(LOWEST_BIT[11], 0xB0)
  {
  }

  lemma Rows3()
    ensures RowMatches(LOWEST_BIT[12], 0xC0)
    ensures RowMatches(LOWEST_BIT[13], 0xD0)
    ensures RowMatches(LOWEST_BIT[14], 0xE0)
    ensures RowMatches(LOWEST_BIT[15], 0xF0)
  {
  }

  function RowOf(x: bv8): (r: nat)
    ensures r < 16
  {
    (x >> 4) as nat
  }

  function Lowest(x: bv8): bv8
  {
    LOWEST_BIT[RowOf(x)][(x & 15) as nat]
  }

  /** Every table entry is the lowest set bit of its index. */
  lemma TableIsLowest(x: bv8)
    requires x != 0
    ensures IsLowest(Lowest(x), x)
  {
    hide RowMatches, IsLowest;
    RowPicked(x);
    InRow(LOWEST_BIT[RowOf(x)], x & 0xF0, x);
  }

  lemma RowPicked(x: bv8)
    ensures RowMatches(LOWEST_BIT[RowOf(x)], x & 0xF0)
  {
    hide RowMatches, LOWEST_BIT;
    var r := x >> 4;
    assert r < 16 && x & 0xF0 == r << 4;
    if r < 8 {
      if r < 4 {
        Rows0();
        if r == 0 { } else if r == 1 { } else if r == 2 { } else { assert r == 3; }
      } else {
        Rows1();
        if r == 4 { } else if r == 5 { } else if r == 6 { } else { assert r == 7; }
      }
    } else if r < 12 {
      Rows2();
      if r == 8 { } else if r == 9 { } else if r == 10 { } else { assert r == 11; }
    } else {
      Rows3();
      if r == 12 { } else if r == 13 { } else if r == 14 { } else { assert r == 15; }
    }
  }

  lemma InRow(row: seq<bv8>, b: bv8, x: bv8)
    requires RowMatches(row, b) && x & 0xF0 == b && x != 0
    ensures IsLowest(row[(x & 15) as nat], x)
  {
    hide IsLowest;
    var j := x & 15;
    assert x == b + j;
    assert j == 0 || j == 1 || j == 2 || j == 3 || j == 4 || j == 5 || j == 6 || j == 7
        || j == 8 || j == 9 || j == 10 || j == 11 || j == 12 || j == 13 || j == 14 || j == 15;
  }

  /** __rt_ffs */
  function Ffs(value: bv32): bv8
  {
    if value == 0 then 0
    else if value & 0xFF != 0 then Lowest((value & 0xFF) as bv8) + 1
    else if value & 0xFF00 != 0 then Lowest(((value & 0xFF00) >> 8) as bv8) + 9
    else if value & 0xFF_0000 != 0 then Lowest(((value & 0xFF_0000) >> 16) as bv8) + 17
    else Lowest(((value & 0xFF00_0000) >> 24) as bv8) + 25
  }

  predicate Bit(value: bv32, p: bv8)
    requires p < 32
  {
    value & (1 << p) != 0
  }

  /** The lower bits than p are clear. */
  predicate ClearBelow(value: bv32, p: bv8)
    requires p < 32
  {
    value & ((1 << p) - 1) == 0
  }

  /** __rt_ffs numbers the lowest set bit from 1, and is 0 for 0 only. */
  lemma FfsIsLowest(value: bv32)
    ensures Ffs(value) == 0 <==> value == 0
    ensures value != 0 ==> 1 <= Ffs(value) <= 32 && Bit(value, Ffs(value) - 1) && ClearBelow(value, Ffs(value) - 1)
  {
    hide Lowest, IsLowest;
    if value == 0 {
    } else if value & 0xFF != 0 {
      ByteLowest(value, (value & 0xFF) as bv8);
    } else if value & 0xFF00 != 0 {
      SecondLowest(value, ((value & 0xFF00) >> 8) as bv8);
    } else if value & 0xFF_0000 != 0 {
      ThirdLowest(value, ((value & 0xFF_0000) >> 16) as bv8);
    } else {
      FourthLowest(value, ((value & 0xFF00_0000) >> 24) as bv8);
    }
  }

  lemma ByteLowest(value: bv32, x: bv8)
    requires x != 0 && x as bv32 == value & 0xFF
    ensures var k := Lowest(x); k < 8 && Bit(value, k) && ClearBelow(value, k)
  {
    hide Lowest;
    TableIsLowest(x);
  }

  lemma SecondLowest(value: bv32, x: bv8)
    requires x != 0 && value & 0xFF == 0 && x as bv32 == (value & 0xFF00) >> 8
    ensures var k := Lowest(x); k < 8 && Bit(value, k + 8) && ClearBelow(value, k + 8)
  {
    hide Lowest;
    TableIsLowest(x);
  }

  lemma ThirdLowest(value: bv32, x: bv8)
    requires x != 0 && value & 0xFFFF == 0 && x as bv32 == (value & 0xFF_0000) >> 16
    ensures var k := Lowest(x); k < 8 && Bit(value, k + 16) && ClearBelow(value, k + 16)
  {
    hide Lowest;
    TableIsLowest(x);
  }

  lemma FourthLowest(value: bv32, x: bv8)
    requires x != 0 && value & 0xFF_FFFF == 0 && x as bv32 == (value & 0xFF00_0000) >> 24
    ensures var k := Lowest(x); k < 8 && Bit(value, k + 24) && ClearBelow(value, k + 24)
  {
    hide Lowest;
    TableIsLowest(x);
  }

  /** No bit below the lowest one is set. */
  lemma NoneBelow(value: bv32, p: bv8, q: bv8)
    requires q < p < 32 && ClearBelow(value, p)
    ensures !Bit(value, q)
  {
    BelowMask(p, q);
    CommonZero(value, (1 << p) - 1, 1 << q);
  }

  lemma BelowMask(p: bv8, q: bv8)
    requires q < p < 32
    ensures ((1 as bv32) << q) & (((1 as bv32) << p) - 1) == (1 as bv32) << q
  {
  }

  lemma CommonZero(value: bv32, m: bv32, b: bv32)
    requires value & m == 0 && b & m == b
    ensures value & b == 0
  {
  }
}
