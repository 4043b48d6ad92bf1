/** The CRC of mbcrc.c: a byte-wise table method, proved to be the bit-wise CRC of section 6.2.2 of the
    MODBUS over Serial Line Specification V1.02 (polynomial 0xA001 reflected, seed 0xFFFF). */
module Crc {

  type Byte = bv8

  // ----- section 6.2.2, bit by bit

  /** One shift: the bit that falls out decides whether the polynomial is added. */
  function Shift1(c: bv16): bv16
  {
    if c & 1 == 1 then (c >> 1) ^ 0xA001 else c >> 1
  }

  function Shift8(c: bv16): bv16
  {
    Shift1(Shift1(Shift1(Shift1(Shift1(Shift1(Shift1(Shift1(c))))))))
  }

  /** Exclusive or, under a name that proofs can keep closed. */
  function Xor(a: bv16, b: bv16): bv16
  {
    a ^ b
  }

  function Feed(c: bv16, b: Byte): bv16
  {
    Shift8(Xor(c, b as bv16))
  }

  function CrcFrom(c: bv16, s: seq<Byte>): bv16
    decreases |s|
  {
    if s == [] then c else CrcFrom(Feed(c, s[0]), s[1..])
  }

  function Crc16(s: seq<Byte>): bv16
  {
    CrcFrom(0xFFFF, s)
  }

  function Word(hi: Byte, lo: Byte): bv16
  {
    ((hi as bv16) << 8) | (lo as bv16)
  }

  function Low(c: bv16): Byte
  {
    (c & 0xFF) as Byte
  }

  function High(c: bv16): Byte
  {
    (c >> 8) as Byte
  }

  // ----- the two tables

  const CRC_HI: seq<seq<bv8>> := [
    [0x00, 0xC1, 0x81, 0x40, 0x01, 0xC0, 0x80, 0x41, 0x01, 0xC0, 0x80, 0x41, 0x00, 0xC1, 0x81, 0x40],
    [0x01, 0xC0, 0x80, 0x41, 0x00, 0xC1, 0x81, 0x40, 0x00, 0xC1, 0x81, 0x40, 0x01, 0xC0, 0x80, 0x41],
    [0x01, 0xC0, 0x80, 0x41, 0x00, 0xC1, 0x81, 0x40, 0x00, 0xC1, 0x81, 0x40, 0x01, 0xC0, 0x80, 0x41],
    [0x00, 0xC1, 0x81, 0x40, 0x01, 0xC0, 0x80, 0x41, 0x01, 0xC0, 0x80, 0x41, 0x00, 0xC1, 0x81, 0x40],
    [0x01, 0xC0, 0x80, 0x41, 0x00, 0xC1, 0x81, 0x40, 0x00, 0xC1, 0x81, 0x40, 0x01, 0xC0, 0x80, 0x41],
    [0x00, 0xC1, 0x81, 0x40, 0x01, 0xC0, 0x80, 0x41, 0x01, 0xC0, 0x80, 0x41, 0x00, 0xC1, 0x81, 0x40],
    [0x00, 0xC1, 0x81, 0x40, 0x01, 0xC0, 0x80, 0x41, 0x01, 0xC0, 0x80, 0x41, 0x00, 0xC1, 0x81, 0x40],
    [0x01, 0xC0, 0x80, 0x41, 0x00, 0xC1, 0x81, 0x40, 0x00, 0xC1, 0x81, 0x40, 0x01, 0xC0, 0x80, 0x41],
    [0x01, 0xC0, 0x80, 0x41, 0x00, 0xC1, 0x81, 0x40, 0x00, 0xC1, 0x81, 0x40, 0x01, 0xC0, 0x80, 0x41],
    [0x00, 0xC1, 0x81, 0x40, 0x01, 0xC0, 0x80, 0x41, 0x01, 0xC0, 0x80, 0x41, 0x00, 0xC1, 0x81, 0x40],
    [0x00, 0xC1, 0x81, 0x40, 0x01, 0xC0, 0x80, 0x41, 0x01, 0xC0, 0x80, 0x41, 0x00, 0xC1, 0x81, 0x40],
    [0x01, 0xC0, 0x80, 0x41, 0x00, 0xC1, 0x81, 0x40, 0x00, 0xC1, 0x81, 0x40, 0x01, 0xC0, 0x80, 0x41],
    [0x00, 0xC1, 0x81, 0x40, 0x01, 0xC0, 0x80, 0x41, 0x01, 0xC0, 0x80, 0x41, 0x00, 0xC1, 0x81, 0x40],
    [0x01, 0xC0, 0x80, 0x41, 0x00, 0xC1, 0x81, 0x40, 0x00, 0xC1, 0x81, 0x40, 0x01, 0xC0, 0x80, 0x41],
    [0x01, 0xC0, 0x80, 0x41, 0x00, 0xC1, 0x81, 0x40, 0x00, 0xC1, 0x81, 0x40, 0x01, 0xC0, 0x80, 0x41],
    [0x00, 0xC1, 0x81, 0x40, 0x01, 0xC0, 0x80, 0x41, 0x01, 0xC0, 0x80, 0x41, 0x00, 0xC1, 0x81, 0x40]
  ]

  const CRC_LO: seq<seq<bv8>> := [
    [0x00, 0xC0, 0xC1, 0x01, 0xC3, 0x03, 0x02, 0xC2, 0xC6, 0x06, 0x07, 0xC7, 0x05, 0xC5, 0xC4, 0x04],
    [0xCC, 0x0C, 0x0D, 0xCD, 0x0F, 0xCF, 0xCE, 0x0E, 0x0A, 0xCA, 0xCB, 0x0B, 0xC9, 0x09, 0x08, 0xC8],
    [0xD8, 0x18, 0x19, 0xD9, 0x1B, 0xDB, 0xDA, 0x1A, 0x1E, 0xDE, 0xDF, 0x1F, 0xDD, 0x1D, 0x1C, 0xDC],
    [0x14, 0xD4, 0xD5, 0x15, 0xD7, 0x17, 0x16, 0xD6, 0xD2, 0x12, 0x13, 0xD3, 0x11, 0xD1, 0xD0, 0x10],
    [0xF0, 0x30, 0x31, 0xF1, 0x33, 0xF3, 0xF2, 0x32, 0x36, 0xF6, 0xF7, 0x37, 0xF5, 0x35, 0x34, 0xF4],
    [0x3C, 0xFC, 0xFD, 0x3D, 0xFF, 0x3F, 0x3E, 0xFE, 0xFA, 0x3A, 0x3B, 0xFB, 0x39, 0xF9, 0xF8, 0x38],
    [0x28, 0xE8, 0xE9, 0x29, 0xEB, 0x2B, 0x2A, 0xEA, 0xEE, 0x2E, 0x2F, 0xEF, 0x2D, 0xED, 0xEC, 0x2C],
    [0xE4, 0x24, 0x25, 0xE5, 0x27, 0xE7, 0xE6, 0x26, 0x22, 0xE2, 0xE3, 0x23, 0xE1, 0x21, 0x20, 0xE0],
    [0xA0, 0x60, 0x61, 0xA1, 0x63, 0xA3, 0xA2, 0x62, 0x66, 0xA6, 0xA7, 0x67, 0xA5, 0x65, 0x64, 0xA4],
    [0x6C, 0xAC, 0xAD, 0x6D, 0xAF, 0x6F, 0x6E, 0xAE, 0xAA, 0x6A, 0x6B, 0xAB, 0x69, 0xA9, 0xA8, 0x68],
    [0x78, 0xB8, 0xB9, 0x79, 0xBB, 0x7B, 0x7A, 0xBA, 0xBE, 0x7E, 0x7F, 0xBF, 0x7D, 0xBD, 0xBC, 0x7C],
    [0xB4, 0x74, 0x75, 0xB5, 0x77, 0xB7, 0xB6, 0x76, 0x72, 0xB2, 0xB3, 0x73, 0xB1, 0x71, 0x70, 0xB0],
    [0x50, 0x90, 0x91, 0x51, 0x93, 0x53, 0x52, 0x92, 0x96, 0x56, 0x57, 0x97, 0x55, 0x95, 0x94, 0x54],
    [0x9C, 0x5C, 0x5D, 0x9D, 0x5F, 0x9F, 0x9E, 0x5E, 0x5A, 0x9A, 0x9B, 0x5B, 0x99, 0x59, 0x58, 0x98],
    [0x88, 0x48, 0x49, 0x89, 0x4B, 0x8B, 0x8A, 0x4A, 0x4E, 0x8E, 0x8F, 0x4F, 0x8D, 0x4D, 0x4C, 0x8C],
    [0x44, 0x84, 0x85, 0x45, 0x87, 0x47, 0x46, 0x86, 0x82, 0x42, 0x43, 0x83, 0x41, 0x81, 0x80, 0x40]
  ]

  /** hi and lo are the two halves of the remainder of index x. */
  predicate Same(hi: Byte, lo: Byte, x: Byte)
  {
    Shift8(x as bv16) == Word(lo, hi)
  }

  predicate RowMatches(hi: seq<Byte>, lo: seq<Byte>, b: Byte)
  {
    && |hi| == 16 && |lo| == 16
    && Same(hi[0], lo[0], b) && Same(hi[1], lo[1], b + 1) && Same(hi[2], lo[2], b + 2) && Same(hi[3], lo[3], b + 3)
    && Same(hi[4], lo[4], b + 4) && Same(hi[5], lo[5], b + 5) && Same(hi[6], lo[6], b + 6) && Same(hi[7], lo[7], b + 7)
    && Same(hi[8], lo[8], b + 8) && Same(hi[9], lo[9], b + 9) && Same(hi[10], lo[10], b + 10) && Same(hi[11], lo[11], b + 11)
    && Same(hi[12], lo[12], b + 12) && Same(hi[13], lo[13], b + 13) && Same(hi[14], lo[14], b + 14) && Same(hi[15], lo[15], b + 15)
  }

  lemma Row0()
    ensures RowMatches(CRC_HI[0], CRC_LO[0], 0x00)
  {
  }

  lemma Row1()
    ensures RowMatches(CRC_HI[1], CRC_LO[1], 0x10)
  {
  }

  lemma Row2()
    ensures RowMatches(CRC_HI[2], CRC_LO[2], 0x20)
  {
  }

  lemma Row3()
    ensures RowMatches(CRC_HI[3], CRC_LO[3], 0x30)
  {
  }

  lemma Row4()
    ensures RowMatches(CRC_HI[4], CRC_LO[4], 0x40)
  {
  }

  lemma Row5()
    ensures RowMatches(CRC_HI[5], CRC_LO[5], 0x50)
  {
  }

  lemma Row6()
    ensures RowMatches(CRC_HI[6], CRC_LO[6], 0x60)
  {
  }

  lemma Row7()
    ensures RowMatches(CRC_HI[7], CRC_LO[7], 0x70)
  {
  }

  lemma Row8()
    ensures RowMatches(CRC_HI[8], CRC_LO[8], 0x80)
  {
  }

  lemma Row9()
    ensures RowMatches(CRC_HI[9], CRC_LO[9], 0x90)
  {
  }

  lemma RowA()
    ensures RowMatches(CRC_HI[10], CRC_LO[10], 0xA0)
  {
  }

  lemma RowB()
    ensures RowMatches(CRC_HI[11], CRC_LO[11], 0xB0)
  {
  }

  lemma RowC()
    ensures RowMatches(CRC_HI[12], CRC_LO[12], 0xC0)
  {
  }

  lemma RowD()
    ensures RowMatches(CRC_HI[13], CRC_LO[13], 0xD0)
  {
  }

  lemma RowE()
    ensures RowMatches(CRC_HI[14], CRC_LO[14], 0xE0)
  {
  }

  lemma RowF()
    ensures RowMatches(CRC_HI[15], CRC_LO[15], 0xF0)
  {
  }

  lemma InRow(hi: seq<Byte>, lo: seq<Byte>, b: Byte, i: Byte)
    requires RowMatches(hi, lo, b) && i & 0xF0 == b
    ensures Same(hi[(i & 15) as nat], lo[(i & 15) as nat], i)
  {
    hide Same;
    var j := i & 15;
    assert i == b + j;
    assert j == 0 || j == 1 || j == 2 || j == 3 || j == 4 || j == 5 || j == 6 || j == 7
        || j == 8 || j == 9 || j == 10 || j == 11 || j == 12 || j == 13 || j == 14 || j == 15;
  }

  function RowOf(i: Byte): (r: nat)
    ensures r < 16
  {
    (i >> 4) as nat
  }

  function TableHi(i: Byte): Byte
  {
    CRC_HI[RowOf(i)][(i & 15) as nat]
  }

  function TableLo(i: Byte): Byte
  {
    CRC_LO[RowOf(i)][(i & 15) as nat]
  }

  /** Every table entry is the remainder of its index. */
  lemma TablesAreRemainders(i: Byte)
    ensures Same(TableHi(i), TableLo(i), i)
  {
    hide RowMatches, Same;
    RowPicked(i);
    InRow(CRC_HI[RowOf(i)], CRC_LO[RowOf(i)], i & 0xF0, i);
  }

  lemma RowPicked(i: Byte)
    ensures RowMatches(CRC_HI[RowOf(i)], CRC_LO[RowOf(i)], i & 0xF0)
  {
    hide RowMatches;
    var r := i >> 4;
    assert r < 16 && i & 0xF0 == r << 4;
    if r < 8 {
      if r == 0 { Row0(); } else if r == 1 { Row1(); } else if r == 2 { Row2(); } else if r == 3 { Row3(); }
      else if r == 4 { Row4(); } else if r == 5 { Row5(); } else if r == 6 { Row6(); } else { Row7(); }
    } else {
      if r == 8 { Row8(); } else if r == 9 { Row9(); } else if r == 10 { RowA(); } else if r == 11 { RowB(); }
      else if r == 12 { RowC(); } else if r == 13 { RowD(); } else if r == 14 { RowE(); } else { RowF(); }
    }
  }

  /** The remainder of the low byte, added to the high byte, is eight shifts. */
  lemma ShiftByTable(c: bv16)
    ensures Shift8(c) == Xor(Upper(c), Shift8(Lower(c)))
  {
    hide Shift1, Shift8, Xor;
    Parts(c);
    Shift8Linear(c & 0xFF00, c & 0xFF);
    ShiftHigh(c & 0xFF00);
  }

  function Upper(c: bv16): bv16
  {
    c >> 8
  }

  function Lower(c: bv16): bv16
  {
    c & 0xFF
  }

  lemma Parts(c: bv16)
    ensures c == Xor(c & 0xFF00, c & 0xFF) && (c & 0xFF00) >> 8 == c >> 8 && (c & 0xFF00) & 0xFF == 0
  {
  }

  lemma ShiftHigh(a: bv16)
    requires a & 0xFF == 0
    ensures Shift8(a) == a >> 8
  {
  }

  lemma Shift1Linear(a: bv16, b: bv16)
    ensures Shift1(Xor(a, b)) == Xor(Shift1(a), Shift1(b))
  {
    hide Shift1, Xor;
    BitOut(a);
    BitOut(b);
    BitOut(Xor(a, b));
    HalfLinear(a, b);
    PolynomialMoves(a >> 1, b >> 1);
  }

  lemma BitOut(a: bv16)
    ensures Shift1(a) == if a & 1 == 1 then Xor(a >> 1, 0xA001) else a >> 1
  {
  }

  lemma HalfLinear(a: bv16, b: bv16)
    ensures Xor(a, b) >> 1 == Xor(a >> 1, b >> 1)
    ensures Xor(a, b) & 1 == 1 <==> (a & 1 == 1 <==> b & 1 != 1)
  {
    assert (a ^ b) >> 1 == (a >> 1) ^ (b >> 1);
    assert (a ^ b) & 1 == (a & 1) ^ (b & 1);
    assert a & 1 == 0 || a & 1 == 1;
    assert b & 1 == 0 || b & 1 == 1;
  }

  lemma PolynomialMoves(x: bv16, y: bv16)
    ensures Xor(Xor(x, 0xA001), y) == Xor(Xor(x, y), 0xA001) == Xor(x, Xor(y, 0xA001))
    ensures Xor(Xor(x, 0xA001), Xor(y, 0xA001)) == Xor(x, y)
  {
    hide Xor;
    XorGroups(x, y, 0xA001);
    XorGroups(x, 0xA001, y);
    XorGroups(x, 0xA001, Xor(y, 0xA001));
    XorCancels(y, 0xA001);
  }

  lemma XorGroups(a: bv16, b: bv16, c: bv16)
    ensures Xor(Xor(a, b), c) == Xor(a, Xor(b, c)) && Xor(b, c) == Xor(c, b)
  {
  }

  lemma XorCancels(a: bv16, b: bv16)
    ensures Xor(b, Xor(a, b)) == a
  {
  }

  lemma Shift8Linear(a: bv16, b: bv16)
    ensures Shift8(Xor(a, b)) == Xor(Shift8(a), Shift8(b))
  {
    hide Shift1, Xor;
    var a1, b1 := Shift1(a), Shift1(b);
    var a2, b2 := Shift1(a1), Shift1(b1);
    var a3, b3 := Shift1(a2), Shift1(b2);
    var a4, b4 := Shift1(a3), Shift1(b3);
    var a5, b5 := Shift1(a4), Shift1(b4);
    var a6, b6 := Shift1(a5), Shift1(b5);
    Shift1Linear(a, b);
    Shift1Linear(a1, b1);
    Shift1Linear(a2, b2);
    Shift1Linear(a3, b3);
    Shift1Linear(a4, b4);
    Shift1Linear(a5, b5);
    Shift1Linear(a6, b6);
    Shift1Linear(Shift1(a6), Shift1(b6));
  }

  lemma Shift1Injective(a: bv16, b: bv16)
    requires Shift1(a) == Shift1(b)
    ensures a == b
  {
    Odd(a);
    Odd(b);
  }

  /** The top bit of the polynomial tells which way the shift went. */
  lemma Odd(a: bv16)
    ensures a & 1 == 1 <==> Shift1(a) & 0x8000 == 0x8000
    ensures a == (if a & 1 == 1 then ((Shift1(a) ^ 0xA001) << 1) | 1 else Shift1(a) << 1)
  {
    if a & 1 == 1 {
      assert (((a >> 1) ^ 0xA001) ^ 0xA001) == a >> 1;
      assert ((a >> 1) << 1) | 1 == a;
      assert ((a >> 1) ^ 0xA001) & 0x8000 == 0x8000;
    } else {
      assert (a >> 1) << 1 == a;
      assert (a >> 1) & 0x8000 == 0;
    }
  }

  lemma Shift8Injective(a: bv16, b: bv16)
    requires Shift8(a) == Shift8(b)
    ensures a == b
  {
    hide Shift1;
    var a1, b1 := Shift1(a), Shift1(b);
    var a2, b2 := Shift1(a1), Shift1(b1);
    var a3, b3 := Shift1(a2), Shift1(b2);
    var a4, b4 := Shift1(a3), Shift1(b3);
    var a5, b5 := Shift1(a4), Shift1(b4);
    var a6, b6 := Shift1(a5), Shift1(b5);
    Shift1Injective(Shift1(a6), Shift1(b6));
    Shift1Injective(a6, b6);
    Shift1Injective(a5, b5);
    Shift1Injective(a4, b4);
    Shift1Injective(a3, b3);
    Shift1Injective(a2, b2);
    Shift1Injective(a1, b1);
    Shift1Injective(a, b);
  }

  // ----- usMBCRC16

  /** One turn of the table method is one byte of the bit-wise CRC. */
  lemma TableStep(hi: Byte, lo: Byte, b: Byte)
    ensures var i := lo ^ b;
      Feed(Word(hi, lo), b) == Word(TableLo(i), hi ^ TableHi(i))
  {
    hide Shift8, TableHi, TableLo, Xor, Word, Same, Upper, Lower;
    var i := lo ^ b;
    var c := Xor(Word(hi, lo), b as bv16);
    TablesAreRemainders(i);
    Halves(hi, lo, b);
    Combine(hi, TableHi(i), TableLo(i));
    TableTurn(c, hi, i, TableHi(i), TableLo(i), Word(TableLo(i), hi ^ TableHi(i)));
  }

  lemma TableTurn(c: bv16, hi: Byte, i: Byte, h: Byte, l: Byte, r: bv16)
    requires Upper(c) == hi as bv16 && Lower(c) == i as bv16
    requires Same(h, l, i) && Xor(hi as bv16, Word(l, h)) == r
    ensures Shift8(c) == r
  {
    hide Shift8, Xor, Word, Upper, Lower;
    ShiftByTable(c);
  }

  lemma Halves(hi: Byte, lo: Byte, b: Byte)
    ensures var c := Xor(Word(hi, lo), b as bv16);
      Upper(c) == hi as bv16 && Lower(c) == (lo ^ b) as bv16
  {
  }

  lemma Combine(hi: Byte, h: Byte, l: Byte)
    ensures Xor(hi as bv16, Word(l, h)) == Word(l, hi ^ h)
  {
  }

  lemma {:induction false} CrcSnoc(c: bv16, s: seq<Byte>, b: Byte)
    ensures CrcFrom(c, s + [b]) == Feed(CrcFrom(c, s), b)
    decreases |s|
  {
    hide Feed;
    var t := s + [b];
    if s == [] {
      assert t[1..] == [];
    } else {
      assert t[1..] == s[1..] + [b];
      CrcSnoc(Feed(c, s[0]), s[1..], b);
    }
  }

  /** usMBCRC16 computes the CRC of the first usLen bytes of the frame. */
  method UsMBCRC16(frame: array<Byte>, usLen: nat) returns (crc: bv16)
    requires usLen <= frame.Length
    ensures crc == Crc16(frame[..usLen])
  {
    hide Feed, TableHi, TableLo, Word;
    var crcHi: Byte, crcLo: Byte := 0xFF, 0xFF;
    SeedWord();
    var k := 0;
    while k < usLen
      invariant k <= usLen
      invariant Word(crcHi, crcLo) == Crc16(frame[..k])
    {
      var index := crcLo ^ frame[k];
      TableStep(crcHi, crcLo, frame[k]);
      CrcSnoc(0xFFFF, frame[..k], frame[k]);
      assert frame[..k + 1] == frame[..k] + [frame[k]];
      crcLo := crcHi ^ TableHi(index);
      crcHi := TableLo(index);
      k := k + 1;
    }
    return Word(crcHi, crcLo);
  }

  lemma SeedWord()
    ensures Word(0xFF, 0xFF) == 0xFFFF
  {
  }

  // ----- what the CRC is for

  lemma {:induction false} CrcConcat(c: bv16, s: seq<Byte>, t: seq<Byte>)
    ensures CrcFrom(c, s + t) == CrcFrom(CrcFrom(c, s), t)
    decreases |s|
  {
    hide Feed;
    if s == [] {
      assert s + t == t;
    } else {
      assert (s + t)[1..] == s[1..] + t;
      CrcConcat(Feed(c, s[0]), s[1..], t);
    }
  }

  /** Two bytes clear the register exactly when they are its two halves, low byte first. */
  lemma TwoBytesClear(c: bv16, a: Byte, b: Byte)
    ensures Feed(Feed(c, a), b) == 0 <==> a == Low(c) && b == High(c)
  {
    hide Shift8, Shift1, Xor, Low, High;
    var d := Feed(c, a);
    ShiftZero();
    XorZero(d, b as bv16);
    if Feed(d, b) == 0 { Shift8Injective(Xor(d, b as bv16), 0); }
    BackByte(b);
    if d == b as bv16 { Shift8Injective(Xor(c, a as bv16), Up(b)); }
    SplitWord(c, a, b);
  }

  function Up(b: Byte): bv16
  {
    (b as bv16) << 8
  }

  lemma XorZero(a: bv16, b: bv16)
    ensures Xor(a, b) == 0 <==> a == b
  {
    if Xor(a, b) == 0 { assert a ^ b ^ b == a; }
  }

  lemma ShiftZero()
    ensures Shift8(0) == 0
  {
  }

  lemma BackByte(b: Byte)
    ensures Shift8(Up(b)) == b as bv16
  {
    hide Shift8;
    ShiftHigh(Up(b));
  }

  lemma SplitWord(c: bv16, a: Byte, b: Byte)
    ensures Xor(c, a as bv16) == Up(b) <==> a == Low(c) && b == High(c)
  {
  }

  /** A frame checks out if and only if its last two bytes are the CRC of the rest, low byte first. */
  lemma ResidueIff(s: seq<Byte>, a: Byte, b: Byte)
    ensures Crc16(s + [a, b]) == 0 <==> a == Low(Crc16(s)) && b == High(Crc16(s))
  {
    hide Feed, Low, High;
    CrcSnoc(0xFFFF, s, a);
    CrcSnoc(0xFFFF, s + [a], b);
    assert s + [a] + [b] == s + [a, b];
    TwoBytesClear(Crc16(s), a, b);
  }

  /** Different registers stay different under equal bytes. */
  lemma {:induction false} StaysDifferent(c: bv16, d: bv16, s: seq<Byte>)
    requires c != d
    ensures CrcFrom(c, s) != CrcFrom(d, s)
    decreases |s|
  {
    hide Feed;
    if s != [] {
      FeedInjective(c, d, s[0]);
      StaysDifferent(Feed(c, s[0]), Feed(d, s[0]), s[1..]);
    }
  }

  lemma FeedInjective(c: bv16, d: bv16, b: Byte)
    requires c != d
    ensures Feed(c, b) != Feed(d, b)
  {
    hide Shift8, Xor;
    XorInjective(c, d, b as bv16);
    if Feed(c, b) == Feed(d, b) { Shift8Injective(Xor(c, b as bv16), Xor(d, b as bv16)); }
  }

  lemma XorInjective(c: bv16, d: bv16, b: bv16)
    ensures Xor(c, b) == Xor(d, b) <==> c == d
  {
  }

  /** From one register, two different byte pairs lead to two registers. */
  lemma PairsDiffer(c: bv16, a: Byte, b: Byte, x: Byte, y: Byte)
    requires (a, b) != (x, y)
    ensures Feed(Feed(c, a), b) != Feed(Feed(c, x), y)
  {
    hide Shift8, Shift1, Xor, Up;
    var d, e := Feed(c, a), Feed(c, x);
    if Feed(d, b) == Feed(e, y) {
      Shift8Injective(Xor(d, b as bv16), Xor(e, y as bv16));
      Shift8Linear(Xor(c, a as bv16), Xor(c, x as bv16));
      Cancel(c, a, x);
      Cancel16(d, e, b, y);
      BackByte(b ^ y);
      Shift8Injective((a ^ x) as bv16, Up(b ^ y));
      ApartHalves(a, b, x, y);
    }
  }

  lemma Cancel(c: bv16, a: Byte, x: Byte)
    ensures Xor(Xor(c, a as bv16), Xor(c, x as bv16)) == (a ^ x) as bv16
  {
  }

  lemma Cancel16(d: bv16, e: bv16, b: Byte, y: Byte)
    requires Xor(d, b as bv16) == Xor(e, y as bv16)
    ensures Xor(d, e) == (b ^ y) as bv16
  {
  }

  lemma ApartHalves(a: Byte, b: Byte, x: Byte, y: Byte)
    requires (a ^ x) as bv16 == Up(b ^ y)
    ensures a == x && b == y
  {
  }

  /** Two frames of equal length that differ only within two adjacent bytes never have the same CRC,
      so every such transmission error is detected. */
  lemma BurstDetected(s: seq<Byte>, a: Byte, b: Byte, x: Byte, y: Byte, t: seq<Byte>)
    requires (a, b) != (x, y)
    ensures Crc16(s + [a, b] + t) != Crc16(s + [x, y] + t)
  {
    hide Feed;
    CrcConcat(0xFFFF, s + [a, b], t);
    CrcConcat(0xFFFF, s + [x, y], t);
    CrcPair(s, a, b);
    CrcPair(s, x, y);
    PairsDiffer(Crc16(s), a, b, x, y);
    StaysDifferent(Crc16(s + [a, b]), Crc16(s + [x, y]), t);
  }

  lemma CrcPair(s: seq<Byte>, a: Byte, b: Byte)
    ensures Crc16(s + [a, b]) == Feed(Feed(Crc16(s), a), b)
  {
    hide Feed;
    CrcSnoc(0xFFFF, s, a);
    CrcSnoc(0xFFFF, s + [a], b);
    assert s + [a] + [b] == s + [a, b];
  }
}
