/** Bits of bytes and of the 16-bit words that mbutils.c works on. Bit 0 is the least significant. */
module CoilBits {

  import opened Crc

  function Pow(q: nat): bv16
    requires q < 16
  {
    if q < 8 then
      if q < 4 then (if q == 0 then 0x1 else if q == 1 then 0x2 else if q == 2 then 0x4 else 0x8)
      else (if q == 4 then 0x10 else if q == 5 then 0x20 else if q == 6 then 0x40 else 0x80)
    else
      if q < 12 then (if q == 8 then 0x100 else if q == 9 then 0x200 else if q == 10 then 0x400 else 0x800)
      else (if q == 12 then 0x1000 else if q == 13 then 0x2000 else if q == 14 then 0x4000 else 0x8000)
  }

  function And(a: bv16, b: bv16): bv16 { a & b }

  function Or(a: bv16, b: bv16): bv16 { a | b }

  function Not(a: bv16): bv16 { !a }

  predicate Bit(w: bv16, q: nat)
    requires q < 16
  {
    And(w, Pow(q)) != 0
  }

  predicate ByteBit(x: Byte, j: nat)
    requires j < 8
  {
    Bit(x as bv16, j)
  }

  /** Two bytes of the buffer as usWordBuf. */
  function WordOf(lo: Byte, hi: Byte): bv16
  {
    (lo as bv16) | ((hi as bv16) << 8)
  }

  function ShiftLeft(w: bv16, pre: nat): bv16
    requires pre < 8
  {
    if pre < 4 then (if pre == 0 then w else if pre == 1 then w << 1 else if pre == 2 then w << 2 else w << 3)
    else (if pre == 4 then w << 4 else if pre == 5 then w << 5 else if pre == 6 then w << 6 else w << 7)
  }

  function ShiftRight(w: bv16, pre: nat): bv16
    requires pre < 8
  {
    if pre < 4 then (if pre == 0 then w else if pre == 1 then w >> 1 else if pre == 2 then w >> 2 else w >> 3)
    else (if pre == 4 then w >> 4 else if pre == 5 then w >> 5 else if pre == 6 then w >> 6 else w >> 7)
  }

  /** ( 1 << ucNBits ) - 1 */
  function MaskOf(n: nat): bv16
    requires n <= 8
  {
    if n == 8 then 0xFF else Pow(n) - 1
  }

  lemma WordBits(lo: Byte, hi: Byte, q: nat)
    requires q < 16
    ensures Bit(WordOf(lo, hi), q) <==> if q < 8 then ByteBit(lo, q) else ByteBit(hi, q - 8)
  {
  }

  lemma WordSplit(w: bv16)
    ensures WordOf((w & 0xFF) as Byte, (w >> 8) as Byte) == w
  {
  }

  lemma MaskBits(n: nat, q: nat)
    requires n <= 8 && q < 16
    ensures Bit(MaskOf(n), q) <==> q < n
  {
  }

  lemma RightBits(w: bv16, pre: nat, j: nat)
    requires pre < 8 && j < 8
    ensures Bit(ShiftRight(w, pre), j) <==> Bit(w, pre + j)
  {
    if pre < 4 {
      if pre < 2 { RightBits01(w, pre, j); } else { RightBits23(w, pre, j); }
    } else {
      if pre < 6 { RightBits45(w, pre, j); } else { RightBits67(w, pre, j); }
    }
  }

  lemma RightBits01(w: bv16, pre: nat, j: nat)
    requires pre < 2 && j < 8
    ensures Bit(ShiftRight(w, pre), j) <==> Bit(w, pre + j)
  {
  }

  lemma RightBits23(w: bv16, pre: nat, j: nat)
    requires 2 <= pre < 4 && j < 8
    ensures Bit(ShiftRight(w, pre), j) <==> Bit(w, pre + j)
  {
  }

  lemma RightBits45(w: bv16, pre: nat, j: nat)
    requires 4 <= pre < 6 && j < 8
    ensures Bit(ShiftRight(w, pre), j) <==> Bit(w, pre + j)
  {
  }

  lemma RightBits67(w: bv16, pre: nat, j: nat)
    requires 6 <= pre < 8 && j < 8
    ensures Bit(ShiftRight(w, pre), j) <==> Bit(w, pre + j)
  {
  }

  lemma LeftBits(w: bv16, pre: nat, q: nat)
    requires pre < 8 && q < 16 && w <= 0xFF
    ensures Bit(ShiftLeft(w, pre), q) <==> pre <= q < pre + 8 && Bit(w, q - pre)
  {
    if pre < 4 {
      if pre < 2 { LeftBits01(w, pre, q); } else { LeftBits23(w, pre, q); }
    } else {
      if pre < 6 { LeftBits45(w, pre, q); } else { LeftBits67(w, pre, q); }
    }
  }

  lemma LeftBits01(w: bv16, pre: nat, q: nat)
    requires 0 <= pre < 2 && q < 16 && w <= 0xFF
    ensures Bit(ShiftLeft(w, pre), q) <==> pre <= q < pre + 8 && Bit(w, q - pre)
  {
  }

  lemma LeftBits23(w: bv16, pre: nat, q: nat)
    requires 2 <= pre < 4 && q < 16 && w <= 0xFF
    ensures Bit(ShiftLeft(w, pre), q) <==> pre <= q < pre + 8 && Bit(w, q - pre)
  {
  }

  lemma LeftBits45(w: bv16, pre: nat, q: nat)
    requires 4 <= pre < 6 && q < 16 && w <= 0xFF
    ensures Bit(ShiftLeft(w, pre), q) <==> pre <= q < pre + 8 && Bit(w, q - pre)
  {
  }

  lemma LeftBits67(w: bv16, pre: nat, q: nat)
    requires 6 <= pre < 8 && q < 16 && w <= 0xFF
    ensures Bit(ShiftLeft(w, pre), q) <==> pre <= q < pre + 8 && Bit(w, q - pre)
  {
  }

  lemma AndBits(a: bv16, b: bv16, q: nat)
    requires q < 16
    ensures Bit(And(a, b), q) <==> Bit(a, q) && Bit(b, q)
  {
    hide Pow, And;
    DistributeAnd(a, b, Pow(q));
    OnePow(a, q);
    OnePow(b, q);
    OneBitOps(Pow(q));
  }

  lemma OrBits(a: bv16, b: bv16, q: nat)
    requires q < 16
    ensures Bit(Or(a, b), q) <==> Bit(a, q) || Bit(b, q)
  {
    hide Pow, And, Or;
    DistributeOr(a, b, Pow(q));
    OnePow(a, q);
    OnePow(b, q);
    OneBitOps(Pow(q));
  }

  lemma NotBits(a: bv16, q: nat)
    requires q < 16
    ensures Bit(Not(a), q) <==> !Bit(a, q)
  {
    hide Pow, And, Or, Not;
    OnePow(a, q);
    NotMasked(a, Pow(q));
  }

  lemma OnePow(a: bv16, q: nat)
    requires q < 16
    ensures Pow(q) != 0 && (And(a, Pow(q)) == 0 || And(a, Pow(q)) == Pow(q))
  {
  }

  lemma OneBitOps(p: bv16)
    ensures And(0, 0) == 0 && And(0, p) == 0 && And(p, 0) == 0 && And(p, p) == p
    ensures Or(0, 0) == 0 && Or(0, p) == p && Or(p, 0) == p && Or(p, p) == p
  {
  }

  lemma DistributeAnd(a: bv16, b: bv16, p: bv16)
    ensures And(And(a, b), p) == And(And(a, p), And(b, p))
  {
  }

  lemma DistributeOr(a: bv16, b: bv16, p: bv16)
    ensures And(Or(a, b), p) == Or(And(a, p), And(b, p))
  {
  }

  lemma NotMasked(a: bv16, p: bv16)
    requires p != 0
    ensures And(a, p) == 0 ==> And(Not(a), p) == p
    ensures And(a, p) == p ==> And(Not(a), p) == 0
  {
  }

  /** A byte is its eight bits. */
  lemma SameBits(x: Byte, y: Byte)
    requires forall j :: 0 <= j < 8 ==> ByteBit(x, j) == ByteBit(y, j)
    ensures x == y
  {
    assert ByteBit(x, 0) == ByteBit(y, 0) && ByteBit(x, 1) == ByteBit(y, 1) && ByteBit(x, 2) == ByteBit(y, 2);
    assert ByteBit(x, 3) == ByteBit(y, 3) && ByteBit(x, 4) == ByteBit(y, 4) && ByteBit(x, 5) == ByteBit(y, 5);
    assert ByteBit(x, 6) == ByteBit(y, 6) && ByteBit(x, 7) == ByteBit(y, 7);
  }
}
