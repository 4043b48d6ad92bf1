/** The coil tables: a bit-packed buffer, the two helpers of mbutils.c, and the callback loops of
    user_mb_app.c over them. The helpers touch the byte behind the one they address, so the buffer carries
    two spare bytes that stand for the memory behind the table. */
module CoilTable {

  import opened CoilBits
  import opened Crc
  import opened Wrappers

  /** Coil p of a packed buffer. */
  predicate CoilAt(b: seq<Byte>, p: nat)
    requires p < 8 * |b|
  {
    ByteBit(b[p / 8], p % 8)
  }

  /** What xMBUtilSetBits does to coil q of the two bytes it works on: the field is replaced, and bits of the
      value beyond the field are added to the coils behind it. */
  predicate SetBit(was: bool, pre: nat, n: nat, value: Byte, q: nat)
  {
    if pre <= q < pre + 8 then
      if q < pre + n then ByteBit(value, q - pre) else was || ByteBit(value, q - pre)
    else was
  }

  function SetWord(w: bv16, pre: nat, n: nat, value: Byte): bv16
    requires pre < 8 && n <= 8
  {
    Or(And(w, Not(ShiftLeft(MaskOf(n), pre))), ShiftLeft(value as bv16, pre))
  }

  lemma SetWordBits(w: bv16, pre: nat, n: nat, value: Byte, q: nat)
    requires pre < 8 && n <= 8 && q < 16
    ensures Bit(SetWord(w, pre, n, value), q) <==> SetBit(Bit(w, q), pre, n, value, q)
  {
    hide Bit, ShiftLeft, MaskOf, And, Or, Not;
    var m, v := ShiftLeft(MaskOf(n), pre), ShiftLeft(value as bv16, pre);
    OrBits(And(w, Not(m)), v, q);
    AndBits(w, Not(m), q);
    NotBits(m, q);
    SmallMask(n, value);
    LeftBits(MaskOf(n), pre, q);
    LeftBits(value as bv16, pre, q);
    if pre <= q < pre + 8 { MaskBits(n, q - pre); }
  }

  lemma SmallMask(n: nat, value: Byte)
    requires n <= 8
    ensures MaskOf(n) <= 0xFF && value as bv16 <= 0xFF
  {
  }

  function GetWord(w: bv16, pre: nat, n: nat): bv16
    requires pre < 8 && n <= 8
  {
    And(ShiftRight(w, pre), MaskOf(n))
  }

  lemma GetWordBits(w: bv16, pre: nat, n: nat, j: nat)
    requires pre < 8 && n <= 8 && j < 8
    ensures GetWord(w, pre, n) <= 0xFF && (Bit(GetWord(w, pre, n), j) <==> j < n && Bit(w, pre + j))
  {
    hide Bit, ShiftRight, MaskOf;
    AndSmall(ShiftRight(w, pre), n);
    AndBits(ShiftRight(w, pre), MaskOf(n), j);
    RightBits(w, pre, j);
    MaskBits(n, j);
  }

  lemma AndSmall(w: bv16, n: nat)
    requires n <= 8
    ensures And(w, MaskOf(n)) <= 0xFF
  {
    assert MaskOf(n) <= 0xFF;
    UnderMask(w, MaskOf(n));
  }

  lemma UnderMask(w: bv16, m: bv16)
    requires m <= 0xFF
    ensures And(w, m) <= 0xFF
  {
  }

  /** The two bytes at i hold the word. */
  lemma WordCoils(b: seq<Byte>, i: nat, q: nat)
    requires i + 1 < |b| && q < 16
    ensures Bit(WordOf(b[i], b[i + 1]), q) <==> CoilAt(b, 8 * i + q)
  {
    hide Bit;
    WordBits(b[i], b[i + 1], q);
    assert (8 * i + q) / 8 == (if q < 8 then i else i + 1) && (8 * i + q) % 8 == (if q < 8 then q else q - 8);
  }

  /** Coils outside the field at `at` keep their value. */
  ghost predicate FieldSet(was: seq<Byte>, now: seq<Byte>, at: nat, n: nat, value: Byte)
  {
    |now| == |was| && forall p: nat :: p < 8 * |was| ==> CoilAt(now, p) == FieldBit(was, at, n, value, p)
  }

  predicate FieldBit(was: seq<Byte>, at: nat, n: nat, value: Byte, p: nat)
    requires p < 8 * |was|
  {
    if at <= p < at + 8 then
      if p < at + n then ByteBit(value, p - at) else CoilAt(was, p) || ByteBit(value, p - at)
    else CoilAt(was, p)
  }

  lemma StoredWord(was: seq<Byte>, now: seq<Byte>, i: nat, pre: nat, n: nat, value: Byte, p: nat)
    requires i + 1 < |was| == |now| && pre < 8 && n <= 8 && p < 8 * |was|
    requires WordOf(now[i], now[i + 1]) == SetWord(WordOf(was[i], was[i + 1]), pre, n, value)
    requires forall k :: 0 <= k < |was| && k != i && k != i + 1 ==> now[k] == was[k]
    ensures CoilAt(now, p) == FieldBit(was, 8 * i + pre, n, value, p)
  {
    hide Bit, SetWord, WordOf, ByteBit;
    if 8 * i <= p < 8 * i + 16 {
      var q := p - 8 * i;
      WordCoils(was, i, q);
      WordCoils(now, i, q);
      SetWordBits(WordOf(was[i], was[i + 1]), pre, n, value, q);
    } else {
      assert p / 8 != i && p / 8 != i + 1;
    }
  }

  // ----- a packed write, a packed read

  /** Coils s to s + n take the data's bits; the data's bits beyond n in its last byte are added to the
      coils behind; all others keep their value. */
  predicate WrittenBit(was: seq<Byte>, s: nat, n: nat, data: seq<Byte>, p: nat)
    requires p < 8 * |was| && n <= 8 * |data|
  {
    if s <= p < s + n then CoilAt(data, p - s)
    else if s + n <= p < s + Padded(n) then CoilAt(was, p) || StrayAt(data, p - s)
    else CoilAt(was, p)
  }

  predicate StrayAt(data: seq<Byte>, t: nat)
  {
    t < 8 * |data| && CoilAt(data, t)
  }

  /** n rounded up to whole bytes. */
  function Padded(n: nat): (r: nat)
    ensures n <= r < n + 8 && r % 8 == 0
  {
    if n % 8 == 0 then n else 8 * (n / 8 + 1)
  }

  ghost predicate Written(was: seq<Byte>, now: seq<Byte>, s: nat, n: nat, data: seq<Byte>)
    requires n <= 8 * |data|
  {
    |now| == |was| && forall p: nat :: p < 8 * |was| ==> CoilAt(now, p) == WrittenBit(was, s, n, data, p)
  }

  /** Byte after byte, bit after bit, the slice from s on; zero behind it. */
  ghost predicate Packed(b: seq<Byte>, s: nat, n: nat, r: seq<Byte>)
    requires s + n <= 8 * |b|
  {
    && |r| == n / 8 + 1
    && forall t: nat :: t < 8 * |r| ==> CoilAt(r, t) == (t < n && CoilAt(b, s + t))
  }

  /** The bits of the last byte beyond n are zero. */
  predicate ZeroPadded(data: seq<Byte>, n: nat)
    requires Padded(n) <= 8 * |data|
  {
    forall t :: n <= t < Padded(n) ==> !CoilAt(data, t)
  }

  /** One more whole byte written. */
  lemma WriteByte(was: seq<Byte>, mid: seq<Byte>, now: seq<Byte>, s: nat, k: nat, data: seq<Byte>)
    requires 8 * k <= 8 * |data| && k < |data| && Written(was, mid, s, 8 * k, data)
    requires FieldSet(mid, now, s + 8 * k, 8, data[k])
    ensures Written(was, now, s, 8 * k + 8, data)
  {
    hide ByteBit;
    forall p: nat | p < 8 * |was| ensures CoilAt(now, p) == WrittenBit(was, s, 8 * k + 8, data, p) {
      WriteByteAt(was, mid, now, s, k, data, p);
    }
  }

  lemma WriteByteAt(was: seq<Byte>, mid: seq<Byte>, now: seq<Byte>, s: nat, k: nat, data: seq<Byte>, p: nat)
    requires k < |data| && Written(was, mid, s, 8 * k, data) && p < 8 * |was|
    requires FieldSet(mid, now, s + 8 * k, 8, data[k])
    ensures CoilAt(now, p) == WrittenBit(was, s, 8 * k + 8, data, p)
  {
    hide ByteBit, CoilAt;
    assert CoilAt(mid, p) == WrittenBit(was, s, 8 * k, data, p);
    assert CoilAt(now, p) == FieldBit(mid, s + 8 * k, 8, data[k], p);
    if s + 8 * k <= p < s + 8 * k + 8 { DataBit(data, k, p - s - 8 * k); }
  }

  lemma DataBit(data: seq<Byte>, k: nat, j: nat)
    requires k < |data| && j < 8
    ensures CoilAt(data, 8 * k + j) == ByteBit(data[k], j)
  {
    assert (8 * k + j) / 8 == k && (8 * k + j) % 8 == j;
  }

  /** The last, partial byte written. */
  lemma WriteRest(was: seq<Byte>, mid: seq<Byte>, now: seq<Byte>, s: nat, n: nat, data: seq<Byte>)
    requires n % 8 != 0 && n / 8 < |data| && Written(was, mid, s, 8 * (n / 8), data)
    requires FieldSet(mid, now, s + 8 * (n / 8), n % 8, data[n / 8])
    ensures Written(was, now, s, n, data)
  {
    forall p: nat | p < 8 * |was| ensures CoilAt(now, p) == WrittenBit(was, s, n, data, p) {
      WriteRestAt(was, mid, now, s, n, data, p);
    }
  }

  lemma WriteRestAt(was: seq<Byte>, mid: seq<Byte>, now: seq<Byte>, s: nat, n: nat, data: seq<Byte>, p: nat)
    requires n % 8 != 0 && n / 8 < |data| && Written(was, mid, s, 8 * (n / 8), data) && p < 8 * |was|
    requires FieldSet(mid, now, s + 8 * (n / 8), n % 8, data[n / 8])
    ensures CoilAt(now, p) == WrittenBit(was, s, n, data, p)
  {
    hide ByteBit, CoilAt;
    var k := n / 8;
    assert CoilAt(mid, p) == WrittenBit(was, s, 8 * k, data, p);
    assert CoilAt(now, p) == FieldBit(mid, s + 8 * k, n % 8, data[k], p);
    if s + 8 * k <= p < s + 8 * k + 8 { DataBit(data, k, p - s - 8 * k); }
  }

  /** A write changes exactly the coils it names if and only if every stray bit of its last byte falls on a
      coil that was set already. */
  lemma WriteExactIff(was: seq<Byte>, now: seq<Byte>, s: nat, n: nat, data: seq<Byte>)
    requires n <= 8 * |data| && Written(was, now, s, n, data)
    ensures (forall p: nat :: p < 8 * |was| && !(s <= p < s + n) ==> CoilAt(now, p) == CoilAt(was, p))
       <==> (forall p: nat :: s + n <= p < s + Padded(n) && p < 8 * |was| && StrayAt(data, p - s) ==> CoilAt(was, p))
  {
    hide CoilAt;
    if forall p: nat :: p < 8 * |was| && !(s <= p < s + n) ==> CoilAt(now, p) == CoilAt(was, p) {
      forall p: nat | s + n <= p < s + Padded(n) && p < 8 * |was| && StrayAt(data, p - s) ensures CoilAt(was, p) {
        assert CoilAt(now, p) == WrittenBit(was, s, n, data, p);
      }
    }
  }

  /** A zero-padded write sets exactly the coils it names. */
  lemma PaddedWriteExact(was: seq<Byte>, now: seq<Byte>, s: nat, n: nat, data: seq<Byte>, p: nat)
    requires Padded(n) <= 8 * |data| && Written(was, now, s, n, data) && ZeroPadded(data, n) && p < 8 * |was|
    ensures CoilAt(now, p) == if s <= p < s + n then CoilAt(data, p - s) else CoilAt(was, p)
  {
    hide CoilAt;
    assert CoilAt(now, p) == WrittenBit(was, s, n, data, p);
  }

  /** What was written is what is read back. */
  lemma ReadAfterWrite(was: seq<Byte>, now: seq<Byte>, s: nat, n: nat, data: seq<Byte>, r: seq<Byte>, k: nat)
    requires 8 * |data| == Padded(n) && Written(was, now, s, n, data) && ZeroPadded(data, n)
    requires s + n <= 8 * |was| && Packed(now, s, n, r) && k < |data|
    ensures k < |r| && r[k] == data[k]
  {
    forall j | 0 <= j < 8 ensures ByteBit(r[k], j) == ByteBit(data[k], j) {
      DataBit(r, k, j);
      DataBit(data, k, j);
      var t := 8 * k + j;
      assert CoilAt(r, t) == (t < n && CoilAt(now, s + t));
      if t < n { PaddedWriteExact(was, now, s, n, data, s + t); } else { assert !CoilAt(data, t); }
    }
    SameBits(r[k], data[k]);
  }

  /** The bytes read so far hold the coils from s on. */
  ghost predicate ReadSoFar(b: seq<Byte>, s: nat, r: seq<Byte>)
  {
    forall t: nat :: t < 8 * |r| ==> s + t < 8 * |b| && CoilAt(r, t) == CoilAt(b, s + t)
  }

  lemma ReadAt(b: seq<Byte>, s: nat, r: seq<Byte>, t: nat)
    requires ReadSoFar(b, s, r) && t < 8 * |r|
    ensures s + t < 8 * |b| && CoilAt(r, t) == CoilAt(b, s + t)
  {
    hide CoilAt;
    assert CoilAt(r, t) || !CoilAt(r, t);
  }

  lemma PrefixBit(r: seq<Byte>, x: Byte, t: nat)
    requires t < 8 * |r|
    ensures CoilAt(r + [x], t) == CoilAt(r, t)
  {
    hide ByteBit;
    assert (r + [x])[t / 8] == r[t / 8];
  }

  lemma AppendByte(b: seq<Byte>, s: nat, r: seq<Byte>, x: Byte)
    requires ReadSoFar(b, s, r) && s + 8 * |r| + 8 <= 8 * |b|
    requires forall j :: 0 <= j < 8 ==> ByteBit(x, j) == CoilAt(b, 8 * (s / 8 + |r|) + s % 8 + j)
    ensures ReadSoFar(b, s, r + [x])
  {
    hide ByteBit, CoilAt;
    var c := r + [x];
    forall t: nat | t < 8 * |c| ensures s + t < 8 * |b| && CoilAt(c, t) == CoilAt(b, s + t) {
      if t < 8 * |r| {
        PrefixBit(r, x, t);
        ReadAt(b, s, r, t);
      } else {
        var j := t - 8 * |r|;
        DataBit(c, |r|, j);
        assert 8 * (s / 8 + |r|) + s % 8 + j == s + t;
        assert ByteBit(x, j) == CoilAt(b, 8 * (s / 8 + |r|) + s % 8 + j);
      }
    }
  }

  /** *p << (8 - k) >> (8 - k) on an unsigned char. */
  function ShiftOut(x: Byte, k: nat): Byte
    requires k < 8
  {
    if k < 4 then (if k == 0 then 0 else if k == 1 then (x << 7) >> 7 else if k == 2 then (x << 6) >> 6 else (x << 5) >> 5)
    else (if k == 4 then (x << 4) >> 4 else if k == 5 then (x << 3) >> 3 else if k == 6 then (x << 2) >> 2 else (x << 1) >> 1)
  }

  lemma ShiftOutBits(x: Byte, k: nat, j: nat)
    requires k < 8 && j < 8
    ensures ByteBit(ShiftOut(x, k), j) <==> j < k && ByteBit(x, j)
  {
    if k < 4 { ShiftOutLow(x, k, j); } else { ShiftOutHigh(x, k, j); }
  }

  lemma ShiftOutLow(x: Byte, k: nat, j: nat)
    requires k < 4 && j < 8
    ensures ByteBit(ShiftOut(x, k), j) <==> j < k && ByteBit(x, j)
  {
  }

  lemma ShiftOutHigh(x: Byte, k: nat, j: nat)
    requires 4 <= k < 8 && j < 8
    ensures ByteBit(ShiftOut(x, k), j) <==> j < k && ByteBit(x, j)
  {
  }

  /** Clearing the last byte above the last coil leaves the packed slice. */
  lemma ClearLast(b: seq<Byte>, s: nat, n: nat, r: seq<Byte>)
    requires ReadSoFar(b, s, r) && |r| == n / 8 + 1 && s + n <= 8 * |b|
    ensures Packed(b, s, n, r[n / 8 := ShiftOut(r[n / 8], n % 8)])
  {
    hide ByteBit, ShiftOut;
    var k := n / 8;
    var c := r[k := ShiftOut(r[k], n % 8)];
    forall t: nat | t < 8 * |c| ensures CoilAt(c, t) == (t < n && CoilAt(b, s + t)) {
      ReadAt(b, s, r, t);
      if t >= 8 * k {
        DataBit(c, k, t - 8 * k);
        DataBit(r, k, t - 8 * k);
        ShiftOutBits(r[k], n % 8, t - 8 * k);
      } else {
        assert c[t / 8] == r[t / 8];
      }
    }
  }

  // ----- the bytes the helpers touch

  predicate Between(a: nat, b: nat, i: nat)
  {
    a <= i <= b
  }

  /** The bytes from a to b, both included. */
  function Span(a: nat, b: nat): set<nat>
  {
    set i: nat | a <= i <= b && Between(a, b, i)
  }

  /** The bytes a write, and a read, of n coils from s on touches. */
  function WriteSpan(s: nat, n: nat): set<nat>
  {
    if n == 0 then {} else Span(s / 8, s / 8 + Padded(n) / 8)
  }

  function ReadSpan(s: nat, n: nat): set<nat>
  {
    Span(s / 8, s / 8 + n / 8 + 1)
  }

  /** Writing inside a table of B bytes touches the byte behind the table exactly when the last helper call
      is on the table's last byte, and nothing further behind. */
  lemma WritePastIff(s: nat, n: nat, B: nat)
    requires n > 0 && s + n <= 8 * B
    ensures B in WriteSpan(s, n) <==> s / 8 + Padded(n) / 8 == B
    ensures forall i :: i in WriteSpan(s, n) ==> i <= B
  {
  }

  /** Reading touches the byte behind the table exactly when the last helper call is on the table's last byte
      or behind it, and a second byte behind exactly for whole bytes up to the table's end. */
  lemma ReadPastIff(s: nat, n: nat, B: nat)
    requires s + n <= 8 * B
    ensures B in ReadSpan(s, n) <==> s / 8 + n / 8 + 1 >= B
    ensures B + 1 in ReadSpan(s, n) <==> s % 8 == 0 && n % 8 == 0 && s + n == 8 * B
    ensures forall i :: i in ReadSpan(s, n) ==> i <= B + 1
  {
  }

  // ----- the table

  class Coils {
    const count: nat
    const buf: array<Byte>

    ghost predicate Valid()
    {
      buf.Length == count / 8 + 2
    }

    /** `count` coils, all off. */
    constructor (count: nat)
      ensures Valid() && this.count == count && fresh(buf) && forall i :: 0 <= i < buf.Length ==> buf[i] == 0
    {
      this.count := count;
      buf := new Byte[count / 8 + 2](_ => 0);
    }

    /** xMBUtilSetBits on the bytes from i on. */
    method SetBits(i: nat, pre: nat, nBits: nat, value: Byte) returns (ghost touched: set<nat>)
      requires i + 1 < buf.Length && pre < 8 && nBits <= 8
      modifies buf
      ensures touched == {i, i + 1}
      ensures FieldSet(old(buf[..]), buf[..], 8 * i + pre, nBits, value)
    {
      hide SetWord, WordOf, CoilAt;
      touched := {i, i + 1};
      var wordBuf := SetWord(WordOf(buf[i], buf[i + 1]), pre, nBits, value);
      WordSplit(wordBuf);
      buf[i] := (wordBuf & 0xFF) as Byte;
      buf[i + 1] := (wordBuf >> 8) as Byte;
      ghost var was := old(buf[..]);
      forall p: nat | p < 8 * |was| ensures CoilAt(buf[..], p) == FieldBit(was, 8 * i + pre, nBits, value, p) {
        StoredWord(was, buf[..], i, pre, nBits, value, p);
      }
    }

    /** xMBUtilGetBits on the bytes from i on. */
    method GetBits(i: nat, pre: nat, nBits: nat) returns (r: Byte, ghost touched: set<nat>)
      requires i + 1 < buf.Length && pre < 8 && nBits <= 8
      ensures touched == {i, i + 1}
      ensures forall j :: 0 <= j < 8 ==> ByteBit(r, j) == (j < nBits && CoilAt(buf[..], 8 * i + pre + j))
    {
      hide GetWord, WordOf, CoilAt, Bit;
      touched := {i, i + 1};
      ghost var w := WordOf(buf[i], buf[i + 1]);
      var wordBuf := GetWord(WordOf(buf[i], buf[i + 1]), pre, nBits);
      GetWordBits(w, pre, nBits, 0);
      r := wordBuf as Byte;
      forall j | 0 <= j < 8 ensures ByteBit(r, j) == (j < nBits && CoilAt(buf[..], 8 * i + pre + j)) {
        GetWordBits(w, pre, nBits, j);
        WordCoils(buf[..], i, pre + j);
        assert r as bv16 == wordBuf;
      }
    }

    /** The MB_REG_WRITE loop of the coil callbacks; `touched` are the bytes the helper was used on. */
    method Write(s: nat, n: nat, data: seq<Byte>) returns (ghost touched: set<nat>)
      requires (n > 0 ==> s / 8 + Padded(n) / 8 < buf.Length) && Padded(n) <= 8 * |data|
      modifies buf
      ensures Written(old(buf[..]), buf[..], s, n, data)
      ensures touched == WriteSpan(s, n)
    {
      touched := {};
      hide Written, FieldSet;
      ghost var was := buf[..];
      var iNReg := n / 8 + 1;
      var iRegIndex := s / 8;
      var pos: nat := 0;
      NothingWritten(was, s, data);
      while iNReg > 1
        invariant iNReg + pos == n / 8 + 1 && iNReg >= 1 && iRegIndex == s / 8 + pos
        invariant Written(was, buf[..], s, 8 * pos, data)
        invariant touched == if pos == 0 then {} else Span(s / 8, s / 8 + pos)
      {
        ghost var mid := buf[..];
        ghost var t := SetBits(iRegIndex, s % 8, 8, data[pos]);
        touched := touched + t;
        WriteByte(was, mid, buf[..], s, pos, data);
        iRegIndex := iRegIndex + 1;
        iNReg := iNReg - 1;
        pos := pos + 1;
      }
      if n % 8 != 0 {
        ghost var mid := buf[..];
        ghost var t := SetBits(iRegIndex, s % 8, n % 8, data[pos]);
        touched := touched + t;
        WriteRest(was, mid, buf[..], s, n, data);
      }
    }

    lemma NothingRead(b: seq<Byte>, s: nat)
      ensures ReadSoFar(b, s, [])
    {
    }

    lemma NothingWritten(b: seq<Byte>, s: nat, data: seq<Byte>)
      ensures Written(b, b, s, 0, data)
    {
    }

    /** The MB_REG_READ loop of the coil callbacks: one byte more than needed when n is a multiple of 8, and
        the last byte cleared above the last coil. */
    method Read(s: nat, n: nat) returns (r: seq<Byte>, ghost touched: set<nat>)
      requires s / 8 + n / 8 + 1 < buf.Length
      ensures s + n <= 8 * buf.Length && Packed(buf[..], s, n, r)
      ensures touched == ReadSpan(s, n)
    {
      touched := {};
      hide CoilAt, ByteBit, ReadSoFar, Packed, ShiftOut;
      NothingRead(buf[..], s);
      r := [];
      var iNReg := n / 8 + 1;
      var iRegIndex := s / 8;
      while iNReg > 0
        invariant iNReg >= 0 && iNReg + |r| == n / 8 + 1 && iRegIndex == s / 8 + |r|
        invariant ReadSoFar(buf[..], s, r)
        invariant touched == if |r| == 0 then {} else Span(s / 8, s / 8 + |r|)
      {
        var x, t := GetBits(iRegIndex, s % 8, 8);
        touched := touched + t;
        AppendByte(buf[..], s, r, x);
        r := r + [x];
        iRegIndex := iRegIndex + 1;
        iNReg := iNReg - 1;
      }
      ClearLast(buf[..], s, n, r);
      r := r[n / 8 := ShiftOut(r[n / 8], n % 8)];
    }
  }
}
