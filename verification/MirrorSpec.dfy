/** Function codes 1, 3, 5, 6, 15, 16 and 23, end to end: the PDUs the master builds, what the slave's
    handlers do with them, and how the master's handlers update its mirror of that slave. A frame is the
    buffer from the function code on; only its first `len` bytes count. */
module MirrorSpec {

  import opened CoilBits
  import opened CoilTable
  import opened Crc
  import opened Wrappers

  const NCOILS := 64        // S_COIL_NCOILS, M_COIL_NCOILS
  const NREGS := 100        // S_REG_HOLDING_NREGS, M_REG_HOLDING_NREGS
  const FRAME_SIZE := 255   // the serial buffer behind the address byte

  datatype Exception = None_ | IllegalFunction | IllegalDataAddress | IllegalDataValue

  /** The slave's tables, or the master's mirror of them. */
  datatype Tables = Tables(coils: seq<bool>, regs: seq<bv16>)

  predicate Sized(t: Tables)
  {
    |t.coils| >= NCOILS && |t.regs| == NREGS
  }

  predicate Frame(f: seq<Byte>)
  {
    |f| == FRAME_SIZE
  }

  // ----- numbers in bytes

  function Num(b: Byte): (n: nat)
  {
    b as nat
  }

  function ByteOf(n: nat): Byte
  {
    (n % 256) as Byte
  }

  lemma NumOfByte(n: nat)
    ensures Num(ByteOf(n)) == n % 256
  {
    ByteBack(n % 256);
  }

  lemma ByteBack(m: nat)
    requires m < 256
    ensures (m as Byte) as nat == m
  {
    var b := CountUp(m);
    BackByte(b, m);
  }

  lemma BackByte(b: Byte, m: nat)
    requires b as nat == m
    ensures m as Byte == b
  {
  }

  lemma {:induction false} CountUp(m: nat) returns (b: Byte)
    requires m < 256
    ensures b as nat == m
  {
    b := 0;
    if m > 0 {
      var c := CountUp(m - 1);
      b := c + 1;
    }
  }

  lemma NumRange(b: Byte)
    ensures Num(b) < 256
  {
  }

  function U16(hi: Byte, lo: Byte): nat
  {
    256 * Num(hi) + Num(lo)
  }

  /** What goes into two bytes comes out again. */
  lemma U16Back(n: nat)
    requires n < 0x1_0000
    ensures U16(ByteOf(n / 256), ByteOf(n)) == n
  {
    hide Num, ByteOf;
    NumOfByte(n / 256);
    NumOfByte(n);
  }

  function HiByte(r: bv16): Byte
  {
    (r >> 8) as Byte
  }

  function LoByte(r: bv16): Byte
  {
    (r & 0xFF) as Byte
  }

  // ----- the tables

  function WriteRegs(regs: seq<bv16>, s: nat, n: nat, data: seq<Byte>): (r: seq<bv16>)
    requires 2 * n <= |data|
    ensures |r| == |regs|
  {
    seq(|regs|, i requires 0 <= i < |regs| =>
      if s <= i < s + n then WordOf(data[2 * (i - s) + 1], data[2 * (i - s)]) else regs[i])
  }

  function ReadRegs(regs: seq<bv16>, s: nat, n: nat): (r: seq<Byte>)
    requires s + n <= |regs|
    ensures |r| == 2 * n
  {
    seq(2 * n, k requires 0 <= k < 2 * n =>
      if k % 2 == 0 then HiByte(regs[s + k / 2]) else LoByte(regs[s + k / 2]))
  }

  function WriteCoils(v: seq<bool>, s: nat, n: nat, data: seq<Byte>): (r: seq<bool>)
    requires Padded(n) <= 8 * |data|
    ensures |r| == |v|
  {
    seq(|v|, p requires 0 <= p < |v| =>
      if s <= p < s + n then CoilAt(data, p - s)
      else if s + n <= p < s + Padded(n) then v[p] || CoilAt(data, p - s)
      else v[p])
  }

  function One(b: bool, x: Byte): Byte
  {
    if b then x else 0
  }

  function PackByte(v: seq<bool>): Byte
    requires |v| == 8
  {
    One(v[0], 0x01) | One(v[1], 0x02) | One(v[2], 0x04) | One(v[3], 0x08)
    | One(v[4], 0x10) | One(v[5], 0x20) | One(v[6], 0x40) | One(v[7], 0x80)
  }

  lemma PackByteBits(v: seq<bool>, j: nat)
    requires |v| == 8 && j < 8
    ensures ByteBit(PackByte(v), j) == v[j]
  {
  }

  /** The bit in position t of a packed read, zero behind the last coil. */
  function Slot(v: seq<bool>, s: nat, n: nat, t: nat): bool
    requires s + n <= |v|
  {
    t < n && v[s + t]
  }

  function ReadCoils(v: seq<bool>, s: nat, n: nat): (r: seq<Byte>)
    requires s + n <= |v|
    ensures 8 * |r| == Padded(n)
  {
    seq(Padded(n) / 8, k requires 0 <= k < Padded(n) / 8 =>
      PackByte(seq(8, j requires 0 <= j < 8 => Slot(v, s, n, 8 * k + j))))
  }

  lemma ReadCoilsBits(v: seq<bool>, s: nat, n: nat, t: nat)
    requires s + n <= |v| && t < Padded(n)
    ensures CoilAt(ReadCoils(v, s, n), t) == Slot(v, s, n, t)
  {
    hide ByteBit, PackByte;
    var k, j := t / 8, t % 8;
    var bits := seq(8, i requires 0 <= i < 8 => Slot(v, s, n, 8 * k + i));
    PackByteBits(bits, j);
    assert ReadCoils(v, s, n)[k] == PackByte(bits);
  }

  lemma WriteReadRegs(m: seq<bv16>, regs: seq<bv16>, s: nat, n: nat, data: seq<Byte>, i: nat)
    requires s + n <= |regs| && 2 * n <= |data| && data[..2 * n] == ReadRegs(regs, s, n) && |m| == |regs| && i < |m|
    ensures WriteRegs(m, s, n, data)[i] == if s <= i < s + n then regs[i] else m[i]
  {
    hide WordOf, HiByte, LoByte;
    if s <= i < s + n {
      var k := 2 * (i - s);
      assert data[k] == data[..2 * n][k] && data[k + 1] == data[..2 * n][k + 1];
      assert ReadRegs(regs, s, n)[k] == HiByte(regs[i]) && ReadRegs(regs, s, n)[k + 1] == LoByte(regs[i]);
      RegBytes(regs[i]);
    }
  }

  lemma RegBytes(r: bv16)
    ensures WordOf(LoByte(r), HiByte(r)) == r
  {
    WordSplit(r);
  }

  lemma WriteReadCoils(m: seq<bool>, v: seq<bool>, s: nat, n: nat, data: seq<Byte>, p: nat)
    requires s + n <= |v| && Padded(n) <= 8 * |data| && data[..Padded(n) / 8] == ReadCoils(v, s, n)
    requires |m| >= s + n && p < |m|
    ensures WriteCoils(m, s, n, data)[p] == if s <= p < s + n then v[p] else m[p]
  {
    hide ReadCoils, CoilAt;
    if s <= p < s + Padded(n) {
      ReadCoilsBits(v, s, n, p - s);
      PrefixCoil(data, Padded(n) / 8, p - s);
    }
  }

  lemma PrefixCoil(data: seq<Byte>, k: nat, t: nat)
    requires k <= |data| && t < 8 * k
    ensures CoilAt(data[..k], t) == CoilAt(data, t)
  {
    hide ByteBit;
    assert data[..k][t / 8] == data[t / 8];
  }

  /** The same write on agreeing tables leaves them agreeing, stray bits and all. */
  predicate Agree(m: Tables, s: Tables)
  {
    Sized(m) && Sized(s) && m.coils[..NCOILS] == s.coils[..NCOILS] && m.regs == s.regs
  }

  lemma SameCoilWrite(m: seq<bool>, v: seq<bool>, s: nat, n: nat, data: seq<Byte>, data2: seq<Byte>)
    requires |m| >= NCOILS && |v| >= NCOILS && m[..NCOILS] == v[..NCOILS]
    requires Padded(n) <= 8 * |data| && Padded(n) <= 8 * |data2| && data[..Padded(n) / 8] == data2[..Padded(n) / 8]
    ensures WriteCoils(m, s, n, data)[..NCOILS] == WriteCoils(v, s, n, data2)[..NCOILS]
  {
    hide CoilAt;
    var a, b := WriteCoils(m, s, n, data), WriteCoils(v, s, n, data2);
    forall p | 0 <= p < NCOILS ensures a[p] == b[p] {
      assert m[p] == m[..NCOILS][p] && v[p] == v[..NCOILS][p];
      if s <= p < s + Padded(n) {
        PrefixCoil(data, Padded(n) / 8, p - s);
        PrefixCoil(data2, Padded(n) / 8, p - s);
      }
    }
  }

  lemma SameRegWrite(m: seq<bv16>, s: nat, n: nat, data: seq<Byte>, data2: seq<Byte>)
    requires 2 * n <= |data| && 2 * n <= |data2| && data[..2 * n] == data2[..2 * n]
    ensures WriteRegs(m, s, n, data) == WriteRegs(m, s, n, data2)
  {
    hide WordOf;
    var a, b := WriteRegs(m, s, n, data), WriteRegs(m, s, n, data2);
    forall i | 0 <= i < |m| ensures a[i] == b[i] {
      if s <= i < s + n {
        var k := 2 * (i - s);
        assert data[k] == data[..2 * n][k] && data[k + 1] == data[..2 * n][k + 1];
        assert data2[k] == data2[..2 * n][k] && data2[k + 1] == data2[..2 * n][k + 1];
      }
    }
  }

  // ----- the slave's handlers

  datatype Answer = Answer(exc: Exception, f: seq<Byte>, len: nat, t: Tables)

  /** The frame with `bytes` written over its start. */
  function Put(f: seq<Byte>, bytes: seq<Byte>): (r: seq<Byte>)
    requires |bytes| <= |f|
    ensures |r| == |f| && r[..|bytes|] == bytes
  {
    bytes + f[|bytes|..]
  }

  /** ucNBytes: n coils in whole bytes. */
  function NBytes(n: nat): nat
  {
    Padded(n) / 8
  }

  /** What the read loop leaves: one more, cleared, byte when n is a multiple of 8. */
  function ReadLoop(v: seq<bool>, s: nat, n: nat): (r: seq<Byte>)
    requires s + n <= |v|
    ensures |r| == n / 8 + 1
  {
    ReadCoils(v, s, n) + (if n % 8 == 0 then [0] else [])
  }

  /** eMBFuncReadCoils; the count must be below 2000, where the standard allows 2000. */
  function SlaveReadCoils(t: Tables, f: seq<Byte>, len: nat): Answer
    requires Sized(t) && Frame(f)
  {
    if len != 5 then Answer(IllegalDataValue, f, len, t) else
      var addr, n := U16(f[1], f[2]), U16(f[3], f[4]);
      if !(1 <= n < 0x07D0) then Answer(IllegalDataValue, f, len, t) else
        var g := Put(f, [0x01, ByteOf(NBytes(n))]);
        if addr + n <= NCOILS then
          Answer(None_, Put(f, [0x01, ByteOf(NBytes(n))] + ReadLoop(t.coils, addr, n)), 2 + NBytes(n), t)
        else Answer(IllegalDataAddress, g, 2, t)
  }

  /** eMBFuncWriteCoil */
  function SlaveWriteCoil(t: Tables, f: seq<Byte>, len: nat): Answer
    requires Sized(t) && Frame(f)
  {
    if len != 5 then Answer(IllegalDataValue, f, len, t) else
      var addr := U16(f[1], f[2]);
      if !(f[4] == 0x00 && (f[3] == 0xFF || f[3] == 0x00)) then Answer(IllegalDataValue, f, len, t)
      else if addr + 1 <= NCOILS then
        Answer(None_, f, len, t.(coils := WriteCoils(t.coils, addr, 1, [if f[3] == 0xFF then 1 else 0, 0])))
      else Answer(IllegalDataAddress, f, len, t)
  }

  /** eMBFuncWriteMultipleCoils */
  function SlaveWriteCoils(t: Tables, f: seq<Byte>, len: nat): Answer
    requires Sized(t) && Frame(f)
  {
    if len <= 5 then Answer(IllegalDataValue, f, len, t) else
      var addr, n := U16(f[1], f[2]), U16(f[3], f[4]);
      if !(1 <= n <= 0x07B0 && ByteOf(NBytes(n)) == f[5]) then Answer(IllegalDataValue, f, len, t)
      else if addr + n <= NCOILS then Answer(None_, f, 5, t.(coils := WriteCoils(t.coils, addr, n, f[6..])))
      else Answer(IllegalDataAddress, f, len, t)
  }

  /** eMBFuncWriteHoldingRegister */
  function SlaveWriteReg(t: Tables, f: seq<Byte>, len: nat): Answer
    requires Sized(t) && Frame(f)
  {
    if len != 5 then Answer(IllegalDataValue, f, len, t) else
      var addr := U16(f[1], f[2]);
      if addr + 1 <= NREGS then Answer(None_, f, len, t.(regs := WriteRegs(t.regs, addr, 1, f[3..])))
      else Answer(IllegalDataAddress, f, len, t)
  }

  /** eMBFuncWriteMultipleHoldingRegister */
  function SlaveWriteRegs(t: Tables, f: seq<Byte>, len: nat): Answer
    requires Sized(t) && Frame(f)
  {
    if len < 6 then Answer(IllegalDataValue, f, len, t) else
      var addr, n := U16(f[1], f[2]), U16(f[3], f[4]);
      if !(1 <= n <= 0x0078 && f[5] == ByteOf(2 * n)) then Answer(IllegalDataValue, f, len, t)
      else if addr + n <= NREGS then Answer(None_, f, 5, t.(regs := WriteRegs(t.regs, addr, n, f[6..])))
      else Answer(IllegalDataAddress, f, len, t)
  }

  /** eMBFuncReadHoldingRegister */
  function SlaveReadRegs(t: Tables, f: seq<Byte>, len: nat): Answer
    requires Sized(t) && Frame(f)
  {
    if len != 5 then Answer(IllegalDataValue, f, len, t) else
      var addr, n := U16(f[1], f[2]), U16(f[3], f[4]);
      if !(1 <= n <= 0x007D) then Answer(IllegalDataValue, f, len, t) else
        var head := [0x03, ByteOf(2 * n)];
        if addr + n <= NREGS then Answer(None_, Put(f, head + ReadRegs(t.regs, addr, n)), 2 + 2 * n, t)
        else Answer(IllegalDataAddress, Put(f, head), 2, t)
  }

  /** eMBFuncReadWriteMultipleHoldingRegister: the write comes first, and stands even when the read then
      fails; a frame that is too short is answered with itself. */
  function SlaveReadWriteRegs(t: Tables, f: seq<Byte>, len: nat): Answer
    requires Sized(t) && Frame(f)
  {
    if len < 10 then Answer(None_, f, len, t) else
      var ra, rn, wa, wn := U16(f[1], f[2]), U16(f[3], f[4]), U16(f[5], f[6]), U16(f[7], f[8]);
      NumRange(f[9]);
      if !(1 <= rn <= 0x7D && 1 <= wn <= 0x79 && 2 * wn == Num(f[9])) then Answer(IllegalDataValue, f, len, t)
      else if wa + wn > NREGS then Answer(IllegalDataAddress, f, len, t)
      else
        var u := t.(regs := WriteRegs(t.regs, wa, wn, f[10..]));
        var head := [0x17, ByteOf(2 * rn)];
        if ra + rn <= NREGS then Answer(None_, Put(f, head + ReadRegs(u.regs, ra, rn)), 2 + 2 * rn, u)
        else Answer(IllegalDataAddress, Put(f, head), 2, u)
  }

  // ----- the master's handlers: the reply in f, the request still in the send buffer. For a broadcast, which
  // has no reply, the poll passes the request itself, once for every mirror row.

  predicate Readable(f: seq<Byte>)
  {
    |f| >= 252
  }

  predicate SendBuffer(snd: seq<Byte>)
  {
    |snd| == 252
  }

  function CoilsCB(m: Tables, addr: nat, n: nat, data: seq<Byte>): (Exception, Tables)
    requires Padded(n) <= 8 * |data|
  {
    if addr + n <= NCOILS then (None_, m.(coils := WriteCoils(m.coils, addr, n, data))) else (IllegalDataAddress, m)
  }

  function RegsCB(m: Tables, addr: nat, n: nat, data: seq<Byte>): (Exception, Tables)
    requires 2 * n <= |data|
  {
    if addr + n <= NREGS then (None_, m.(regs := WriteRegs(m.regs, addr, n, data))) else (IllegalDataAddress, m)
  }

  /** eMBMasterFuncReadCoils; a broadcast read is nothing to execute. */
  function MasterReadCoils(m: Tables, snd: seq<Byte>, f: seq<Byte>, len: nat, bcast: bool): (Exception, Tables)
    requires SendBuffer(snd) && Readable(f)
  {
    var addr, n := U16(snd[1], snd[2]), U16(snd[3], snd[4]);
    if bcast then (None_, m)
    else if len < 2 || !(n >= 1 && ByteOf(NBytes(n)) == f[1]) then (IllegalDataValue, m)
    else if addr + n > NCOILS then (IllegalDataAddress, m)
    else CoilsCB(m, addr, n, f[2..])
  }

  /** eMBMasterFuncWriteCoil */
  function MasterWriteCoil(m: Tables, f: seq<Byte>, len: nat): (Exception, Tables)
    requires Readable(f)
  {
    if len != 5 || !(f[4] == 0x00 && (f[3] == 0xFF || f[3] == 0x00)) then (IllegalDataValue, m)
    else CoilsCB(m, U16(f[1], f[2]), 1, [if f[3] == 0xFF then 1 else 0, 0])
  }

  /** eMBMasterFuncWriteMultipleCoils: address and count from the reply, data from the request. */
  function MasterWriteCoils(m: Tables, snd: seq<Byte>, f: seq<Byte>, len: nat, bcast: bool): (Exception, Tables)
    requires SendBuffer(snd) && Readable(f)
  {
    var addr, n := U16(f[1], f[2]), U16(f[3], f[4]);
    if !(len == 5 || bcast) || !(n >= 1 && ByteOf(NBytes(n)) == snd[5]) then (IllegalDataValue, m)
    else if addr + n > NCOILS then (IllegalDataAddress, m)
    else CoilsCB(m, addr, n, snd[6..])
  }

  /** eMBMasterFuncWriteHoldingRegister */
  function MasterWriteReg(m: Tables, f: seq<Byte>, len: nat): (Exception, Tables)
    requires Readable(f)
  {
    if len != 5 then (IllegalDataValue, m) else RegsCB(m, U16(f[1], f[2]), 1, f[3..])
  }

  /** eMBMasterFuncWriteMultipleHoldingRegister: everything from the request. */
  function MasterWriteRegs(m: Tables, snd: seq<Byte>, len: nat, bcast: bool): (Exception, Tables)
    requires SendBuffer(snd)
  {
    var addr, n := U16(snd[1], snd[2]), U16(snd[3], snd[4]);
    if !(len == 5 || bcast) || Num(snd[5]) != 2 * n then (IllegalDataValue, m)
    else if addr + n > NREGS then (IllegalDataAddress, m)
    else RegsCB(m, addr, n, snd[6..])
  }

  /** eMBMasterFuncReadHoldingRegister */
  function MasterReadRegs(m: Tables, snd: seq<Byte>, f: seq<Byte>, len: nat, bcast: bool): (Exception, Tables)
    requires SendBuffer(snd) && Readable(f)
  {
    var addr, n := U16(snd[1], snd[2]), U16(snd[3], snd[4]);
    if bcast then (None_, m)
    else if len < 2 || !(n >= 1 && 2 * n == Num(f[1])) then (IllegalDataValue, m)
    else if addr + n > NREGS then (IllegalDataAddress, m)
    else RegsCB(m, addr, n, f[2..])
  }

  /** eMBMasterFuncReadWriteMultipleHoldingRegister; a reply of one byte passes unseen. */
  function MasterReadWriteRegs(m: Tables, snd: seq<Byte>, f: seq<Byte>, len: nat, bcast: bool): (Exception, Tables)
    requires SendBuffer(snd) && Readable(f)
  {
    var ra, rn, wa, wn := U16(snd[1], snd[2]), U16(snd[3], snd[4]), U16(snd[5], snd[6]), U16(snd[7], snd[8]);
    if bcast || len < 2 then (None_, m)
    else if 2 * rn != Num(f[1]) then (IllegalDataValue, m)
    else if wa + wn > NREGS then (IllegalDataAddress, m)
    else
      var u := RegsCB(m, wa, wn, snd[10..]).1;
      if ra + rn > NREGS then (IllegalDataAddress, u) else RegsCB(u, ra, rn, f[2..])
  }
}
