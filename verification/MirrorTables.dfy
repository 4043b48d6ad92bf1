/** The register and coil tables behind the callbacks of user_mb_app.c and user_mb_app_m.c: the same loops on
    the slave's own tables and on the master's mirror row of a slave. */
module MirrorTables {

  import opened CoilBits
  import opened CoilTable
  import opened Crc
  import opened MirrorRows
  import opened MirrorSpec

  /** The coils of a packed buffer, spare bytes included. */
  function Unpack(b: seq<Byte>): (v: seq<bool>)
    ensures |v| == 8 * |b| && forall p :: 0 <= p < |v| ==> v[p] == CoilAt(b, p)
  {
    seq(8 * |b|, p requires 0 <= p < 8 * |b| => CoilAt(b, p))
  }

  lemma WrittenIsWriteCoils(was: seq<Byte>, now: seq<Byte>, s: nat, n: nat, data: seq<Byte>)
    requires Padded(n) <= 8 * |data| && Written(was, now, s, n, data)
    ensures Unpack(now) == WriteCoils(Unpack(was), s, n, data)
  {
    hide CoilAt;
    var a, b := Unpack(now), WriteCoils(Unpack(was), s, n, data);
    forall p | 0 <= p < 8 * |was| ensures a[p] == b[p] {
      assert CoilAt(now, p) == WrittenBit(was, s, n, data, p);
    }
  }

  lemma PackedIsReadLoop(b: seq<Byte>, s: nat, n: nat, r: seq<Byte>)
    requires s + n <= 8 * |b| && Packed(b, s, n, r)
    ensures r == ReadLoop(Unpack(b), s, n)
  {
    var q := ReadLoop(Unpack(b), s, n);
    forall k | 0 <= k < |r| ensures r[k] == q[k] { PackedByte(b, s, n, r, k); }
  }

  lemma PackedByte(b: seq<Byte>, s: nat, n: nat, r: seq<Byte>, k: nat)
    requires s + n <= 8 * |b| && Packed(b, s, n, r) && k < |r|
    ensures r[k] == ReadLoop(Unpack(b), s, n)[k]
  {
    hide ByteBit, ReadCoils, CoilAt;
    var v := Unpack(b);
    var q := ReadLoop(v, s, n);
    forall j | 0 <= j < 8 ensures ByteBit(r[k], j) == ByteBit(q[k], j) {
      var t := 8 * k + j;
      DataBit(r, k, j);
      DataBit(q, k, j);
      assert CoilAt(r, t) == (t < n && CoilAt(b, s + t));
      LoopBit(v, s, n, t);
    }
    SameBits(r[k], q[k]);
  }

  lemma LoopBit(v: seq<bool>, s: nat, n: nat, t: nat)
    requires s + n <= |v| && t < 8 * (n / 8 + 1)
    ensures CoilAt(ReadLoop(v, s, n), t) == Slot(v, s, n, t)
  {
    hide ByteBit, ReadCoils;
    var q := ReadCoils(v, s, n);
    if t < Padded(n) {
      ReadCoilsBits(v, s, n, t);
      assert ReadLoop(v, s, n)[t / 8] == q[t / 8];
    } else {
      ZeroByte(t % 8);
    }
  }

  lemma ZeroByte(j: nat)
    requires j < 8
    ensures !ByteBit(0, j)
  {
  }

  /** A write at row k of the whole buffer is a write at the start of the buffer seen from row k. */
  lemma WriteFromRow(v: seq<bool>, k: nat, addr: nat, n: nat, data: seq<Byte>)
    requires NCOILS * k <= |v| && Padded(n) <= 8 * |data|
    ensures WriteCoils(v, NCOILS * k + addr, n, data) == v[..NCOILS * k] + WriteCoils(v[NCOILS * k..], addr, n, data)
  {
    hide CoilAt;
  }

  /** `rows` tables one behind the other: one for a slave, sixteen for the master. */
  class Store {
    const rows: nat
    const coils: Coils
    const hold: array2<bv16>

    ghost predicate Valid()
    {
      && rows >= 1 && coils.Valid() && coils.count == NCOILS * rows
      && hold.Length0 == rows && hold.Length1 == NREGS
    }

    ghost function Regs(k: nat): (r: seq<bv16>)
      requires Valid() && k < rows
      reads hold
      ensures |r| == NREGS
    {
      seq(NREGS, i requires 0 <= i < NREGS reads hold => hold[k, i])
    }

    /** All rows, and the two bytes behind the coils. */
    ghost function All(): (m: Mirror)
      requires Valid()
      reads hold, coils.buf
      ensures |m.coils| == NCOILS * rows + 16 && |m.regs| == rows && (rows == ROWS ==> Shaped(m))
    {
      Mirror(Unpack(coils.buf[..]), seq(rows, k requires 0 <= k < rows reads hold => Regs(k)))
    }

    /** The one table of a slave. */
    ghost function Abs(): (t: Tables)
      requires Valid()
      reads hold, coils.buf
      ensures Sized(t)
    {
      FromRow(All(), 0)
    }

    constructor (rows: nat)
      requires rows >= 1
      ensures Valid() && this.rows == rows && fresh(hold) && fresh(coils.buf)
    {
      this.rows := rows;
      coils := new Coils(NCOILS * rows);
      hold := new bv16[rows, NREGS]((_, _) => 0);
    }

    /** The MB_REG_WRITE loop of the holding register callbacks. */
    method WriteHolding(row: nat, s: nat, n: nat, data: seq<Byte>)
      requires Valid() && row < rows && s + n <= NREGS && 2 * n <= |data|
      modifies hold
      ensures Regs(row) == WriteRegs(old(Regs(row)), s, n, data)
      ensures forall k: nat :: k < rows && k != row ==> Regs(k) == old(Regs(k))
    {
      hide WordOf;
      var iRegIndex, usNRegs, pos := s, n, 0;
      while usNRegs > 0
        invariant 0 <= usNRegs <= n && iRegIndex == s + (n - usNRegs) && pos == 2 * (n - usNRegs)
        invariant forall k, i :: 0 <= k < rows && 0 <= i < NREGS ==>
          hold[k, i] == if k == row && s <= i < iRegIndex then WordOf(data[2 * (i - s) + 1], data[2 * (i - s)]) else old(hold[k, i])
      {
        hold[row, iRegIndex] := WordOf(data[pos + 1], data[pos]);
        pos := pos + 2;
        iRegIndex := iRegIndex + 1;
        usNRegs := usNRegs - 1;
      }
      assert Regs(row) == WriteRegs(old(Regs(row)), s, n, data);
    }

    /** The MB_REG_READ loop. */
    method ReadHolding(s: nat, n: nat) returns (r: seq<Byte>)
      requires Valid() && s + n <= NREGS
      ensures r == ReadRegs(Abs().regs, s, n)
    {
      hide HiByte, LoByte;
      r := [];
      var iRegIndex, usNRegs := s, n;
      while usNRegs > 0
        invariant 0 <= usNRegs <= n && iRegIndex == s + (n - usNRegs) && |r| == 2 * (n - usNRegs)
        invariant r == ReadRegs(Regs(0), s, n - usNRegs)
      {
        OneMoreReg(Regs(0), s, n - usNRegs);
        r := r + [HiByte(hold[0, iRegIndex]), LoByte(hold[0, iRegIndex])];
        iRegIndex := iRegIndex + 1;
        usNRegs := usNRegs - 1;
      }
    }

    lemma OneMoreReg(regs: seq<bv16>, s: nat, k: nat)
      requires s + k + 1 <= |regs|
      ensures ReadRegs(regs, s, k + 1) == ReadRegs(regs, s, k) + [HiByte(regs[s + k]), LoByte(regs[s + k])]
    {
      hide HiByte, LoByte;
    }

    /** eMBRegHoldingCB and eMBMasterRegHoldingCB, writing; false is MB_ENOREG. The address arrives one too
        high and is taken back, so a 16-bit overflow of it cancels out. */
    method HoldingWriteCB(row: nat, addr: nat, n: nat, data: seq<Byte>) returns (ok: bool)
      requires Valid() && row < rows && 2 * n <= |data|
      modifies hold
      ensures ok <==> addr + n <= NREGS
      ensures All() == WithRow(old(All()), row, RegsCB(FromRow(old(All()), row), addr, n, data).1)
    {
      hide WriteRegs, Unpack;
      ok := addr + n <= NREGS;
      ghost var was := All();
      if ok {
        WriteHolding(row, addr, n, data);
        assert All().regs == was.regs[row := WriteRegs(was.regs[row], addr, n, data)];
      } else {
        SameRow(was, row);
      }
      JoinCoils(was.coils, row);
    }

    /** eMBRegCoilsCB and eMBMasterRegCoilsCB, writing: pucCoilBuf is the start of the row. */
    method CoilsWriteCB(row: nat, addr: nat, n: nat, data: seq<Byte>) returns (ok: bool)
      requires Valid() && row < rows && Padded(n) <= 8 * |data|
      modifies coils.buf
      ensures (ok <==> addr + n <= NCOILS)
      ensures All() == WithRow(old(All()), row, CoilsCB(FromRow(old(All()), row), addr, n, data).1)
    {
      hide Unpack, WriteCoils, Written;
      ok := addr + n <= NCOILS;
      ghost var m := All();
      SameRow(m, row);
      if ok {
        ghost var was := coils.buf[..];
        ghost var touched := coils.Write(NCOILS * row + addr, n, data);
        WrittenIsWriteCoils(was, coils.buf[..], NCOILS * row + addr, n, data);
        WriteFromRow(Unpack(was), row, addr, n, data);
        assert All().regs == m.regs;
        assert m.regs[row := m.regs[row]] == m.regs;
      }
    }

    /** eMBRegCoilsCB, reading. */
    method CoilsRead(addr: nat, n: nat) returns (r: seq<Byte>)
      requires Valid() && addr + n <= NCOILS
      ensures r == ReadLoop(Abs().coils, addr, n)
    {
      hide ReadLoop, Packed;
      ghost var touched;
      r, touched := coils.Read(addr, n);
      PackedIsReadLoop(coils.buf[..], addr, n, r);
      assert Unpack(coils.buf[..])[0..] == Unpack(coils.buf[..]);
    }
  }

  lemma JoinCoils(v: seq<bool>, k: nat)
    requires NCOILS * k <= |v|
    ensures v[..NCOILS * k] + v[NCOILS * k..] == v
  {
  }

  /** What is stored in a row is what is seen there, and storing again replaces it. */
  lemma RowBack(m: Mirror, k: nat, t: Tables, u: Tables)
    requires NCOILS * k <= |m.coils| && k < |m.regs|
    ensures NCOILS * k <= |WithRow(m, k, t).coils|
    ensures FromRow(WithRow(m, k, t), k) == t && WithRow(WithRow(m, k, t), k, u) == WithRow(m, k, u)
  {
    assert WithRow(m, k, t).coils[NCOILS * k..] == t.coils;
    assert WithRow(m, k, t).coils[..NCOILS * k] == m.coils[..NCOILS * k];
  }

  lemma SameRow(m: Mirror, k: nat)
    requires NCOILS * k <= |m.coils| && k < |m.regs|
    ensures WithRow(m, k, FromRow(m, k)) == m
  {
    JoinCoils(m.coils, k);
  }
}
