/** The function handlers themselves: the slave's, which rewrite the received frame into the reply, and the
    master's, which fill the send buffer and later update the mirror. */
module MirrorHandlers {

  import opened CoilBits
  import opened CoilTable
  import opened Crc
  import opened MirrorExchange
  import opened MirrorRows
  import opened MirrorSpec
  import opened MirrorTables

  lemma CountBytes(n: nat)
    ensures NBytes(n) == if n % 8 != 0 then n / 8 + 1 else n / 8
  {
  }

  class SlaveHandlers {
    const tables: Store
    var frame: seq<Byte>   // pucFrame
    var usLen: nat

    ghost predicate Valid()
      reads this
    {
      tables.Valid() && tables.rows == 1 && MirrorSpec.Frame(frame)
    }

    ghost predicate Did(exc: Exception, a: Answer)
      reads this, tables.hold, tables.coils.buf
    {
      Valid() && exc == a.exc && frame == a.f && usLen == a.len && tables.Abs() == a.t
    }

    constructor ()
      ensures Valid() && fresh(tables.hold) && fresh(tables.coils.buf)
    {
      tables := new Store(1);
      frame := seq(FRAME_SIZE, _ => 0);
      usLen := 0;
    }

    /** eMBRegCoilsCB on the slave's only table. */
    method CoilsCallback(addr: nat, n: nat, data: seq<Byte>) returns (ok: bool)
      requires Valid() && Padded(n) <= 8 * |data|
      modifies tables.coils.buf
      ensures (ok <==> addr + n <= NCOILS) && tables.Abs() == CoilsCB(old(tables.Abs()), addr, n, data).1
    {
      hide WriteCoils, Unpack;
      ghost var m := tables.All();
      ok := tables.CoilsWriteCB(0, addr, n, data);
      RowBack(m, 0, CoilsCB(FromRow(m, 0), addr, n, data).1, FromRow(m, 0));
    }

    /** eMBRegHoldingCB, writing. */
    method HoldingCallback(addr: nat, n: nat, data: seq<Byte>) returns (ok: bool)
      requires Valid() && 2 * n <= |data|
      modifies tables.hold
      ensures (ok <==> addr + n <= NREGS) && tables.Abs() == RegsCB(old(tables.Abs()), addr, n, data).1
    {
      hide WriteRegs, Unpack;
      ghost var m := tables.All();
      ok := tables.HoldingWriteCB(0, addr, n, data);
      RowBack(m, 0, RegsCB(FromRow(m, 0), addr, n, data).1, FromRow(m, 0));
    }

    method ReadCoils() returns (exc: Exception)
      requires Valid()
      modifies this`frame, this`usLen
      ensures Did(exc, SlaveReadCoils(old(tables.Abs()), old(frame), old(usLen)))
    {
      hide U16, ReadLoop, Put, ByteOf;
      if usLen != 5 { return IllegalDataValue; }
      var addr, n := U16(frame[1], frame[2]), U16(frame[3], frame[4]);
      if !(1 <= n < 0x07D0) { return IllegalDataValue; }
      var nBytes := if n % 8 != 0 then n / 8 + 1 else n / 8;
      ghost var was := frame;
      frame := Put(frame, [0x01, ByteOf(nBytes)]);
      usLen := 2;
      if addr + n > NCOILS { return IllegalDataAddress; }
      var r := tables.CoilsRead(addr, n);
      PutTwice(was, [0x01, ByteOf(nBytes)], r);
      frame := Put(frame, [0x01, ByteOf(nBytes)] + r);
      usLen := usLen + nBytes;
      return None_;
    }

    lemma PutTwice(f: seq<Byte>, head: seq<Byte>, r: seq<Byte>)
      requires |head| + |r| <= |f|
      ensures Put(Put(f, head), head + r) == Put(f, head + r)
    {
    }

    method WriteCoil() returns (exc: Exception)
      requires Valid()
      modifies tables.coils.buf
      ensures Did(exc, SlaveWriteCoil(old(tables.Abs()), old(frame), old(usLen)))
    {
      hide U16, WriteCoils;
      if usLen != 5 { return IllegalDataValue; }
      var addr := U16(frame[1], frame[2]);
      if !(frame[4] == 0x00 && (frame[3] == 0xFF || frame[3] == 0x00)) { return IllegalDataValue; }
      var buf: seq<Byte> := [if frame[3] == 0xFF then 1 else 0, 0];
      var ok := CoilsCallback(addr, 1, buf);
      return if ok then None_ else IllegalDataAddress;
    }

    method WriteMultipleCoils() returns (exc: Exception)
      requires Valid()
      modifies this`usLen, tables.coils.buf
      ensures Did(exc, SlaveWriteCoils(old(tables.Abs()), old(frame), old(usLen)))
    {
      hide U16, WriteCoils, ByteOf;
      if usLen <= 5 { return IllegalDataValue; }
      var addr, n := U16(frame[1], frame[2]), U16(frame[3], frame[4]);
      var byteCountVerify := ByteOf(if n % 8 != 0 then n / 8 + 1 else n / 8);
      if !(1 <= n <= 0x07B0 && byteCountVerify == frame[5]) { return IllegalDataValue; }
      var ok := CoilsCallback(addr, n, frame[6..]);
      if !ok { return IllegalDataAddress; }
      usLen := 5;
      return None_;
    }

    method WriteHoldingRegister() returns (exc: Exception)
      requires Valid()
      modifies tables.hold
      ensures Did(exc, SlaveWriteReg(old(tables.Abs()), old(frame), old(usLen)))
    {
      hide U16, WriteRegs;
      if usLen != 5 { return IllegalDataValue; }
      var addr := U16(frame[1], frame[2]);
      var ok := HoldingCallback(addr, 1, frame[3..]);
      return if ok then None_ else IllegalDataAddress;
    }

    method WriteMultipleHoldingRegister() returns (exc: Exception)
      requires Valid()
      modifies this`usLen, tables.hold
      ensures Did(exc, SlaveWriteRegs(old(tables.Abs()), old(frame), old(usLen)))
    {
      hide U16, WriteRegs, ByteOf;
      if usLen < 6 { return IllegalDataValue; }
      var addr, n := U16(frame[1], frame[2]), U16(frame[3], frame[4]);
      if !(1 <= n <= 0x0078 && frame[5] == ByteOf(2 * n)) { return IllegalDataValue; }
      var ok := HoldingCallback(addr, n, frame[6..]);
      if !ok { return IllegalDataAddress; }
      usLen := 5;
      return None_;
    }

    method ReadHoldingRegister() returns (exc: Exception)
      requires Valid()
      modifies this`frame, this`usLen
      ensures Did(exc, SlaveReadRegs(old(tables.Abs()), old(frame), old(usLen)))
    {
      hide U16, ReadRegs, Put, ByteOf;
      if usLen != 5 { return IllegalDataValue; }
      var addr, n := U16(frame[1], frame[2]), U16(frame[3], frame[4]);
      if !(1 <= n <= 0x007D) { return IllegalDataValue; }
      assert [0x03, ByteOf(2 * n)] + [] == [0x03, ByteOf(2 * n)];
      exc := ReplyRegs(0x03, addr, n);
    }

    /** The reply of functions 3 and 23: the code, the byte count, the registers. */
    method ReplyRegs(code: Byte, addr: nat, n: nat) returns (exc: Exception)
      requires Valid() && n <= 125
      modifies this`frame, this`usLen
      ensures Valid() && (exc == if addr + n <= NREGS then None_ else IllegalDataAddress)
      ensures usLen == if addr + n <= NREGS then 2 + 2 * n else 2
      ensures frame == Put(old(frame), [code, ByteOf(2 * n)]
        + (if addr + n <= NREGS then ReadRegs(tables.Abs().regs, addr, n) else []))
    {
      hide ReadRegs, Put, ByteOf;
      ghost var was := frame;
      frame := Put(frame, [code, ByteOf(2 * n)]);
      usLen := 2;
      assert [code, ByteOf(2 * n)] + [] == [code, ByteOf(2 * n)];
      if addr + n > NREGS { return IllegalDataAddress; }
      var r := tables.ReadHolding(addr, n);
      PutTwice(was, [code, ByteOf(2 * n)], r);
      frame := Put(frame, [code, ByteOf(2 * n)] + r);
      usLen := usLen + 2 * n;
      return None_;
    }

    method ReadWriteMultipleHoldingRegister() returns (exc: Exception)
      requires Valid()
      modifies this`frame, this`usLen, tables.hold
      ensures Did(exc, SlaveReadWriteRegs(old(tables.Abs()), old(frame), old(usLen)))
    {
      hide U16, ReadRegs, WriteRegs, Put, ByteOf, Num;
      if usLen < 10 { return None_; }
      var ra, rn := U16(frame[1], frame[2]), U16(frame[3], frame[4]);
      var wa, wn := U16(frame[5], frame[6]), U16(frame[7], frame[8]);
      NumRange(frame[9]);
      if !(1 <= rn <= 0x7D && 1 <= wn <= 0x79 && 2 * wn == Num(frame[9])) { return IllegalDataValue; }
      var ok := HoldingCallback(wa, wn, frame[10..]);
      if !ok { return IllegalDataAddress; }
      assert [0x17, ByteOf(2 * rn)] + [] == [0x17, ByteOf(2 * rn)];
      exc := ReplyRegs(0x17, ra, rn);
    }
  }

  class MasterHandlers {
    const mirror: Store           // the rows of all slaves
    const sndBuf: array<Byte>     // the send buffer from the PDU on
    var sndLength: nat
    var dest: nat                 // ucMBMasterDestAddress

    ghost predicate Ready()
    {
      mirror.Valid() && mirror.rows == ROWS && sndBuf.Length == 252
    }

    /** A handler works on the row of a slave. */
    ghost predicate Valid()
      reads this
    {
      Ready() && 1 <= dest <= ROWS
    }

    /** The handler came out with r on the addressed row, and no other row was meant. */
    ghost predicate Took(exc: Exception, was: Mirror, r: (Exception, Tables))
      requires Valid() && |was.coils| >= NCOILS * ROWS && |was.regs| == ROWS
      reads this, mirror.hold, mirror.coils.buf
    {
      exc == r.0 && mirror.All() == WithRow(was, dest - 1, r.1)
    }

    /** The addressed row. */
    ghost function Row(): Tables
      requires Valid()
      reads this, mirror.hold, mirror.coils.buf
    {
      FromRow(mirror.All(), dest - 1)
    }

    constructor ()
      ensures Valid() && fresh(mirror.hold) && fresh(mirror.coils.buf) && fresh(sndBuf)
    {
      mirror := new Store(ROWS);
      sndBuf := new Byte[252](_ => 0);
      sndLength := 0;
      dest := 1;
    }

    /** The five bytes every request starts with. */
    method PutHead(code: Byte, a: nat, b: nat)
      requires Valid()
      modifies this`sndLength, sndBuf
      ensures On(sndBuf[..], Head(code, a, b)) && sndLength == 5
    {
      hide ByteOf;
      sndBuf[0] := code;
      sndBuf[1] := ByteOf(a / 256);
      sndBuf[2] := ByteOf(a);
      sndBuf[3] := ByteOf(b / 256);
      sndBuf[4] := ByteOf(b);
      sndLength := 5;
      assert sndBuf[..5] == Head(code, a, b);
    }

    /** eMBMasterReqReadCoils, eMBMasterReqReadHoldingRegister */
    method RequestRead(code: Byte, addr: nat, n: nat)
      requires Valid()
      modifies this`sndLength, sndBuf
      ensures On(sndBuf[..], Head(code, addr, n)) && sndLength == 5
    {
      hide Head;
      PutHead(code, addr, n);
    }

    /** eMBMasterReqWriteCoil; anything but 0xFF00 and 0x0000 is refused before this. */
    method RequestWriteCoil(addr: nat, on: bool)
      requires Valid()
      modifies this`sndLength, sndBuf
      ensures On(sndBuf[..], CoilRequest(addr, on)) && sndLength == 5
    {
      hide ByteOf;
      PutHead(0x05, addr, 0);
      sndBuf[3] := if on then 0xFF else 0x00;
      sndBuf[4] := 0x00;
      assert forall i :: 0 <= i < 3 ==> sndBuf[i] == old(sndBuf[..])[0 := 0x05][1 := ByteOf(addr / 256)][2 := ByteOf(addr)][i];
      assert sndBuf[..5] == CoilRequest(addr, on);
    }

    /** The copy loops of the requests that carry data: `bytes` behind a head of `at` bytes. */
    method PutData(at: nat, bytes: seq<Byte>, ghost h: seq<Byte>)
      requires Valid() && at + |bytes| <= 252 && at == |h| && On(sndBuf[..], h)
      modifies this`sndLength, sndBuf
      ensures On(sndBuf[..], h + bytes) && sndLength == at + |bytes|
    {
      var i := 0;
      while i < |bytes|
        invariant i <= |bytes| && sndBuf[..at] == h && sndBuf[at..at + i] == bytes[..i]
      {
        sndBuf[at + i] := bytes[i];
        i := i + 1;
      }
      sndLength := at + |bytes|;
      assert sndBuf[..at + |bytes|] == h + bytes;
    }

    /** eMBMasterReqWriteMultipleCoils */
    method RequestWriteCoils(addr: nat, n: nat, data: seq<Byte>)
      requires Valid() && n <= 0x07B0 && NBytes(n) == |data| && 6 + |data| <= 252
      modifies this`sndLength, sndBuf
      ensures On(sndBuf[..], CoilsRequest(addr, n, data)) && sndLength == 6 + |data|
    {
      hide Head, ByteOf;
      PutHead(0x0F, addr, n);
      PutData(5, [ByteOf(NBytes(n))] + data, Head(0x0F, addr, n));
    }

    /** eMBMasterReqWriteMultipleHoldingRegister */
    method RequestWriteRegs(addr: nat, regs: seq<bv16>)
      requires Valid() && 6 + 2 * |regs| <= 252
      modifies this`sndLength, sndBuf
      ensures On(sndBuf[..], Head(0x10, addr, |regs|) + ([ByteOf(2 * |regs|)] + RegBytesOf(regs)))
      ensures sndLength == 6 + 2 * |regs|
    {
      hide Head, ByteOf, RegBytesOf;
      PutHead(0x10, addr, |regs|);
      PutData(5, [ByteOf(2 * |regs|)] + RegBytesOf(regs), Head(0x10, addr, |regs|));
    }

    /** eMBMasterReqReadWriteMultipleHoldingRegister */
    method RequestReadWrite(ra: nat, rn: nat, wa: nat, regs: seq<bv16>)
      requires Valid() && 10 + 2 * |regs| <= 252
      modifies this`sndLength, sndBuf
      ensures On(sndBuf[..], ReadWriteRequest(ra, rn, wa, regs)) && sndLength == 10 + 2 * |regs|
    {
      hide ByteOf, RegBytesOf;
      PutHead(0x17, ra, rn);
      var w := [ByteOf(wa / 256), ByteOf(wa), ByteOf(|regs| / 256), ByteOf(|regs|), ByteOf(2 * |regs|)];
      PutData(5, w + RegBytesOf(regs), Head(0x17, ra, rn));
      assert ReadWriteRequest(ra, rn, wa, regs) == Head(0x17, ra, rn) + (w + RegBytesOf(regs));
    }

    method ReadCoils(f: seq<Byte>, len: nat, bcast: bool) returns (exc: Exception)
      requires Valid() && Readable(f)
      modifies mirror.coils.buf
      ensures Took(exc, old(mirror.All()), MasterReadCoils(old(Row()), sndBuf[..], f, len, bcast))
    {
      hide U16, WriteCoils, ByteOf, Unpack, NBytes;
      SameRow(mirror.All(), dest - 1);
      if bcast { return None_; }
      if len < 2 { return IllegalDataValue; }
      var addr, n := U16(sndBuf[1], sndBuf[2]), U16(sndBuf[3], sndBuf[4]);
      CountBytes(n);
      var byteCount := ByteOf(if n % 8 != 0 then n / 8 + 1 else n / 8);
      if !(n >= 1 && byteCount == f[1]) { return IllegalDataValue; }
      if addr + n > NCOILS { return IllegalDataAddress; }
      var ok := mirror.CoilsWriteCB(dest - 1, addr, n, f[2..]);
      return None_;
    }

    method WriteCoil(f: seq<Byte>, len: nat) returns (exc: Exception)
      requires Valid() && Readable(f)
      modifies mirror.coils.buf
      ensures Took(exc, old(mirror.All()), MasterWriteCoil(old(Row()), f, len))
    {
      hide U16, WriteCoils, Unpack;
      SameRow(mirror.All(), dest - 1);
      if len != 5 { return IllegalDataValue; }
      if !(f[4] == 0x00 && (f[3] == 0xFF || f[3] == 0x00)) { return IllegalDataValue; }
      var buf: seq<Byte> := [if f[3] == 0xFF then 1 else 0, 0];
      var ok := mirror.CoilsWriteCB(dest - 1, U16(f[1], f[2]), 1, buf);
      return if ok then None_ else IllegalDataAddress;
    }

    method WriteMultipleCoils(f: seq<Byte>, len: nat, bcast: bool) returns (exc: Exception)
      requires Valid() && Readable(f)
      modifies mirror.coils.buf
      ensures Took(exc, old(mirror.All()), MasterWriteCoils(old(Row()), sndBuf[..], f, len, bcast))
    {
      hide U16, WriteCoils, ByteOf, Unpack;
      SameRow(mirror.All(), dest - 1);
      if !(len == 5 || bcast) { return IllegalDataValue; }
      var addr, n := U16(f[1], f[2]), U16(f[3], f[4]);
      var byteCountVerify := ByteOf(if n % 8 != 0 then n / 8 + 1 else n / 8);
      if !(n >= 1 && byteCountVerify == sndBuf[5]) { return IllegalDataValue; }
      if addr + n > NCOILS { return IllegalDataAddress; }
      var ok := mirror.CoilsWriteCB(dest - 1, addr, n, sndBuf[6..]);
      return None_;
    }

    method WriteHoldingRegister(f: seq<Byte>, len: nat) returns (exc: Exception)
      requires Valid() && Readable(f)
      modifies mirror.hold
      ensures Took(exc, old(mirror.All()), MasterWriteReg(old(Row()), f, len))
    {
      hide U16, WriteRegs, Unpack;
      SameRow(mirror.All(), dest - 1);
      if len != 5 { return IllegalDataValue; }
      var ok := mirror.HoldingWriteCB(dest - 1, U16(f[1], f[2]), 1, f[3..]);
      return if ok then None_ else IllegalDataAddress;
    }

    method WriteMultipleHoldingRegister(len: nat, bcast: bool) returns (exc: Exception)
      requires Valid()
      modifies mirror.hold
      ensures Took(exc, old(mirror.All()), MasterWriteRegs(old(Row()), sndBuf[..], len, bcast))
    {
      hide U16, WriteRegs, Num, Unpack;
      SameRow(mirror.All(), dest - 1);
      if !(len == 5 || bcast) { return IllegalDataValue; }
      var addr, n := U16(sndBuf[1], sndBuf[2]), U16(sndBuf[3], sndBuf[4]);
      if Num(sndBuf[5]) != 2 * n { return IllegalDataValue; }
      if addr + n > NREGS { return IllegalDataAddress; }
      var ok := mirror.HoldingWriteCB(dest - 1, addr, n, sndBuf[6..]);
      return None_;
    }

    method ReadHoldingRegister(f: seq<Byte>, len: nat, bcast: bool) returns (exc: Exception)
      requires Valid() && Readable(f)
      modifies mirror.hold
      ensures Took(exc, old(mirror.All()), MasterReadRegs(old(Row()), sndBuf[..], f, len, bcast))
    {
      hide U16, WriteRegs, Num, Unpack;
      SameRow(mirror.All(), dest - 1);
      if bcast { return None_; }
      if len < 2 { return IllegalDataValue; }
      var addr, n := U16(sndBuf[1], sndBuf[2]), U16(sndBuf[3], sndBuf[4]);
      if !(n >= 1 && 2 * n == Num(f[1])) { return IllegalDataValue; }
      if addr + n > NREGS { return IllegalDataAddress; }
      var ok := mirror.HoldingWriteCB(dest - 1, addr, n, f[2..]);
      return None_;
    }

    method ReadWriteMultipleHoldingRegister(f: seq<Byte>, len: nat, bcast: bool) returns (exc: Exception)
      requires Valid() && Readable(f)
      modifies mirror.hold
      ensures Took(exc, old(mirror.All()), MasterReadWriteRegs(old(Row()), sndBuf[..], f, len, bcast))
    {
      hide U16, WriteRegs, Num, Unpack;
      SameRow(mirror.All(), dest - 1);
      if bcast || len < 2 { return None_; }
      var ra, rn := U16(sndBuf[1], sndBuf[2]), U16(sndBuf[3], sndBuf[4]);
      var wa, wn := U16(sndBuf[5], sndBuf[6]), U16(sndBuf[7], sndBuf[8]);
      if 2 * rn != Num(f[1]) { return IllegalDataValue; }
      if wa + wn > NREGS { return IllegalDataAddress; }
      exc := StoreExchange(ra, rn, wa, wn, f);
    }

    /** The two calls of eMBMasterRegHoldingCB: what was written, then what was read. */
    method StoreExchange(ra: nat, rn: nat, wa: nat, wn: nat, f: seq<Byte>) returns (exc: Exception)
      requires Valid() && Readable(f) && wa + wn <= NREGS
      modifies mirror.hold
      ensures var u := RegsCB(old(Row()), wa, wn, sndBuf[10..]).1;
        Took(exc, old(mirror.All()), if ra + rn > NREGS then (IllegalDataAddress, u) else RegsCB(u, ra, rn, f[2..]))
    {
      hide WriteRegs, Unpack;
      ghost var m := mirror.All();
      var ok := mirror.HoldingWriteCB(dest - 1, wa, wn, sndBuf[10..]);
      ghost var u := RegsCB(FromRow(m, dest - 1), wa, wn, sndBuf[10..]).1;
      RowBack(m, dest - 1, u, if ra + rn > NREGS then u else RegsCB(u, ra, rn, f[2..]).1);
      if ra + rn > NREGS { return IllegalDataAddress; }
      ok := mirror.HoldingWriteCB(dest - 1, ra, rn, f[2..]);
      return None_;
    }

    method NoHandler() returns (exc: Exception)
      requires Valid()
      ensures Took(exc, mirror.All(), (IllegalFunction, Row()))
    {
      SameRow(mirror.All(), dest - 1);
      return IllegalFunction;
    }

    /** The handler for function `code`, picked from xMasterFuncHandlers. */
    method Execute(code: Byte, f: seq<Byte>, len: nat, bcast: bool) returns (exc: Exception)
      requires Valid() && Readable(f)
      modifies mirror.hold, mirror.coils.buf
      ensures Took(exc, old(mirror.All()), Handle(code, old(Row()), sndBuf[..], f, len, bcast))
    {
      hide Took, MasterReadCoils, MasterReadRegs, MasterWriteCoil, MasterWriteReg, MasterWriteCoils, MasterWriteRegs,
        MasterReadWriteRegs, Unpack;
      if code == 0x01 {
        exc := ReadCoils(f, len, bcast);
      } else if code == 0x03 {
        exc := ReadHoldingRegister(f, len, bcast);
      } else if code == 0x05 {
        exc := WriteCoil(f, len);
      } else if code == 0x06 {
        exc := WriteHoldingRegister(f, len);
      } else if code == 0x0F {
        exc := WriteMultipleCoils(f, len, bcast);
      } else if code == 0x10 {
        exc := WriteMultipleHoldingRegister(len, bcast);
      } else if code == 0x17 {
        exc := ReadWriteMultipleHoldingRegister(f, len, bcast);
      } else {
        exc := NoHandler();
      }
    }

    /** What the poll does for a broadcast: the request itself is handed to the handler for every row. */
    method ExecuteBroadcast(code: Byte) returns (exc: Exception)
      requires Valid()
      modifies this`dest, mirror.hold, mirror.coils.buf
      ensures Valid() && dest == ROWS
      ensures exc == Handle(code, FromRow(Broadcast(code, old(mirror.All()), sndBuf[..], sndLength, ROWS - 1), ROWS - 1),
                            sndBuf[..], sndBuf[..], sndLength, true).0
      ensures mirror.All() == Broadcast(code, old(mirror.All()), sndBuf[..], sndLength, ROWS)
    {
      hide Handle, Unpack;
      ghost var m := mirror.All();
      exc := IllegalFunction;
      var j := 1;
      while j <= ROWS
        invariant 1 <= j <= ROWS + 1 && Ready() && (j > 1 ==> dest == j - 1)
        invariant sndBuf[..] == old(sndBuf[..]) && sndLength == old(sndLength)
        invariant mirror.All() == Broadcast(code, m, sndBuf[..], sndLength, j - 1)
        invariant j > 1 ==> exc == Handle(code, FromRow(Broadcast(code, m, sndBuf[..], sndLength, j - 2), j - 2),
                                          sndBuf[..], sndBuf[..], sndLength, true).0
      {
        dest := j;
        ghost var p := mirror.All();
        exc := Execute(code, sndBuf[..], sndLength, true);
        assert mirror.All() == WithRow(p, j - 1, Handle(code, FromRow(p, j - 1), sndBuf[..], sndBuf[..], sndLength, true).1);
        j := j + 1;
      }
    }
  }
}
