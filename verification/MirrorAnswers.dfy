/** Which requests the slave accepts, what it answers, and which replies the master takes over: for every request
    and reply, in terms of the address and the count that the frame carries. */
module MirrorAnswers {

  import opened CoilBits
  import opened CoilTable
  import opened Crc
  import opened MirrorExchange
  import opened MirrorSpec

  /** The value is looked at before the address. */
  function Outcome(value: bool, address: bool): Exception
  {
    if !value then IllegalDataValue else if !address then IllegalDataAddress else None_
  }

  /** The reply in the frame. */
  predicate Replies(a: Answer, pdu: seq<Byte>)
  {
    a.len == |pdu| && On(a.f, pdu)
  }

  // ----- the slave

  /** A frame too short for its function is refused as a value, except by function 23, which answers it with itself. */
  lemma ShortFrames(s: Tables, f: seq<Byte>, len: nat)
    requires Sized(s) && Frame(f)
    ensures len != 5 ==> SlaveReadCoils(s, f, len).exc == SlaveReadRegs(s, f, len).exc == IllegalDataValue
    ensures len != 5 ==> SlaveWriteCoil(s, f, len).exc == SlaveWriteReg(s, f, len).exc == IllegalDataValue
    ensures len <= 5 ==> SlaveWriteCoils(s, f, len).exc == SlaveWriteRegs(s, f, len).exc == IllegalDataValue
    ensures len < 10 ==> SlaveReadWriteRegs(s, f, len) == Answer(None_, f, len, s)
  {
  }

  /** Function 1: 1 to 1999 coils of the table, packed. */
  lemma ReadCoilsAnswer(s: Tables, f: seq<Byte>, addr: nat, n: nat)
    requires Sized(s) && Frame(f) && addr < 0x1_0000 && n < 0x1_0000 && On(f, Head(0x01, addr, n))
    ensures var a := SlaveReadCoils(s, f, 5);
      && a.exc == Outcome(1 <= n < 2000, addr + n <= NCOILS) && a.len <= |a.f| && a.t == s
      && (a.exc == None_ ==> Replies(a, [0x01, ByteOf(NBytes(n))] + ReadCoils(s.coils, addr, n)))
  {
    hide U16, ByteOf, ReadCoils;
    HeadRead(f, 0x01, addr, n);
    if 1 <= n < 2000 && addr + n <= NCOILS {
      ReadReply(f, [0x01, ByteOf(NBytes(n))], ReadCoils(s.coils, addr, n), if n % 8 == 0 then [0] else []);
    }
  }

  /** Function 3: 1 to 125 registers, high byte first. */
  lemma ReadRegsAnswer(s: Tables, f: seq<Byte>, addr: nat, n: nat)
    requires Sized(s) && Frame(f) && addr < 0x1_0000 && n < 0x1_0000 && On(f, Head(0x03, addr, n))
    ensures var a := SlaveReadRegs(s, f, 5);
      && a.exc == Outcome(1 <= n <= 125, addr + n <= NREGS) && a.len <= |a.f| && a.t == s
      && (a.exc == None_ ==> Replies(a, [0x03, ByteOf(2 * n)] + ReadRegs(s.regs, addr, n)))
  {
    hide U16, ByteOf, ReadRegs;
    HeadRead(f, 0x03, addr, n);
  }

  /** Function 5: the value must be 0xFF00 or 0x0000; the request is the reply. */
  lemma WriteCoilAnswer(s: Tables, f: seq<Byte>, addr: nat, v: Byte, w: Byte)
    requires Sized(s) && Frame(f) && addr < 0x1_0000 && On(f, [0x05, ByteOf(addr / 256), ByteOf(addr), v, w])
    ensures var a := SlaveWriteCoil(s, f, 5);
      && a.exc == Outcome(w == 0 && (v == 0xFF || v == 0), addr < NCOILS) && a.len == 5 && a.f == f
      && |a.t.coils| == |s.coils| && (a.exc == None_ ==> a.t.coils[addr] == (v == 0xFF)) && a.t.regs == s.regs
      && forall p :: 0 <= p < |s.coils| && (p != addr || a.exc != None_) ==> a.t.coils[p] == s.coils[p]
  {
    hide U16, ByteOf, WriteCoils;
    EchoRead(f, [0x05, ByteOf(addr / 256), ByteOf(addr), v, w], 0x05, addr);
    if w == 0 && (v == 0xFF || v == 0) && addr < NCOILS {
      OnlyCoil(s.coils, addr, v == 0xFF);
      assert SlaveWriteCoil(s, f, 5).t.coils == WriteCoils(s.coils, addr, 1, [if v == 0xFF then 1 else 0, 0]);
    }
  }

  lemma OnlyCoil(v: seq<bool>, addr: nat, on: bool)
    requires addr < |v|
    ensures var w := WriteCoils(v, addr, 1, [if on then 1 else 0, 0]);
      |w| == |v| && w[addr] == on && forall p :: 0 <= p < |v| && p != addr ==> w[p] == v[p]
  {
    hide WriteCoils;
    WrittenLength(v, addr, 1, [if on then 1 else 0, 0]);
    OneCoil(v, addr, on);
    forall p | 0 <= p < |v| && p != addr ensures WriteCoils(v, addr, 1, [if on then 1 else 0, 0])[p] == v[p] {
      OtherCoils(v, addr, on, p);
    }
  }

  lemma OtherCoils(v: seq<bool>, addr: nat, on: bool, p: nat)
    requires p < |v| && p != addr
    ensures WriteCoils(v, addr, 1, [if on then 1 else 0, 0])[p] == v[p]
  {
    hide CoilAt;
    NoStrays(if on then 1 else 0, p - addr);
  }

  lemma NoStrays(x: Byte, t: int)
    requires x <= 1
    ensures 1 <= t < 8 ==> !CoilAt([x, 0], t)
  {
    if 1 <= t < 8 { StrayBit(x, t); }
  }

  lemma StrayBit(x: Byte, j: nat)
    requires x <= 1 && 1 <= j < 8
    ensures !ByteBit(x, j)
  {
  }

  /** Function 6: any value; the request is the reply. */
  lemma WriteRegAnswer(s: Tables, f: seq<Byte>, addr: nat, r: bv16)
    requires Sized(s) && Frame(f) && addr < 0x1_0000 && On(f, [0x06, ByteOf(addr / 256), ByteOf(addr), HiByte(r), LoByte(r)])
    ensures var a := SlaveWriteReg(s, f, 5);
      && a.exc == Outcome(true, addr < NREGS) && a.len == 5 && a.f == f && a.t.coils == s.coils && |a.t.regs| == NREGS
      && forall p :: 0 <= p < NREGS ==> a.t.regs[p] == if p == addr then r else s.regs[p]
  {
    hide U16, ByteOf, HiByte, LoByte, WordOf;
    EchoRead(f, [0x06, ByteOf(addr / 256), ByteOf(addr), HiByte(r), LoByte(r)], 0x06, addr);
    RegBytes(r);
  }

  /** Function 15: 1 to 1968 coils, with the byte count that goes with them; the length of the frame is not compared
      with it. The reply is the head of the request. What becomes of the coils outside the range is WriteExactIff. */
  lemma WriteCoilsAnswer(s: Tables, f: seq<Byte>, len: nat, addr: nat, n: nat, count: Byte, data: seq<Byte>)
    requires Sized(s) && Frame(f) && 6 <= len <= |f| && addr < 0x1_0000 && n < 0x1_0000 && On(f, Head(0x0F, addr, n) + ([count] + data))
    ensures var a := SlaveWriteCoils(s, f, len);
      && a.exc == Outcome(1 <= n <= 1968 && count == ByteOf(NBytes(n)), addr + n <= NCOILS) && a.f == f && a.len <= |a.f|
      && a.t.regs == s.regs && |a.t.coils| == |s.coils| && (a.exc == None_ ==> a.len == 5)
      && (a.exc == None_ && NBytes(n) == |data| ==> forall i :: 0 <= i < n ==> a.t.coils[addr + i] == CoilAt(data, i))
  {
    hide U16, ByteOf, WriteCoils, Head, CoilAt;
    LongRead(f, 0x0F, addr, n, count, data);
    var a := SlaveWriteCoils(s, f, len);
    if a.exc == None_ {
      WrittenLength(s.coils, addr, n, f[6..]);
      if NBytes(n) == |data| {
        forall i | 0 <= i < n ensures a.t.coils[addr + i] == CoilAt(data, i) {
          PrefixCoil(f[6..], |data|, i);
          CoilWritten(s.coils, addr, n, f[6..], i);
        }
      }
    }
  }

  /** Function 16: 1 to 120 registers, likewise. */
  lemma WriteRegsAnswer(s: Tables, f: seq<Byte>, len: nat, addr: nat, count: Byte, regs: seq<bv16>)
    requires Sized(s) && Frame(f) && 6 <= len <= |f| && addr < 0x1_0000 && |regs| < 0x1_0000
    requires On(f, Head(0x10, addr, |regs|) + ([count] + RegBytesOf(regs)))
    ensures var n := |regs|; var a := SlaveWriteRegs(s, f, len);
      && a.exc == Outcome(1 <= n <= 120 && count == ByteOf(2 * n), addr + n <= NREGS) && a.f == f && a.len <= |a.f|
      && a.t.coils == s.coils && |a.t.regs| == NREGS && (a.exc == None_ ==> a.len == 5)
      && forall p :: 0 <= p < NREGS ==> a.t.regs[p] == if a.exc == None_ && addr <= p < addr + n then regs[p - addr] else s.regs[p]
  {
    hide U16, ByteOf, WriteRegs, ReadRegs, Head;
    var n := |regs|;
    LongRead(f, 0x10, addr, n, count, RegBytesOf(regs));
    if SlaveWriteRegs(s, f, len).exc == None_ { RegsPlaced(s.regs, addr, regs, f[6..]); }
  }

  /** A register write puts the values where they belong and nothing else. */
  lemma RegsPlaced(v: seq<bv16>, s: nat, regs: seq<bv16>, data: seq<Byte>)
    requires s + |regs| <= |v| && 2 * |regs| <= |data| && data[..2 * |regs|] == RegBytesOf(regs)
    ensures var w := WriteRegs(v, s, |regs|, data);
      |w| == |v| && forall p :: 0 <= p < |v| ==> w[p] == if s <= p < s + |regs| then regs[p - s] else v[p]
  {
    hide RegBytesOf;
    forall p | 0 <= p < |v|
      ensures WriteRegs(v, s, |regs|, data)[p] == if s <= p < s + |regs| then regs[p - s] else v[p]
    {
      if s <= p < s + |regs| { RegWritten(v, s, regs, data, p - s); }
    }
  }

  /** Function 23: 1 to 125 registers to read, 1 to 121 to write, with the byte count that goes with them, likewise.
      The write stands whenever its own range is valid. */
  lemma ReadWriteAnswer(s: Tables, f: seq<Byte>, len: nat, ra: nat, rn: nat, wa: nat, regs: seq<bv16>)
    requires Sized(s) && Frame(f) && 10 <= len <= |f| && ra < 0x1_0000 && rn < 0x1_0000 && wa < 0x1_0000 && |regs| < 0x1_0000
    requires On(f, ReadWriteRequest(ra, rn, wa, regs))
    ensures var n := |regs|; var a := SlaveReadWriteRegs(s, f, len);
      && a.exc == Outcome(1 <= rn <= 125 && 1 <= n <= 121, wa + n <= NREGS && ra + rn <= NREGS) && a.len <= |a.f|
      && a.t.coils == s.coils && |a.t.regs| == NREGS
      && (forall p :: 0 <= p < NREGS ==>
            a.t.regs[p] == if 1 <= rn <= 125 && 1 <= n <= 121 && wa + n <= NREGS && wa <= p < wa + n then regs[p - wa] else s.regs[p])
      && (1 <= rn <= 125 && 1 <= n <= 121 && wa + n <= NREGS && ra + rn <= NREGS ==>
            Replies(a, [0x17, ByteOf(2 * rn)] + ReadRegs(a.t.regs, ra, rn)))
  {
    hide U16, ByteOf, Num, WriteRegs, ReadRegs, RegBytesOf, ReadWriteRequest;
    var n := |regs|;
    ReadWriteRead(f, ra, rn, wa, regs);
    NumOfByte(2 * n);
    if 1 <= n <= 121 && wa + n <= NREGS { RegsPlaced(s.regs, wa, regs, f[10..]); }
  }

  /** A byte count that does not go with the registers to write is an illegal value. */
  lemma ReadWriteCount(s: Tables, f: seq<Byte>, len: nat)
    requires Sized(s) && Frame(f) && len >= 10 && Num(f[9]) != 2 * U16(f[7], f[8])
    ensures SlaveReadWriteRegs(s, f, len) == Answer(IllegalDataValue, f, len, s)
  {
    hide U16;
  }

  // ----- the master: request in snd, reply in f

  /** A reply of function 1 or 3 is taken over if and only if the request asked for something and the byte count of
      the reply goes with it; anything else leaves the mirror as it is. */
  lemma ReadRepliesTaken(m: Tables, snd: seq<Byte>, f: seq<Byte>, len: nat, bcast: bool, code: Byte, addr: nat, n: nat)
    requires Sized(m) && SendBuffer(snd) && Readable(f) && addr < 0x1_0000 && n < 0x1_0000 && On(snd, Head(code, addr, n))
    ensures var (exc, m2) := MasterReadCoils(m, snd, f, len, bcast);
      && exc == (if bcast then None_ else Outcome(len >= 2 && n >= 1 && f[1] == ByteOf(NBytes(n)), addr + n <= NCOILS))
      && (bcast || exc != None_ ==> m2 == m)
    ensures var (exc, m2) := MasterReadRegs(m, snd, f, len, bcast);
      && exc == (if bcast then None_ else Outcome(len >= 2 && n >= 1 && Num(f[1]) == 2 * n, addr + n <= NREGS))
      && (bcast || exc != None_ ==> m2 == m)
  {
    hide U16, ByteOf, Num, WriteCoils, WriteRegs;
    HeadRead(snd, code, addr, n);
  }

  /** The echo of function 5 or 6 is taken over if and only if it has the right length and value, and an address of
      the mirror. */
  lemma EchoesTaken(m: Tables, f: seq<Byte>, len: nat, code: Byte, addr: nat, v: Byte, w: Byte)
    requires Sized(m) && Readable(f) && addr < 0x1_0000 && On(f, [code, ByteOf(addr / 256), ByteOf(addr), v, w])
    ensures var (exc, m2) := MasterWriteCoil(m, f, len);
      exc == Outcome(len == 5 && w == 0 && (v == 0xFF || v == 0), addr < NCOILS) && (exc != None_ ==> m2 == m)
    ensures var (exc, m2) := MasterWriteReg(m, f, len);
      exc == Outcome(len == 5, addr < NREGS) && (exc != None_ ==> m2 == m)
  {
    hide U16, ByteOf, WriteCoils, WriteRegs;
    EchoRead(f, [code, ByteOf(addr / 256), ByteOf(addr), v, w], code, addr);
  }

  /** The reply of function 15 or 16 is taken over if and only if it has the right length and the byte count of the
      request goes with the count; a broadcast has no reply to look at. */
  lemma WriteRepliesTaken(m: Tables, snd: seq<Byte>, f: seq<Byte>, len: nat, bcast: bool, code: Byte, addr: nat, n: nat)
    requires Sized(m) && SendBuffer(snd) && Readable(f) && addr < 0x1_0000 && n < 0x1_0000
    requires On(snd, Head(code, addr, n)) && On(f, Head(code, addr, n))
    ensures var (exc, m2) := MasterWriteCoils(m, snd, f, len, bcast);
      && exc == Outcome((len == 5 || bcast) && n >= 1 && snd[5] == ByteOf(NBytes(n)), addr + n <= NCOILS)
      && (exc != None_ ==> m2 == m)
    ensures var (exc, m2) := MasterWriteRegs(m, snd, len, bcast);
      && exc == Outcome((len == 5 || bcast) && Num(snd[5]) == 2 * n, addr + n <= NREGS)
      && (exc != None_ ==> m2 == m)
  {
    hide U16, ByteOf, Num, WriteCoils, WriteRegs;
    HeadRead(snd, code, addr, n);
    HeadRead(f, code, addr, n);
  }

  /** The reply of function 23 is taken over if and only if its byte count goes with the request; one of a single byte
      passes unseen, and a read range that the mirror does not have leaves the written registers. */
  lemma ReadWriteReplyTaken(m: Tables, snd: seq<Byte>, f: seq<Byte>, len: nat, bcast: bool, ra: nat, rn: nat, wa: nat, regs: seq<bv16>)
    requires Sized(m) && SendBuffer(snd) && Readable(f) && ra < 0x1_0000 && rn < 0x1_0000 && wa < 0x1_0000 && |regs| < 0x1_0000
    requires On(snd, ReadWriteRequest(ra, rn, wa, regs))
    ensures var n := |regs|; var (exc, m2) := MasterReadWriteRegs(m, snd, f, len, bcast);
      if bcast || len < 2 then exc == None_ && m2 == m else
      && exc == Outcome(Num(f[1]) == 2 * rn, wa + n <= NREGS && ra + rn <= NREGS)
      && m2.coils == m.coils && |m2.regs| == NREGS
      && (exc != None_ ==> forall p :: 0 <= p < NREGS ==>
            m2.regs[p] == if Num(f[1]) == 2 * rn && wa + n <= NREGS && wa <= p < wa + n then regs[p - wa] else m.regs[p])
  {
    hide U16, Num, WriteRegs, RegBytesOf, ReadWriteRequest;
    ReadWriteRead(snd, ra, rn, wa, regs);
    if wa + |regs| <= NREGS { RegsPlaced(m.regs, wa, regs, snd[10..]); }
  }
}
