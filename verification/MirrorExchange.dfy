/** One request and its reply, for every function code and every valid range: after the exchange the master's
    mirror and the slave's tables agree if they agreed before, and a read makes the mirror equal the slave on
    the range it read, whatever it held. */
module MirrorExchange {

  import opened CoilBits
  import opened CoilTable
  import opened Crc
  import opened MirrorSpec

  /** The bytes at the start of a buffer; what follows is whatever was there. */
  predicate On(f: seq<Byte>, pdu: seq<Byte>)
  {
    |pdu| <= |f| && f[..|pdu|] == pdu
  }

  function Head(code: Byte, a: nat, b: nat): (h: seq<Byte>)
    ensures |h| == 5
  {
    [code, ByteOf(a / 256), ByteOf(a), ByteOf(b / 256), ByteOf(b)]
  }

  lemma HeadRead(f: seq<Byte>, code: Byte, a: nat, b: nat)
    requires On(f, Head(code, a, b)) && a < 0x1_0000 && b < 0x1_0000
    ensures U16(f[1], f[2]) == a && U16(f[3], f[4]) == b && f[0] == code
  {
    hide U16, ByteOf;
    U16Back(a);
    U16Back(b);
    var h := Head(code, a, b);
    assert forall i :: 0 <= i < 5 ==> f[i] == f[..5][i];
  }

  /** A longer PDU starts with its head. */
  lemma OnHead(f: seq<Byte>, h: seq<Byte>, rest: seq<Byte>)
    requires On(f, h + rest)
    ensures On(f, h) && f[|h|..|h| + |rest|] == rest && f[|h|..][..|rest|] == rest
  {
    assert f[..|h|] == f[..|h + rest|][..|h|] == h;
    assert f[|h|..|h| + |rest|] == f[..|h + rest|][|h|..] == rest;
    assert f[|h|..][..|rest|] == f[|h|..|h| + |rest|];
  }

  // ----- function 3

  lemma ReadRegsExchange(m: Tables, s: Tables, snd: seq<Byte>, f: seq<Byte>, g: seq<Byte>, addr: nat, n: nat)
    requires Sized(m) && Sized(s) && SendBuffer(snd) && Frame(f) && Frame(g) && addr < 0x1_0000 && n < 0x1_0000
    requires On(snd, Head(0x03, addr, n)) && On(f, Head(0x03, addr, n))
    requires 1 <= n <= 125 && addr + n <= NREGS
    requires var a := SlaveReadRegs(s, f, 5); a.len <= |a.f| && On(g, a.f[..a.len])
    ensures SlaveReadRegs(s, f, 5).exc == None_
    ensures var (exc, m2) := MasterReadRegs(m, snd, g, SlaveReadRegs(s, f, 5).len, false);
      && exc == None_ && SlaveReadRegs(s, f, 5).t == s && m2.coils == m.coils && |m2.regs| == NREGS
      && (forall i :: 0 <= i < NREGS ==> m2.regs[i] == if addr <= i < addr + n then s.regs[i] else m.regs[i])
      && (Agree(m, s) ==> Agree(m2, s))
  {
    hide U16, ByteOf, Num, WriteRegs, ReadRegs;
    HeadRead(snd, 0x03, addr, n);
    HeadRead(f, 0x03, addr, n);
    NumOfByte(2 * n);
    var data := ReadRegs(s.regs, addr, n);
    OnHead(g, [0x03, ByteOf(2 * n)], data);
    ReplyHead(g, [0x03, ByteOf(2 * n)]);
    RegsMirrored(m.regs, s.regs, addr, n, g[2..]);
  }

  lemma ReplyHead(g: seq<Byte>, h: seq<Byte>)
    requires On(g, h) && |h| == 2
    ensures g[0] == h[0] && g[1] == h[1]
  {
    assert g[0] == g[..2][0] && g[1] == g[..2][1];
  }

  // ----- function 1

  lemma ReadCoilsExchange(m: Tables, s: Tables, snd: seq<Byte>, f: seq<Byte>, g: seq<Byte>, addr: nat, n: nat)
    requires Sized(m) && Sized(s) && SendBuffer(snd) && Frame(f) && Frame(g) && addr < 0x1_0000 && n < 0x1_0000
    requires On(snd, Head(0x01, addr, n)) && On(f, Head(0x01, addr, n))
    requires 1 <= n && addr + n <= NCOILS
    requires var a := SlaveReadCoils(s, f, 5); a.len <= |a.f| && On(g, a.f[..a.len])
    ensures SlaveReadCoils(s, f, 5).exc == None_ && SlaveReadCoils(s, f, 5).t == s
    ensures var (exc, m2) := MasterReadCoils(m, snd, g, SlaveReadCoils(s, f, 5).len, false);
      && exc == None_ && m2.regs == m.regs && |m2.coils| == |m.coils|
      && (forall p :: 0 <= p < |m.coils| ==> m2.coils[p] == if addr <= p < addr + n then s.coils[p] else m.coils[p])
      && (Agree(m, s) ==> Agree(m2, s))
  {
    hide U16, ByteOf, Num, WriteCoils, ReadCoils;
    HeadRead(snd, 0x01, addr, n);
    HeadRead(f, 0x01, addr, n);
    var data := ReadCoils(s.coils, addr, n);
    var head := [0x01, ByteOf(NBytes(n))];
    ReadReply(f, head, data, if n % 8 == 0 then [0] else []);
    OnHead(g, head, data);
    ReplyHead(g, head);
    CoilsMirrored(m.coils, s.coils, addr, n, g[2..]);
  }

  /** The coils of a read reply, written to the mirror. */
  lemma CoilsMirrored(m: seq<bool>, v: seq<bool>, s: nat, n: nat, data: seq<Byte>)
    requires |m| >= NCOILS && |v| >= NCOILS && s + n <= NCOILS
    requires Padded(n) <= 8 * |data| && data[..Padded(n) / 8] == ReadCoils(v, s, n)
    ensures var r := WriteCoils(m, s, n, data);
      && |r| == |m| && (forall p :: 0 <= p < |m| ==> r[p] == if s <= p < s + n then v[p] else m[p])
      && (m[..NCOILS] == v[..NCOILS] ==> r[..NCOILS] == v[..NCOILS])
  {
    hide WriteCoils, ReadCoils, Padded;
    WrittenLength(m, s, n, data);
    forall p | 0 <= p < |m| ensures WriteCoils(m, s, n, data)[p] == if s <= p < s + n then v[p] else m[p] {
      WriteReadCoils(m, v, s, n, data, p);
    }
    if m[..NCOILS] == v[..NCOILS] { ReadAgrees(m, v, WriteCoils(m, s, n, data), s, n); }
  }

  lemma WrittenLength(m: seq<bool>, s: nat, n: nat, data: seq<Byte>)
    requires Padded(n) <= 8 * |data|
    ensures |WriteCoils(m, s, n, data)| == |m|
  {
  }

  lemma ReadReply(f: seq<Byte>, head: seq<Byte>, data: seq<Byte>, slack: seq<Byte>)
    requires |head| + |data| + |slack| <= |f|
    ensures Put(f, head + (data + slack))[..|head| + |data|] == head + data
  {
  }

  lemma ReadAgrees(m: seq<bool>, v: seq<bool>, r: seq<bool>, s: nat, n: nat)
    requires |m| >= NCOILS && |v| >= NCOILS && |r| == |m| && m[..NCOILS] == v[..NCOILS] && s + n <= NCOILS
    requires forall p :: 0 <= p < |m| ==> r[p] == if s <= p < s + n then v[p] else m[p]
    ensures r[..NCOILS] == v[..NCOILS]
  {
    forall p | 0 <= p < NCOILS ensures r[p] == v[p] { assert m[p] == m[..NCOILS][p] && v[p] == v[..NCOILS][p]; }
  }

  // ----- functions 5 and 6: the reply echoes the request

  /** The request for one coil; its value is 0xFF00 or 0x0000. */
  function CoilRequest(addr: nat, on: bool): seq<Byte>
  {
    [0x05, ByteOf(addr / 256), ByteOf(addr), if on then 0xFF else 0x00, 0x00]
  }

  lemma EchoRead(f: seq<Byte>, pdu: seq<Byte>, code: Byte, addr: nat)
    requires On(f, pdu) && |pdu| == 5 && addr < 0x1_0000
    requires pdu[0] == code && pdu[1] == ByteOf(addr / 256) && pdu[2] == ByteOf(addr)
    ensures U16(f[1], f[2]) == addr && f[3] == pdu[3] && f[4] == pdu[4]
  {
    hide U16, ByteOf;
    U16Back(addr);
    assert forall i :: 0 <= i < 5 ==> f[i] == f[..5][i];
  }

  lemma WriteCoilExchange(m: Tables, s: Tables, f: seq<Byte>, g: seq<Byte>, addr: nat, on: bool)
    requires Agree(m, s) && Frame(f) && Frame(g) && addr < NCOILS && On(f, CoilRequest(addr, on))
    requires var a := SlaveWriteCoil(s, f, 5); On(g, a.f[..a.len])
    ensures var (exc, m2) := MasterWriteCoil(m, g, SlaveWriteCoil(s, f, 5).len);
      exc == None_ && Agree(m2, SlaveWriteCoil(s, f, 5).t)
    ensures SlaveWriteCoil(s, f, 5).exc == None_ && SlaveWriteCoil(s, f, 5).t.coils[addr] == on
  {
    hide U16, ByteOf, WriteCoils;
    var pdu := CoilRequest(addr, on);
    EchoRead(f, pdu, 0x05, addr);
    EchoRead(g, pdu, 0x05, addr);
    var data := [if on then 1 else 0, 0];
    SameCoilWrite(m.coils, s.coils, addr, 1, data, data);
    OneCoil(s.coils, addr, on);
  }

  lemma OneCoil(v: seq<bool>, addr: nat, on: bool)
    requires addr < |v|
    ensures WriteCoils(v, addr, 1, [if on then 1 else 0, 0])[addr] == on
  {
    if on { BitZero(1); } else { BitZero(0); }
  }

  lemma BitZero(x: Byte)
    requires x <= 1
    ensures CoilAt([x, 0], 0) <==> x == 1
  {
  }

  lemma WriteRegExchange(m: Tables, s: Tables, f: seq<Byte>, g: seq<Byte>, addr: nat, r: bv16)
    requires Agree(m, s) && Frame(f) && Frame(g) && addr < NREGS
    requires On(f, [0x06, ByteOf(addr / 256), ByteOf(addr), HiByte(r), LoByte(r)])
    requires var a := SlaveWriteReg(s, f, 5); On(g, a.f[..a.len])
    ensures var (exc, m2) := MasterWriteReg(m, g, SlaveWriteReg(s, f, 5).len);
      exc == None_ && Agree(m2, SlaveWriteReg(s, f, 5).t)
    ensures SlaveWriteReg(s, f, 5).exc == None_ && SlaveWriteReg(s, f, 5).t.regs[addr] == r
  {
    hide U16, ByteOf, HiByte, LoByte, WordOf;
    var pdu := [0x06, ByteOf(addr / 256), ByteOf(addr), HiByte(r), LoByte(r)];
    EchoRead(f, pdu, 0x06, addr);
    EchoRead(g, pdu, 0x06, addr);
    RegBytes(r);
    assert f[3..][..2] == g[3..][..2];
    SameRegWrite(m.regs, addr, 1, g[3..], f[3..]);
  }

  // ----- function 15

  function CoilsRequest(addr: nat, n: nat, data: seq<Byte>): seq<Byte>
    requires NBytes(n) == |data|
  {
    Head(0x0F, addr, n) + ([ByteOf(NBytes(n))] + data)
  }

  lemma LongRead(f: seq<Byte>, code: Byte, a: nat, b: nat, count: Byte, data: seq<Byte>)
    requires On(f, Head(code, a, b) + ([count] + data)) && a < 0x1_0000 && b < 0x1_0000
    ensures On(f, Head(code, a, b)) && U16(f[1], f[2]) == a && U16(f[3], f[4]) == b
    ensures |f| >= 6 + |data| && f[5] == count && f[6..][..|data|] == data
  {
    hide U16, ByteOf;
    OnHead(f, Head(code, a, b), [count] + data);
    HeadRead(f, code, a, b);
    var rest := f[5..6 + |data|];
    assert rest == [count] + data;
    assert rest[0] == count && rest[1..] == data;
  }

  /** Whatever stray bits the last data byte carries. */
  lemma WriteCoilsExchange(m: Tables, s: Tables, snd: seq<Byte>, f: seq<Byte>, g: seq<Byte>, addr: nat, n: nat, data: seq<Byte>)
    requires Agree(m, s) && SendBuffer(snd) && Frame(f) && Frame(g) && addr < 0x1_0000 && n < 0x1_0000
    requires NBytes(n) == |data| && On(snd, CoilsRequest(addr, n, data)) && On(f, CoilsRequest(addr, n, data))
    requires 1 <= n && addr + n <= NCOILS
    requires var a := SlaveWriteCoils(s, f, 6 + |data|); a.len <= |a.f| && On(g, a.f[..a.len])
    ensures SlaveWriteCoils(s, f, 6 + |data|).exc == None_
    ensures var (exc, m2) := MasterWriteCoils(m, snd, g, SlaveWriteCoils(s, f, 6 + |data|).len, false);
      exc == None_ && Agree(m2, SlaveWriteCoils(s, f, 6 + |data|).t)
    ensures forall i :: 0 <= i < n ==> SlaveWriteCoils(s, f, 6 + |data|).t.coils[addr + i] == CoilAt(data, i)
  {
    hide U16, ByteOf, WriteCoils, Head;
    LongRead(snd, 0x0F, addr, n, ByteOf(NBytes(n)), data);
    LongRead(f, 0x0F, addr, n, ByteOf(NBytes(n)), data);
    ReplyIsHead(f, g, 0x0F, addr, n);
    SameCoilWrite(m.coils, s.coils, addr, n, snd[6..], f[6..]);
    forall i | 0 <= i < n ensures WriteCoils(s.coils, addr, n, f[6..])[addr + i] == CoilAt(data, i) {
      PrefixCoil(f[6..], |data|, i);
      CoilWritten(s.coils, addr, n, f[6..], i);
    }
  }

  lemma CoilWritten(v: seq<bool>, s: nat, n: nat, data: seq<Byte>, i: nat)
    requires Padded(n) <= 8 * |data| && i < n && s + n <= |v|
    ensures WriteCoils(v, s, n, data)[s + i] == CoilAt(data, i)
  {
    hide ByteBit;
  }

  lemma ReplyIsHead(f: seq<Byte>, g: seq<Byte>, code: Byte, a: nat, b: nat)
    requires On(f, Head(code, a, b)) && On(g, f[..5]) && a < 0x1_0000 && b < 0x1_0000
    ensures U16(g[1], g[2]) == a && U16(g[3], g[4]) == b
  {
    hide U16, ByteOf;
    HeadRead(g, code, a, b);
  }

  // ----- function 16

  /** Register values as the request carries them, high byte first. */
  function RegBytesOf(regs: seq<bv16>): (r: seq<Byte>)
    ensures |r| == 2 * |regs|
  {
    ReadRegs(regs, 0, |regs|)
  }

  lemma WriteRegsExchange(m: Tables, s: Tables, snd: seq<Byte>, f: seq<Byte>, g: seq<Byte>, addr: nat, regs: seq<bv16>)
    requires Agree(m, s) && SendBuffer(snd) && Frame(f) && Frame(g) && 1 <= |regs| <= 120 && addr + |regs| <= NREGS
    requires var pdu := Head(0x10, addr, |regs|) + ([ByteOf(2 * |regs|)] + RegBytesOf(regs)); On(snd, pdu) && On(f, pdu)
    requires var a := SlaveWriteRegs(s, f, 6 + 2 * |regs|); a.len <= |a.f| && On(g, a.f[..a.len])
    ensures SlaveWriteRegs(s, f, 6 + 2 * |regs|).exc == None_
    ensures var (exc, m2) := MasterWriteRegs(m, snd, SlaveWriteRegs(s, f, 6 + 2 * |regs|).len, false);
      exc == None_ && Agree(m2, SlaveWriteRegs(s, f, 6 + 2 * |regs|).t)
    ensures forall i :: 0 <= i < |regs| ==> SlaveWriteRegs(s, f, 6 + 2 * |regs|).t.regs[addr + i] == regs[i]
  {
    hide U16, ByteOf, Num, WriteRegs, ReadRegs, Head;
    var n, data := |regs|, RegBytesOf(regs);
    LongRead(snd, 0x10, addr, n, ByteOf(2 * n), data);
    LongRead(f, 0x10, addr, n, ByteOf(2 * n), data);
    NumOfByte(2 * n);
    SameRegWrite(m.regs, addr, n, snd[6..], f[6..]);
    forall i | 0 <= i < n ensures WriteRegs(s.regs, addr, n, f[6..])[addr + i] == regs[i] {
      RegWritten(s.regs, addr, regs, f[6..], i);
    }
  }

  lemma RegWritten(v: seq<bv16>, s: nat, regs: seq<bv16>, data: seq<Byte>, i: nat)
    requires s + |regs| <= |v| && 2 * |regs| <= |data| && data[..2 * |regs|] == RegBytesOf(regs) && i < |regs|
    ensures WriteRegs(v, s, |regs|, data)[s + i] == regs[i]
  {
    hide WordOf, HiByte, LoByte;
    assert data[2 * i] == data[..2 * |regs|][2 * i] && data[2 * i + 1] == data[..2 * |regs|][2 * i + 1];
    assert RegBytesOf(regs)[2 * i] == HiByte(regs[i]) && RegBytesOf(regs)[2 * i + 1] == LoByte(regs[i]);
    RegBytes(regs[i]);
  }

  // ----- function 23

  function ReadWriteRequest(ra: nat, rn: nat, wa: nat, regs: seq<bv16>): seq<Byte>
  {
    Head(0x17, ra, rn) + (Head(ByteOf(wa / 256), 0, 0)[..1] + [ByteOf(wa), ByteOf(|regs| / 256), ByteOf(|regs|), ByteOf(2 * |regs|)]
    + RegBytesOf(regs))
  }

  lemma ReadWriteRead(f: seq<Byte>, ra: nat, rn: nat, wa: nat, regs: seq<bv16>)
    requires On(f, ReadWriteRequest(ra, rn, wa, regs)) && ra < 0x1_0000 && rn < 0x1_0000 && wa < 0x1_0000 && |regs| < 0x1_0000
    ensures |f| >= 10 + 2 * |regs| && U16(f[1], f[2]) == ra && U16(f[3], f[4]) == rn
    ensures U16(f[5], f[6]) == wa && U16(f[7], f[8]) == |regs| && f[9] == ByteOf(2 * |regs|)
    ensures f[10..][..2 * |regs|] == RegBytesOf(regs)
  {
    hide U16, ByteOf, RegBytesOf;
    var w := [ByteOf(wa / 256), ByteOf(wa), ByteOf(|regs| / 256), ByteOf(|regs|), ByteOf(2 * |regs|)];
    assert ReadWriteRequest(ra, rn, wa, regs) == Head(0x17, ra, rn) + (w + RegBytesOf(regs));
    OnHead(f, Head(0x17, ra, rn), w + RegBytesOf(regs));
    HeadRead(f, 0x17, ra, rn);
    var rest := f[5..10 + 2 * |regs|];
    assert rest == w + RegBytesOf(regs);
    assert rest[0] == w[0] && rest[1] == w[1] && rest[2] == w[2] && rest[3] == w[3] && rest[4] == w[4];
    assert rest[5..] == RegBytesOf(regs);
    U16Back(wa);
    U16Back(|regs|);
  }

  /** What the slave has done and sent once it accepted the request. */
  lemma ReadWriteReply(s: Tables, f: seq<Byte>, g: seq<Byte>, ra: nat, rn: nat, wa: nat, regs: seq<bv16>)
    requires Sized(s) && Frame(f) && Frame(g)
    requires 1 <= rn <= 125 && ra + rn <= NREGS && 1 <= |regs| <= 121 && wa + |regs| <= NREGS
    requires On(f, ReadWriteRequest(ra, rn, wa, regs))
    requires var a := SlaveReadWriteRegs(s, f, 10 + 2 * |regs|); a.len <= |a.f| && On(g, a.f[..a.len])
    ensures |f| >= 10 + 2 * |regs| && SlaveReadWriteRegs(s, f, 10 + 2 * |regs|).exc == None_
    ensures var a := SlaveReadWriteRegs(s, f, 10 + 2 * |regs|); var u := WriteRegs(s.regs, wa, |regs|, f[10..]);
      && a.t == s.(regs := u) && |u| == NREGS && a.len == 2 + 2 * rn
      && g[1] == ByteOf(2 * rn) && g[2..][..2 * rn] == ReadRegs(u, ra, rn)
  {
    hide U16, ByteOf, Num, WriteRegs, ReadRegs, RegBytesOf, ReadWriteRequest;
    ReadWriteRead(f, ra, rn, wa, regs);
    NumOfByte(2 * |regs|);
    var head, data := [0x17, ByteOf(2 * rn)], ReadRegs(WriteRegs(s.regs, wa, |regs|, f[10..]), ra, rn);
    OnHead(g, head, data);
    ReplyHead(g, head);
  }

  /** What the master's handler stores on that reply. */
  lemma ReadWriteStored(m: Tables, snd: seq<Byte>, g: seq<Byte>, len: nat, ra: nat, rn: nat, wa: nat, regs: seq<bv16>)
    requires SendBuffer(snd) && Frame(g) && len >= 2 && On(snd, ReadWriteRequest(ra, rn, wa, regs))
    requires ra < 0x1_0000 && rn <= 0x7D && wa < 0x1_0000 && wa + |regs| <= NREGS && ra + rn <= NREGS
    requires g[1] == ByteOf(2 * rn)
    ensures |snd| >= 10 + 2 * |regs|
    ensures MasterReadWriteRegs(m, snd, g, len, false)
         == (None_, m.(regs := WriteRegs(WriteRegs(m.regs, wa, |regs|, snd[10..]), ra, rn, g[2..])))
  {
    hide U16, ByteOf, Num, WriteRegs, RegBytesOf, ReadWriteRequest, On;
    ReadWriteRead(snd, ra, rn, wa, regs);
    NumOfByte(2 * rn);
  }

  /** The slave writes, then reads; the master stores what it sent, then what it got: also when the two
      ranges overlap, the mirror ends up like the slave. */
  lemma ReadWriteExchange(m: Tables, s: Tables, snd: seq<Byte>, f: seq<Byte>, g: seq<Byte>, ra: nat, rn: nat, wa: nat, regs: seq<bv16>)
    requires Sized(m) && Sized(s) && SendBuffer(snd) && Frame(f) && Frame(g)
    requires 1 <= rn <= 125 && ra + rn <= NREGS && 1 <= |regs| <= 121 && wa + |regs| <= NREGS
    requires On(snd, ReadWriteRequest(ra, rn, wa, regs)) && On(f, ReadWriteRequest(ra, rn, wa, regs))
    requires var a := SlaveReadWriteRegs(s, f, 10 + 2 * |regs|); a.len <= |a.f| && On(g, a.f[..a.len])
    ensures SlaveReadWriteRegs(s, f, 10 + 2 * |regs|).exc == None_
    ensures var a := SlaveReadWriteRegs(s, f, 10 + 2 * |regs|);
      var (exc, m2) := MasterReadWriteRegs(m, snd, g, a.len, false);
      && exc == None_ && m2.coils == m.coils && a.t.coils == s.coils && |m2.regs| == |a.t.regs| == NREGS
      && (forall i :: ra <= i < ra + rn && i < NREGS ==> m2.regs[i] == a.t.regs[i])
      && (Agree(m, s) ==> Agree(m2, a.t))
  {
    hide U16, WriteRegs, ReadRegs, RegBytesOf, ReadWriteRequest, SlaveReadWriteRegs, MasterReadWriteRegs, On;
    var n := |regs|;
    ReadWriteRead(snd, ra, rn, wa, regs);
    ReadWriteRead(f, ra, rn, wa, regs);
    ReadWriteReply(s, f, g, ra, rn, wa, regs);
    ReadWriteStored(m, snd, g, 2 + 2 * rn, ra, rn, wa, regs);
    var u := WriteRegs(s.regs, wa, n, f[10..]);
    var w := WriteRegs(m.regs, wa, n, snd[10..]);
    RegsMirrored(w, u, ra, rn, g[2..]);
    SameRegWrite(m.regs, wa, n, snd[10..], f[10..]);
  }

  /** The registers of a read reply, written to the mirror. */
  lemma RegsMirrored(w: seq<bv16>, u: seq<bv16>, s: nat, n: nat, data: seq<Byte>)
    requires |w| == |u| && s + n <= |u| && 2 * n <= |data| && data[..2 * n] == ReadRegs(u, s, n)
    ensures var r := WriteRegs(w, s, n, data);
      && |r| == |w| && (forall i :: 0 <= i < |w| ==> r[i] == if s <= i < s + n then u[i] else w[i])
      && (w == u ==> r == u)
  {
    hide ReadRegs;
    forall i | 0 <= i < |w| ensures WriteRegs(w, s, n, data)[i] == if s <= i < s + n then u[i] else w[i] {
      WriteReadRegs(w, u, s, n, data, i);
    }
  }

  // ----- requests the slave refuses

  /** The function 23 request in f passes every check but the one on its read range, which comes last. */
  predicate OnlyReadBad(f: seq<Byte>, len: nat)
    requires Frame(f)
  {
    var ra, rn, wa, wn := U16(f[1], f[2]), U16(f[3], f[4]), U16(f[5], f[6]), U16(f[7], f[8]);
    len >= 10 && 1 <= rn <= 0x7D && 1 <= wn <= 0x79 && 2 * wn == Num(f[9]) && wa + wn <= NREGS && ra + rn > NREGS
  }

  lemma WriteFits(f: seq<Byte>, len: nat)
    requires Frame(f) && OnlyReadBad(f, len)
    ensures 2 * U16(f[7], f[8]) <= |f[10..]|
  {
    hide U16;
    NumRange(f[9]);
  }

  /** An exception leaves the slave's tables alone, with one exception: when function 23 has written and its
      read range then turns out invalid. */
  lemma ReadWriteKeepsIff(s: Tables, f: seq<Byte>, len: nat)
    requires Sized(s) && Frame(f)
    ensures OnlyReadBad(f, len) ==> 2 * U16(f[7], f[8]) <= |f[10..]|
    ensures var a := SlaveReadWriteRegs(s, f, len);
      && (OnlyReadBad(f, len) ==> a.exc == IllegalDataAddress)
      && (OnlyReadBad(f, len) ==> a.t == s.(regs := WriteRegs(s.regs, U16(f[5], f[6]), U16(f[7], f[8]), f[10..])))
      && (!OnlyReadBad(f, len) && a.exc != None_ ==> a.t == s)
  {
    hide U16, WriteRegs;
    NumRange(f[9]);
  }

  /** A function 23 request answered with an exception can change a slave's tables if and only if it passes
      every check but the one on its read range. */
  lemma ReadWriteChangesIff(f: seq<Byte>, len: nat)
    requires Frame(f)
    ensures OnlyReadBad(f, len) <==>
              (exists s: Tables :: Sized(s) && SlaveReadWriteRegs(s, f, len).exc != None_ && SlaveReadWriteRegs(s, f, len).t != s)
  {
    hide U16, WriteRegs, SlaveReadWriteRegs, OnlyReadBad;
    if OnlyReadBad(f, len) {
      WriteFits(f, len);
      var wa, wn := U16(f[5], f[6]), U16(f[7], f[8]);
      RangeOfWrite(f, len);
      var s := Flipped(WordOf(f[11], f[10]));
      ReadWriteKeepsIff(s, f, len);
      FirstWritten(s.regs, wa, wn, f[10..]);
      assert SlaveReadWriteRegs(s, f, len).t.regs[wa] != s.regs[wa];
    } else {
      forall s: Tables | Sized(s) && SlaveReadWriteRegs(s, f, len).exc != None_
        ensures SlaveReadWriteRegs(s, f, len).t == s
      {
        ReadWriteKeepsIff(s, f, len);
      }
    }
  }

  lemma RangeOfWrite(f: seq<Byte>, len: nat)
    requires Frame(f) && OnlyReadBad(f, len)
    ensures U16(f[7], f[8]) >= 1 && U16(f[5], f[6]) < NREGS
  {
    hide U16;
  }

  lemma FirstWritten(regs: seq<bv16>, s: nat, n: nat, data: seq<Byte>)
    requires s < |regs| && n >= 1 && 2 * n <= |data|
    ensures WriteRegs(regs, s, n, data)[s] == WordOf(data[1], data[0])
  {
    hide WordOf;
  }

  /** Tables in which every register differs from r. */
  function Flipped(r: bv16): (t: Tables)
    ensures Sized(t) && forall i :: 0 <= i < NREGS ==> t.regs[i] != r
  {
    Tables(seq(NCOILS, _ => false), seq(NREGS, _ => if r == 0 then 1 else 0))
  }

  /** Write 0x1234 to register 0, read register 100, which does not exist: refused, and written. */
  lemma ReadWriteChangedSlave()
    ensures var f := [0x17, 0, 100, 0, 1, 0, 0, 0, 1, 2, 0x12, 0x34] + seq(FRAME_SIZE - 12, _ => 0);
      var s := Flipped(0x1234);
      && Frame(f) && SlaveReadWriteRegs(s, f, 12).exc == IllegalDataAddress
      && s.regs[0] == 0 && SlaveReadWriteRegs(s, f, 12).t.regs[0] == 0x1234
  {
    var f := [0x17, 0, 100, 0, 1, 0, 0, 0, 1, 2, 0x12, 0x34] + seq(FRAME_SIZE - 12, _ => 0);
    var s := Flipped(0x1234);
    assert OnlyReadBad(f, 12);
    ReadWriteKeepsIff(s, f, 12);
    FirstWritten(s.regs, 0, 1, f[10..]);
    assert f[10..][0] == 0x12 && f[10..][1] == 0x34;
    assert WordOf(0x34, 0x12) == 0x1234;
  }

  /** Function 1 refuses a count as a value, instead of looking at the addresses, if and only if it is 0 or
      at least 2000; the standard allows 2000. */
  lemma CoilCountIff(s: Tables, f: seq<Byte>)
    requires Sized(s) && Frame(f)
    ensures SlaveReadCoils(s, f, 5).exc == IllegalDataValue <==> U16(f[3], f[4]) == 0 || U16(f[3], f[4]) >= 2000
  {
    hide U16, ReadLoop;
  }

  lemma RefusedKeeps(s: Tables, f: seq<Byte>, len: nat)
    requires Sized(s) && Frame(f)
    ensures SlaveReadCoils(s, f, len).t == s && SlaveReadRegs(s, f, len).t == s
    ensures SlaveWriteCoil(s, f, len).exc != None_ ==> SlaveWriteCoil(s, f, len).t == s
    ensures SlaveWriteCoils(s, f, len).exc != None_ ==> SlaveWriteCoils(s, f, len).t == s
    ensures SlaveWriteReg(s, f, len).exc != None_ ==> SlaveWriteReg(s, f, len).t == s
    ensures SlaveWriteRegs(s, f, len).exc != None_ ==> SlaveWriteRegs(s, f, len).t == s
  {
    hide U16, WriteRegs, WriteCoils, ReadRegs, ReadLoop;
  }

  // ----- broadcast writes: no reply, the master executes its own request on every row

  /** Each slave and its mirror row do the same with a broadcast coil write, whether they take it or not. */
  lemma BroadcastCoil(m: Tables, s: Tables, snd: seq<Byte>, f: seq<Byte>, addr: nat, on: bool)
    requires Agree(m, s) && SendBuffer(snd) && Frame(f) && addr < 0x1_0000
    requires On(snd, CoilRequest(addr, on)) && On(f, CoilRequest(addr, on))
    ensures Agree(MasterWriteCoil(m, snd, 5).1, SlaveWriteCoil(s, f, 5).t)
  {
    hide U16, ByteOf, WriteCoils;
    EchoRead(f, CoilRequest(addr, on), 0x05, addr);
    EchoRead(snd, CoilRequest(addr, on), 0x05, addr);
    var data := [if on then 1 else 0, 0];
    SameCoilWrite(m.coils, s.coils, addr, 1, data, data);
  }

  lemma BroadcastReg(m: Tables, s: Tables, snd: seq<Byte>, f: seq<Byte>, addr: nat, r: bv16)
    requires Agree(m, s) && SendBuffer(snd) && Frame(f) && addr < 0x1_0000
    requires var pdu := [0x06, ByteOf(addr / 256), ByteOf(addr), HiByte(r), LoByte(r)]; On(snd, pdu) && On(f, pdu)
    ensures Agree(MasterWriteReg(m, snd, 5).1, SlaveWriteReg(s, f, 5).t)
  {
    hide U16, ByteOf, HiByte, LoByte, WriteRegs;
    var pdu := [0x06, ByteOf(addr / 256), ByteOf(addr), HiByte(r), LoByte(r)];
    EchoRead(f, pdu, 0x06, addr);
    EchoRead(snd, pdu, 0x06, addr);
    assert f[3..][..2] == snd[3..][..2];
    SameRegWrite(m.regs, addr, 1, snd[3..], f[3..]);
  }

  lemma BroadcastCoils(m: Tables, s: Tables, snd: seq<Byte>, f: seq<Byte>, addr: nat, n: nat, data: seq<Byte>)
    requires Agree(m, s) && SendBuffer(snd) && Frame(f) && addr < 0x1_0000 && n < 0x1_0000
    requires NBytes(n) == |data| && On(snd, CoilsRequest(addr, n, data)) && On(f, CoilsRequest(addr, n, data))
    ensures Agree(MasterWriteCoils(m, snd, snd, 6 + |data|, true).1, SlaveWriteCoils(s, f, 6 + |data|).t)
  {
    hide U16, ByteOf, WriteCoils, Head;
    LongRead(snd, 0x0F, addr, n, ByteOf(NBytes(n)), data);
    LongRead(f, 0x0F, addr, n, ByteOf(NBytes(n)), data);
    SameCoilWrite(m.coils, s.coils, addr, n, snd[6..], f[6..]);
  }

  lemma BroadcastRegs(m: Tables, s: Tables, snd: seq<Byte>, f: seq<Byte>, addr: nat, regs: seq<bv16>)
    requires Agree(m, s) && SendBuffer(snd) && Frame(f) && addr < 0x1_0000 && |regs| < 0x1_0000
    requires var pdu := Head(0x10, addr, |regs|) + ([ByteOf(2 * |regs|)] + RegBytesOf(regs)); On(snd, pdu) && On(f, pdu)
    ensures Agree(MasterWriteRegs(m, snd, 6 + 2 * |regs|, true).1, SlaveWriteRegs(s, f, 6 + 2 * |regs|).t)
  {
    hide U16, ByteOf, Num, WriteRegs, ReadRegs, Head;
    var n, data := |regs|, RegBytesOf(regs);
    LongRead(snd, 0x10, addr, n, ByteOf(2 * n), data);
    LongRead(f, 0x10, addr, n, ByteOf(2 * n), data);
    NumOfByte(2 * n);
    SameRegWrite(m.regs, addr, n, snd[6..], f[6..]);
    if n == 0 { EmptyRegWrite(m.regs, addr, snd[6..]); }
  }

  lemma EmptyRegWrite(m: seq<bv16>, s: nat, data: seq<Byte>)
    ensures WriteRegs(m, s, 0, data) == m
  {
  }
}
