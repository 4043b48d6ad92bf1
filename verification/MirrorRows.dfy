/** The master's mirror as the source lays it out: the coil rows of the sixteen slaves one behind the other in
    one array, so that the bits a coil write leaves behind its row land in the row of the next slave. */
module MirrorRows {

  import opened CoilBits
  import opened CoilTable
  import opened Crc
  import opened MirrorExchange
  import opened MirrorSpec

  const ROWS := 16   // MB_MASTER_TOTAL_SLAVE_NUM

  /** `coils` are all rows and the memory behind the last one. */
  datatype Mirror = Mirror(coils: seq<bool>, regs: seq<seq<bv16>>)

  ghost predicate Shaped(m: Mirror)
  {
    |m.coils| >= NCOILS * ROWS && |m.regs| == ROWS && forall k :: 0 <= k < ROWS ==> |m.regs[k]| == NREGS
  }

  /** The mirror seen from row k: its coils, with everything behind them, and its registers. */
  function FromRow(m: Mirror, k: nat): Tables
    requires NCOILS * k <= |m.coils| && k < |m.regs|
  {
    Tables(m.coils[NCOILS * k..], m.regs[k])
  }

  function WithRow(m: Mirror, k: nat, t: Tables): Mirror
    requires NCOILS * k <= |m.coils| && k < |m.regs|
  {
    Mirror(m.coils[..NCOILS * k] + t.coils, m.regs[k := t.regs])
  }

  /** Every row agrees with its slave. */
  ghost predicate AllAgree(m: Mirror, ss: seq<Tables>)
  {
    Shaped(m) && |ss| == ROWS && forall k: nat :: k < ROWS ==> Agree(FromRow(m, k), ss[k])
  }

  // ----- one row changes

  /** Nothing behind row k has changed from v to w, both seen from row k. */
  ghost predicate QuietBehind(v: seq<bool>, w: seq<bool>, k: nat)
  {
    |v| == |w| && forall p: nat :: NCOILS <= p < NCOILS * (ROWS - k) && p < |v| ==> w[p] == v[p]
  }

  lemma NewRow(m: Mirror, k: nat, t: Tables, j: nat, c: nat)
    requires Shaped(m) && k < ROWS && j < ROWS && c < NCOILS
    requires |t.coils| == |m.coils| - NCOILS * k && |t.regs| == NREGS
    ensures Shaped(WithRow(m, k, t)) && |WithRow(m, k, t).coils| == |m.coils|
    ensures j < k ==> WithRow(m, k, t).coils[NCOILS * j + c] == m.coils[NCOILS * j + c]
    ensures j >= k ==> WithRow(m, k, t).coils[NCOILS * j + c] == t.coils[NCOILS * (j - k) + c]
    ensures WithRow(m, k, t).regs[j] == if j == k then t.regs else m.regs[j]
  {
  }

  lemma AgreeMeans(m: Mirror, k: nat, s: Tables)
    requires Shaped(m) && k < ROWS
    ensures Agree(FromRow(m, k), s) <==>
      Sized(s) && m.regs[k] == s.regs && forall c: nat :: c < NCOILS ==> m.coils[NCOILS * k + c] == s.coils[c]
  {
    var v := FromRow(m, k).coils;
    if Agree(FromRow(m, k), s) {
      forall c: nat | c < NCOILS ensures m.coils[NCOILS * k + c] == s.coils[c] {
        assert v[..NCOILS][c] == s.coils[..NCOILS][c];
      }
    }
    if Sized(s) && forall c: nat :: c < NCOILS ==> m.coils[NCOILS * k + c] == s.coils[c] {
      assert v[..NCOILS] == s.coils[..NCOILS];
    }
  }

  lemma OneCoilBehind(m: Mirror, ss: seq<Tables>, k: nat, t: Tables, s: Tables, p: nat)
    requires AllAgree(m, ss) && k < ROWS && NCOILS <= p < NCOILS * (ROWS - k)
    requires |t.coils| == |m.coils| - NCOILS * k && |t.regs| == NREGS && AllAgree(WithRow(m, k, t), ss[k := s])
    ensures t.coils[p] == m.coils[NCOILS * k + p]
  {
    var j, c := k + p / NCOILS, p % NCOILS;
    NewRow(m, k, t, j, c);
    AgreeMeans(m, j, ss[j]);
    assert Agree(FromRow(WithRow(m, k, t), j), ss[k := s][j]);
    AgreeMeans(WithRow(m, k, t), j, ss[j]);
  }

  /** When row k becomes t and its slave s, all rows agree if and only if row k does and nothing behind it
      has changed. */
  lemma RowKeepsIff(m: Mirror, ss: seq<Tables>, k: nat, t: Tables, s: Tables)
    requires AllAgree(m, ss) && k < ROWS && Sized(s)
    requires |t.coils| == |m.coils| - NCOILS * k && |t.regs| == NREGS
    ensures AllAgree(WithRow(m, k, t), ss[k := s]) <==> Agree(t, s) && QuietBehind(FromRow(m, k).coils, t.coils, k)
  {
    hide Agree, Sized;
    var n := WithRow(m, k, t);
    NewRow(m, k, t, k, 0);
    assert FromRow(n, k) == t;
    if AllAgree(n, ss[k := s]) {
      assert Agree(FromRow(n, k), ss[k := s][k]);
      forall p: nat | NCOILS <= p < NCOILS * (ROWS - k) && p < |t.coils| ensures t.coils[p] == FromRow(m, k).coils[p] {
        OneCoilBehind(m, ss, k, t, s, p);
      }
    }
    if Agree(t, s) && QuietBehind(FromRow(m, k).coils, t.coils, k) {
      forall j: nat | j < ROWS ensures Agree(FromRow(n, j), ss[k := s][j]) {
        if j != k { OtherRowAgrees(m, ss, k, t, j); }
      }
    }
  }

  lemma OtherRowAgrees(m: Mirror, ss: seq<Tables>, k: nat, t: Tables, j: nat)
    requires AllAgree(m, ss) && k < ROWS && j < ROWS && j != k
    requires |t.coils| == |m.coils| - NCOILS * k && |t.regs| == NREGS && QuietBehind(FromRow(m, k).coils, t.coils, k)
    ensures Shaped(WithRow(m, k, t)) && Agree(FromRow(WithRow(m, k, t), j), ss[j])
  {
    hide Agree;
    var n := WithRow(m, k, t);
    NewRow(m, k, t, j, 0);
    AgreeMeans(m, j, ss[j]);
    AgreeMeans(n, j, ss[j]);
    forall c: nat | c < NCOILS ensures n.coils[NCOILS * j + c] == ss[j].coils[c] {
      NewRow(m, k, t, j, c);
      if j > k { assert t.coils[NCOILS * (j - k) + c] == FromRow(m, k).coils[NCOILS * (j - k) + c]; }
    }
  }

  // ----- what a coil write does behind its row

  /** Coil c of row r. */
  predicate Cell(m: Mirror, r: nat, c: nat)
    requires |m.coils| >= NCOILS * ROWS && r < ROWS && c < NCOILS
  {
    m.coils[NCOILS * r + c]
  }

  /** A bit of the last data byte of a write to one row lands on coil c of the next. */
  predicate StrayOn(addr: nat, n: nat, data: seq<Byte>, c: nat)
    requires Padded(n) <= 8 * |data|
  {
    addr <= NCOILS + c < addr + Padded(n) && CoilAt(data, NCOILS + c - addr)
  }

  /** Every bit of the last data byte that lands behind row k meets a coil that is set there already. */
  ghost predicate StraysMeetSet(m: Mirror, k: nat, addr: nat, n: nat, data: seq<Byte>)
    requires Shaped(m) && k < ROWS && Padded(n) <= 8 * |data|
  {
    k + 1 < ROWS ==> (forall c: nat :: c < NCOILS && StrayOn(addr, n, data, c) ==> Cell(m, k + 1, c))
  }

  lemma WriteQuietIff(m: Mirror, k: nat, addr: nat, n: nat, data: seq<Byte>)
    requires Shaped(m) && k < ROWS && addr + n <= NCOILS && Padded(n) <= 8 * |data|
    ensures QuietBehind(FromRow(m, k).coils, WriteCoils(FromRow(m, k).coils, addr, n, data), k)
       <==> StraysMeetSet(m, k, addr, n, data)
  {
    hide CoilAt;
    var v := FromRow(m, k).coils;
    var w := WriteCoils(v, addr, n, data);
    if QuietBehind(v, w, k) && k + 1 < ROWS {
      forall c: nat | c < NCOILS && StrayOn(addr, n, data, c) ensures Cell(m, k + 1, c) {
        assert w[NCOILS + c] == v[NCOILS + c];
      }
    }
    if StraysMeetSet(m, k, addr, n, data) {
      forall p: nat | NCOILS <= p < NCOILS * (ROWS - k) && p < |v| ensures w[p] == v[p] {
        if addr <= p < addr + Padded(n) {
          assert StrayOn(addr, n, data, p - NCOILS) ==> Cell(m, k + 1, p - NCOILS);
        }
      }
    }
  }

  lemma PaddedMeetsAll(m: Mirror, addr: nat, n: nat, data: seq<Byte>)
    requires Shaped(m) && addr + n <= NCOILS && Padded(n) <= 8 * |data| && ZeroPadded(data, n)
    ensures AllStraysMeetSet(m, addr, n, data)
  {
    hide CoilAt;
  }

  lemma PrefixStray(addr: nat, n: nat, data: seq<Byte>, more: seq<Byte>, c: nat)
    requires Padded(n) <= 8 * |data| && |data| <= |more| && more[..|data|] == data
    ensures StrayOn(addr, n, more, c) == StrayOn(addr, n, data, c)
  {
    hide CoilAt;
    if addr <= NCOILS + c < addr + Padded(n) { PrefixCoil(more, |data|, NCOILS + c - addr); }
  }

  lemma PrefixStrays(m: Mirror, k: nat, addr: nat, n: nat, data: seq<Byte>, more: seq<Byte>)
    requires Shaped(m) && k < ROWS && Padded(n) <= 8 * |data| && |data| <= |more| && more[..|data|] == data
    ensures StraysMeetSet(m, k, addr, n, more) <==> StraysMeetSet(m, k, addr, n, data)
  {
    hide StrayOn;
    forall c: nat ensures StrayOn(addr, n, more, c) == StrayOn(addr, n, data, c) { PrefixStray(addr, n, data, more, c); }
  }

  /** What a write to the last row does to the memory behind the mirror. */
  lemma BehindMirrorIff(m: Mirror, addr: nat, n: nat, data: seq<Byte>)
    requires Shaped(m) && |m.coils| >= NCOILS * ROWS + 8 && addr + n <= NCOILS && Padded(n) <= 8 * |data|
    ensures var w := WriteCoils(FromRow(m, ROWS - 1).coils, addr, n, data);
      (forall p: nat :: NCOILS <= p < |w| ==> w[p] == FromRow(m, ROWS - 1).coils[p])
      <==> (forall c: nat :: c < 8 && StrayOn(addr, n, data, c) ==> m.coils[NCOILS * ROWS + c])
  {
    hide CoilAt;
    var v := FromRow(m, ROWS - 1).coils;
    var w := WriteCoils(v, addr, n, data);
    if forall p: nat :: NCOILS <= p < |w| ==> w[p] == v[p] {
      forall c: nat | c < 8 && StrayOn(addr, n, data, c) ensures m.coils[NCOILS * ROWS + c] {
        assert w[NCOILS + c] == v[NCOILS + c];
      }
    }
    if forall c: nat :: c < 8 && StrayOn(addr, n, data, c) ==> m.coils[NCOILS * ROWS + c] {
      forall p: nat | NCOILS <= p < |w| ensures w[p] == v[p] {
        if addr <= p < addr + Padded(n) {
          assert StrayOn(addr, n, data, p - NCOILS) ==> m.coils[NCOILS * ROWS + (p - NCOILS)];
        }
      }
    }
  }

  /** A write to row k touches the first byte of the next row, for the last row the byte behind the mirror,
      exactly when its last helper call is on the row's last byte, and no byte further on. */
  lemma RowTouchesNextIff(k: nat, addr: nat, n: nat, s: nat)
    requires k < ROWS && n >= 1 && addr + n <= NCOILS && s == NCOILS * k + addr
    ensures NCOILS / 8 * (k + 1) in WriteSpan(s, n) <==> addr / 8 + NBytes(n) == NCOILS / 8
    ensures forall i :: i in WriteSpan(s, n) ==> NCOILS / 8 * k <= i <= NCOILS / 8 * (k + 1)
  {
    WritePastIff(s, n, NCOILS / 8 * (k + 1));
    assert s / 8 == NCOILS / 8 * k + addr / 8;
  }

  // ----- one slave is written to

  /** Function 15 to slave k: after the exchange every row agrees with its slave if and only if every stray bit
      that lands in row k + 1 meets a coil already set there. */
  lemma WriteCoilsAllIff(m: Mirror, ss: seq<Tables>, k: nat, snd: seq<Byte>, f: seq<Byte>, g: seq<Byte>, addr: nat, n: nat, data: seq<Byte>)
    requires AllAgree(m, ss) && k < ROWS && SendBuffer(snd) && Frame(f) && Frame(g) && addr < 0x1_0000 && n < 0x1_0000
    requires NBytes(n) == |data| && On(snd, CoilsRequest(addr, n, data)) && On(f, CoilsRequest(addr, n, data))
    requires 1 <= n && addr + n <= NCOILS
    requires var a := SlaveWriteCoils(ss[k], f, 6 + |data|); a.len <= |a.f| && On(g, a.f[..a.len])
    ensures var a := SlaveWriteCoils(ss[k], f, 6 + |data|);
      var (exc, t) := Handle(0x0F, FromRow(m, k), snd, g, a.len, false);
      exc == None_ && (AllAgree(WithRow(m, k, t), ss[k := a.t]) <==> StraysMeetSet(m, k, addr, n, data))
  {
    hide U16, ByteOf, WriteCoils, Head, AllAgree, QuietBehind, StraysMeetSet, CoilAt;
    RowOfAll(m, ss, k);
    WriteCoilsExchange(FromRow(m, k), ss[k], snd, f, g, addr, n, data);
    LongRead(snd, 0x0F, addr, n, ByteOf(NBytes(n)), data);
    LongRead(f, 0x0F, addr, n, ByteOf(NBytes(n)), data);
    ReplyIsHead(f, g, 0x0F, addr, n);
    var a := SlaveWriteCoils(ss[k], f, 6 + |data|);
    var t := MasterWriteCoils(FromRow(m, k), snd, g, a.len, false).1;
    RowKeepsIff(m, ss, k, t, a.t);
    WriteQuietIff(m, k, addr, n, snd[6..]);
    PrefixStrays(m, k, addr, n, data, snd[6..]);
  }

  lemma RowOfAll(m: Mirror, ss: seq<Tables>, k: nat)
    requires AllAgree(m, ss) && k < ROWS
    ensures Shaped(m) && |ss| == ROWS && Agree(FromRow(m, k), ss[k]) && |FromRow(m, k).coils| == |m.coils| - NCOILS * k
  {
  }

  /** Function 1 from slave k: its reply is zero padded, and every row keeps its agreement. */
  lemma ReadCoilsAll(m: Mirror, ss: seq<Tables>, k: nat, snd: seq<Byte>, f: seq<Byte>, g: seq<Byte>, addr: nat, n: nat)
    requires AllAgree(m, ss) && k < ROWS && SendBuffer(snd) && Frame(f) && Frame(g) && addr < 0x1_0000 && n < 0x1_0000
    requires On(snd, Head(0x01, addr, n)) && On(f, Head(0x01, addr, n))
    requires 1 <= n && addr + n <= NCOILS
    requires var a := SlaveReadCoils(ss[k], f, 5); a.len <= |a.f| && On(g, a.f[..a.len])
    ensures var a := SlaveReadCoils(ss[k], f, 5);
      var (exc, t) := Handle(0x01, FromRow(m, k), snd, g, a.len, false);
      exc == None_ && AllAgree(WithRow(m, k, t), ss[k := a.t])
  {
    hide AllAgree, MasterReadCoils, SlaveReadCoils, Head, Sized;
    RowOfAll(m, ss, k);
    AgreeSized(FromRow(m, k), ss[k]);
    ReadCoilsExchange(FromRow(m, k), ss[k], snd, f, g, addr, n);
    var a := SlaveReadCoils(ss[k], f, 5);
    var t := MasterReadCoils(FromRow(m, k), snd, g, a.len, false).1;
    RowKeepsIff(m, ss, k, t, a.t);
  }

  lemma AgreeSized(m: Tables, s: Tables)
    requires Agree(m, s)
    ensures Sized(m) && Sized(s) && |m.regs| == NREGS
  {
  }

  /** Function 5 to slave k writes one coil and nothing behind it. */
  lemma WriteCoilAll(m: Mirror, ss: seq<Tables>, k: nat, snd: seq<Byte>, f: seq<Byte>, g: seq<Byte>, addr: nat, on: bool)
    requires AllAgree(m, ss) && k < ROWS && Frame(f) && Frame(g) && addr < NCOILS && On(f, CoilRequest(addr, on))
    requires SendBuffer(snd) && var a := SlaveWriteCoil(ss[k], f, 5); On(g, a.f[..a.len])
    ensures var a := SlaveWriteCoil(ss[k], f, 5);
      var (exc, t) := Handle(0x05, FromRow(m, k), snd, g, a.len, false);
      exc == None_ && AllAgree(WithRow(m, k, t), ss[k := a.t])
  {
    hide AllAgree, SlaveWriteCoil, CoilRequest, Sized, MasterWriteCoil;
    RowOfAll(m, ss, k);
    WriteCoilExchange(FromRow(m, k), ss[k], f, g, addr, on);
    var a := SlaveWriteCoil(ss[k], f, 5);
    AgreeSized(MasterWriteCoil(FromRow(m, k), g, a.len).1, a.t);
    OneCoilQuiet(FromRow(m, k), g, a.len, k);
    RowKeepsIff(m, ss, k, MasterWriteCoil(FromRow(m, k), g, a.len).1, a.t);
  }

  lemma OneCoilQuiet(t: Tables, g: seq<Byte>, len: nat, k: nat)
    requires Readable(g)
    ensures var t2 := MasterWriteCoil(t, g, len).1;
      |t2.coils| == |t.coils| && t2.regs == t.regs && QuietBehind(t.coils, t2.coils, k)
  {
    hide U16, CoilAt;
    BitsOfOne();
  }

  lemma BitsOfOne()
    ensures forall x: Byte, t: nat :: x <= 1 && 1 <= t < 16 ==> !CoilAt([x, 0], t)
  {
    forall x: Byte, t: nat | x <= 1 && 1 <= t < 16 ensures !CoilAt([x, 0], t) {
      if t < 8 { HighBits(x, t); } else { HighBits(0, t - 8 + 1); LowZero(t - 8); }
    }
  }

  lemma HighBits(x: Byte, j: nat)
    requires x <= 1 && 1 <= j <= 8
    ensures j < 8 ==> !ByteBit(x, j)
  {
  }

  lemma LowZero(j: nat)
    requires j < 8
    ensures !ByteBit(0, j)
  {
  }

  /** The register functions, 3, 6, 16 and 23, touch no coil: agreement of row k is agreement of all rows. */
  lemma RegsAll(m: Mirror, ss: seq<Tables>, k: nat, t: Tables, s: Tables)
    requires AllAgree(m, ss) && k < ROWS && t.coils == FromRow(m, k).coils && Agree(t, s)
    ensures AllAgree(WithRow(m, k, t), ss[k := s])
  {
    hide AllAgree, Sized;
    RowOfAll(m, ss, k);
    AgreeSized(t, s);
    RowKeepsIff(m, ss, k, t, s);
  }

  lemma ReadRegsAll(m: Mirror, ss: seq<Tables>, k: nat, snd: seq<Byte>, f: seq<Byte>, g: seq<Byte>, addr: nat, n: nat)
    requires AllAgree(m, ss) && k < ROWS && SendBuffer(snd) && Frame(f) && Frame(g) && addr < 0x1_0000 && n < 0x1_0000
    requires On(snd, Head(0x03, addr, n)) && On(f, Head(0x03, addr, n)) && 1 <= n <= 125 && addr + n <= NREGS
    requires var a := SlaveReadRegs(ss[k], f, 5); a.len <= |a.f| && On(g, a.f[..a.len])
    ensures var a := SlaveReadRegs(ss[k], f, 5);
      var (exc, t) := Handle(0x03, FromRow(m, k), snd, g, a.len, false);
      exc == None_ && AllAgree(WithRow(m, k, t), ss[k := a.t])
  {
    hide AllAgree, MasterReadRegs, SlaveReadRegs, Head, Sized, FromRow;
    RowOfAll(m, ss, k);
    AgreeSized(FromRow(m, k), ss[k]);
    ReadRegsExchange(FromRow(m, k), ss[k], snd, f, g, addr, n);
    var a := SlaveReadRegs(ss[k], f, 5);
    RegsAll(m, ss, k, MasterReadRegs(FromRow(m, k), snd, g, a.len, false).1, a.t);
  }

  lemma WriteRegAll(m: Mirror, ss: seq<Tables>, k: nat, snd: seq<Byte>, f: seq<Byte>, g: seq<Byte>, addr: nat, r: bv16)
    requires AllAgree(m, ss) && k < ROWS && SendBuffer(snd) && Frame(f) && Frame(g) && addr < NREGS
    requires On(f, [0x06, ByteOf(addr / 256), ByteOf(addr), HiByte(r), LoByte(r)])
    requires var a := SlaveWriteReg(ss[k], f, 5); On(g, a.f[..a.len])
    ensures var a := SlaveWriteReg(ss[k], f, 5);
      var (exc, t) := Handle(0x06, FromRow(m, k), snd, g, a.len, false);
      exc == None_ && AllAgree(WithRow(m, k, t), ss[k := a.t])
  {
    hide AllAgree, SlaveWriteReg, Sized, FromRow, On, ByteOf, HiByte, LoByte, WriteRegs, U16;
    RowOfAll(m, ss, k);
    WriteRegExchange(FromRow(m, k), ss[k], f, g, addr, r);
    var a := SlaveWriteReg(ss[k], f, 5);
    RegsAll(m, ss, k, MasterWriteReg(FromRow(m, k), g, a.len).1, a.t);
  }

  lemma WriteRegsAll(m: Mirror, ss: seq<Tables>, k: nat, snd: seq<Byte>, f: seq<Byte>, g: seq<Byte>, addr: nat, regs: seq<bv16>)
    requires AllAgree(m, ss) && k < ROWS && SendBuffer(snd) && Frame(f) && Frame(g) && 1 <= |regs| <= 120 && addr + |regs| <= NREGS
    requires var pdu := Head(0x10, addr, |regs|) + ([ByteOf(2 * |regs|)] + RegBytesOf(regs)); On(snd, pdu) && On(f, pdu)
    requires var a := SlaveWriteRegs(ss[k], f, 6 + 2 * |regs|); a.len <= |a.f| && On(g, a.f[..a.len])
    ensures var a := SlaveWriteRegs(ss[k], f, 6 + 2 * |regs|);
      var (exc, t) := Handle(0x10, FromRow(m, k), snd, g, a.len, false);
      exc == None_ && AllAgree(WithRow(m, k, t), ss[k := a.t])
  {
    hide AllAgree, SlaveWriteRegs, Sized, FromRow, On, ByteOf, Head, RegBytesOf, WriteRegs, U16, Num;
    RowOfAll(m, ss, k);
    WriteRegsExchange(FromRow(m, k), ss[k], snd, f, g, addr, regs);
    var a := SlaveWriteRegs(ss[k], f, 6 + 2 * |regs|);
    RegsAll(m, ss, k, MasterWriteRegs(FromRow(m, k), snd, a.len, false).1, a.t);
  }

  lemma ReadWriteAll(m: Mirror, ss: seq<Tables>, k: nat, snd: seq<Byte>, f: seq<Byte>, g: seq<Byte>, ra: nat, rn: nat, wa: nat, regs: seq<bv16>)
    requires AllAgree(m, ss) && k < ROWS && SendBuffer(snd) && Frame(f) && Frame(g)
    requires 1 <= rn <= 125 && ra + rn <= NREGS && 1 <= |regs| <= 121 && wa + |regs| <= NREGS
    requires On(snd, ReadWriteRequest(ra, rn, wa, regs)) && On(f, ReadWriteRequest(ra, rn, wa, regs))
    requires var a := SlaveReadWriteRegs(ss[k], f, 10 + 2 * |regs|); a.len <= |a.f| && On(g, a.f[..a.len])
    ensures var a := SlaveReadWriteRegs(ss[k], f, 10 + 2 * |regs|);
      var (exc, t) := Handle(0x17, FromRow(m, k), snd, g, a.len, false);
      exc == None_ && AllAgree(WithRow(m, k, t), ss[k := a.t])
  {
    hide AllAgree, SlaveReadWriteRegs, MasterReadWriteRegs, Sized, FromRow, On, ReadWriteRequest;
    RowOfAll(m, ss, k);
    AgreeSized(FromRow(m, k), ss[k]);
    ReadWriteExchange(FromRow(m, k), ss[k], snd, f, g, ra, rn, wa, regs);
    var a := SlaveReadWriteRegs(ss[k], f, 10 + 2 * |regs|);
    RegsAll(m, ss, k, MasterReadWriteRegs(FromRow(m, k), snd, g, a.len, false).1, a.t);
  }

  // ----- broadcasts: the poll runs the handler for every row, first to last

  /** The master's handler for function `code`, if there is one. */
  function Handle(code: Byte, m: Tables, snd: seq<Byte>, f: seq<Byte>, len: nat, bcast: bool): (Exception, Tables)
    requires SendBuffer(snd) && Readable(f)
  {
    if code == 0x01 then MasterReadCoils(m, snd, f, len, bcast)
    else if code == 0x03 then MasterReadRegs(m, snd, f, len, bcast)
    else if code == 0x05 then MasterWriteCoil(m, f, len)
    else if code == 0x06 then MasterWriteReg(m, f, len)
    else if code == 0x0F then MasterWriteCoils(m, snd, f, len, bcast)
    else if code == 0x10 then MasterWriteRegs(m, snd, len, bcast)
    else if code == 0x17 then MasterReadWriteRegs(m, snd, f, len, bcast)
    else (IllegalFunction, m)
  }

  /** A function code without a handler is refused and leaves the mirror as it is; functions 2, 4 and 17, which are not
      modelled, have one. */
  lemma NoHandler(code: Byte, m: Tables, snd: seq<Byte>, f: seq<Byte>, len: nat, bcast: bool)
    requires SendBuffer(snd) && Readable(f) && code !in [0x01, 0x02, 0x03, 0x04, 0x05, 0x06, 0x0F, 0x10, 0x11, 0x17]
    ensures Handle(code, m, snd, f, len, bcast) == (IllegalFunction, m)
  {
  }

  lemma HandleSizes(code: Byte, m: Tables, snd: seq<Byte>, f: seq<Byte>, len: nat, bcast: bool)
    requires SendBuffer(snd) && Readable(f)
    ensures var t := Handle(code, m, snd, f, len, bcast).1; |t.coils| == |m.coils| && |t.regs| == |m.regs|
  {
    hide U16, ByteOf, CoilAt;
  }

  /** The mirror after the first k rows. */
  function Broadcast(code: Byte, m: Mirror, snd: seq<Byte>, len: nat, k: nat): (r: Mirror)
    requires SendBuffer(snd) && k <= ROWS <= |m.regs| && NCOILS * ROWS <= |m.coils|
    ensures |r.coils| == |m.coils| && |r.regs| == |m.regs|
  {
    if k == 0 then m else
      var p := Broadcast(code, m, snd, len, k - 1);
      HandleSizes(code, FromRow(p, k - 1), snd, snd, len, true);
      WithRow(p, k - 1, Handle(code, FromRow(p, k - 1), snd, snd, len, true).1)
  }

  lemma BroadcastShaped(code: Byte, m: Mirror, snd: seq<Byte>, len: nat, k: nat)
    requires SendBuffer(snd) && k <= ROWS && Shaped(m)
    ensures Shaped(Broadcast(code, m, snd, len, k))
  {
    hide Handle;
    if k > 0 {
      BroadcastShaped(code, m, snd, len, k - 1);
      HandleSizes(code, FromRow(Broadcast(code, m, snd, len, k - 1), k - 1), snd, snd, len, true);
    }
  }

  /** The handler does to row k what the slave does, and nothing behind the row. */
  ghost predicate RowFine(code: Byte, t: Tables, s: Tables, s2: Tables, snd: seq<Byte>, len: nat, k: nat)
    requires SendBuffer(snd)
  {
    var t2 := Handle(code, t, snd, snd, len, true).1;
    Agree(t, s) ==> Agree(t2, s2) && QuietBehind(t.coils, t2.coils, k)
  }

  lemma {:induction false} BroadcastKeeps(code: Byte, m: Mirror, ss: seq<Tables>, ts: seq<Tables>, snd: seq<Byte>, len: nat, k: nat)
    requires SendBuffer(snd) && k <= ROWS && AllAgree(m, ss) && |ts| == ROWS
    requires forall t: Tables, r: nat :: r < ROWS ==> RowFine(code, t, ss[r], ts[r], snd, len, r)
    ensures AllAgree(Broadcast(code, m, snd, len, k), Mixed(ts, ss, k))
  {
    hide AllAgree, Handle, RowFine, Mixed, FromRow, WithRow;
    AllSized(m, ss);
    MixedStep(ts, ss, k);
    if k > 0 {
      var p, us := Broadcast(code, m, snd, len, k - 1), Mixed(ts, ss, k - 1);
      BroadcastKeeps(code, m, ss, ts, snd, len, k - 1);
      assert RowFine(code, FromRow(p, k - 1), ss[k - 1], ts[k - 1], snd, len, k - 1);
      RowTurn(code, p, us, ts[k - 1], snd, len, k - 1);
    }
  }

  /** The slaves' tables when the first k of them have had their turn. */
  function Mixed(ts: seq<Tables>, ss: seq<Tables>, k: nat): (r: seq<Tables>)
    requires k <= |ts| == |ss|
    ensures |r| == |ts| && forall i :: 0 <= i < |r| ==> r[i] == if i < k then ts[i] else ss[i]
  {
    ts[..k] + ss[k..]
  }

  lemma MixedStep(ts: seq<Tables>, ss: seq<Tables>, k: nat)
    requires k <= |ts| == |ss|
    ensures Mixed(ts, ss, 0) == ss && Mixed(ts, ss, |ts|) == ts
    ensures k > 0 ==> var us := Mixed(ts, ss, k - 1);
      |us| == |ss| && us[k - 1] == ss[k - 1] && us[k - 1 := ts[k - 1]] == Mixed(ts, ss, k)
  {
    hide Mixed;
  }

  /** The turn of row k. */
  lemma RowTurn(code: Byte, m: Mirror, ss: seq<Tables>, s2: Tables, snd: seq<Byte>, len: nat, k: nat)
    requires AllAgree(m, ss) && k < ROWS && SendBuffer(snd) && RowFine(code, FromRow(m, k), ss[k], s2, snd, len, k)
    ensures AllAgree(WithRow(m, k, Handle(code, FromRow(m, k), snd, snd, len, true).1), ss[k := s2])
  {
    hide AllAgree, Handle, Agree, QuietBehind;
    RowOfAll(m, ss, k);
    HandleSizes(code, FromRow(m, k), snd, snd, len, true);
    var t2 := Handle(code, FromRow(m, k), snd, snd, len, true).1;
    AgreeSized(t2, s2);
    RowKeepsIff(m, ss, k, t2, s2);
  }

  /** The frames in which the slaves receive the request. */
  ghost predicate Received(fs: seq<seq<Byte>>, pdu: seq<Byte>)
  {
    |fs| == ROWS && forall r :: 0 <= r < ROWS ==> Frame(fs[r]) && On(fs[r], pdu)
  }

  /** Function 5 as a broadcast: every row keeps its agreement. */
  lemma BroadcastCoilAll(m: Mirror, ss: seq<Tables>, ts: seq<Tables>, snd: seq<Byte>, fs: seq<seq<Byte>>, addr: nat, on: bool)
    requires AllAgree(m, ss) && SendBuffer(snd) && addr < 0x1_0000 && |ts| == ROWS
    requires On(snd, CoilRequest(addr, on)) && Received(fs, CoilRequest(addr, on))
    requires forall r :: 0 <= r < ROWS ==> Sized(ss[r]) && ts[r] == SlaveWriteCoil(ss[r], fs[r], 5).t
    ensures AllAgree(Broadcast(0x05, m, snd, 5, ROWS), ts)
  {
    hide AllAgree, Agree, QuietBehind, SlaveWriteCoil, MasterWriteCoil, CoilRequest, Sized;
    AllSized(m, ss);
    forall t: Tables, r: nat | r < ROWS ensures RowFine(0x05, t, ss[r], ts[r], snd, 5, r) {
      if Agree(t, ss[r]) {
        BroadcastCoil(t, ss[r], snd, fs[r], addr, on);
        OneCoilQuiet(t, snd, 5, r);
      }
    }
    BroadcastKeeps(0x05, m, ss, ts, snd, 5, ROWS);
    MixedStep(ts, ss, ROWS);
  }

  lemma AllSized(m: Mirror, ss: seq<Tables>)
    requires AllAgree(m, ss)
    ensures Shaped(m) && |ss| == ROWS && forall r :: 0 <= r < ROWS ==> Sized(ss[r])
  {
    forall r: nat | r < ROWS ensures Sized(ss[r]) { assert Agree(FromRow(m, r), ss[r]); }
  }

  lemma SameQuiet(v: seq<bool>, k: nat)
    ensures QuietBehind(v, v, k)
  {
  }

  /** Function 6 as a broadcast, likewise. */
  lemma BroadcastRegAll(m: Mirror, ss: seq<Tables>, ts: seq<Tables>, snd: seq<Byte>, fs: seq<seq<Byte>>, addr: nat, v: bv16)
    requires AllAgree(m, ss) && SendBuffer(snd) && addr < 0x1_0000 && |ts| == ROWS
    requires var pdu := [0x06, ByteOf(addr / 256), ByteOf(addr), HiByte(v), LoByte(v)]; On(snd, pdu) && Received(fs, pdu)
    requires forall r :: 0 <= r < ROWS ==> Sized(ss[r]) && ts[r] == SlaveWriteReg(ss[r], fs[r], 5).t
    ensures AllAgree(Broadcast(0x06, m, snd, 5, ROWS), ts)
  {
    hide AllAgree, Agree, QuietBehind, SlaveWriteReg, Sized, ByteOf, HiByte, LoByte, U16, WriteRegs, On;
    AllSized(m, ss);
    forall t: Tables, r: nat | r < ROWS ensures RowFine(0x06, t, ss[r], ts[r], snd, 5, r) {
      if Agree(t, ss[r]) {
        BroadcastReg(t, ss[r], snd, fs[r], addr, v);
        SameQuiet(t.coils, r);
      }
    }
    BroadcastKeeps(0x06, m, ss, ts, snd, 5, ROWS);
    MixedStep(ts, ss, ROWS);
  }

  /** Function 16 as a broadcast, likewise. */
  lemma BroadcastRegsAll(m: Mirror, ss: seq<Tables>, ts: seq<Tables>, snd: seq<Byte>, fs: seq<seq<Byte>>, addr: nat, regs: seq<bv16>)
    requires AllAgree(m, ss) && SendBuffer(snd) && addr < 0x1_0000 && |regs| < 0x1_0000 && |ts| == ROWS
    requires var pdu := Head(0x10, addr, |regs|) + ([ByteOf(2 * |regs|)] + RegBytesOf(regs)); On(snd, pdu) && Received(fs, pdu)
    requires forall r :: 0 <= r < ROWS ==> Sized(ss[r]) && ts[r] == SlaveWriteRegs(ss[r], fs[r], 6 + 2 * |regs|).t
    ensures AllAgree(Broadcast(0x10, m, snd, 6 + 2 * |regs|, ROWS), ts)
  {
    hide AllAgree, Agree, QuietBehind, SlaveWriteRegs, Sized, ByteOf, U16, WriteRegs, On, Head, RegBytesOf, Num;
    var len := 6 + 2 * |regs|;
    AllSized(m, ss);
    forall t: Tables, r: nat | r < ROWS ensures RowFine(0x10, t, ss[r], ts[r], snd, len, r) {
      if Agree(t, ss[r]) {
        BroadcastRegs(t, ss[r], snd, fs[r], addr, regs);
        SameQuiet(t.coils, r);
      }
    }
    BroadcastKeeps(0x10, m, ss, ts, snd, len, ROWS);
    MixedStep(ts, ss, ROWS);
  }

  // ----- function 15 as a broadcast

  /** Coil c of row r after the first k rows: the row in front adds its stray bits, then the row's own turn
      comes. The two never meet: stray bits fall in front of the address, the write behind it. */
  function CoilAfter(m: Mirror, addr: nat, n: nat, data: seq<Byte>, k: nat, r: nat, c: nat): bool
    requires |m.coils| >= NCOILS * ROWS && r < ROWS && c < NCOILS && addr + n <= NCOILS && Padded(n) <= 8 * |data|
  {
    var was := Cell(m, r, c);
    if c < addr then was || (0 < r <= k && StrayOn(addr, n, data, c))
    else if r < k && c < addr + n then CoilAt(data, c - addr)
    else if r < k && c < addr + Padded(n) then was || CoilAt(data, c - addr)
    else was
  }

  ghost predicate CoilsAre(p: Mirror, m: Mirror, addr: nat, n: nat, data: seq<Byte>, k: nat)
    requires Shaped(p) && Shaped(m) && addr + n <= NCOILS && Padded(n) <= 8 * |data|
  {
    forall r: nat, c: nat :: r < ROWS && c < NCOILS ==> Cell(p, r, c) == CoilAfter(m, addr, n, data, k, r, c)
  }

  lemma NextRowCoil(m: Mirror, p: Mirror, addr: nat, n: nat, data: seq<Byte>, k: nat, r: nat, c: nat)
    requires Shaped(m) && Shaped(p) && k < ROWS && r < ROWS && c < NCOILS && addr + n <= NCOILS && Padded(n) <= 8 * |data|
    requires CoilsAre(p, m, addr, n, data, k)
    ensures var q := p.coils[..NCOILS * k] + WriteCoils(p.coils[NCOILS * k..], addr, n, data);
      q[NCOILS * r + c] == CoilAfter(m, addr, n, data, k + 1, r, c)
  {
    hide CoilAt;
    var w := WriteCoils(p.coils[NCOILS * k..], addr, n, data);
    var q := p.coils[..NCOILS * k] + w;
    assert Cell(p, r, c) == CoilAfter(m, addr, n, data, k, r, c);
    if r >= k { assert q[NCOILS * r + c] == w[NCOILS * (r - k) + c]; }
    if r >= k + 2 { assert NCOILS * (r - k) + c >= addr + Padded(n); }
  }

  lemma CoilsHandled(t: Tables, snd: seq<Byte>, addr: nat, n: nat, data: seq<Byte>)
    requires SendBuffer(snd) && addr < 0x1_0000 && n < 0x1_0000 && NBytes(n) == |data| && On(snd, CoilsRequest(addr, n, data))
    ensures Padded(n) <= 8 * |snd[6..]| && snd[6..][..|data|] == data
    ensures Handle(0x0F, t, snd, snd, 6 + |data|, true).1 ==
      if n >= 1 && addr + n <= NCOILS then t.(coils := WriteCoils(t.coils, addr, n, snd[6..])) else t
  {
    hide U16, ByteOf, WriteCoils, Head;
    LongRead(snd, 0x0F, addr, n, ByteOf(NBytes(n)), data);
  }

  /** Where every coil of the mirror stands after the first k rows. */
  lemma {:induction false} CoilsAfter(m: Mirror, snd: seq<Byte>, addr: nat, n: nat, data: seq<Byte>, k: nat)
    requires Shaped(m) && k <= ROWS && SendBuffer(snd) && NBytes(n) == |data| && On(snd, CoilsRequest(addr, n, data))
    requires n >= 1 && addr + n <= NCOILS && Padded(n) <= 8 * |snd[6..]|
    ensures var p := Broadcast(0x0F, m, snd, 6 + |data|, k);
      Shaped(p) && p.regs == m.regs && CoilsAre(p, m, addr, n, snd[6..], k)
  {
    hide Handle, CoilsRequest, On, WriteCoils, CoilAfter, Shaped;
    ShapedSizes(m);
    BroadcastShaped(0x0F, m, snd, 6 + |data|, k);
    if k == 0 {
      NothingYet(m, addr, n, snd[6..]);
    } else {
      CoilsAfter(m, snd, addr, n, data, k - 1);
      var p := Broadcast(0x0F, m, snd, 6 + |data|, k - 1);
      ShapedSizes(p);
      CoilsHandled(FromRow(p, k - 1), snd, addr, n, data);
      var q := Broadcast(0x0F, m, snd, 6 + |data|, k);
      assert q.regs == p.regs;
      forall r: nat, c: nat | r < ROWS && c < NCOILS ensures Cell(q, r, c) == CoilAfter(m, addr, n, snd[6..], k, r, c) {
        NextRowCoil(m, p, addr, n, snd[6..], k - 1, r, c);
      }
    }
  }

  lemma ShapedSizes(m: Mirror)
    requires Shaped(m)
    ensures |m.coils| >= NCOILS * ROWS && |m.regs| == ROWS
  {
  }

  lemma NothingYet(m: Mirror, addr: nat, n: nat, data: seq<Byte>)
    requires Shaped(m) && addr + n <= NCOILS && Padded(n) <= 8 * |data|
    ensures CoilsAre(m, m, addr, n, data, 0)
  {
  }

  lemma {:induction false} RefusedAfter(m: Mirror, snd: seq<Byte>, addr: nat, n: nat, data: seq<Byte>, k: nat)
    requires Shaped(m) && k <= ROWS && SendBuffer(snd) && NBytes(n) == |data| && On(snd, CoilsRequest(addr, n, data))
    requires addr < 0x1_0000 && n < 0x1_0000 && !(n >= 1 && addr + n <= NCOILS)
    ensures Broadcast(0x0F, m, snd, 6 + |data|, k) == m
  {
    hide Handle, CoilsRequest, On;
    if k > 0 {
      RefusedAfter(m, snd, addr, n, data, k - 1);
      CoilsHandled(FromRow(m, k - 1), snd, addr, n, data);
    }
  }

  /** Every stray bit of the broadcast, in whatever row it lands, meets a coil already set. */
  ghost predicate AllStraysMeetSet(m: Mirror, addr: nat, n: nat, data: seq<Byte>)
    requires Shaped(m) && Padded(n) <= 8 * |data|
  {
    forall r: nat, c: nat :: 1 <= r < ROWS && c < NCOILS && StrayOn(addr, n, data, c) ==> Cell(m, r, c)
  }

  /** What slave s does with the broadcast. */
  lemma SlaveTakes(s: Tables, f: seq<Byte>, addr: nat, n: nat, data: seq<Byte>)
    requires Sized(s) && Frame(f) && addr < 0x1_0000 && n < 0x1_0000 && NBytes(n) == |data| && On(f, CoilsRequest(addr, n, data))
    ensures Padded(n) <= 8 * |f[6..]| && f[6..][..|data|] == data
    ensures SlaveWriteCoils(s, f, 6 + |data|).t ==
      if n >= 1 && addr + n <= NCOILS then s.(coils := WriteCoils(s.coils, addr, n, f[6..])) else s
  {
    hide U16, ByteOf, WriteCoils, Head;
    LongRead(f, 0x0F, addr, n, ByteOf(NBytes(n)), data);
  }

  /** Row r and its slave at one coil, after the broadcast. */
  lemma CoilAgreesIff(m: Mirror, s: Tables, addr: nat, n: nat, data: seq<Byte>, d1: seq<Byte>, d2: seq<Byte>, r: nat, c: nat)
    requires Shaped(m) && r < ROWS && c < NCOILS && Agree(FromRow(m, r), s) && addr + n <= NCOILS && Padded(n) == 8 * |data|
    requires |data| <= |d1| && d1[..|data|] == data && |data| <= |d2| && d2[..|data|] == data
    ensures CoilAfter(m, addr, n, d1, ROWS, r, c) == WriteCoils(s.coils, addr, n, d2)[c]
       <==> (r >= 1 && c < addr && StrayOn(addr, n, data, c) ==> Cell(m, r, c))
  {
    hide CoilAt, Agree;
    AgreeMeans(m, r, s);
    PrefixStray(addr, n, data, d1, c);
    assert Cell(m, r, c) == s.coils[c];
    if addr <= c < addr + Padded(n) {
      PrefixCoil(d1, |data|, c - addr);
      PrefixCoil(d2, |data|, c - addr);
    }
  }

  /** Stray bits fall in front of the address. */
  lemma StrayInFront(addr: nat, n: nat, data: seq<Byte>, c: nat)
    requires addr + n <= NCOILS && Padded(n) <= 8 * |data| && StrayOn(addr, n, data, c)
    ensures c < addr
  {
    hide CoilAt;
    if c >= addr { PaddedFits(n); }
  }

  lemma PaddedFits(n: nat)
    requires n <= NCOILS
    ensures Padded(n) <= NCOILS
  {
  }

  /** Function 15 as a broadcast: every row keeps its agreement if and only if every stray bit that lands in
      the next slave's row meets a coil already set there, or the request is refused everywhere. */
  lemma BroadcastCoilsAllIff(m: Mirror, ss: seq<Tables>, ts: seq<Tables>, snd: seq<Byte>, fs: seq<seq<Byte>>, addr: nat, n: nat, data: seq<Byte>)
    requires AllAgree(m, ss) && SendBuffer(snd) && addr < 0x1_0000 && n < 0x1_0000 && |ts| == ROWS && NBytes(n) == |data|
    requires On(snd, CoilsRequest(addr, n, data)) && Received(fs, CoilsRequest(addr, n, data))
    requires forall r :: 0 <= r < ROWS ==> Sized(ss[r]) && ts[r] == SlaveWriteCoils(ss[r], fs[r], 6 + |data|).t
    ensures AllAgree(Broadcast(0x0F, m, snd, 6 + |data|, ROWS), ts)
       <==> (n >= 1 && addr + n <= NCOILS ==> AllStraysMeetSet(m, addr, n, data))
  {
    hide Agree, Sized, Handle, CoilsRequest, On, WriteCoils, CoilAfter, StrayOn, Shaped, SlaveWriteCoils, Broadcast;
    AllSized(m, ss);
    var p := Broadcast(0x0F, m, snd, 6 + |data|, ROWS);
    forall r: nat | r < ROWS
      ensures ts[r] == if n >= 1 && addr + n <= NCOILS then ss[r].(coils := WriteCoils(ss[r].coils, addr, n, fs[r][6..])) else ss[r]
    {
      SlaveTakes(ss[r], fs[r], addr, n, data);
    }
    if n >= 1 && addr + n <= NCOILS {
      CoilsHandled(FromRow(m, 0), snd, addr, n, data);
      CoilsAfter(m, snd, addr, n, data, ROWS);
      forall r: nat | r < ROWS ensures Agree(FromRow(p, r), ts[r]) <==> RowStrays(m, addr, n, data, r) {
        RowAgreesIff(m, p, ss[r], addr, n, data, snd[6..], fs[r], r);
      }
      AllRowStrays(m, addr, n, data);
    } else {
      RefusedAfter(m, snd, addr, n, data, ROWS);
      assert ts == ss;
    }
  }

  ghost predicate RowStrays(m: Mirror, addr: nat, n: nat, data: seq<Byte>, r: nat)
    requires Shaped(m) && Padded(n) <= 8 * |data| && r < ROWS
  {
    r >= 1 ==> (forall c: nat :: c < NCOILS && StrayOn(addr, n, data, c) ==> Cell(m, r, c))
  }

  lemma AllRowStrays(m: Mirror, addr: nat, n: nat, data: seq<Byte>)
    requires Shaped(m) && Padded(n) <= 8 * |data|
    ensures AllStraysMeetSet(m, addr, n, data) <==> forall r: nat :: r < ROWS ==> RowStrays(m, addr, n, data, r)
  {
    hide StrayOn, Cell;
    if forall r: nat :: r < ROWS ==> RowStrays(m, addr, n, data, r) {
      forall r: nat, c: nat | 1 <= r < ROWS && c < NCOILS && StrayOn(addr, n, data, c) ensures Cell(m, r, c) {
        assert RowStrays(m, addr, n, data, r);
      }
    }
  }

  lemma RowAgreesIff(m: Mirror, p: Mirror, s: Tables, addr: nat, n: nat, data: seq<Byte>, d1: seq<Byte>, f: seq<Byte>, r: nat)
    requires Shaped(m) && Shaped(p) && p.regs == m.regs && r < ROWS && Agree(FromRow(m, r), s) && Frame(f)
    requires addr < 0x1_0000 && n >= 1 && addr + n <= NCOILS && NBytes(n) == |data| && On(f, CoilsRequest(addr, n, data))
    requires |data| <= |d1| && d1[..|data|] == data && Padded(n) <= 8 * |d1| && CoilsAre(p, m, addr, n, d1, ROWS)
    ensures Padded(n) <= 8 * |f[6..]|
    ensures Agree(FromRow(p, r), s.(coils := WriteCoils(s.coils, addr, n, f[6..]))) <==> RowStrays(m, addr, n, data, r)
  {
    hide Agree, CoilsRequest, On, WriteCoils, CoilAfter, StrayOn;
    AgreeSized(FromRow(m, r), s);
    SlaveTakes(s, f, addr, n, data);
    var t := s.(coils := WriteCoils(s.coils, addr, n, f[6..]));
    AgreeMeans(m, r, s);
    AgreeMeans(p, r, t);
    forall c: nat | c < NCOILS
      ensures p.coils[NCOILS * r + c] == t.coils[c] <==> (r >= 1 && StrayOn(addr, n, data, c) ==> Cell(m, r, c))
    {
      assert Cell(p, r, c) == CoilAfter(m, addr, n, d1, ROWS, r, c);
      CoilAgreesIff(m, s, addr, n, data, d1, f[6..], r, c);
      if StrayOn(addr, n, data, c) { StrayInFront(addr, n, data, c); }
    }
  }

  // ----- the smallest damage

  /** All sixteen rows off, and what all slaves hold then. */
  function Blank(): (m: Mirror)
    ensures Shaped(m)
  {
    Mirror(seq(NCOILS * ROWS + 16, _ => false), seq(ROWS, _ => seq(NREGS, _ => 0 as bv16)))
  }

  function BlankTables(): (t: Tables)
    ensures Sized(t)
  {
    Tables(seq(NCOILS, _ => false), seq(NREGS, _ => 0 as bv16))
  }

  lemma BlankAgrees(m: Mirror, ss: seq<Tables>)
    requires m == Blank() && ss == seq(ROWS, _ => BlankTables())
    ensures AllAgree(m, ss)
  {
    forall k: nat | k < ROWS ensures Agree(FromRow(m, k), ss[k]) {
      AgreeMeans(m, k, ss[k]);
    }
  }

  /** Four coils off at the end of the table, sent with the unused half of the byte set: coil 0 of the second
      slave's row comes on, and the slave's own does not. */
  lemma BroadcastDamages(snd: seq<Byte>, f: seq<Byte>)
    requires SendBuffer(snd) && Frame(f) && On(snd, CoilsRequest(60, 4, [0xF0])) && On(f, CoilsRequest(60, 4, [0xF0]))
    ensures var ss := seq(ROWS, _ => BlankTables());
      var t := SlaveWriteCoils(BlankTables(), f, 7).t;
      AllAgree(Blank(), ss) && !AllAgree(Broadcast(0x0F, Blank(), snd, 7, ROWS), seq(ROWS, _ => t))
  {
    hide Agree, SlaveWriteCoils, CoilsRequest, On, Broadcast, Blank, AllAgree;
    var ss := seq(ROWS, _ => BlankTables());
    var t := SlaveWriteCoils(BlankTables(), f, 7).t;
    BlankAgrees(Blank(), ss);
    StrayAtSixty();
    BlankCell();
    BroadcastCoilsAllIff(Blank(), ss, seq(ROWS, _ => t), snd, seq(ROWS, _ => f), 60, 4, [0xF0]);
  }

  lemma BlankCell()
    ensures !Cell(Blank(), 1, 0)
  {
  }

  lemma StrayAtSixty()
    ensures StrayOn(60, 4, [0xF0], 0)
  {
  }
}
