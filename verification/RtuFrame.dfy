/** RTU framing, section 2.5.1 of the MODBUS over Serial Line Specification V1.02: address, PDU, CRC low
    byte first. */
module RtuFrame {

  import opened Crc
  import opened Wrappers

  const MB_SER_PDU_SIZE_MIN := 4
  const MB_SER_PDU_SIZE_MAX := 256
  const MB_SER_PDU_SIZE_CRC := 2
  const MB_PDU_SIZE_MAX := 253
  const MB_ADDRESS_BROADCAST: Byte := 0

  function WithCrc(s: seq<Byte>): seq<Byte>
  {
    s + [Low(Crc16(s)), High(Crc16(s))]
  }

  /** What goes over the line for a PDU. */
  function Frame(addr: Byte, pdu: seq<Byte>): (f: seq<Byte>)
    ensures |f| == |pdu| + 3
  {
    WithCrc([addr] + pdu)
  }

  /** The length and CRC check of eMBRTUReceive, and what it hands up. */
  function Parse(s: seq<Byte>): Option<(Byte, seq<Byte>)>
  {
    if |s| >= MB_SER_PDU_SIZE_MIN && Crc16(s) == 0 then Some((s[0], s[1..|s| - MB_SER_PDU_SIZE_CRC])) else None
  }

  /** The receiver accepts exactly the frames of non-empty PDUs, and recovers address and PDU. */
  lemma ParseIff(s: seq<Byte>, addr: Byte, pdu: seq<Byte>)
    ensures Parse(s) == Some((addr, pdu)) <==> |pdu| >= 1 && s == Frame(addr, pdu)
  {
    hide Crc16, Low, High;
    if |pdu| >= 1 && s == Frame(addr, pdu) { FrameParses(addr, pdu); }
    if Parse(s) == Some((addr, pdu)) { ParsedIsFrame(s); }
  }

  lemma FrameParses(addr: Byte, pdu: seq<Byte>)
    requires |pdu| >= 1
    ensures Parse(Frame(addr, pdu)) == Some((addr, pdu))
  {
    hide Crc16, Low, High;
    var s := [addr] + pdu;
    ResidueIff(s, Low(Crc16(s)), High(Crc16(s)));
    assert Frame(addr, pdu)[1..|s|] == pdu;
  }

  lemma ParsedIsFrame(s: seq<Byte>)
    requires Parse(s).Some?
    ensures s == Frame(Parse(s).value.0, Parse(s).value.1) && |Parse(s).value.1| >= 1
  {
    hide Crc16, Low, High;
    var n := |s| - 2;
    var h := s[..n];
    assert h == [s[0]] + s[1..n];
    assert s == h + [s[n], s[n + 1]];
    ResidueIff(h, s[n], s[n + 1]);
  }

  /** A transmission error confined to two adjacent bytes is never accepted. */
  lemma DamagedFrameRejected(addr: Byte, pdu: seq<Byte>, k: nat, x: Byte, y: Byte)
    requires |pdu| >= 1 && k + 1 < |pdu| + 3
    requires (x, y) != (Frame(addr, pdu)[k], Frame(addr, pdu)[k + 1])
    ensures Parse(Frame(addr, pdu)[k := x][k + 1 := y]) == None
  {
    hide Crc16, Low, High;
    var f := Frame(addr, pdu);
    var g := f[k := x][k + 1 := y];
    FrameParses(addr, pdu);
    assert f == f[..k] + [f[k], f[k + 1]] + f[k + 2..];
    assert g == f[..k] + [x, y] + f[k + 2..];
    BurstDetected(f[..k], f[k], f[k + 1], x, y, f[k + 2..]);
  }
}
