/** Both ends of one serial line. */
module RtuLine {

  import opened Crc
  import M = MasterSpec
  import opened RtuFrame
  import opened RtuMaster
  import opened RtuSlave
  import S = RtuSlaveSpec
  import opened Wrappers

  /** Every request arrives: for every address and PDU of 1 to 250 bytes, what the master's send and
      transmit callbacks put on the line makes the slave announce one frame, and eMBRTUReceive returns
      that address and PDU. */
  method MasterToSlave(m: MbMaster, s: MbSlave, addr: Byte, pdu: seq<Byte>) returns (r: Option<(Byte, seq<Byte>)>)
    requires m.Valid() && m.eRcvState.RxIdle? && !m.eSndState.TxXmit?
    requires s.Valid() && s.eRcvState.RxIdle? && m.sndBuf != s.rtuBuf
    requires Num(addr) <= M.MB_MASTER_TOTAL_SLAVE_NUM && 1 <= |pdu| <= M.MB_PDU_LEN_MAX
    modifies m, m.sndBuf, s, s.rtuBuf
    ensures r == Some((addr, pdu)) && s.eventSet == old(s.eventSet) + {S.FrameReceived}
    ensures m.Valid() && m.Sent()
  {
    hide Num, Frame, Parse;
    m.Request(addr, pdu);
    var ok := m.RtuSend();
    var line := m.Transmit(Frame(addr, pdu));
    r := SlaveHears(s, line);
    ParseIff(line, addr, pdu);
  }

  method SlaveHears(s: MbSlave, line: seq<Byte>) returns (r: Option<(Byte, seq<Byte>)>)
    requires s.Valid() && s.eRcvState.RxIdle? && 1 <= |line| <= MB_SER_PDU_SIZE_MAX
    modifies s, s.rtuBuf
    ensures r == Parse(line) && s.eventSet == old(s.eventSet) + {S.FrameReceived}
  {
    hide Parse;
    s.Listen(line);
    s.TimerT35Expired();
    r := s.RtuReceive();
  }

  /** Every reply arrives: the same the other way, for PDUs of 1 to 253 bytes. */
  method SlaveToMaster(s: MbSlave, m: MbMaster, addr: Byte, len: nat) returns (r: Option<(Byte, seq<Byte>)>)
    requires s.Valid() && s.eRcvState.RxIdle? && 1 <= len <= MB_PDU_SIZE_MAX
    requires m.Valid() && m.Sent() && m.eRcvState.RxIdle? && m.sndBuf != s.rtuBuf && m.rcvBuf != s.rtuBuf
    modifies m, m.rcvBuf, s, s.rtuBuf
    ensures r == Some((addr, old(s.rtuBuf[1..1 + len]))) && m.eventSet == old(m.eventSet) + {M.FrameReceived}
  {
    hide Frame, Parse;
    ghost var pdu := s.rtuBuf[1..1 + len];
    var ok := s.RtuSend(addr, len);
    var line := s.Transmit(Frame(addr, pdu));
    r := MasterHears(m, line);
    ParseIff(line, addr, pdu);
  }

  method MasterHears(m: MbMaster, line: seq<Byte>) returns (r: Option<(Byte, seq<Byte>)>)
    requires m.Valid() && m.eRcvState.RxIdle? && 1 <= |line| <= MB_SER_PDU_SIZE_MAX
    modifies m, m.rcvBuf
    ensures r == Parse(line) && m.eventSet == old(m.eventSet) + {M.FrameReceived}
  {
    hide Num, Parse;
    m.Listen(line);
    m.TimerFsm();
    r := m.RtuReceive();
  }
}
