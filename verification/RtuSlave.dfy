/** The slave's static variables and callbacks of mbrtu.c: one buffer for both directions. */
module RtuSlave {

  import opened Crc
  import opened RtuFrame
  import opened RtuSlaveSpec
  import opened RtuTiming
  import opened Wrappers

  class MbSlave {
    var eSndState: Snd
    var eRcvState: Rcv
    var timer: nat
    const period: Period
    var rxEnabled: bool
    var txEnabled: bool
    var sndBufferCur: nat
    var sndBufferCount: nat
    var rcvBufferPos: nat
    var eventSet: set<Event>
    const rtuBuf: array<Byte>

    ghost predicate Valid()
      reads this
    {
      && rtuBuf.Length == MB_SER_PDU_SIZE_MAX && rcvBufferPos <= MB_SER_PDU_SIZE_MAX
      && (eSndState.TxXmit? ==> sndBufferCur + sndBufferCount <= MB_SER_PDU_SIZE_MAX)
    }

    ghost function Abs(): Receiver
      requires Valid()
      reads this, rtuBuf
    {
      Receiver(eRcvState, timer, period, rtuBuf[..rcvBufferPos])
    }

    /** eMBRTUInit and eMBRTUStart */
    constructor (ticks: Period)
      ensures Valid() && Abs() == Started(ticks) && eventSet == {} && eSndState.TxIdle? && fresh(rtuBuf)
    {
      eSndState, eRcvState, timer, period := TxIdle, RxInit, ticks, ticks;
      rxEnabled, txEnabled := true, false;
      sndBufferCur, sndBufferCount, rcvBufferPos := 0, 0, 0;
      eventSet := {};
      rtuBuf := new Byte[MB_SER_PDU_SIZE_MAX](_ => 0);
    }

    /** xMBRTUReceiveFSM */
    method ReceiveFsm(ucByte: Byte)
      requires Valid()
      modifies this`eRcvState, this`timer, this`rcvBufferPos, rtuBuf
      ensures Valid() && Abs() == ByteReceived(old(Abs()), ucByte)
    {
      match eRcvState
      case RxInit => timer := period;
      case RxError => timer := period;
      case RxIdle =>
        rcvBufferPos := 0;
        rtuBuf[rcvBufferPos] := ucByte;
        rcvBufferPos := rcvBufferPos + 1;
        eRcvState := RxRcv;
        timer := period;
      case RxRcv =>
        if rcvBufferPos < MB_SER_PDU_SIZE_MAX {
          rtuBuf[rcvBufferPos] := ucByte;
          rcvBufferPos := rcvBufferPos + 1;
        } else {
          eRcvState := RxError;
        }
        timer := period;
    }

    /** xMBRTUTimerT35Expired */
    method TimerT35Expired()
      requires Valid()
      modifies this`eRcvState, this`timer, this`eventSet
      ensures Valid() && Abs() == TimerExpired(old(Abs()))
      ensures eventSet == old(eventSet) + (set e | e in Posted(old(Abs())))
    {
      match eRcvState {
        case RxInit => eventSet := eventSet + {Ready};
        case RxRcv => eventSet := eventSet + {FrameReceived};
        case _ =>
      }
      timer := 0;
      eRcvState := RxIdle;
    }

    /** A tick of the kernel, as far as the slave's timer is concerned. */
    method TimerTick()
      requires Valid()
      modifies this`eRcvState, this`timer, this`eventSet
      ensures Valid() && Abs() == Ticked(old(Abs())).0
      ensures eventSet == old(eventSet) + set n | n in Ticked(old(Abs())).1 :: n.event
    {
      if timer > 1 {
        timer := timer - 1;
      } else if timer == 1 {
        TimerT35Expired();
      }
    }

    /** eMBRTUReceive */
    method RtuReceive() returns (r: Option<(Byte, seq<Byte>)>)
      requires Valid()
      ensures r == Parse(Abs().frame)
    {
      hide Crc16;
      if rcvBufferPos < MB_SER_PDU_SIZE_MIN { return None; }
      var crc := UsMBCRC16(rtuBuf, rcvBufferPos);
      if crc != 0 { return None; }
      assert rtuBuf[..rcvBufferPos][1..rcvBufferPos - 2] == rtuBuf[1..rcvBufferPos - 2];
      return Some((rtuBuf[0], rtuBuf[1..rcvBufferPos - MB_SER_PDU_SIZE_CRC]));
    }

    /** The bytes still to be sent. */
    ghost predicate OnLine(f: seq<Byte>)
      reads this, rtuBuf
    {
      sndBufferCur + sndBufferCount <= rtuBuf.Length && rtuBuf[sndBufferCur..sndBufferCur + sndBufferCount] == f
    }

    ghost predicate Sending(rest: seq<Byte>)
      reads this, rtuBuf
    {
      Valid() && eSndState.TxXmit? && txEnabled && OnLine(rest) && |rest| == sndBufferCount
    }

    /** eMBRTUSend on the reply PDU, which the handler left in the buffer from its second byte on. */
    method RtuSend(ucSlaveAddress: Byte, usLength: nat) returns (ok: bool)
      requires Valid() && usLength <= MB_PDU_SIZE_MAX
      modifies this`sndBufferCur, this`sndBufferCount, this`eSndState, this`rxEnabled, this`txEnabled, rtuBuf
      ensures Valid() && (ok <==> eRcvState.RxIdle?)
      ensures ok ==> Sending(Frame(ucSlaveAddress, old(rtuBuf[1..1 + usLength])))
      ensures !ok ==> rtuBuf[..] == old(rtuBuf[..]) && eSndState == old(eSndState)
    {
      hide Crc16, Low, High;
      if !eRcvState.RxIdle? { return false; }
      ghost var head := [ucSlaveAddress] + rtuBuf[1..1 + usLength];
      sndBufferCur := 0;
      sndBufferCount := 1;
      rtuBuf[0] := ucSlaveAddress;
      sndBufferCount := sndBufferCount + usLength;
      assert rtuBuf[..sndBufferCount] == head;
      AppendCrc(head);
      eSndState := TxXmit;
      rxEnabled, txEnabled := false, true;
      return true;
    }

    method AppendCrc(ghost head: seq<Byte>)
      requires sndBufferCur == 0 && sndBufferCount == |head| && |head| + 2 <= rtuBuf.Length
      requires rtuBuf[..sndBufferCount] == head
      modifies this`sndBufferCount, rtuBuf
      ensures OnLine(WithCrc(head)) && sndBufferCount == |head| + 2
    {
      hide Crc16, Low, High;
      var crc := UsMBCRC16(rtuBuf, sndBufferCount);
      rtuBuf[sndBufferCount] := Low(crc);
      sndBufferCount := sndBufferCount + 1;
      rtuBuf[sndBufferCount] := High(crc);
      sndBufferCount := sndBufferCount + 1;
      assert rtuBuf[..|head|] == head;
    }

    /** xMBRTUTransmitFSM; `out` is the byte given to the serial port. */
    method TransmitFsm() returns (out: Option<Byte>)
      requires Valid()
      modifies this`sndBufferCur, this`sndBufferCount, this`eSndState, this`rxEnabled, this`txEnabled, this`eventSet
      ensures Valid() && (out.Some? <==> old(eSndState).TxXmit? && old(sndBufferCount) != 0)
      ensures out.Some? ==> old(sndBufferCur) < rtuBuf.Length && out.value == rtuBuf[old(sndBufferCur)]
      ensures out.Some? ==> sndBufferCur == old(sndBufferCur) + 1 && sndBufferCount == old(sndBufferCount) - 1
      ensures out.Some? ==> eSndState.TxXmit? && txEnabled == old(txEnabled) && eventSet == old(eventSet)
      ensures out.None? ==> Sent() && eventSet == old(eventSet) + (if old(eSndState).TxXmit? then {FrameSent} else {})
    {
      out := None;
      match eSndState
      case TxIdle => rxEnabled, txEnabled := true, false;
      case TxXmit =>
        if sndBufferCount != 0 {
          out := Some(rtuBuf[sndBufferCur]);
          sndBufferCur := sndBufferCur + 1;
          sndBufferCount := sndBufferCount - 1;
        } else {
          eventSet := eventSet + {FrameSent};
          rxEnabled, txEnabled := true, false;
          eSndState := TxIdle;
        }
    }

    method TransmitNext(ghost rest: seq<Byte>) returns (out: Option<Byte>)
      requires Sending(rest)
      modifies this`sndBufferCur, this`sndBufferCount, this`eSndState, this`rxEnabled, this`txEnabled, this`eventSet
      ensures rest != [] ==> out == Some(rest[0]) && Sending(rest[1..]) && eventSet == old(eventSet)
      ensures rest == [] ==> out == None && Sent() && eventSet == old(eventSet) + {FrameSent}
      ensures txEnabled <==> rest != []
    {
      out := TransmitFsm();
    }

    ghost predicate Sent()
      reads this
    {
      Valid() && eSndState.TxIdle? && rxEnabled && !txEnabled
    }

    /** The transmit thread of portserial.c: exactly the frame goes on the line. */
    method Transmit(ghost f: seq<Byte>) returns (line: seq<Byte>)
      requires Sending(f)
      modifies this`sndBufferCur, this`sndBufferCount, this`eSndState, this`rxEnabled, this`txEnabled, this`eventSet
      ensures line == f && Sent() && eventSet == old(eventSet) + {FrameSent}
    {
      hide Valid, OnLine;
      line := [];
      ghost var rest := f;
      while txEnabled
        invariant line + rest == f
        invariant if txEnabled then Sending(rest) else rest == [] && Sent()
        invariant eventSet == if txEnabled then old(eventSet) else old(eventSet) + {FrameSent}
        decreases txEnabled, |rest|
      {
        var out := TransmitNext(rest);
        if out.Some? {
          line := line + [out.value];
          rest := rest[1..];
        }
      }
    }

    /** A gap-free run of bytes reaches the idle receiver. */
    method Listen(line: seq<Byte>)
      requires Valid() && eRcvState.RxIdle? && 1 <= |line| <= MB_SER_PDU_SIZE_MAX
      modifies this`eRcvState, this`timer, this`rcvBufferPos, rtuBuf
      ensures Valid() && Abs() == Receiver(RxRcv, period, period, line)
    {
      ReceiveFsm(line[0]);
      var i := 1;
      while i < |line|
        invariant 1 <= i <= |line| && Valid() && Abs() == Receiver(RxRcv, period, period, line[..i])
      {
        ReceiveFsm(line[i]);
        assert line[..i + 1] == line[..i] + [line[i]];
        i := i + 1;
      }
      assert line[..i] == line;
    }
  }
}
