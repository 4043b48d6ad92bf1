/** The master's static variables and callbacks: mbrtu_m.c with its two buffers, and the poll of mb_m.c.
    Every method does to the control state what MasterSpec says, and states what happens to the bytes. */
module RtuMaster {

  import opened Crc
  import opened MasterSpec
  import opened RtuFrame
  import opened RtuTiming
  import opened Wrappers

  /** The bytes of the frame in reception, after one more byte. */
  function Collected(state: Rcv, s: seq<Byte>, b: Byte): seq<Byte>
  {
    if state.RxIdle? then [b]
    else if state.RxRcv? && |s| < MB_SER_PDU_SIZE_MAX then s + [b]
    else s
  }

  /** A byte as a number. */
  function Num(b: Byte): nat
  {
    b as nat
  }

  lemma NumZero(b: Byte)
    ensures Num(b) == 0 <==> b == 0
  {
  }

  lemma NumLast()
    ensures Num(16) == MB_MASTER_TOTAL_SLAVE_NUM
  {
  }

  lemma BetweenAddressAndCrc(s: seq<Byte>, n: nat)
    requires 3 <= n <= |s|
    ensures s[..n][1..n - 2] == s[1..n - 2]
  {
  }

  class MbMaster {
    var eSndState: Snd
    var eRcvState: Rcv
    var timerMode: Mode
    var timer: nat
    const t35: Period
    var rxEnabled: bool
    var txEnabled: bool
    var destAddress: Byte
    var sendPduLength: nat
    var sndBufferCur: nat
    var sndBufferCount: nat
    var rcvBufferPos: nat
    var frameIsBroadcast: bool
    var eventSet: set<Event>
    var runRes: nat
    var established: bool
    var errorType: ErrorType
    var pc: Pc
    const sndBuf: array<Byte>
    const rcvBuf: array<Byte>

    ghost predicate Valid()
      reads this, sndBuf
    {
      && sndBuf.Length == MB_PDU_SIZE_MAX && rcvBuf.Length == MB_SER_PDU_SIZE_MAX && sndBuf != rcvBuf
      && rcvBufferPos <= MB_SER_PDU_SIZE_MAX && sendPduLength <= MB_PDU_LEN_MAX
      && (eSndState.TxXmit? ==> sndBufferCur + sndBufferCount <= MB_PDU_SIZE_MAX)
    }

    /** The control state. */
    ghost function Abs(): Master
      requires Valid()
      reads this, sndBuf
    {
      Master(eSndState, eRcvState, timerMode, timer, t35, rxEnabled, txEnabled, Num(destAddress), sendPduLength,
             Num(sndBuf[0]), sndBufferCount, rcvBufferPos, frameIsBroadcast, eventSet, runRes, established,
             errorType, pc)
    }

    /** eMBMasterInit and eMBMasterRTUStart */
    constructor (ticks: Period)
      ensures Valid() && Abs() == Started(ticks) && fresh(sndBuf) && fresh(rcvBuf)
    {
      eSndState, eRcvState, timerMode, timer, t35 := TxIdle, RxInit, T35, ticks, ticks;
      rxEnabled, txEnabled := true, false;
      destAddress, sendPduLength := 0, 0;
      sndBufferCur, sndBufferCount, rcvBufferPos := 0, 0, 0;
      frameIsBroadcast, eventSet, runRes, established := false, {}, 1, false;
      errorType, pc := TimeoutError, Waiting;
      sndBuf := new Byte[MB_PDU_SIZE_MAX](_ => 0);
      rcvBuf := new Byte[MB_SER_PDU_SIZE_MAX](_ => 0);
    }

    /** ucMasterRTURcvBuf[usMasterRcvBufferPos++] = ucByte */
    method StoreByte(ucByte: Byte)
      requires Valid() && rcvBufferPos < MB_SER_PDU_SIZE_MAX
      modifies this`rcvBufferPos, rcvBuf
      ensures Valid() && rcvBufferPos == old(rcvBufferPos) + 1
      ensures rcvBuf[..rcvBufferPos] == old(rcvBuf[..rcvBufferPos]) + [ucByte]
    {
      hide Num;
      rcvBuf[rcvBufferPos] := ucByte;
      rcvBufferPos := rcvBufferPos + 1;
    }

    /** xMBMasterRTUReceiveFSM */
    method ReceiveFsm(ucByte: Byte)
      requires Valid()
      modifies this`eRcvState, this`eSndState, this`timerMode, this`timer, this`rcvBufferPos, rcvBuf
      ensures Valid() && Abs() == ByteReceived(old(Abs()))
      ensures rcvBuf[..rcvBufferPos] == Collected(old(eRcvState), old(rcvBuf[..rcvBufferPos]), ucByte)
    {
      hide Num;
      match eRcvState
      case RxInit => timerMode, timer := T35, t35;
      case RxError => timerMode, timer := T35, t35;
      case RxIdle => FirstByte(ucByte);
      case RxRcv =>
        if rcvBufferPos < MB_SER_PDU_SIZE_MAX {
          StoreByte(ucByte);
        } else {
          eRcvState := RxError;
        }
        timerMode, timer := T35, t35;
    }

    method FirstByte(ucByte: Byte)
      requires Valid() && eRcvState.RxIdle?
      modifies this`timerMode, this`timer, this`eSndState, this`eRcvState, this`rcvBufferPos, rcvBuf
      ensures Valid() && rcvBuf[..rcvBufferPos] == [ucByte] && rcvBufferPos == 1
      ensures eSndState.TxIdle? && eRcvState.RxRcv? && timerMode.T35? && timer == t35
    {
      hide Num;
      timer := 0;
      eSndState := TxIdle;
      rcvBufferPos := 0;
      StoreByte(ucByte);
      eRcvState := RxRcv;
      timerMode, timer := T35, t35;
    }

    /** xMBMasterRTUTransmitFSM; `out` is the byte given to the serial port. */
    method TransmitFsm() returns (out: Option<Byte>)
      requires Valid()
      modifies this`sndBufferCur, this`sndBufferCount, this`frameIsBroadcast, this`rxEnabled, this`txEnabled
      modifies this`eSndState, this`timerMode, this`timer
      ensures Valid() && Abs() == TransmitterEmpty(old(Abs()))
      ensures out.Some? <==> old(eSndState).TxXmit? && old(sndBufferCount) != 0
      ensures out.Some? ==> old(sndBufferCur) < sndBuf.Length && out.value == sndBuf[old(sndBufferCur)]
      ensures sndBufferCur == old(sndBufferCur) + (if out.Some? then 1 else 0)
    {
      hide Num;
      out := None;
      match eSndState
      case TxIdle => rxEnabled, txEnabled := true, false;
      case TxXmit => out := TransmitNextByte();
      case TxXfwr =>
    }

    /** The STATE_M_TX_XMIT case. */
    method TransmitNextByte() returns (out: Option<Byte>)
      requires Valid() && eSndState.TxXmit?
      modifies this`sndBufferCur, this`sndBufferCount, this`frameIsBroadcast, this`rxEnabled, this`txEnabled
      modifies this`eSndState, this`timerMode, this`timer
      ensures Valid() && Abs() == TransmitterEmpty(old(Abs()))
      ensures out.Some? <==> old(sndBufferCount) != 0
      ensures out.Some? ==> old(sndBufferCur) < sndBuf.Length && out.value == sndBuf[old(sndBufferCur)]
      ensures sndBufferCur == old(sndBufferCur) + (if out.Some? then 1 else 0)
    {
      hide Num;
      if sndBufferCount != 0 {
        out := PutByte();
      } else {
        out := None;
        FrameDone();
      }
    }

    method PutByte() returns (out: Option<Byte>)
      requires Valid() && eSndState.TxXmit? && sndBufferCount != 0
      modifies this`sndBufferCur, this`sndBufferCount
      ensures Valid() && out == Some(sndBuf[old(sndBufferCur)])
      ensures sndBufferCur == old(sndBufferCur) + 1 && sndBufferCount == old(sndBufferCount) - 1
    {
      hide Num;
      out := Some(sndBuf[sndBufferCur]);
      sndBufferCur := sndBufferCur + 1;
      sndBufferCount := sndBufferCount - 1;
    }

    /** The last byte is out: wait for the reply, or for the slaves to have acted on a broadcast. */
    method FrameDone()
      requires Valid() && eSndState.TxXmit? && sndBufferCount == 0
      modifies this`frameIsBroadcast, this`rxEnabled, this`txEnabled, this`eSndState, this`timerMode, this`timer
      ensures Valid() && (frameIsBroadcast <==> Num(sndBuf[0]) == 0) && rxEnabled && !txEnabled && eSndState.TxXfwr?
      ensures timerMode == (if frameIsBroadcast then ConvertDelay else RespondTimeout) && timer == Setting(t35, timerMode)
    {
      hide Num;
      NumZero(sndBuf[0]);
      frameIsBroadcast := sndBuf[0] == MB_ADDRESS_BROADCAST;
      rxEnabled, txEnabled := true, false;
      eSndState := TxXfwr;
      if frameIsBroadcast {
        timerMode, timer := ConvertDelay, CONVERT_TICKS;
      } else {
        timerMode, timer := RespondTimeout, RESPOND_TICKS;
      }
    }

    method AnnounceReceiver()
      requires Valid()
      modifies this`eventSet, this`errorType
      ensures Valid() && Abs() == ReceiverExpired(old(Abs()))
    {
      hide Num;
      match eRcvState
      case RxInit => eventSet := eventSet + {Ready};
      case RxRcv => eventSet := eventSet + {FrameReceived};
      case RxError =>
        errorType := ReceiveError;
        eventSet := eventSet + {ErrorProcess};
      case RxIdle =>
    }

    method AnnounceSender()
      requires Valid()
      modifies this`eventSet, this`errorType
      ensures Valid() && Abs() == SenderExpired(old(Abs()))
    {
      hide Num;
      if eSndState.TxXfwr? && !frameIsBroadcast {
        errorType := TimeoutError;
        eventSet := eventSet + {ErrorProcess};
      }
    }

    /** xMBMasterRTUTimerExpired */
    method TimerFsm()
      requires Valid()
      modifies this
      ensures Valid() && Abs() == TimerExpired(old(Abs()))
    {
      hide Num, ReceiverExpired, SenderExpired;
      AnnounceReceiver();
      AnnounceSender();
      Rest();
    }

    /** A tick of the kernel, as far as the master's timer is concerned. */
    method TimerTick()
      requires Valid()
      modifies this
      ensures Valid() && Abs() == if old(timer) == 1 then TimerExpired(old(Abs())) else Ticked(old(Abs()))
    {
      hide Num, MasterSpec.TimerExpired;
      if timer > 1 {
        timer := timer - 1;
      } else if timer == 1 {
        TimerFsm();
      }
    }

    /** Both machines go idle, and after a broadcast's delay the local handlers run. */
    method Rest()
      requires Valid()
      modifies this`eRcvState, this`eSndState, this`timer, this`eventSet
      ensures Valid() && eRcvState == RxIdle && eSndState == TxIdle && timer == 0
      ensures eventSet == if timerMode.ConvertDelay? then old(eventSet) + {Execute} else old(eventSet)
    {
      hide Num;
      eRcvState := RxIdle;
      eSndState := TxIdle;
      timer := 0;
      if timerMode.ConvertDelay? {
        eventSet := eventSet + {Execute};
      }
    }

    /** eMBMasterRTUReceive: the frame in the receive buffer, checked and unpacked. */
    method RtuReceive() returns (r: Option<(Byte, seq<Byte>)>)
      requires Valid()
      ensures r == Parse(rcvBuf[..rcvBufferPos])
    {
      hide Crc16;
      if rcvBufferPos < MB_SER_PDU_SIZE_MIN { return None; }
      var crc := UsMBCRC16(rcvBuf, rcvBufferPos);
      if crc != 0 { return None; }
      BetweenAddressAndCrc(rcvBuf[..], rcvBufferPos);
      return Some((rcvBuf[0], rcvBuf[1..rcvBufferPos - MB_SER_PDU_SIZE_CRC]));
    }

    /** eMBMasterRTUSend on the PDU that lies in the send buffer from its second byte on. */
    method RtuSend() returns (ok: bool)
      requires Valid()
      modifies this`sndBufferCur, this`sndBufferCount, this`eSndState, this`rxEnabled, this`txEnabled, sndBuf
      ensures Valid() && Abs() == Send(old(Abs()))
      ensures ok <==> Num(destAddress) <= MB_MASTER_TOTAL_SLAVE_NUM && old(eRcvState).RxIdle?
      ensures ok ==> Sending(Frame(destAddress, old(sndBuf[1..1 + sendPduLength])))
      ensures !ok ==> sndBuf[..] == old(sndBuf[..]) && sndBufferCur == old(sndBufferCur)
    {
      hide Frame, Num, OnLine, Sending;
      if Num(destAddress) > MB_MASTER_TOTAL_SLAVE_NUM { return false; }
      if !eRcvState.RxIdle? { return false; }
      StartSending();
      return true;
    }

    /** The STATE_M_RX_IDLE case of eMBMasterRTUSend. */
    method StartSending()
      requires Valid() && Num(destAddress) <= MB_MASTER_TOTAL_SLAVE_NUM && eRcvState.RxIdle?
      modifies this`sndBufferCur, this`sndBufferCount, this`eSndState, this`rxEnabled, this`txEnabled, sndBuf
      ensures Valid() && Abs() == Send(old(Abs()))
      ensures Sending(Frame(destAddress, old(sndBuf[1..1 + sendPduLength])))
    {
      hide Frame, Num, OnLine;
      ghost var f := Frame(destAddress, sndBuf[1..1 + sendPduLength]);
      BuildFrame();
      assert OnLine(f);
      eSndState := TxXmit;
      rxEnabled, txEnabled := false, true;
    }

    /** The bytes still to be sent. */
    ghost predicate OnLine(f: seq<Byte>)
      reads this`sndBufferCur, this`sndBufferCount, sndBuf
    {
      sndBufferCur + sndBufferCount <= sndBuf.Length && sndBuf[sndBufferCur..sndBufferCur + sndBufferCount] == f
    }

    method BuildFrame()
      requires Valid()
      modifies this`sndBufferCur, this`sndBufferCount, sndBuf
      ensures OnLine(Frame(destAddress, old(sndBuf[1..1 + sendPduLength])))
      ensures sndBufferCur == 0 && sndBufferCount == sendPduLength + 3 && sndBuf[0] == destAddress
    {
      hide Crc16, Low, High;
      ghost var head := [destAddress] + sndBuf[1..1 + sendPduLength];
      sndBufferCur := 0;
      sndBufferCount := 1;
      sndBuf[0] := destAddress;
      sndBufferCount := sndBufferCount + sendPduLength;
      assert sndBuf[..sndBufferCount] == head;
      var crc := UsMBCRC16(sndBuf, sndBufferCount);
      AppendCrc(crc, head);
    }

    method AppendCrc(crc: bv16, ghost head: seq<Byte>)
      requires sndBufferCur == 0 && sndBufferCount == |head| && |head| + 2 <= sndBuf.Length && |head| >= 1
      requires sndBuf[..sndBufferCount] == head && crc == Crc16(head)
      modifies this`sndBufferCount, sndBuf
      ensures OnLine(WithCrc(head)) && sndBufferCount == |head| + 2 && sndBuf[0] == head[0]
    {
      hide Crc16, Low, High;
      sndBuf[sndBufferCount] := Low(crc);
      sndBufferCount := sndBufferCount + 1;
      sndBuf[sndBufferCount] := High(crc);
      sndBufferCount := sndBufferCount + 1;
      assert sndBuf[..|head|] == head;
      assert sndBuf[0] == sndBuf[..|head|][0];
    }

    // ----- portevent_m.c and mb_m.c

    /** xMBMasterPortEventGet, once an event is there. */
    method GetEvent()
      requires Valid()
      modifies this`eventSet, this`pc
      ensures Valid() && Abs() == EventGet(old(Abs()))
    {
      hide Num;
      var recvedEvent := eventSet * POLL_BITS;
      eventSet := eventSet - POLL_BITS;
      if recvedEvent == {Ready} {
        pc := Handling(Ready);
      } else if recvedEvent == {FrameReceived} {
        pc := Handling(FrameReceived);
      } else if recvedEvent == {Execute} {
        pc := Handling(Execute);
      } else if recvedEvent == {FrameSent} {
        pc := Handling(FrameSent);
      } else if recvedEvent == {ErrorProcess} {
        pc := Handling(ErrorProcess);
      } else {
        pc := Confused;
      }
    }

    /** The frame in the receive buffer is a valid one from the addressed slave. */
    ghost predicate FrameGood()
      requires Valid()
      reads this, sndBuf, rcvBuf
    {
      var r := Parse(rcvBuf[..rcvBufferPos]);
      r.Some? && r.value.0 == destAddress
    }

    /** The EV_MASTER_FRAME_RECEIVED case of the poll. */
    method PollReceived()
      requires Valid() && pc == Handling(FrameReceived)
      modifies this`pc, this`eventSet, this`errorType
      ensures Valid() && Abs() == PollHandle(old(Abs()), old(FrameGood()), false, false)
    {
      hide Num, Parse;
      pc := Waiting;
      var r := RtuReceive();
      if r.Some? && r.value.0 == destAddress {
        eventSet := eventSet + {Execute};
      } else {
        errorType := ReceiveError;
        eventSet := eventSet + {ErrorProcess};
      }
    }

    /** The EV_MASTER_EXECUTE case. `ran` tells whether a function handler was called, `exc` whether it,
        or the slave's exception reply, or the missing handler, left an exception. */
    method PollExecute(ran: bool, exc: bool)
      requires Valid() && pc == Handling(Execute)
      modifies this`pc, this`eventSet, this`errorType, this`destAddress
      ensures Valid() && Abs() == PollHandle(old(Abs()), false, ran, exc)
    {
      hide Num, Post;
      ForgetBroadcast(ran);
      PostOutcome(exc);
    }

    /** After a broadcast the destination is the last slave the handler ran for. */
    method ForgetBroadcast(ran: bool)
      requires Valid()
      modifies this`pc, this`destAddress
      ensures Valid()
      ensures var w := old(Abs()).(pc := Waiting);
              Abs() == if ran && w.bcast then w.(dest := MB_MASTER_TOTAL_SLAVE_NUM) else w
    {
      hide Num;
      NumLast();
      pc := Waiting;
      if ran && frameIsBroadcast { destAddress := 16; }
    }

    method PostOutcome(exc: bool)
      requires Valid()
      modifies this`pc, this`eventSet, this`errorType
      ensures Valid()
      ensures var d := old(Abs());
              Abs() == if exc then Post(d.(err := ExecuteError), ErrorProcess) else Post(d, Success).(pc := Releasing)
    {
      hide Num;
      if exc {
        errorType := ExecuteError;
        eventSet := eventSet + {ErrorProcess};
      } else {
        eventSet := eventSet + {Success};
        pc := Releasing;
      }
    }

    /** The EV_MASTER_FRAME_SENT case: what eMBMasterRTUSend returns is not looked at. */
    method PollSent()
      requires Valid() && pc == Handling(FrameSent)
      modifies this, sndBuf
      ensures Valid() && Abs() == PollHandle(old(Abs()), false, false, false)
      ensures eSndState.TxXmit? && old(!eSndState.TxXmit?) ==> Sending(Frame(destAddress, old(sndBuf[1..1 + sendPduLength])))
    {
      hide Num, Frame;
      pc := Waiting;
      var _ := RtuSend();
    }

    /** The EV_MASTER_READY and EV_MASTER_ERROR_PROCESS cases. */
    method PollOther()
      requires Valid() && (pc == Handling(Ready) || pc == Handling(ErrorProcess))
      modifies this`pc, this`eventSet, this`established
      ensures Valid() && Abs() == PollHandle(old(Abs()), false, false, false)
    {
      hide Num;
      if pc.event.Ready? {
        established := true;
        pc := Waiting;
      } else {
        match errorType {
          case TimeoutError => eventSet := eventSet + {ErrTimeout};
          case ReceiveError => eventSet := eventSet + {ErrReceive};
          case ExecuteError => eventSet := eventSet + {ErrExecute};
        }
        pc := Releasing;
      }
    }

    /** vMBMasterRunResRelease */
    method RunResRelease()
      requires Valid() && pc.Releasing?
      modifies this`runRes, this`pc
      ensures Valid() && Abs() == ReleaseRes(old(Abs()))
    {
      hide Num;
      runRes := runRes + 1;
      pc := Waiting;
    }

    /** xMBMasterRunResTake without waiting. */
    method RunResTake() returns (ok: bool)
      requires Valid()
      modifies this`runRes
      ensures Valid() && (ok <==> old(runRes) > 0)
      ensures Abs() == if ok then old(Abs()).(sem := old(runRes) - 1) else old(Abs())
    {
      hide Num;
      ok := runRes > 0;
      if ok { runRes := runRes - 1; }
    }

    /** The body of a request function: the PDU into the send buffer, then EV_MASTER_FRAME_SENT. */
    method Request(addr: Byte, pdu: seq<Byte>)
      requires Valid() && |pdu| <= MB_PDU_LEN_MAX && !eSndState.TxXmit?
      modifies this`destAddress, this`sendPduLength, this`eventSet, sndBuf
      ensures Valid() && Abs() == Post(old(Abs()).(dest := Num(addr), pduLen := |pdu|), FrameSent)
      ensures destAddress == addr && sndBuf[1..1 + sendPduLength] == pdu
    {
      hide Num;
      destAddress := addr;
      var i := 0;
      while i < |pdu|
        invariant i <= |pdu| && sndBuf[1..1 + i] == pdu[..i] && sndBuf[0] == old(sndBuf[0])
        invariant destAddress == addr && sendPduLength == old(sendPduLength) && eventSet == old(eventSet)
      {
        sndBuf[1 + i] := pdu[i];
        i := i + 1;
      }
      sendPduLength := |pdu|;
      eventSet := eventSet + {FrameSent};
    }

    /** The transmitter is running with `rest` to go. */
    ghost predicate Sending(rest: seq<Byte>)
      reads this, sndBuf
    {
      Valid() && eSndState.TxXmit? && txEnabled && OnLine(rest) && |rest| == sndBufferCount
    }

    /** The frame is out and the receiver listens. */
    ghost predicate Sent()
      reads this, sndBuf
    {
      && Valid() && eSndState.TxXfwr? && !txEnabled && rxEnabled && timer > 0
      && (frameIsBroadcast <==> sndBuf[0] == MB_ADDRESS_BROADCAST)
    }

    method TransmitNext(ghost rest: seq<Byte>) returns (out: Option<Byte>)
      requires Sending(rest)
      modifies this`sndBufferCur, this`sndBufferCount, this`frameIsBroadcast, this`rxEnabled, this`txEnabled
      modifies this`eSndState, this`timerMode, this`timer
      ensures rest != [] ==> out == Some(rest[0]) && Sending(rest[1..])
      ensures rest == [] ==> out == None && Sent()
      ensures txEnabled <==> rest != []
    {
      hide Num;
      out := TransmitFsm();
      NumZero(sndBuf[0]);
    }

    /** The transmit thread of portserial_m.c: it calls the callback while the transmitter is enabled,
        and puts exactly the frame on the line. */
    method Transmit(ghost f: seq<Byte>) returns (line: seq<Byte>)
      requires Sending(f)
      modifies this`sndBufferCur, this`sndBufferCount, this`frameIsBroadcast, this`rxEnabled, this`txEnabled
      modifies this`eSndState, this`timerMode, this`timer
      ensures line == f && Sent()
    {
      hide Num, Valid, OnLine, Abs;
      line := [];
      ghost var rest := f;
      while txEnabled
        invariant line + rest == f
        invariant if txEnabled then Sending(rest) else rest == [] && Sent()
        decreases txEnabled, |rest|
      {
        var out := TransmitNext(rest);
        if out.Some? {
          line := line + [out.value];
          rest := rest[1..];
        }
      }
    }

    /** A gap-free run of bytes reaches the idle receiver. */
    method Listen(line: seq<Byte>)
      requires Valid() && eRcvState.RxIdle? && 1 <= |line| <= MB_SER_PDU_SIZE_MAX
      modifies this, rcvBuf
      ensures Valid() && eRcvState.RxRcv? && eSndState.TxIdle? && timer > 0 && timerMode.T35?
      ensures rcvBuf[..rcvBufferPos] == line
      ensures eventSet == old(eventSet) && destAddress == old(destAddress)
    {
      hide Num;
      FirstByte(line[0]);
      var i := 1;
      while i < |line|
        invariant 1 <= i <= |line| && Receiving(line[..i])
        invariant eventSet == old(eventSet) && destAddress == old(destAddress)
      {
        NextByte(line[i], line[..i]);
        assert line[..i + 1] == line[..i] + [line[i]];
        i := i + 1;
      }
      assert line[..i] == line;
    }

    /** The receiver has collected exactly these bytes. */
    ghost predicate Receiving(s: seq<Byte>)
      reads this, sndBuf, rcvBuf
    {
      && Valid() && eRcvState.RxRcv? && eSndState.TxIdle? && timer > 0 && timerMode.T35?
      && rcvBuf[..rcvBufferPos] == s
    }

    method NextByte(ucByte: Byte, ghost s: seq<Byte>)
      requires Receiving(s) && |s| < MB_SER_PDU_SIZE_MAX
      modifies this`eRcvState, this`eSndState, this`timerMode, this`timer, this`rcvBufferPos, rcvBuf
      ensures Receiving(s + [ucByte])
    {
      hide Num;
      ReceiveFsm(ucByte);
    }
  }
}
