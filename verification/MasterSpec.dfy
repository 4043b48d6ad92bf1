/** The Modbus RTU master as a state machine: the callbacks of mbrtu_m.c, the event object and run
    resource of portevent_m.c, the timer of porttimer_m.c and the poll of mb_m.c. Every callback, event
    operation and semaphore operation is one atomic step, and the steps interleave freely. */
module MasterSpec {

  import opened RtuFrame
  import opened RtuTiming
  import opened Wrappers

  const MB_MASTER_TOTAL_SLAVE_NUM := 16
  const MB_PDU_LEN_MAX := 250          // the send buffer has room for no more

  datatype Snd = TxIdle | TxXmit | TxXfwr
  datatype Rcv = RxInit | RxIdle | RxRcv | RxError
  datatype Mode = T35 | RespondTimeout | ConvertDelay
  datatype ErrorType = TimeoutError | ReceiveError | ExecuteError

  /** The nine bits of the event object, in bit order. */
  datatype Event =
    | Ready | FrameReceived | Execute | FrameSent | ErrorProcess
    | Success | ErrTimeout | ErrReceive | ErrExecute

  const POLL_BITS: set<Event> := {Ready, FrameReceived, Execute, FrameSent, ErrorProcess}
  const FINISH_BITS: set<Event> := {Success, ErrTimeout, ErrReceive, ErrExecute}

  /** Where the polling thread is. Confused: the exact-match switch found several bits at once. */
  datatype Pc = Waiting | Handling(event: Event) | Confused | Releasing

  /** `timer` are the ticks the one-shot timer has left, 0 when it is stopped; `t35` is its shortest setting. */
  datatype Master = Master(
    snd: Snd, rcv: Rcv, mode: Mode, timer: nat, t35: Period, rx: bool, tx: bool,
    dest: nat, pduLen: nat, sndAddr: nat, left: nat, pos: nat, bcast: bool,
    events: set<Event>, sem: nat, established: bool, err: ErrorType, pc: Pc)

  // ----- portevent_m.c, porttimer_m.c

  function Post(m: Master, e: Event): Master
  {
    m.(events := m.events + {e})
  }

  function Setting(t35: Period, mode: Mode): Period
  {
    match mode
    case T35 => t35
    case RespondTimeout => RESPOND_TICKS
    case ConvertDelay => CONVERT_TICKS
  }

  function StartTimer(m: Master, mode: Mode): Master
  {
    m.(mode := mode, timer := Setting(m.t35, mode))
  }

  /** A tick that does not make the timer fire. */
  function Ticked(m: Master): Master
  {
    if m.timer > 1 then m.(timer := m.timer - 1) else m
  }

  // ----- mbrtu_m.c

  /** eMBMasterRTUStart on the initialised stack. */
  function Started(t35: Period): Master
  {
    Master(TxIdle, RxInit, T35, t35, t35, true, false, 0, 0, 0, 0, 0, false, {}, 1, false, TimeoutError, Waiting)
  }

  /** xMBMasterRTUReceiveFSM */
  function ByteReceived(m: Master): Master
  {
    match m.rcv
    case RxInit => StartTimer(m, T35)
    case RxError => StartTimer(m, T35)
    case RxIdle => StartTimer(m.(snd := TxIdle, pos := 1, rcv := RxRcv), T35)
    case RxRcv =>
      if m.pos < MB_SER_PDU_SIZE_MAX then StartTimer(m.(pos := m.pos + 1), T35)
      else StartTimer(m.(rcv := RxError), T35)
  }

  /** xMBMasterRTUTransmitFSM */
  function TransmitterEmpty(m: Master): Master
  {
    match m.snd
    case TxIdle => m.(rx := true, tx := false)
    case TxXmit =>
      if m.left != 0 then m.(left := m.left - 1)
      else
        var b := m.sndAddr == 0;
        StartTimer(m.(bcast := b, rx := true, tx := false, snd := TxXfwr), if b then ConvertDelay else RespondTimeout)
    case TxXfwr => m
  }

  /** The two switches of xMBMasterRTUTimerExpired. */
  function ReceiverExpired(m: Master): Master
  {
    match m.rcv
    case RxInit => Post(m, Ready)
    case RxRcv => Post(m, FrameReceived)
    case RxError => Post(m.(err := ReceiveError), ErrorProcess)
    case RxIdle => m
  }

  function SenderExpired(m: Master): Master
  {
    if m.snd.TxXfwr? && !m.bcast then Post(m.(err := TimeoutError), ErrorProcess) else m
  }

  /** xMBMasterRTUTimerExpired, called when the one-shot timer fires. */
  function TimerExpired(m: Master): Master
  {
    var c := SenderExpired(ReceiverExpired(m)).(rcv := RxIdle, snd := TxIdle, timer := 0);
    if m.mode.ConvertDelay? then Post(c, Execute) else c
  }

  /** eMBMasterRTUSend: refused, without a trace, when the receiver is not idle. */
  function Send(m: Master): Master
  {
    if m.dest > MB_MASTER_TOTAL_SLAVE_NUM || !m.rcv.RxIdle? then m
    else m.(sndAddr := m.dest, left := 1 + m.pduLen + 2, snd := TxXmit, rx := false, tx := true)
  }

  // ----- mb_m.c

  /** rt_event_recv with OR and CLEAR, and the exact-match switch behind it. */
  function EventGet(m: Master): Master
  {
    var got := m.events * POLL_BITS;
    var pc :=
      if got == {Ready} then Handling(Ready)
      else if got == {FrameReceived} then Handling(FrameReceived)
      else if got == {Execute} then Handling(Execute)
      else if got == {FrameSent} then Handling(FrameSent)
      else if got == {ErrorProcess} then Handling(ErrorProcess)
      else Confused;
    m.(events := m.events - POLL_BITS, pc := pc)
  }

  function FinishOf(err: ErrorType): Event
  {
    match err
    case TimeoutError => ErrTimeout
    case ReceiveError => ErrReceive
    case ExecuteError => ErrExecute
  }

  /** One turn of the switch of eMBMasterPoll. `good`: the frame passed eMBMasterRTUReceive and came
      from the addressed slave; `ran`: a function handler was called; `exc`: an exception resulted. */
  function PollHandle(m: Master, good: bool, ran: bool, exc: bool): Master
    requires m.pc.Handling?
  {
    var w := m.(pc := Waiting);
    match m.pc.event
    case Ready => w.(established := true)
    case FrameReceived => if good then Post(w, Execute) else Post(w.(err := ReceiveError), ErrorProcess)
    case Execute =>
      var d := if ran && m.bcast then w.(dest := MB_MASTER_TOTAL_SLAVE_NUM) else w;
      if exc then Post(d.(err := ExecuteError), ErrorProcess) else Post(d, Success).(pc := Releasing)
    case FrameSent => Send(w)
    case ErrorProcess => Post(w, FinishOf(m.err)).(pc := Releasing)
    case _ => w
  }

  /** vMBMasterRunResRelease */
  function ReleaseRes(m: Master): Master
  {
    m.(sem := m.sem + 1, pc := Waiting)
  }

  // ----- requests and the whole system

  /** The stack, its clients, and the history of the request in service: how many bytes came back,
      and what the poll found in them. `waiting` are the clients that have posted their request and not yet
      called rt_event_recv; `asleep` are those suspended in it, in the order of the suspend list. */
  datatype World = World(
    m: Master, holder: Option<int>, waiting: set<int>, asleep: seq<int>,
    current: int, reply: nat, good: bool, exc: bool)

  datatype Step =
    | Byte
    | TxEmpty
    | Tick
    | Expire                    // runs allow it on any tick; it is due when one tick is left
    | Get
    | Handle(good: bool, ran: bool, exc: bool)
    | Release
    | Take(c: int)
    | Submit(addr: nat, len: nat)
    | Finish(c: int)            // rt_event_recv finds a finish bit
    | Sleep(c: int, pos: nat)   // rt_event_recv finds none

  predicate Receiving(m: Master)
  {
    m.rcv.RxRcv? || m.rcv.RxError?
  }

  /** The line discipline and the calling rules: after a request is sent at most one gap-free run of
      bytes arrives, and requests are made only once the stack is established. */
  predicate Allowed(w: World, s: Step)
  {
    var m := w.m;
    match s
    case Byte => m.rx && m.timer > 0 && (m.rcv.RxInit? || Receiving(m) || (m.rcv.RxIdle? && m.snd.TxXfwr?))
    case TxEmpty => m.tx
    case Tick => m.timer != 1
    case Expire => m.timer > 0
    case Get => m.pc.Waiting? && m.events * POLL_BITS != {}
    case Handle(_, _, _) => m.pc.Handling?
    case Release => m.pc.Releasing?
    case Take(c) => m.sem > 0 && w.holder.None? && c !in w.waiting && c !in w.asleep && m.established
    case Submit(addr, len) => w.holder.Some? && addr <= MB_MASTER_TOTAL_SLAVE_NUM && len <= MB_PDU_LEN_MAX
    case Finish(c) => c in w.waiting && m.events * FINISH_BITS != {}
    case Sleep(c, pos) => c in w.waiting && m.events * FINISH_BITS == {} && pos <= |w.asleep|
  }

  /** The rules but for the last: a request may come before the stack is established. */
  predicate AllowedEarly(w: World, s: Step)
  {
    if s.Take? then w.m.sem > 0 && w.holder.None? && s.c !in w.waiting && s.c !in w.asleep else Allowed(w, s)
  }

  /** rt_event_send serves the suspended clients in list order, and the first takes and clears all finish
      bits at once. */
  function Deliver(w: World): World
  {
    if w.asleep == [] || w.m.events * FINISH_BITS == {} then w
    else w.(m := w.m.(events := w.m.events - FINISH_BITS), asleep := w.asleep[1..])
  }

  /** One turn of the poll, before suspended clients are served. */
  function Handled(w: World, good: bool, ran: bool, exc: bool): World
    requires w.m.pc.Handling?
  {
    w.(m := PollHandle(w.m, good, ran, exc),
       good := if w.m.pc.event.FrameReceived? then good else w.good,
       exc := if w.m.pc.event.Execute? then exc else w.exc)
  }

  function Next(w: World, s: Step): World
    requires AllowedEarly(w, s)
  {
    var m := w.m;
    match s
    case Byte => w.(m := ByteReceived(m), reply := w.reply + 1)
    case TxEmpty => w.(m := TransmitterEmpty(m))
    case Tick => w.(m := Ticked(m))
    case Expire => w.(m := TimerExpired(m))
    case Get => w.(m := EventGet(m))
    case Handle(good, ran, exc) => Deliver(Handled(w, good, ran, exc))
    case Release => w.(m := ReleaseRes(m))
    case Take(c) => w.(m := m.(sem := m.sem - 1), holder := Some(c))
    case Submit(addr, len) => w.(
      m := Post(m.(dest := addr, pduLen := len), FrameSent), holder := None,
      waiting := w.waiting + {w.holder.value}, current := w.holder.value, reply := 0)
    case Finish(c) => w.(m := m.(events := m.events - FINISH_BITS), waiting := w.waiting - {c})
    case Sleep(c, pos) => w.(waiting := w.waiting - {c}, asleep := w.asleep[..pos] + [c] + w.asleep[pos..])
  }

  /** The client that gets finish bits in a step, and the bits. */
  function Delivery(w: World, s: Step): Option<(int, set<Event>)>
    requires AllowedEarly(w, s)
  {
    match s
    case Finish(c) => Some((c, w.m.events * FINISH_BITS))
    case Handle(good, ran, exc) =>
      var bits := Handled(w, good, ran, exc).m.events * FINISH_BITS;
      if w.asleep == [] || bits == {} then None else Some((w.asleep[0], bits))
    case _ => None
  }

  function Begin(t35: Period): World
  {
    World(Started(t35), None, {}, [], 0, 0, false, false)
  }

  // ----- what always holds

  /** Who has to act next. */
  datatype Phase =
    | StartTimerRuns | Idle | Held | Sending | AwaitReply | InReply
    | Pending(e: Event) | Serving(e: Event) | Finishing | Broken

  function PhaseOf(w: World): Phase
  {
    var m := w.m;
    if w.holder.Some? then Held
    else if m.pc.Releasing? then Finishing
    else if m.pc.Handling? then Serving(m.pc.event)
    else if m.pc.Confused? then Broken
    else if Ready in m.events then Pending(Ready)
    else if FrameReceived in m.events then Pending(FrameReceived)
    else if Execute in m.events then Pending(Execute)
    else if FrameSent in m.events then Pending(FrameSent)
    else if ErrorProcess in m.events then Pending(ErrorProcess)
    else if m.rcv.RxInit? then StartTimerRuns
    else if m.snd.TxXmit? then Sending
    else if m.snd.TxXfwr? then AwaitReply
    else if Receiving(m) then InReply
    else Idle
  }

  /** Neither the transmitter nor the timer nor a started frame will call back. */
  predicate Quiet(m: Master)
  {
    m.snd.TxIdle? && m.rcv.RxIdle? && m.timer == 0 && m.rx && !m.tx
  }

  predicate NoPoll(m: Master)
  {
    && Ready !in m.events && FrameReceived !in m.events && Execute !in m.events
    && FrameSent !in m.events && ErrorProcess !in m.events
  }

  /** Poll bit e is pending and no other. */
  predicate OnlyPoll(m: Master, e: Event)
  {
    && (Ready in m.events <==> e.Ready?)
    && (FrameReceived in m.events <==> e.FrameReceived?)
    && (Execute in m.events <==> e.Execute?)
    && (FrameSent in m.events <==> e.FrameSent?)
    && (ErrorProcess in m.events <==> e.ErrorProcess?)
  }

  /** What the request in service has come to, from what happened on the line. */
  function Verdict(w: World): Event
  {
    if w.reply == 0 && !w.m.bcast then ErrTimeout
    else if w.reply > MB_SER_PDU_SIZE_MAX || (w.reply > 0 && !w.good) then ErrReceive
    else if w.exc then ErrExecute
    else Success
  }

  /** The frame in the receive buffer passed, or a broadcast is to be executed locally. */
  predicate Executable(w: World)
  {
    if w.reply == 0 then w.m.bcast else w.reply <= MB_SER_PDU_SIZE_MAX && w.good
  }

  /** The pending or served poll event e belongs here. */
  predicate EventFits(w: World, e: Event)
  {
    match e
    case Ready => !w.m.established && w.m.sem == 1
    case FrameReceived => w.m.established && w.m.sem == 0 && 1 <= w.reply <= MB_SER_PDU_SIZE_MAX && w.m.pos == w.reply
    case Execute => w.m.established && w.m.sem == 0 && Executable(w)
    case FrameSent => w.m.established && w.m.sem == 0 && w.reply == 0 && w.m.dest <= MB_MASTER_TOTAL_SLAVE_NUM
    case ErrorProcess => w.m.established && w.m.sem == 0 && FinishOf(w.m.err) == Verdict(w)
    case _ => false
  }

  predicate Busy(w: World)
  {
    w.m.established && w.m.sem == 0 && w.holder.None? && w.m.pc.Waiting?
  }

  /** The invariant, phase by phase: exactly one party has the next move. */
  predicate At(w: World, ph: Phase)
  {
    var m := w.m;
    match ph
    case StartTimerRuns =>
      && !m.established && m.sem == 1 && w.holder.None? && m.pc.Waiting? && NoPoll(m)
      && m.snd.TxIdle? && m.rcv.RxInit? && m.timer > 0 && m.mode.T35? && m.rx && !m.tx
    case Idle => m.established && m.sem == 1 && w.holder.None? && m.pc.Waiting? && NoPoll(m) && Quiet(m)
    case Held => m.established && m.sem == 0 && m.pc.Waiting? && NoPoll(m) && Quiet(m)
    case Pending(e) =>
      EventFits(w, e) && w.holder.None? && m.pc.Waiting? && OnlyPoll(m, e) && Quiet(m)
    case Serving(e) => EventFits(w, e) && w.holder.None? && m.pc == Handling(e) && NoPoll(m) && Quiet(m)
    case Finishing => m.established && m.sem == 0 && w.holder.None? && NoPoll(m) && Quiet(m)
    case Sending => Busy(w) && NoPoll(m) && m.snd.TxXmit? && m.rcv.RxIdle? && m.timer == 0 && !m.rx && m.tx && w.reply == 0
    case AwaitReply =>
      && Busy(w) && NoPoll(m) && m.snd.TxXfwr? && m.rcv.RxIdle? && m.timer > 0 && m.rx && !m.tx && w.reply == 0
      && m.bcast == (m.sndAddr == 0)
      && m.mode == (if m.bcast then ConvertDelay else RespondTimeout)
    case InReply =>
      && Busy(w) && NoPoll(m) && m.snd.TxIdle? && m.timer > 0 && m.rx && !m.tx && m.mode.T35? && w.reply >= 1
      && (if w.reply <= MB_SER_PDU_SIZE_MAX then m.rcv.RxRcv? && m.pos == w.reply
          else m.rcv.RxError? && m.pos == MB_SER_PDU_SIZE_MAX)
    case Broken => false
  }

  predicate Inv(w: World)
  {
    At(w, PhaseOf(w))
  }

  lemma BeginInv(t35: Period)
    ensures Inv(Begin(t35))
  {
  }

  lemma ByteInv(w: World)
    requires Inv(w) && Allowed(w, Byte)
    ensures Inv(Next(w, Byte))
  {
    hide NoPoll, OnlyPoll;
    PollSame(w.m, ByteReceived(w.m));
  }

  lemma PollSame(m: Master, n: Master)
    requires n.events == m.events
    ensures NoPoll(n) == NoPoll(m) && forall e :: OnlyPoll(n, e) == OnlyPoll(m, e)
  {
  }

  lemma TxEmptyInv(w: World)
    requires Inv(w) && Allowed(w, TxEmpty)
    ensures Inv(Next(w, TxEmpty))
  {
    hide NoPoll, OnlyPoll;
    PollSame(w.m, TransmitterEmpty(w.m));
  }

  lemma TickInv(w: World)
    requires Inv(w) && Allowed(w, Tick)
    ensures Inv(Next(w, Tick))
  {
    hide NoPoll, OnlyPoll;
    PollSame(w.m, Ticked(w.m));
  }

  /** What an expiry announces, from what happened on the line. */
  function ExpiryEvent(w: World): Event
  {
    if !w.m.established then Ready
    else if w.reply == 0 then (if w.m.bcast then Execute else ErrorProcess)
    else if w.reply <= MB_SER_PDU_SIZE_MAX then FrameReceived
    else ErrorProcess
  }

  function ExpiryError(w: World): ErrorType
  {
    if ExpiryEvent(w) != ErrorProcess then w.m.err else if w.reply == 0 then TimeoutError else ReceiveError
  }

  lemma ExpiryResult(w: World)
    requires Inv(w) && w.m.timer > 0
    ensures NoPoll(w.m)
    ensures TimerExpired(w.m) ==
      Post(w.m.(rcv := RxIdle, snd := TxIdle, timer := 0, err := ExpiryError(w)), ExpiryEvent(w))
  {
    assert PhaseOf(w) in {StartTimerRuns, AwaitReply, InReply};
  }

  lemma ExpireInv(w: World)
    requires Inv(w) && Allowed(w, Expire)
    ensures Inv(Next(w, Expire))
  {
    hide TimerExpired;
    ExpiryResult(w);
  }

  lemma GetInv(w: World)
    requires Inv(w) && Allowed(w, Get)
    ensures Inv(Next(w, Get))
  {
    hide EventGet, OnlyPoll, POLL_BITS;
    if NoPoll(w.m) { NoneToGet(w.m); }
    EventPending(w);
    GetOne(w.m, PhaseOf(w).e);
  }

  lemma NoneToGet(m: Master)
    requires NoPoll(m)
    ensures m.events * POLL_BITS == {}
  {
  }

  lemma EventPending(w: World)
    requires Inv(w) && w.m.pc.Waiting? && !NoPoll(w.m)
    ensures PhaseOf(w).Pending? && PhaseOf(w).e in POLL_BITS && OnlyPoll(w.m, PhaseOf(w).e)
  {
    hide EventFits, OnlyPoll;
  }

  lemma GetOne(m: Master, e: Event)
    requires OnlyPoll(m, e) && e in POLL_BITS
    ensures EventGet(m) == m.(events := m.events - POLL_BITS, pc := Handling(e)) && NoPoll(EventGet(m))
  {
    assert m.events * POLL_BITS == {e};
  }

  lemma HandleInv(w: World, good: bool, ran: bool, exc: bool)
    requires Inv(w) && Allowed(w, Handle(good, ran, exc))
    ensures Inv(Next(w, Handle(good, ran, exc)))
  {
    hide Inv, Handled;
    DeliverInv(Handled(w, good, ran, exc));
    match w.m.pc.event
    case Execute => HandleExecute(w, good, ran, exc);
    case FrameSent => HandleSent(w, good, ran, exc);
    case FrameReceived => HandleReceived(w, good, ran, exc);
    case _ => HandleOther(w, good, ran, exc);
  }

  lemma DeliverInv(w: World)
    ensures Inv(w) ==> Inv(Deliver(w))
    ensures PhaseOf(Deliver(w)) == PhaseOf(w)
  {
    FinishKeepsPoll(w.m);
    hide NoPoll, OnlyPoll;
  }

  lemma HandleExecute(w: World, good: bool, ran: bool, exc: bool)
    requires Inv(w) && Allowed(w, Handle(good, ran, exc)) && w.m.pc.event.Execute?
    ensures Inv(Handled(w, good, ran, exc))
  {
  }

  lemma HandleSent(w: World, good: bool, ran: bool, exc: bool)
    requires Inv(w) && Allowed(w, Handle(good, ran, exc)) && w.m.pc.event.FrameSent?
    ensures Inv(Handled(w, good, ran, exc))
  {
  }

  lemma HandleReceived(w: World, good: bool, ran: bool, exc: bool)
    requires Inv(w) && Allowed(w, Handle(good, ran, exc)) && w.m.pc.event.FrameReceived?
    ensures Inv(Handled(w, good, ran, exc))
  {
  }

  lemma HandleOther(w: World, good: bool, ran: bool, exc: bool)
    requires Inv(w) && Allowed(w, Handle(good, ran, exc))
    requires !w.m.pc.event.Execute? && !w.m.pc.event.FrameSent? && !w.m.pc.event.FrameReceived?
    ensures Inv(Handled(w, good, ran, exc))
  {
  }

  lemma ReleaseInv(w: World)
    requires Inv(w) && Allowed(w, Release)
    ensures Inv(Next(w, Release))
  {
  }

  lemma TakeInv(w: World, c: int)
    requires Inv(w) && Allowed(w, Take(c))
    ensures Inv(Next(w, Take(c)))
  {
  }

  lemma SubmitInv(w: World, addr: nat, len: nat)
    requires Inv(w) && Allowed(w, Submit(addr, len))
    ensures Inv(Next(w, Submit(addr, len)))
  {
  }

  lemma FinishInv(w: World, c: int)
    requires Inv(w) && Allowed(w, Finish(c))
    ensures Inv(Next(w, Finish(c)))
  {
    FinishKeepsPoll(w.m);
    hide NoPoll, OnlyPoll;
  }

  lemma SleepInv(w: World, c: int, pos: nat)
    requires Inv(w) && Allowed(w, Sleep(c, pos))
    ensures Inv(Next(w, Sleep(c, pos)))
  {
    hide NoPoll, OnlyPoll, Quiet;
  }

  lemma FinishKeepsPoll(m: Master)
    ensures var n := m.(events := m.events - FINISH_BITS);
      NoPoll(n) == NoPoll(m) && forall e :: OnlyPoll(n, e) == OnlyPoll(m, e)
  {
  }

  lemma NextInv(w: World, s: Step)
    requires Inv(w) && Allowed(w, s)
    ensures Inv(Next(w, s))
  {
    hide Inv, Next;
    match s
    case Byte => ByteInv(w);
    case TxEmpty => TxEmptyInv(w);
    case Tick => TickInv(w);
    case Expire => ExpireInv(w);
    case Get => GetInv(w);
    case Handle(good, ran, exc) => HandleInv(w, good, ran, exc);
    case Release => ReleaseInv(w);
    case Take(c) => TakeInv(w, c);
    case Submit(addr, len) => SubmitInv(w, addr, len);
    case Finish(c) => FinishInv(w, c);
    case Sleep(c, pos) => SleepInv(w, c, pos);
  }

  // ----- runs

  ghost predicate Run(ws: seq<World>, ss: seq<Step>)
  {
    && |ws| == |ss| + 1 && ws[0] == Begin(ws[0].m.t35)
    && forall k :: 0 <= k < |ss| ==> Allowed(ws[k], ss[k]) && ws[k + 1] == Next(ws[k], ss[k])
  }

  lemma {:induction false} RunInv(ws: seq<World>, ss: seq<Step>, k: nat)
    requires Run(ws, ss) && k < |ws|
    ensures Inv(ws[k])
  {
    hide Inv, Next, Allowed;
    BeginInv(ws[0].m.t35);
    if k > 0 {
      RunInv(ws, ss, k - 1);
      NextInv(ws[k - 1], ss[k - 1]);
    }
  }

  /** In every run each timer expiry finds no poll event pending and posts exactly one, the one that
      the line history calls for. */
  lemma EveryExpiryPostsOne(ws: seq<World>, ss: seq<Step>, k: nat)
    requires Run(ws, ss) && k < |ss| && ss[k] == Expire
    ensures NoPoll(ws[k].m)
    ensures ws[k + 1].m.events == ws[k].m.events + {ExpiryEvent(ws[k])}
    ensures ExpiryEvent(ws[k]) in POLL_BITS
  {
    hide Inv, TimerExpired;
    RunInv(ws, ss, k);
    ExpiryResult(ws[k]);
  }

  /** In every run at most one poll event is ever pending, so the exact-match switch of
      xMBMasterPortEventGet always matches. */
  lemma AtMostOnePollBit(ws: seq<World>, ss: seq<Step>, k: nat)
    requires Run(ws, ss) && k < |ws|
    ensures |ws[k].m.events * POLL_BITS| <= 1
    ensures !ws[k].m.pc.Confused?
    ensures k < |ss| && ss[k] == Get ==> exists e :: ws[k].m.events * POLL_BITS == {e} && ws[k + 1].m.pc == Handling(e)
  {
    RunInv(ws, ss, k);
    OnePollBit(ws[k]);
    if k < |ss| && ss[k] == Get {
      assert Allowed(ws[k], Get);
      GetMatches(ws[k]);
    }
  }

  lemma OnePollBit(w: World)
    requires Inv(w)
    ensures |w.m.events * POLL_BITS| <= 1 && !w.m.pc.Confused?
  {
    var got := w.m.events * POLL_BITS;
    if PhaseOf(w).Pending? {
      assert got == {PhaseOf(w).e};
    } else {
      assert got == {};
    }
  }

  lemma GetMatches(w: World)
    requires Inv(w) && Allowed(w, Get)
    ensures var e := PhaseOf(w); e.Pending? && w.m.events * POLL_BITS == {e.e} && EventGet(w.m).pc == Handling(e.e)
  {
    assert NoPoll(w.m) ==> w.m.events * POLL_BITS == {};
    assert PhaseOf(w).Pending?;
    assert w.m.events * POLL_BITS == {PhaseOf(w).e};
  }

  /** Requests that have taken the run resource and not yet given it back. */
  function Outstanding(ss: seq<Step>): int
  {
    if ss == [] then 0
    else
      var last := ss[|ss| - 1];
      Outstanding(ss[..|ss| - 1]) + (if last.Take? then 1 else if last.Release? then -1 else 0)
  }

  /** In every run the run resource plus the outstanding requests make one. */
  lemma {:induction false} ResourceConserved(ws: seq<World>, ss: seq<Step>, k: nat)
    requires Run(ws, ss) && k < |ws|
    ensures ws[k].m.sem + Outstanding(ss[..k]) == 1
    ensures 0 <= Outstanding(ss[..k]) <= 1
  {
    hide Inv, Allowed;
    RunInv(ws, ss, k);
    SemAtMostOne(ws[k]);
    if k > 0 {
      ResourceConserved(ws, ss, k - 1);
      assert ss[..k][..k - 1] == ss[..k - 1];
      SemStep(ws[k - 1], ss[k - 1]);
    }
  }

  lemma SemAtMostOne(w: World)
    requires Inv(w)
    ensures w.m.sem <= 1
  {
  }

  lemma SemStep(w: World, s: Step)
    requires Allowed(w, s)
    ensures Next(w, s).m.sem == w.m.sem + (if s.Release? then 1 else if s.Take? then -1 else 0)
  {
    hide ByteReceived, TransmitterEmpty, TimerExpired, EventGet, PollHandle;
    SemKeptByLine(w.m);
    SemKeptByTimer(w.m);
    if s.Handle? { SemKeptByPoll(w.m, s.good, s.ran, s.exc); }
  }

  lemma SemKeptByLine(m: Master)
    ensures ByteReceived(m).sem == m.sem && TransmitterEmpty(m).sem == m.sem && EventGet(m).sem == m.sem
  {
    hide ByteReceived, TransmitterEmpty;
    SemKeptByByte(m);
    SemKeptByTransmitter(m);
  }

  lemma SemKeptByByte(m: Master)
    ensures ByteReceived(m).sem == m.sem
  {
  }

  lemma SemKeptByTransmitter(m: Master)
    ensures TransmitterEmpty(m).sem == m.sem
  {
  }

  lemma SemKeptByTimer(m: Master)
    ensures TimerExpired(m).sem == m.sem
  {
    hide ReceiverExpired, SenderExpired;
    SemKeptByReceiver(m);
    SemKeptBySender(ReceiverExpired(m));
  }

  lemma SemKeptByReceiver(m: Master)
    ensures ReceiverExpired(m).sem == m.sem
  {
  }

  lemma SemKeptBySender(m: Master)
    ensures SenderExpired(m).sem == m.sem
  {
  }

  lemma SemKeptByPoll(m: Master, good: bool, ran: bool, exc: bool)
    requires m.pc.Handling?
    ensures PollHandle(m, good, ran, exc).sem == m.sem
  {
    hide Send, FinishOf;
    assert Send(m.(pc := Waiting)).sem == m.sem by { SemKeptBySend(m.(pc := Waiting)); }
  }

  lemma SemKeptBySend(m: Master)
    ensures Send(m).sem == m.sem
  {
  }

  /** The state assertions inside the callbacks hold whenever the callback can run. */
  lemma CallbackAssertions(ws: seq<World>, ss: seq<Step>, k: nat)
    requires Run(ws, ss) && k < |ss|
    ensures ss[k] == Byte ==> ws[k].m.snd.TxIdle? || ws[k].m.snd.TxXfwr?
    ensures ss[k] == TxEmpty ==> ws[k].m.rcv.RxIdle? && ws[k].m.snd.TxXmit?
    ensures ss[k] == Expire ==> ws[k].m.snd.TxIdle? || ws[k].m.snd.TxXfwr?
  {
    RunInv(ws, ss, k);
  }

  /** The assertion in eMBMasterRTUReceive that the buffer position is below 256 fails for exactly
      the replies of 256 bytes, which the receiver accepts. */
  lemma ReceiveAssertionIff(ws: seq<World>, ss: seq<Step>, k: nat)
    requires Run(ws, ss) && k < |ws| && ws[k].m.pc == Handling(FrameReceived)
    ensures ws[k].m.pos < MB_SER_PDU_SIZE_MAX <==> ws[k].reply != MB_SER_PDU_SIZE_MAX
  {
    RunInv(ws, ss, k);
  }

  /** Whenever the poll finishes a request, it posts exactly the result that the reply calls for: the bit
      stays in the event object, or goes to the first suspended client at once. */
  lemma VerdictPosted(ws: seq<World>, ss: seq<Step>, k: nat)
    requires Run(ws, ss) && k < |ss| && ss[k].Handle? && ws[k + 1].m.pc.Releasing?
    ensures Verdict(ws[k + 1]) in FINISH_BITS
    ensures var posted := ws[k].m.events + {Verdict(ws[k + 1])};
      && (ws[k].asleep == [] ==> ws[k + 1].m.events == posted && Delivery(ws[k], ss[k]) == None)
      && (ws[k].asleep != [] ==> ws[k + 1].m.events == posted - FINISH_BITS
                                 && Delivery(ws[k], ss[k]) == Some((ws[k].asleep[0], posted * FINISH_BITS)))
  {
    hide Inv, PollHandle, Verdict;
    RunInv(ws, ss, k);
    var v := Handled(ws[k], ss[k].good, ss[k].ran, ss[k].exc);
    VerdictOfHandled(ws[k], ss[k].good, ss[k].ran, ss[k].exc);
    DeliverVerdict(v);
    assert Verdict(v) in v.m.events * FINISH_BITS;
  }

  lemma VerdictOfHandled(w: World, good: bool, ran: bool, exc: bool)
    requires Inv(w) && Allowed(w, Handle(good, ran, exc)) && Handled(w, good, ran, exc).m.pc.Releasing?
    ensures var v := Handled(w, good, ran, exc); v.m.events == w.m.events + {Verdict(v)} && Verdict(v) in FINISH_BITS
  {
    hide Inv, Verdict, Send, FinishOf;
    match w.m.pc.event
    case Execute => VerdictOfExecute(w, good, ran, exc);
    case ErrorProcess => VerdictOfError(w, good, ran, exc);
    case FrameSent => NotReleasing(w.m);
    case _ =>
  }

  lemma VerdictOfExecute(w: World, good: bool, ran: bool, exc: bool)
    requires Inv(w) && w.m.pc == Handling(Execute) && Handled(w, good, ran, exc).m.pc.Releasing?
    ensures var v := Handled(w, good, ran, exc); v.m.events == w.m.events + {Verdict(v)} && Verdict(v) in FINISH_BITS
  {
    hide NoPoll, OnlyPoll, Quiet;
  }

  lemma VerdictOfError(w: World, good: bool, ran: bool, exc: bool)
    requires Inv(w) && w.m.pc == Handling(ErrorProcess)
    ensures var v := Handled(w, good, ran, exc); v.m.events == w.m.events + {Verdict(v)} && Verdict(v) in FINISH_BITS
  {
    hide NoPoll, OnlyPoll, Quiet;
  }

  lemma NotReleasing(m: Master)
    ensures Send(m.(pc := Waiting)).pc == Waiting
  {
  }

  lemma DeliverVerdict(w: World)
    ensures Verdict(Deliver(w)) == Verdict(w) && Deliver(w).m.pc == w.m.pc
  {
  }

  /** eMBMasterRTUSend never refuses: in every run each request goes out. */
  lemma SendAccepted(ws: seq<World>, ss: seq<Step>, k: nat)
    requires Run(ws, ss) && k < |ss| && ss[k].Handle? && ws[k].m.pc == Handling(FrameSent)
    ensures var m := ws[k + 1].m; m.snd.TxXmit? && m.tx && m.sndAddr == m.dest && m.left == m.pduLen + 3
  {
    RunInv(ws, ss, k);
  }

  /** The line has one direction at a time: in every run the receiver is off exactly while a frame goes out. */
  lemma HalfDuplex(ws: seq<World>, ss: seq<Step>, k: nat)
    requires Run(ws, ss) && k < |ws|
    ensures ws[k].m.tx == ws[k].m.snd.TxXmit? == !ws[k].m.rx
  {
    RunInv(ws, ss, k);
    OneDirection(ws[k]);
  }

  lemma OneDirection(w: World)
    requires Inv(w)
    ensures w.m.tx == w.m.snd.TxXmit? == !w.m.rx
  {
    hide NoPoll, OnlyPoll, EventFits;
  }

  // ----- every request ends

  /** Steps left until the request in service is given back, once its reply has stopped. */
  function Rank(w: World): nat
  {
    var m := w.m;
    match PhaseOf(w)
    case Pending(FrameSent) => m.pduLen + 3 + 13
    case Serving(FrameSent) => m.pduLen + 3 + 12
    case Sending => m.left + 11
    case AwaitReply => 10
    case InReply => 9
    case Pending(FrameReceived) => 8
    case Serving(FrameReceived) => 7
    case Pending(Execute) => 6
    case Serving(Execute) => 5
    case Pending(ErrorProcess) => 4
    case Serving(ErrorProcess) => 3
    case Finishing => 2
    case _ => 0
  }

  /** The stack's own steps; bytes and clients are the environment. */
  predicate Internal(s: Step)
  {
    s.TxEmpty? || s.Expire? || s.Get? || s.Handle? || s.Release?
  }

  /** A submitted request not yet given back. */
  predicate InService(w: World)
  {
    w.m.sem == 0 && w.holder.None?
  }

  lemma InternalDecreases(w: World, s: Step)
    requires Inv(w) && InService(w) && Allowed(w, s) && Internal(s)
    ensures Rank(Next(w, s)) < Rank(w)
    ensures InService(Next(w, s)) || s.Release?
  {
    match s
    case Expire => hide TimerExpired; ExpiryResult(w);
    case Handle(good, ran, exc) => HandleDecreases(w, good, ran, exc);
    case TxEmpty => TxEmptyDecreases(w);
    case Get => GetDecreases(w);
    case _ =>
  }

  lemma TxEmptyDecreases(w: World)
    requires Inv(w) && InService(w) && Allowed(w, TxEmpty)
    ensures Rank(Next(w, TxEmpty)) < Rank(w) && InService(Next(w, TxEmpty))
  {
    hide NoPoll, OnlyPoll;
  }

  lemma GetDecreases(w: World)
    requires Inv(w) && InService(w) && Allowed(w, Get)
    ensures Rank(Next(w, Get)) < Rank(w) && InService(Next(w, Get))
  {
  }

  lemma HandleDecreases(w: World, good: bool, ran: bool, exc: bool)
    requires Inv(w) && InService(w) && Allowed(w, Handle(good, ran, exc))
    ensures var n := Next(w, Handle(good, ran, exc)); Rank(n) < Rank(w) && InService(n)
  {
    HandledDecreases(w, good, ran, exc);
    hide Handled, Inv, Rank;
    DeliverRank(Handled(w, good, ran, exc));
  }

  lemma HandledDecreases(w: World, good: bool, ran: bool, exc: bool)
    requires Inv(w) && InService(w) && Allowed(w, Handle(good, ran, exc))
    ensures Rank(Handled(w, good, ran, exc)) < Rank(w) && InService(Handled(w, good, ran, exc))
  {
  }

  lemma DeliverRank(w: World)
    ensures Rank(Deliver(w)) == Rank(w) && (InService(w) ==> InService(Deliver(w)))
  {
    hide PhaseOf;
    DeliverInv(w);
  }

  /** A request in service is never stuck: one of the stack's own steps is always possible. */
  lemma NeverStuck(w: World)
    requires Inv(w) && InService(w)
    ensures exists s :: Internal(s) && Allowed(w, s)
  {
    var ph := PhaseOf(w);
    var s := if ph.Sending? then TxEmpty else if ph.AwaitReply? || ph.InReply? then Expire
      else if ph.Pending? then Get else if ph.Serving? then Handle(false, false, false) else Release;
    if ph.Pending? { assert ph.e in w.m.events * POLL_BITS; }
    assert Internal(s) && Allowed(w, s);
  }

  ghost predicate Path(ws: seq<World>, ss: seq<Step>)
  {
    && |ws| == |ss| + 1
    && forall k :: 0 <= k < |ss| ==> Allowed(ws[k], ss[k]) && ws[k + 1] == Next(ws[k], ss[k])
  }

  function InternalSteps(ss: seq<Step>): nat
  {
    if ss == [] then 0
    else InternalSteps(ss[..|ss| - 1]) + (if Internal(ss[|ss| - 1]) then 1 else 0)
  }

  /** However bytes and clients interleave, a request in service is given back after at most
      Rank - 1 steps of the stack. */
  lemma {:induction false} RequestEnds(ws: seq<World>, ss: seq<Step>)
    requires Path(ws, ss) && Inv(ws[0]) && InService(ws[0])
    requires forall k :: 0 <= k < |ss| ==> !ss[k].Release?
    ensures Inv(ws[|ss|]) && InService(ws[|ss|])
    ensures InternalSteps(ss) + 2 <= InternalSteps(ss) + Rank(ws[|ss|]) <= Rank(ws[0])
    decreases |ss|
  {
    hide Inv, Rank, Allowed, Next;
    if ss == [] {
      RankPositive(ws[0]);
    } else {
      var n := |ss| - 1;
      RequestEnds(ws[..n + 1], ss[..n]);
      NextInv(ws[n], ss[n]);
      if Internal(ss[n]) { InternalDecreases(ws[n], ss[n]); } else { OutsideKeepsRank(ws[n], ss[n]); }
      RankPositive(ws[n + 1]);
    }
  }

  lemma RankPositive(w: World)
    requires Inv(w) && InService(w)
    ensures Rank(w) >= 2
  {
  }

  lemma OutsideKeepsRank(w: World, s: Step)
    requires Inv(w) && InService(w) && Allowed(w, s) && !Internal(s)
    ensures Rank(Next(w, s)) <= Rank(w) && InService(Next(w, s))
  {
  }

  // ----- the first steps of every run

  /** After the start-up expiry READY is posted, and nothing else has happened. */
  lemma FirstExpiry(t35: Period) returns (w: World)
    ensures Allowed(Begin(t35), Expire) && w == Next(Begin(t35), Expire)
    ensures Inv(w) && PhaseOf(w) == Pending(Ready) && w.holder.None? && w.waiting == {} && w.asleep == []
  {
    hide TimerExpired;
    BeginInv(t35);
    ExpiryResult(Begin(t35));
    ExpireInv(Begin(t35));
    w := Next(Begin(t35), Expire);
  }

  /** Fetched and served, it makes the stack established. */
  lemma FirstService(w: World) returns (w2: World, w3: World)
    requires Inv(w) && PhaseOf(w) == Pending(Ready)
    ensures Allowed(w, Get) && w2 == Next(w, Get)
    ensures Allowed(w2, Handle(false, false, false)) && w3 == Next(w2, Handle(false, false, false))
    ensures Inv(w3) && w3.m.established && w3.m.sem == 1 && w3.holder.None?
    ensures w3.waiting == w.waiting && (w.asleep == [] ==> w3.asleep == [])
  {
    hide Deliver;
    assert w.m.events * POLL_BITS == {Ready};
    GetInv(w);
    w2 := Next(w, Get);
    HandleInv(w2, false, false, false);
    w3 := Next(w2, Handle(false, false, false));
    DeliverFields(Handled(w2, false, false, false));
  }

  lemma DeliverFields(w: World)
    ensures var n := Deliver(w);
      n.m == w.m.(events := n.m.events) && n.holder == w.holder && n.waiting == w.waiting
      && (w.asleep == [] ==> n == w)
  {
  }

  // ----- where a request goes

  /** The request lies in the event object or in the poll's hand, addressed to addr and len bytes long. */
  predicate Posted(w: World, addr: nat, len: nat)
  {
    && (PhaseOf(w) == Pending(FrameSent) || PhaseOf(w) == Serving(FrameSent))
    && w.m.dest == addr && w.m.pduLen == len
  }

  lemma SubmitPosts(w: World, addr: nat, len: nat)
    requires Inv(w) && Allowed(w, Submit(addr, len))
    ensures Posted(Next(w, Submit(addr, len)), addr, len)
  {
  }

  lemma PostedStays(w: World, s: Step, addr: nat, len: nat)
    requires Inv(w) && Allowed(w, s) && Posted(w, addr, len) && !s.Handle? && !s.Submit?
    ensures Posted(Next(w, s), addr, len)
  {
    match s
    case Get =>
      hide EventFits, EventGet, OnlyPoll, POLL_BITS;
      if NoPoll(w.m) { NoneToGet(w.m); }
      EventPending(w);
      GetOne(w.m, PhaseOf(w).e);
    case Finish(c) =>
      hide NoPoll, OnlyPoll;
      FinishKeepsPoll(w.m);
    case _ =>
  }

  lemma {:induction false} PostedUntilHandled(ws: seq<World>, ss: seq<Step>, j: nat, k: nat, addr: nat, len: nat)
    requires Run(ws, ss) && j < k < |ws| && ss[j] == Submit(addr, len)
    requires forall i :: j < i < k ==> !ss[i].Handle? && !ss[i].Submit?
    ensures Posted(ws[k], addr, len)
    decreases k - j
  {
    hide Inv, Next, Allowed, Posted;
    RunInv(ws, ss, k - 1);
    if k == j + 1 {
      SubmitPosts(ws[j], addr, len);
    } else {
      PostedUntilHandled(ws, ss, j, k - 1, addr, len);
      PostedStays(ws[k - 1], ss[k - 1], addr, len);
    }
  }

  /** In every run the poll's first turn behind a request sends it: to the address and with the length that the
      client gave. */
  lemma RequestGoesOut(ws: seq<World>, ss: seq<Step>, j: nat, k: nat, addr: nat, len: nat)
    requires Run(ws, ss) && j < k < |ss| && ss[j] == Submit(addr, len) && ss[k].Handle?
    requires forall i :: j < i < k ==> !ss[i].Handle? && !ss[i].Submit?
    ensures ws[k].m.pc == Handling(FrameSent)
    ensures var m := ws[k + 1].m; m.snd.TxXmit? && m.tx && m.sndAddr == addr && m.left == 1 + len + 2
  {
    hide Inv, Next;
    PostedUntilHandled(ws, ss, j, k, addr, len);
    RunInv(ws, ss, k);
    PostedIsSent(ws[k], ss[k], addr, len);
  }

  lemma PostedIsSent(w: World, s: Step, addr: nat, len: nat)
    requires Inv(w) && Allowed(w, s) && s.Handle? && Posted(w, addr, len)
    ensures w.m.pc == Handling(FrameSent)
    ensures var m := Next(w, s).m; m.snd.TxXmit? && m.tx && m.sndAddr == addr && m.left == 1 + len + 2
  {
    hide NoPoll, OnlyPoll;
  }

  // ----- how long it waits

  /** A byte starts the timer anew, and so does the end of a transmission. */
  predicate Restarts(w: World, s: Step)
  {
    s.Byte? || (s.TxEmpty? && w.m.snd.TxXmit? && w.m.left == 0)
  }

  /** The ticks since the line was last active, or since the start. */
  function Silence(ws: seq<World>, ss: seq<Step>, k: nat): nat
    requires k <= |ss| && k < |ws|
  {
    if k == 0 || Restarts(ws[k - 1], ss[k - 1]) then 0
    else Silence(ws, ss, k - 1) + (if ss[k - 1].Tick? then 1 else 0)
  }

  /** The timer, its setting and its mode are those of m. */
  predicate SameTimer(n: Master, m: Master)
  {
    n.timer == m.timer && n.mode == m.mode && n.t35 == m.t35
  }

  lemma TimerStep(w: World, s: Step)
    requires Allowed(w, s) && Next(w, s).m.timer > 0
    ensures var n := Next(w, s).m;
      && n.t35 == w.m.t35
      && (Restarts(w, s) ==> n.timer == Setting(n.t35, n.mode))
      && (!Restarts(w, s) && s.Tick? ==> n.mode == w.m.mode && n.timer + 1 == w.m.timer)
      && (!Restarts(w, s) && !s.Tick? ==> SameTimer(n, w.m))
  {
    hide ByteReceived, TransmitterEmpty, EventGet, Handled, Deliver;
    match s
    case Byte => ByteTimer(w.m);
    case TxEmpty => TxEmptyTimer(w.m);
    case Expire => assert false;
    case Get => GetTimer(w.m);
    case Handle(good, ran, exc) => HandleTimer(w, good, ran, exc);
    case _ =>
  }

  lemma ByteTimer(m: Master)
    ensures var n := ByteReceived(m); n.t35 == m.t35 && n.mode == T35 && n.timer == m.t35
  {
    hide StartTimer;
    StartSets(m, T35);
    StartSets(m.(snd := TxIdle, pos := 1, rcv := RxRcv), T35);
    StartSets(m.(pos := m.pos + 1), T35);
    StartSets(m.(rcv := RxError), T35);
  }

  lemma StartSets(m: Master, mode: Mode)
    ensures var n := StartTimer(m, mode); n.t35 == m.t35 && n.mode == mode && n.timer == Setting(m.t35, mode)
  {
  }

  lemma TxEmptyTimer(m: Master)
    ensures var n := TransmitterEmpty(m);
      && n.t35 == m.t35
      && (if m.snd.TxXmit? && m.left == 0 then n.timer == Setting(m.t35, n.mode) else SameTimer(n, m))
  {
  }

  lemma GetTimer(m: Master)
    ensures SameTimer(EventGet(m), m)
  {
  }

  lemma HandleTimer(w: World, good: bool, ran: bool, exc: bool)
    requires w.m.pc.Handling?
    ensures SameTimer(Deliver(Handled(w, good, ran, exc)).m, w.m)
  {
    hide PollHandle;
    PollTimer(w.m, good, ran, exc);
    DeliverFields(Handled(w, good, ran, exc));
  }

  lemma PollTimer(m: Master, good: bool, ran: bool, exc: bool)
    requires m.pc.Handling?
    ensures SameTimer(PollHandle(m, good, ran, exc), m)
  {
    hide Send, FinishOf;
    match m.pc.event
    case FrameSent => SendTimer(m.(pc := Waiting));
    case _ =>
  }

  lemma SendTimer(m: Master)
    ensures SameTimer(Send(m), m)
  {
  }

  /** In every run, while the timer runs, it has left what it was set to less the silence so far. */
  lemma {:induction false} TimerCountsSilence(ws: seq<World>, ss: seq<Step>, k: nat)
    requires Run(ws, ss) && k < |ws| && ws[k].m.timer > 0
    ensures ws[k].m.timer + Silence(ws, ss, k) == Setting(ws[k].m.t35, ws[k].m.mode)
  {
    hide Inv, Next, Allowed, Restarts;
    if k > 0 {
      RunInv(ws, ss, k - 1);
      TimerStep(ws[k - 1], ss[k - 1]);
      if !Restarts(ws[k - 1], ss[k - 1]) { TimerCountsSilence(ws, ss, k - 1); }
    }
  }

  /** An expiry on the tick on which the timer is due comes after exactly T3.5 of silence in or behind a reply and at
      the start, after exactly the respond timeout behind a request, after exactly the convert delay behind a
      broadcast. */
  lemma ExpiresAfterSilence(ws: seq<World>, ss: seq<Step>, k: nat)
    requires Run(ws, ss) && k < |ss| && ss[k] == Expire && ws[k].m.timer == 1
    ensures Silence(ws, ss, k) + 1 ==
      if !ws[k].m.snd.TxXfwr? then ws[k].m.t35 else if ws[k].m.sndAddr == 0 then CONVERT_TICKS else RESPOND_TICKS
  {
    RunInv(ws, ss, k);
    TimerCountsSilence(ws, ss, k);
    ModeFits(ws[k]);
  }

  lemma ModeFits(w: World)
    requires Inv(w) && w.m.timer > 0
    ensures w.m.mode == if !w.m.snd.TxXfwr? then T35 else if w.m.sndAddr == 0 then ConvertDelay else RespondTimeout
  {
    hide NoPoll, OnlyPoll, EventFits;
  }

  // ----- how much it sends

  function Emptied(ss: seq<Step>, j: nat, k: nat): nat
    requires j <= k <= |ss|
  {
    if j == k then 0 else Emptied(ss, j, k - 1) + (if ss[k - 1].TxEmpty? then 1 else 0)
  }

  lemma WhileSending(w: World)
    requires Inv(w) && w.m.snd.TxXmit?
    ensures Busy(w) && NoPoll(w.m) && w.m.timer == 0
  {
    hide NoPoll, OnlyPoll, EventFits;
  }

  lemma SendStep(w: World, s: Step)
    requires Inv(w) && Allowed(w, s) && w.m.snd.TxXmit?
    ensures var n := Next(w, s).m;
      && (n.snd.TxXmit? <==> !s.TxEmpty? || w.m.left > 0)
      && (n.snd.TxXmit? ==> n.left + (if s.TxEmpty? then 1 else 0) == w.m.left)
  {
    hide Inv, NoPoll, ByteReceived, TimerExpired, EventGet, Handled, Deliver;
    WhileSending(w);
    NothingPending(w.m);
  }

  lemma NothingPending(m: Master)
    ensures NoPoll(m) ==> m.events * POLL_BITS == {}
  {
  }

  lemma {:induction false} LeftToSend(ws: seq<World>, ss: seq<Step>, j: nat, k: nat)
    requires Run(ws, ss) && j <= k < |ws| && forall i :: j <= i <= k ==> ws[i].m.snd.TxXmit?
    ensures ws[k].m.left + Emptied(ss, j, k) == ws[j].m.left
    decreases k - j
  {
    hide Inv, Next, Allowed;
    if k > j {
      LeftToSend(ws, ss, j, k - 1);
      RunInv(ws, ss, k - 1);
      SendStep(ws[k - 1], ss[k - 1]);
    }
  }

  /** In every run a transmission ends exactly when the transmitter has run empty once for each byte of the frame,
      and once more. */
  lemma SendsWholeFrame(ws: seq<World>, ss: seq<Step>, j: nat, k: nat)
    requires Run(ws, ss) && j <= k < |ss| && forall i :: j <= i <= k ==> ws[i].m.snd.TxXmit?
    ensures !ws[k + 1].m.snd.TxXmit? <==> ss[k].TxEmpty? && Emptied(ss, j, k) == ws[j].m.left
  {
    hide Inv, Next, Allowed;
    LeftToSend(ws, ss, j, k);
    RunInv(ws, ss, k);
    SendStep(ws[k], ss[k]);
  }

  /** A transmitter call that finds nothing to send hands the line over to the receiver. */
  lemma LineHandedOver(m: Master)
    requires m.snd.TxIdle? || (m.snd.TxXmit? && m.left == 0)
    ensures var n := TransmitterEmpty(m); n.rx && !n.tx && !n.snd.TxXmit?
  {
  }

  /** The destination address changes in two ways only: a request sets it to its own, and the handlers of a broadcast
      leave it at the last slave. */
  lemma DestinationStep(w: World, s: Step)
    requires Allowed(w, s)
    ensures Next(w, s).m.dest ==
      if s.Submit? then s.addr
      else if s.Handle? && s.ran && w.m.pc.event.Execute? && w.m.bcast then MB_MASTER_TOTAL_SLAVE_NUM
      else w.m.dest
  {
    hide Handled, Deliver, ByteReceived, TransmitterEmpty, TimerExpired, EventGet;
    match s
    case Byte => ByteDestination(w.m);
    case TxEmpty => TxEmptyDestination(w.m);
    case Expire => ExpiryDestination(w.m);
    case Get => GetDestination(w.m);
    case Handle(good, ran, exc) => HandleDestination(w, good, ran, exc);
    case _ =>
  }

  lemma ByteDestination(m: Master)
    ensures ByteReceived(m).dest == m.dest
  {
  }

  lemma TxEmptyDestination(m: Master)
    ensures TransmitterEmpty(m).dest == m.dest
  {
  }

  lemma ExpiryDestination(m: Master)
    ensures TimerExpired(m).dest == m.dest
  {
    hide ReceiverExpired, SenderExpired;
    var r := ReceiverExpired(m);
    assert r.dest == m.dest by { ReceiverDestination(m); }
    assert SenderExpired(r).dest == r.dest by { SenderDestination(r); }
  }

  lemma ReceiverDestination(m: Master)
    ensures ReceiverExpired(m).dest == m.dest
  {
  }

  lemma SenderDestination(m: Master)
    ensures SenderExpired(m).dest == m.dest
  {
  }

  lemma GetDestination(m: Master)
    ensures EventGet(m).dest == m.dest
  {
  }

  lemma HandleDestination(w: World, good: bool, ran: bool, exc: bool)
    requires w.m.pc.Handling?
    ensures Deliver(Handled(w, good, ran, exc)).m.dest ==
      if ran && w.m.pc.event.Execute? && w.m.bcast then MB_MASTER_TOTAL_SLAVE_NUM else w.m.dest
  {
    hide PollHandle;
    PollDestination(w.m, good, ran, exc);
    DeliverFields(Handled(w, good, ran, exc));
  }

  lemma PollDestination(m: Master, good: bool, ran: bool, exc: bool)
    requires m.pc.Handling?
    ensures PollHandle(m, good, ran, exc).dest ==
      if ran && m.pc.event.Execute? && m.bcast then MB_MASTER_TOTAL_SLAVE_NUM else m.dest
  {
    hide Send, FinishOf;
    match m.pc.event
    case FrameSent => SendDestination(m.(pc := Waiting));
    case _ =>
  }

  lemma SendDestination(m: Master)
    ensures Send(m).dest == m.dest
  {
  }

  /** A suspended client stands at the place its flag gives it, and the others keep theirs. */
  lemma SleepPlace(w: World, c: int, pos: nat, i: nat)
    requires Allowed(w, Sleep(c, pos)) && i < |w.asleep|
    ensures var a := Next(w, Sleep(c, pos)).asleep;
      |a| == |w.asleep| + 1 && a[pos] == c && a[if i < pos then i else i + 1] == w.asleep[i]
  {
  }
}
