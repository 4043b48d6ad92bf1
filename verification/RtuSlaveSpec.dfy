/** The slave's receiver, mbrtu.c, as a machine over bytes and T3.5 expiries, and over bytes and ticks. */
module RtuSlaveSpec {

  import opened Crc
  import opened RtuFrame
  import opened RtuTiming

  datatype Snd = TxIdle | TxXmit
  datatype Rcv = RxInit | RxIdle | RxRcv | RxError
  datatype Event = Ready | FrameReceived | FrameSent

  /** `timer` are the ticks the one-shot timer has left, 0 when it is stopped; `period` is what it starts with;
      `frame` is the part of ucRTUBuf filled so far. A post is an event with the frame it announces. */
  datatype Receiver = Receiver(state: Rcv, timer: nat, period: Period, frame: seq<Byte>)
  datatype Notice = Announce(event: Event, frame: seq<Byte>)
  datatype Input = Arrives(b: Byte) | T35

  /** eMBRTUStart */
  function Started(period: Period): Receiver
  {
    Receiver(RxInit, period, period, [])
  }

  /** xMBRTUReceiveFSM */
  function ByteReceived(r: Receiver, b: Byte): Receiver
  {
    match r.state
    case RxInit => r.(timer := r.period)
    case RxError => r.(timer := r.period)
    case RxIdle => r.(state := RxRcv, timer := r.period, frame := [b])
    case RxRcv =>
      if |r.frame| < MB_SER_PDU_SIZE_MAX then r.(timer := r.period, frame := r.frame + [b])
      else r.(state := RxError, timer := r.period)
  }

  /** xMBRTUTimerT35Expired: the events it posts. */
  function Posted(r: Receiver): seq<Event>
  {
    match r.state
    case RxInit => [Ready]
    case RxRcv => [FrameReceived]
    case _ => []
  }

  function TimerExpired(r: Receiver): Receiver
  {
    r.(state := RxIdle, timer := 0)
  }

  function Notices(r: Receiver): seq<Notice>
  {
    var ps := Posted(r);
    if ps == [] then [] else [Announce(ps[0], if r.state.RxRcv? then r.frame else [])]
  }

  // ----- the input stream as runs

  /** The timer can expire only when a byte has arrived since it last did, or at the start. */
  predicate Possible(xs: seq<Input>)
  {
    if xs == [] then true
    else
      var n := |xs| - 1;
      Possible(xs[..n]) && (xs[n].T35? ==> Expiries(xs[..n]) == 0 || Tail(xs[..n]) != [])
  }

  function Expiries(xs: seq<Input>): nat
  {
    if xs == [] then 0 else Expiries(xs[..|xs| - 1]) + (if xs[|xs| - 1].T35? then 1 else 0)
  }

  /** The bytes since the last expiry. */
  function Tail(xs: seq<Input>): seq<Byte>
  {
    if xs == [] then [] else
      match xs[|xs| - 1]
      case T35 => []
      case Arrives(b) => Tail(xs[..|xs| - 1]) + [b]
  }

  /** The stream cut at its expiries: the completed runs, the startup run first. */
  function Runs(xs: seq<Input>): seq<seq<Byte>>
  {
    if xs == [] then [] else
      match xs[|xs| - 1]
      case T35 => Runs(xs[..|xs| - 1]) + [Tail(xs[..|xs| - 1])]
      case Arrives(_) => Runs(xs[..|xs| - 1])
  }

  /** The runs of acceptable length, each announced with exactly its bytes. */
  function Frames(runs: seq<seq<Byte>>): seq<Notice>
  {
    if runs == [] then [] else
      var last := runs[|runs| - 1];
      Frames(runs[..|runs| - 1]) + (if 1 <= |last| <= MB_SER_PDU_SIZE_MAX then [Announce(FrameReceived, last)] else [])
  }

  /** What a listener should be told: the end of startup, then every frame. */
  function Expected(runs: seq<seq<Byte>>): seq<Notice>
  {
    if runs == [] then [] else [Announce(Ready, [])] + Frames(runs[1..])
  }

  // ----- the machine on a stream

  function After(xs: seq<Input>, period: Period): (Receiver, seq<Notice>)
  {
    if xs == [] then (Started(period), []) else
      var (r, log) := After(xs[..|xs| - 1], period);
      match xs[|xs| - 1]
      case Arrives(b) => (ByteReceived(r, b), log)
      case T35 => (TimerExpired(r), log + Notices(r))
  }

  /** The receiver's state tells the run in progress. */
  predicate Tracks(r: Receiver, xs: seq<Input>)
  {
    var t := Tail(xs);
    if Expiries(xs) == 0 then r.state.RxInit? && r.timer > 0
    else if t == [] then r.state.RxIdle? && r.timer == 0
    else if |t| <= MB_SER_PDU_SIZE_MAX then r.state.RxRcv? && r.timer > 0 && r.frame == t
    else r.state.RxError? && r.timer > 0
  }

  lemma {:induction false} RunsCounted(xs: seq<Input>)
    ensures |Runs(xs)| == Expiries(xs)
  {
    if xs != [] { RunsCounted(xs[..|xs| - 1]); }
  }

  lemma {:induction false} Tracking(xs: seq<Input>, period: Period)
    requires Possible(xs)
    ensures Tracks(After(xs, period).0, xs)
  {
    if xs != [] { Tracking(xs[..|xs| - 1], period); }
  }

  /** For every stream of bytes and expiries after eMBRTUStart, EV_FRAME_RECEIVED is posted for exactly
      the expiry-delimited runs of 1 to 256 bytes behind the startup gap, with the buffer holding
      exactly that run; longer runs are dropped whole. */
  lemma {:induction false} ExactlyTheRuns(xs: seq<Input>, period: Period)
    requires Possible(xs)
    ensures After(xs, period).1 == Expected(Runs(xs))
  {
    if xs != [] {
      var ys := xs[..|xs| - 1];
      ExactlyTheRuns(ys, period);
      Tracking(ys, period);
      RunsCounted(ys);
      if xs[|xs| - 1].T35? { OneMoreRun(After(ys, period).0, ys); }
    }
  }

  lemma OneMoreRun(r: Receiver, ys: seq<Input>)
    requires Tracks(r, ys) && |Runs(ys)| == Expiries(ys) && (Expiries(ys) == 0 || Tail(ys) != [])
    ensures Expected(Runs(ys)) + Notices(r) == Expected(Runs(ys) + [Tail(ys)])
  {
    var rs, t := Runs(ys), Tail(ys);
    if rs == [] {
      assert (rs + [t])[1..] == [];
    } else {
      var f := rs[1..] + [t];
      assert (rs + [t])[1..] == f && f[..|f| - 1] == rs[1..];
      assert Expected(rs + [t]) == [Announce(Ready, [])] + Frames(f);
    }
  }

  /** The timer runs exactly when an expiry is possible. */
  lemma TimerRuns(xs: seq<Input>, period: Period)
    requires Possible(xs)
    ensures After(xs, period).0.timer > 0 <==> Possible(xs + [T35])
  {
    Tracking(xs, period);
    assert (xs + [T35])[..|xs|] == xs;
  }

  /** The assertion in eMBRTUReceive that the buffer position is below 256 fails for exactly the
      accepted runs of 256 bytes. */
  lemma ReceiveAssertionIff(xs: seq<Input>, period: Period)
    requires Possible(xs) && After(xs, period).0.state.RxRcv?
    ensures |After(xs, period).0.frame| < MB_SER_PDU_SIZE_MAX <==> |Tail(xs)| != MB_SER_PDU_SIZE_MAX
  {
    Tracking(xs, period);
  }

  // ----- the machine in time

  datatype Moment = Comes(b: Byte) | Tick

  /** A tick of the kernel: the one-shot timer runs down, and its expiry is the callback. */
  function Ticked(r: Receiver): (Receiver, seq<Notice>)
  {
    if r.timer == 0 then (r, [])
    else if r.timer > 1 then (r.(timer := r.timer - 1), [])
    else (TimerExpired(r), Notices(r))
  }

  function Live(ts: seq<Moment>, period: Period): (Receiver, seq<Notice>)
  {
    if ts == [] then (Started(period), []) else
      var (r, log) := Live(ts[..|ts| - 1], period);
      match ts[|ts| - 1]
      case Comes(b) => (ByteReceived(r, b), log)
      case Tick => var (n, out) := Ticked(r); (n, log + out)
  }

  /** The ticks since the last byte, or since the start. */
  function Silence(ts: seq<Moment>): nat
  {
    if ts == [] || ts[|ts| - 1].Comes? then 0 else Silence(ts[..|ts| - 1]) + 1
  }

  /** The bytes, with a T35 where the line has been silent for exactly one period. */
  function Heard(ts: seq<Moment>, period: Period): seq<Input>
  {
    if ts == [] then [] else
      var before := Heard(ts[..|ts| - 1], period);
      match ts[|ts| - 1]
      case Comes(b) => before + [Arrives(b)]
      case Tick => if Silence(ts) == period then before + [T35] else before
  }

  /** The two machines agree, except that the timer of the one in time has run down by the silence so far. */
  ghost predicate Agrees(r: Receiver, q: Receiver, silence: nat)
  {
    && r == q.(timer := r.timer) && r.timer == if silence < r.period then r.period - silence else 0
  }

  lemma ByteAgrees(r: Receiver, q: Receiver, silence: nat, b: Byte)
    requires Agrees(r, q, silence)
    ensures Agrees(ByteReceived(r, b), ByteReceived(q, b), 0) && ByteReceived(r, b).period == r.period
  {
  }

  lemma TickAgrees(r: Receiver, q: Receiver, silence: nat)
    requires Agrees(r, q, silence)
    ensures Ticked(r).0.period == r.period
    ensures if silence + 1 == r.period then Agrees(Ticked(r).0, TimerExpired(q), silence + 1) && Ticked(r).1 == Notices(q)
      else Agrees(Ticked(r).0, q, silence + 1) && Ticked(r).1 == []
  {
  }

  lemma {:induction false} LiveIsHeard(ts: seq<Moment>, period: Period)
    ensures Agrees(Live(ts, period).0, After(Heard(ts, period), period).0, Silence(ts))
    ensures Live(ts, period).0.period == period && Live(ts, period).1 == After(Heard(ts, period), period).1
  {
    hide ByteReceived, Ticked, TimerExpired, Notices, Agrees;
    if ts == [] {
      StartAgrees(period);
    } else {
      var before := ts[..|ts| - 1];
      LiveIsHeard(before, period);
      var xs, ys := Heard(before, period), Heard(ts, period);
      var r, q := Live(before, period).0, After(xs, period).0;
      if ys != xs { assert ys[..|ys| - 1] == xs; }
      match ts[|ts| - 1]
      case Comes(b) => ByteAgrees(r, q, Silence(before), b);
      case Tick => TickAgrees(r, q, Silence(before));
    }
  }

  lemma StartAgrees(period: Period)
    ensures Agrees(Started(period), Started(period), 0)
  {
  }

  lemma {:induction false} HeardPossible(ts: seq<Moment>, period: Period)
    ensures var xs := Heard(ts, period);
      Possible(xs) && (Silence(ts) < period ==> Expiries(xs) == 0 || Tail(xs) != [])
  {
    if ts != [] {
      var before := ts[..|ts| - 1];
      HeardPossible(before, period);
      var xs, ys := Heard(before, period), Heard(ts, period);
      if ys != xs { assert ys[..|ys| - 1] == xs; }
    }
  }

  /** For every stream of bytes and ticks, EV_FRAME_RECEIVED is posted for exactly the runs of 1 to 256 bytes that
      end with one whole period of silence and have none inside: every byte starts the timer anew. */
  lemma FramesEndInSilence(ts: seq<Moment>, period: Period)
    ensures Live(ts, period).1 == Expected(Runs(Heard(ts, period)))
  {
    LiveIsHeard(ts, period);
    HeardPossible(ts, period);
    ExactlyTheRuns(Heard(ts, period), period);
  }
}
