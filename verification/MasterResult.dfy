/** Whose result a client gets. The finish bits belong to nobody in particular: rt_event_recv hands whatever is
    set to whoever asks, and rt_event_send hands it to the first client suspended in rt_event_recv. */
module MasterResult {

  import opened MasterSpec
  import opened RtuFrame
  import opened RtuTiming
  import opened Wrappers

  datatype ReqErr = NoErr | TimedOut | RevData | ExeFun

  /** The switch of eMBMasterWaitRequestFinish. */
  function CodeOfBits(got: set<Event>): ReqErr
  {
    if got == {Success} then NoErr
    else if got == {ErrTimeout} then TimedOut
    else if got == {ErrReceive} then RevData
    else if got == {ErrExecute} then ExeFun
    else NoErr
  }

  function CodeOf(e: Event): ReqErr
  {
    match e
    case ErrTimeout => TimedOut
    case ErrReceive => RevData
    case ErrExecute => ExeFun
    case _ => NoErr
  }

  predicate OnlyFinish(m: Master, e: Event)
  {
    && (Success in m.events <==> e.Success?)
    && (ErrTimeout in m.events <==> e.ErrTimeout?)
    && (ErrReceive in m.events <==> e.ErrReceive?)
    && (ErrExecute in m.events <==> e.ErrExecute?)
  }

  /** No finish bit is set. */
  predicate NoFinish(m: Master)
  {
    Success !in m.events && ErrTimeout !in m.events && ErrReceive !in m.events && ErrExecute !in m.events
  }

  predicate Ended(ph: Phase)
  {
    ph.Finishing? || ph.Idle?
  }

  predicate BeforeRequest(ph: Phase)
  {
    ph.StartTimerRuns? || ph.Held? || ph == Pending(Ready) || ph == Serving(Ready)
  }

  /** No client has a result to come. */
  predicate NobodyWaits(w: World)
  {
    w.waiting == {} && w.asleep == []
  }

  /** One request at a time: the resource is taken only when every earlier client has its result. */
  predicate Solo(w: World, s: Step)
  {
    Allowed(w, s) && (s.Take? ==> NobodyWaits(w))
  }

  /** At most one client waits, the one in service, and the only finish bit set, if any, is its verdict. */
  predicate SoloInv(w: World)
  {
    var ph := PhaseOf(w);
    if NobodyWaits(w) then NoFinish(w.m) && (BeforeRequest(ph) || Ended(ph))
    else
      && !BeforeRequest(ph)
      && (if w.asleep == [] then w.waiting == {w.current} else w.waiting == {} && w.asleep == [w.current])
      && (if Ended(ph) then w.asleep == [] && OnlyFinish(w.m, Verdict(w)) else NoFinish(w.m))
  }

  lemma SoloBegin(t35: Period)
    ensures SoloInv(Begin(t35))
  {
  }

  lemma SoloByte(w: World)
    requires Inv(w) && SoloInv(w) && Solo(w, Byte)
    ensures SoloInv(Next(w, Byte))
  {
  }

  lemma SoloTick(w: World)
    requires Inv(w) && SoloInv(w) && Solo(w, Tick)
    ensures SoloInv(Next(w, Tick))
  {
  }

  lemma SoloTxEmpty(w: World)
    requires Inv(w) && SoloInv(w) && Solo(w, TxEmpty)
    ensures SoloInv(Next(w, TxEmpty))
  {
  }

  lemma SoloExpire(w: World)
    requires Inv(w) && SoloInv(w) && Solo(w, Expire)
    ensures SoloInv(Next(w, Expire))
  {
    hide TimerExpired;
    ExpiryResult(w);
  }

  lemma SoloGet(w: World)
    requires Inv(w) && SoloInv(w) && Solo(w, Get)
    ensures SoloInv(Next(w, Get))
  {
  }

  /** The turn of the poll, before suspended clients are served. */
  predicate HandledInv(w: World)
  {
    var ph := PhaseOf(w);
    if NobodyWaits(w) then NoFinish(w.m) && (BeforeRequest(ph) || Ended(ph))
    else
      && !BeforeRequest(ph)
      && (if w.asleep == [] then w.waiting == {w.current} else w.waiting == {} && w.asleep == [w.current])
      && (if Ended(ph) then OnlyFinish(w.m, Verdict(w)) else NoFinish(w.m))
  }

  lemma SoloHandled(w: World, good: bool, ran: bool, exc: bool)
    requires Inv(w) && SoloInv(w) && Solo(w, Handle(good, ran, exc))
    requires w.m.pc.event.Execute? || w.m.pc.event.ErrorProcess?
    ensures HandledInv(Handled(w, good, ran, exc))
  {
  }

  lemma SoloHandledOther(w: World, good: bool, ran: bool, exc: bool)
    requires Inv(w) && SoloInv(w) && Solo(w, Handle(good, ran, exc))
    requires !w.m.pc.event.Execute? && !w.m.pc.event.ErrorProcess?
    ensures HandledInv(Handled(w, good, ran, exc))
  {
    if w.m.pc.event.FrameSent? {
      SoloHandledSent(w, good, ran, exc);
    } else {
      hide Send;
    }
  }

  lemma SoloHandledSent(w: World, good: bool, ran: bool, exc: bool)
    requires Inv(w) && SoloInv(w) && Solo(w, Handle(good, ran, exc)) && w.m.pc.event.FrameSent?
    ensures HandledInv(Handled(w, good, ran, exc))
  {
  }

  lemma FinishBits(m: Master)
    ensures NoFinish(m) <==> m.events * FINISH_BITS == {}
  {
    if NoFinish(m) { assert m.events * FINISH_BITS == {}; }
    if m.events * FINISH_BITS == {} {
      assert forall e :: e in FINISH_BITS ==> e !in m.events * FINISH_BITS;
    }
  }

  lemma OneFinishBit(m: Master, e: Event)
    requires e in FINISH_BITS && OnlyFinish(m, e)
    ensures m.events * FINISH_BITS == {e} && CodeOfBits({e}) == CodeOf(e) && !NoFinish(m)
  {
    assert m.events * FINISH_BITS == {e};
  }

  lemma VerdictIsFinish(w: World)
    ensures Verdict(w) in FINISH_BITS
  {
  }

  /** Serving the suspended client, if there is one. */
  lemma SoloDeliver(w: World)
    requires HandledInv(w)
    ensures SoloInv(Deliver(w)) && PhaseOf(Deliver(w)) == PhaseOf(w) && Verdict(Deliver(w)) == Verdict(w)
    ensures w.asleep != [] && w.m.events * FINISH_BITS != {} ==>
      w.asleep[0] == w.current && Ended(PhaseOf(w)) && OnlyFinish(w.m, Verdict(w))
  {
    hide PhaseOf, Verdict;
    DeliverInv(w);
    DeliverVerdict(w);
    FinishBits(w.m);
    if w.asleep != [] && Ended(PhaseOf(w)) {
      VerdictIsFinish(w);
      OneFinishBit(w.m, Verdict(w));
    }
    FinishBits(Deliver(w).m);
  }

  lemma SoloHandle(w: World, good: bool, ran: bool, exc: bool)
    requires Inv(w) && SoloInv(w) && Solo(w, Handle(good, ran, exc))
    ensures HandledInv(Handled(w, good, ran, exc)) && SoloInv(Next(w, Handle(good, ran, exc)))
  {
    hide Inv, SoloInv, HandledInv, Handled;
    if w.m.pc.event.Execute? || w.m.pc.event.ErrorProcess? {
      SoloHandled(w, good, ran, exc);
    } else {
      SoloHandledOther(w, good, ran, exc);
    }
    SoloDeliver(Handled(w, good, ran, exc));
  }

  lemma SoloRequest(w: World, s: Step)
    requires Inv(w) && SoloInv(w) && Solo(w, s) && (s.Release? || s.Take? || s.Submit?)
    ensures SoloInv(Next(w, s))
  {
  }

  lemma SoloFinish(w: World, c: int)
    requires Inv(w) && SoloInv(w) && Solo(w, Finish(c))
    ensures SoloInv(Next(w, Finish(c))) && c == w.current && Ended(PhaseOf(w)) && OnlyFinish(w.m, Verdict(w))
    ensures PhaseOf(Next(w, Finish(c))) == PhaseOf(w) && Verdict(Next(w, Finish(c))) == Verdict(w)
  {
    hide Verdict;
    FinishBits(w.m);
    PhaseWithout(w, c);
  }

  lemma PhaseWithout(w: World, c: int)
    requires Allowed(w, Finish(c))
    ensures PhaseOf(Next(w, Finish(c))) == PhaseOf(w) && Verdict(Next(w, Finish(c))) == Verdict(w)
  {
  }

  lemma SoloSleep(w: World, c: int, pos: nat)
    requires Inv(w) && SoloInv(w) && Solo(w, Sleep(c, pos))
    ensures SoloInv(Next(w, Sleep(c, pos)))
  {
    hide Verdict;
    FinishBits(w.m);
    VerdictIsFinish(w);
    if OnlyFinish(w.m, Verdict(w)) { OneFinishBit(w.m, Verdict(w)); }
    PhaseAsleep(w, c, pos);
    assert w.asleep == [];
  }

  lemma PhaseAsleep(w: World, c: int, pos: nat)
    requires Allowed(w, Sleep(c, pos))
    ensures PhaseOf(Next(w, Sleep(c, pos))) == PhaseOf(w)
  {
  }

  lemma SoloStep(w: World, s: Step)
    requires Inv(w) && SoloInv(w) && Solo(w, s)
    ensures SoloInv(Next(w, s))
  {
    hide Inv, SoloInv, Next;
    match s
    case Byte => SoloByte(w);
    case TxEmpty => SoloTxEmpty(w);
    case Tick => SoloTick(w);
    case Expire => SoloExpire(w);
    case Get => SoloGet(w);
    case Handle(good, ran, exc) => SoloHandle(w, good, ran, exc);
    case Finish(c) => SoloFinish(w, c);
    case Sleep(c, pos) => SoloSleep(w, c, pos);
    case _ => SoloRequest(w, s);
  }

  lemma {:induction false} SoloPath(ws: seq<World>, ss: seq<Step>, k: nat)
    requires Path(ws, ss) && k < |ws| && Inv(ws[0]) && SoloInv(ws[0]) && forall j :: 0 <= j < k ==> Solo(ws[j], ss[j])
    ensures Inv(ws[k]) && SoloInv(ws[k])
  {
    hide Inv, SoloInv, Next, Solo;
    if k > 0 {
      SoloPath(ws, ss, k - 1);
      SoloIsAllowed(ws[k - 1], ss[k - 1]);
      NextInv(ws[k - 1], ss[k - 1]);
      SoloStep(ws[k - 1], ss[k - 1]);
    }
  }

  lemma SoloIsAllowed(w: World, s: Step)
    requires Solo(w, s)
    ensures Allowed(w, s)
  {
  }

  lemma SoloRun(ws: seq<World>, ss: seq<Step>, k: nat)
    requires Run(ws, ss) && k < |ws| && forall j :: 0 <= j < k ==> Solo(ws[j], ss[j])
    ensures SoloInv(ws[k])
  {
    hide Inv, SoloInv, Next, Solo;
    BeginInv(ws[0].m.t35);
    SoloBegin(ws[0].m.t35);
    SoloPath(ws, ss, k);
  }

  // ----- one's own result

  /** What a step delivers is the verdict on the receiver's own request, which has ended. */
  ghost predicate Own(w: World, s: Step)
    requires Allowed(w, s)
  {
    match Delivery(w, s)
    case None => true
    case Some(d) =>
      var n := Next(w, s);
      d.0 == n.current && Ended(PhaseOf(n)) && d.1 == {Verdict(n)} && CodeOfBits(d.1) == CodeOf(Verdict(n))
  }

  lemma SoloOwn(w: World, s: Step)
    requires Inv(w) && SoloInv(w) && Solo(w, s)
    ensures Own(w, s)
  {
    hide Inv, SoloInv, Handled, PhaseOf, Verdict, HandledInv;
    match s
    case Finish(c) =>
      SoloFinish(w, c);
      PhaseWithout(w, c);
      VerdictIsFinish(w);
      OneFinishBit(w.m, Verdict(w));
    case Handle(good, ran, exc) =>
      SoloHandle(w, good, ran, exc);
      var v := Handled(w, good, ran, exc);
      AsleepStays(w, good, ran, exc);
      SoloDeliver(v);
      VerdictIsFinish(v);
      if w.asleep != [] && v.m.events * FINISH_BITS != {} { OneFinishBit(v.m, Verdict(v)); }
    case _ =>
  }

  lemma AsleepStays(w: World, good: bool, ran: bool, exc: bool)
    requires w.m.pc.Handling?
    ensures var v := Handled(w, good, ran, exc); v.asleep == w.asleep && Deliver(v).current == v.current == w.current
  {
  }

  /** One request at a time: whatever a client is handed, on calling rt_event_recv or while suspended in it,
      is the verdict on its own request. */
  lemma OwnResult(ws: seq<World>, ss: seq<Step>, k: nat)
    requires Run(ws, ss) && k < |ss| && forall j :: 0 <= j <= k ==> Solo(ws[j], ss[j])
    ensures Own(ws[k], ss[k])
  {
    hide Inv, SoloInv, Next, Own;
    RunInv(ws, ss, k);
    SoloRun(ws, ss, k);
    SoloIsAllowed(ws[k], ss[k]);
    SoloOwn(ws[k], ss[k]);
  }

  /** On every path from w on which the resource is taken only when nobody waits, each client gets its own
      result. */
  ghost predicate OwnEver(w: World)
  {
    forall ws, ss :: SoloFrom(w, ws, ss) ==> forall k :: 0 <= k < |ss| ==> Allowed(ws[k], ss[k]) && Own(ws[k], ss[k])
  }

  ghost predicate SoloFrom(w: World, ws: seq<World>, ss: seq<Step>)
  {
    Path(ws, ss) && ws[0] == w && forall j :: 0 <= j < |ss| ==> Solo(ws[j], ss[j])
  }

  lemma SoloOwnEver(w: World)
    requires Inv(w) && SoloInv(w)
    ensures OwnEver(w)
  {
    hide Inv, SoloInv, Next, Own, Solo;
    forall ws, ss | SoloFrom(w, ws, ss)
      ensures forall k :: 0 <= k < |ss| ==> Allowed(ws[k], ss[k]) && Own(ws[k], ss[k])
    {
      forall k | 0 <= k < |ss| ensures Allowed(ws[k], ss[k]) && Own(ws[k], ss[k]) {
        SoloPath(ws, ss, k);
        SoloIsAllowed(ws[k], ss[k]);
        SoloOwn(ws[k], ss[k]);
      }
    }
  }

  /** Where the resource is free and a client still waits, its finish bit is still there: it has not called
      rt_event_recv yet. */
  lemma StaleBit(w: World, c: int)
    requires Inv(w) && SoloInv(w) && Allowed(w, Take(c)) && !NobodyWaits(w)
    ensures w.waiting == {w.current} && w.asleep == [] && w.current != c && At(w, Idle) && OnlyFinish(w.m, Verdict(w))
  {
  }

  /** The next client is then handed the result of the one before, its own frame not even sent. */
  lemma StaleResult(w: World, c: int, addr: nat, len: nat)
    requires Inv(w) && SoloInv(w) && Allowed(w, Take(c)) && !NobodyWaits(w)
    requires addr <= MB_MASTER_TOTAL_SLAVE_NUM && len <= MB_PDU_LEN_MAX
    ensures var w1 := Next(w, Take(c));
      Allowed(w1, Submit(addr, len))
      && var w2 := Next(w1, Submit(addr, len));
         && Allowed(w2, Finish(c)) && Delivery(w2, Finish(c)) == Some((c, {Verdict(w)}))
         && PhaseOf(w2) == Pending(FrameSent) && !Own(w2, Finish(c))
  {
    StaleBit(w, c);
    var e, w1 := Verdict(w), Next(w, Take(c));
    var w2 := Next(w1, Submit(addr, len));
    StaleSteps(w, e, c, addr, len);
    VerdictIsFinish(w);
    OneFinishBit(w2.m, e);
    PhaseWithout(w2, c);
  }

  lemma StaleSteps(w: World, e: Event, c: int, addr: nat, len: nat)
    requires At(w, Idle) && OnlyFinish(w.m, e) && e in FINISH_BITS && Allowed(w, Take(c))
    requires addr <= MB_MASTER_TOTAL_SLAVE_NUM && len <= MB_PDU_LEN_MAX
    ensures var w1 := Next(w, Take(c));
      Allowed(w1, Submit(addr, len))
      && var w2 := Next(w1, Submit(addr, len));
         PhaseOf(w2) == Pending(FrameSent) && OnlyFinish(w2.m, e) && c in w2.waiting && Allowed(w2, Finish(c))
  {
    var w2 := Next(Next(w, Take(c)), Submit(addr, len));
    assert e in w2.m.events * FINISH_BITS;
  }

  /** Each client gets its own result on every continuation if and only if, when the resource is taken,
      no earlier client still waits for its result. */
  lemma OwnResultIff(ws: seq<World>, ss: seq<Step>, k: nat, c: int)
    requires Run(ws, ss) && k < |ss| && ss[k] == Take(c) && forall j :: 0 <= j < k ==> Solo(ws[j], ss[j])
    ensures OwnEver(ws[k + 1]) <==> NobodyWaits(ws[k])
  {
    hide Inv, SoloInv, Next, Own, SoloFrom;
    RunInv(ws, ss, k);
    RunInv(ws, ss, k + 1);
    SoloRun(ws, ss, k);
    var w1 := ws[k + 1];
    if NobodyWaits(ws[k]) {
      SoloStep(ws[k], Take(c));
      SoloOwnEver(w1);
    } else {
      StaleResult(ws[k], c, 1, 5);
      var w2 := Next(w1, Submit(1, 5));
      StalePath(w1, w2, c);
      var xs, ts := [w1, w2, Next(w2, Finish(c))], [Submit(1, 5), Finish(c)];
      assert SoloFrom(w1, xs, ts) && !Own(xs[1], ts[1]);
    }
  }

  lemma StalePath(w1: World, w2: World, c: int)
    requires Allowed(w1, Submit(1, 5)) && w2 == Next(w1, Submit(1, 5)) && Allowed(w2, Finish(c))
    ensures SoloFrom(w1, [w1, w2, Next(w2, Finish(c))], [Submit(1, 5), Finish(c)])
  {
    hide Next, Allowed;
  }

  // ----- from the start

  predicate AllSolo(ws: seq<World>, ss: seq<Step>)
    requires |ss| <= |ws|
  {
    forall j :: 0 <= j < |ss| ==> Solo(ws[j], ss[j])
  }

  lemma AllowedIsEarly(w: World, s: Step)
    requires Allowed(w, s)
    ensures AllowedEarly(w, s)
  {
  }

  lemma Append(ws: seq<World>, ss: seq<Step>, s: Step) returns (us: seq<World>, ts: seq<Step>)
    requires Path(ws, ss) && Allowed(ws[|ss|], s)
    ensures Path(us, ts) && |ts| == |ss| + 1 && us[|ss|] == ws[|ss|] && us[|ts|] == Next(ws[|ss|], s)
    ensures us[0] == ws[0] && ts[|ss|] == s
    ensures AllSolo(ws, ss) && Solo(ws[|ss|], s) ==> AllSolo(us, ts)
  {
    hide Next, Allowed, Solo;
    AllowedIsEarly(ws[|ss|], s);
    us, ts := ws + [Next(ws[|ss|], s)], ss + [s];
    forall k | 0 <= k < |ts| ensures Allowed(us[k], ts[k]) {
      if k < |ss| { assert us[k] == ws[k] && ts[k] == ss[k]; }
    }
    forall k | 0 <= k < |ts| ensures Allowed(us[k], ts[k]) && AllowedEarly(us[k], ts[k]) && us[k + 1] == Next(us[k], ts[k]) {
      AllowedIsEarly(us[k], ts[k]);
      if k < |ss| { assert us[k] == ws[k] && us[k + 1] == ws[k + 1] && ts[k] == ss[k]; }
    }
    if AllSolo(ws, ss) && Solo(ws[|ss|], s) {
      forall k | 0 <= k < |ts| ensures Solo(us[k], ts[k]) {
        if k < |ss| { assert us[k] == ws[k] && ts[k] == ss[k]; }
      }
    }
  }

  lemma InternalKeeps(w: World, s: Step)
    requires Allowed(w, s) && Internal(s) && w.asleep == []
    ensures var n := Next(w, s); n.waiting == w.waiting && n.asleep == [] && n.holder == w.holder && Solo(w, s)
    ensures s.Release? ==> Next(w, s).m.sem == w.m.sem + 1
  {
    hide PollHandle, TimerExpired, TransmitterEmpty, EventGet;
  }

  /** A request in service can be brought to its end while its client does nothing. */
  lemma {:induction false} ServeOn(ws: seq<World>, ss: seq<Step>) returns (us: seq<World>, ts: seq<Step>)
    requires Path(ws, ss) && AllSolo(ws, ss)
    requires var w := ws[|ss|]; Inv(w) && InService(w) && w.asleep == []
    ensures Path(us, ts) && AllSolo(us, ts) && us[0] == ws[0]
    ensures var n := us[|ts|];
      && Inv(n) && n.m.sem == 1 && n.m.established && n.holder.None?
      && n.waiting == ws[|ss|].waiting && n.asleep == []
    decreases Rank(ws[|ss|])
  {
    hide Inv, Next, Allowed, Internal, Rank, Solo;
    var w := ws[|ss|];
    NeverStuck(w);
    var s :| Internal(s) && Allowed(w, s);
    NextInv(w, s);
    InternalDecreases(w, s);
    InternalKeeps(w, s);
    us, ts := Append(ws, ss, s);
    if s.Release? {
      ReleaseEnds(w);
    } else {
      us, ts := ServeOn(us, ts);
    }
  }

  lemma ReleaseEnds(w: World)
    requires Inv(w) && Allowed(w, Release)
    ensures Next(w, Release).m.established && Next(w, Release).m.sem == w.m.sem + 1 && w.m.sem == 0
  {
  }

  /** Client 1 has been served and has not yet asked; the resource is free. */
  lemma LeftOver(t35: Period) returns (ws: seq<World>, ss: seq<Step>)
    ensures Run(ws, ss) && AllSolo(ws, ss)
    ensures var n := ws[|ss|]; Allowed(n, Take(2)) && n.waiting == {1} && n.asleep == []
  {
    hide Inv, Next, Rank, Internal, Solo;
    var w1 := FirstExpiry(t35);
    var w2, w3 := FirstService(w1);
    var h := Handle(false, false, false);
    SoloStart(t35, w1, w2, w3);
    ws, ss := [Begin(t35), w1, w2, w3], [Expire, Get, h];
    var w4, w5 := FirstRequest(w3);
    ws, ss := Append(ws, ss, Take(1));
    ws, ss := Append(ws, ss, Submit(1, 5));
    ws, ss := ServeOn(ws, ss);
  }

  lemma SoloStart(t35: Period, w1: World, w2: World, w3: World)
    requires Allowed(Begin(t35), Expire) && w1 == Next(Begin(t35), Expire) && Allowed(w1, Get) && w2 == Next(w1, Get)
    requires Allowed(w2, Handle(false, false, false)) && w3 == Next(w2, Handle(false, false, false))
    ensures var ws, ss := [Begin(t35), w1, w2, w3], [Expire, Get, Handle(false, false, false)]; Path(ws, ss) && AllSolo(ws, ss)
  {
    hide Next, Allowed;
  }

  lemma FirstRequest(w: World) returns (w4: World, w5: World)
    requires Inv(w) && w.m.established && w.m.sem == 1 && w.holder.None? && w.waiting == {} && w.asleep == []
    ensures Solo(w, Take(1)) && w4 == Next(w, Take(1)) && Solo(w4, Submit(1, 5)) && w5 == Next(w4, Submit(1, 5))
    ensures Inv(w5) && InService(w5) && w5.waiting == {1} && w5.asleep == []
  {
    w4 := Next(w, Take(1));
    TakeInv(w, 1);
    w5 := Next(w4, Submit(1, 5));
    SubmitInv(w4, 1, 5);
  }

  /** From the start of the stack: client 2 is handed client 1's result before its own frame is sent. */
  lemma StaleFromTheStart(t35: Period) returns (ws: seq<World>, ss: seq<Step>, k: nat)
    ensures Run(ws, ss) && k < |ss| && ss[k] == Finish(2)
    ensures PhaseOf(ws[k]) == Pending(FrameSent) && !Own(ws[k], ss[k])
  {
    hide Inv, Next, Solo, SoloInv, Own, PhaseOf, Allowed, AllSolo;
    ws, ss := LeftOver(t35);
    RunInv(ws, ss, |ss|);
    AllSoloRun(ws, ss);
    NotNobody(ws[|ss|]);
    StaleResult(ws[|ss|], 2, 1, 5);
    ws, ss := Append(ws, ss, Take(2));
    ws, ss := Append(ws, ss, Submit(1, 5));
    k := |ss|;
    ws, ss := Append(ws, ss, Finish(2));
  }

  lemma NotNobody(w: World)
    requires w.waiting == {1}
    ensures !NobodyWaits(w)
  {
    assert 1 in w.waiting;
  }

  lemma AllSoloRun(ws: seq<World>, ss: seq<Step>)
    requires Run(ws, ss) && AllSolo(ws, ss)
    ensures SoloInv(ws[|ss|])
  {
    hide Inv, Next, SoloInv, Solo;
    SoloRun(ws, ss, |ss|);
  }
}
