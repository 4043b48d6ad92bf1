/** Requests made before the master is established: when exactly they still end. The poll fetches READY,
    which the start-up expiry posts; a request posted before that meets a receiver that is not idle, or lies
    beside READY in the event object, where the exact-match switch finds neither. */
module MasterEarly {

  import opened MasterSpec
  import opened RtuFrame
  import opened RtuTiming
  import opened Wrappers

  // ----- runs in which the resource may be taken at any time

  ghost predicate EarlyRun(ws: seq<World>, ss: seq<Step>)
  {
    EarlyPath(ws, ss) && ws[0] == Begin(ws[0].m.t35)
  }

  ghost predicate EarlyPath(ws: seq<World>, ss: seq<Step>)
  {
    && |ws| == |ss| + 1
    && forall k :: 0 <= k < |ss| ==> AllowedEarly(ws[k], ss[k]) && ws[k + 1] == Next(ws[k], ss[k])
  }

  /** The poll has fetched READY: the stack is established, or is just about to be. */
  predicate Fetched(w: World)
  {
    w.m.established || w.m.pc == Handling(Ready)
  }

  /** The start-up timer runs, and the resource may have been taken. */
  predicate Starting(m: Master)
  {
    && !m.established && m.pc.Waiting? && NoPoll(m)
    && m.snd.TxIdle? && m.rcv.RxInit? && m.timer > 0 && m.mode.T35? && m.rx && !m.tx
  }

  /** READY is posted and not yet fetched. */
  predicate Announced(m: Master)
  {
    !m.established && m.pc.Waiting? && OnlyPoll(m, Ready) && Quiet(m)
  }

  predicate Greeting(m: Master)
  {
    !m.established && m.pc == Handling(Ready) && NoPoll(m) && Quiet(m)
  }

  /** A client holds the resource and has not yet posted its request. */
  predicate EarlyHeld(w: World)
  {
    w.holder.Some? && w.m.sem == 0 && (Starting(w.m) || Announced(w.m) || Greeting(w.m))
  }

  /** A request was posted while the poll was at work on READY. */
  predicate EarlyPosted(w: World)
  {
    && w.holder.None? && w.m.sem == 0 && !w.m.established && w.m.pc == Handling(Ready)
    && OnlyPoll(w.m, FrameSent) && Quiet(w.m) && w.m.dest <= MB_MASTER_TOTAL_SLAVE_NUM && w.reply == 0
  }

  predicate EarlyInv(w: World)
  {
    Inv(w) || EarlyHeld(w) || EarlyPosted(w)
  }

  lemma TakeEarly(w: World, c: int)
    requires Inv(w) && AllowedEarly(w, Take(c))
    ensures EarlyInv(Next(w, Take(c)))
  {
    if !w.m.established {
      assert PhaseOf(w) == StartTimerRuns || PhaseOf(w) == Pending(Ready) || PhaseOf(w) == Serving(Ready);
      TakeOpens(w, c);
    } else {
      TakeInv(w, c);
    }
  }

  lemma TakeOpens(w: World, c: int)
    requires Inv(w) && AllowedEarly(w, Take(c)) && !w.m.established
    requires PhaseOf(w) == StartTimerRuns || PhaseOf(w) == Pending(Ready) || PhaseOf(w) == Serving(Ready)
    ensures EarlyHeld(Next(w, Take(c)))
  {
  }

  lemma HeldStep(w: World, s: Step)
    requires EarlyHeld(w) && AllowedEarly(w, s) && (s.Submit? ==> Fetched(w))
    ensures EarlyInv(Next(w, s))
  {
    hide Handled, TimerExpired, Inv;
    match s
    case Byte => HeldByte(w);
    case Expire => HeldExpire(w);
    case Get => HeldGet(w);
    case Handle(good, ran, exc) => HeldHandle(w, good, ran, exc);
    case Submit(addr, len) => HeldSubmit(w, addr, len);
    case Finish(c) => HeldFinish(w, c);
    case _ =>
  }

  lemma HeldByte(w: World)
    requires EarlyHeld(w) && AllowedEarly(w, Byte)
    ensures EarlyHeld(Next(w, Byte))
  {
  }

  lemma HeldExpire(w: World)
    requires EarlyHeld(w) && AllowedEarly(w, Expire)
    ensures EarlyHeld(Next(w, Expire))
  {
  }

  lemma HeldGet(w: World)
    requires EarlyHeld(w) && AllowedEarly(w, Get)
    ensures EarlyHeld(Next(w, Get))
  {
    assert NoPoll(w.m) ==> w.m.events * POLL_BITS == {};
    assert Announced(w.m);
    assert w.m.events * POLL_BITS == {Ready};
  }

  lemma HeldHandle(w: World, good: bool, ran: bool, exc: bool)
    requires EarlyHeld(w) && AllowedEarly(w, Handle(good, ran, exc))
    ensures Inv(Next(w, Handle(good, ran, exc)))
  {
    HeldHandled(w, good, ran, exc);
    hide Handled, Inv;
    DeliverInv(Handled(w, good, ran, exc));
  }

  lemma HeldHandled(w: World, good: bool, ran: bool, exc: bool)
    requires EarlyHeld(w) && AllowedEarly(w, Handle(good, ran, exc))
    ensures Inv(Handled(w, good, ran, exc))
  {
  }

  lemma HeldSubmit(w: World, addr: nat, len: nat)
    requires EarlyHeld(w) && AllowedEarly(w, Submit(addr, len)) && Fetched(w)
    ensures EarlyPosted(Next(w, Submit(addr, len)))
  {
  }

  lemma HeldFinish(w: World, c: int)
    requires EarlyHeld(w) && AllowedEarly(w, Finish(c))
    ensures EarlyHeld(Next(w, Finish(c)))
  {
  }

  /** While a request posted during READY's service waits, only that service goes on. */
  lemma PostedStep(w: World, s: Step)
    requires EarlyPosted(w) && AllowedEarly(w, s)
    ensures EarlyInv(Next(w, s)) && InService(Next(w, s))
    ensures if s.Handle? then Inv(Next(w, s)) && Rank(Next(w, s)) < w.m.pduLen + 17
            else EarlyPosted(Next(w, s)) && Next(w, s).m.pduLen == w.m.pduLen && !Internal(s)
  {
    hide Handled, Inv, Rank;
    match s
    case Handle(good, ran, exc) => PostedHandle(w, good, ran, exc);
    case _ => PostedOther(w, s);
  }

  lemma PostedOther(w: World, s: Step)
    requires EarlyPosted(w) && AllowedEarly(w, s) && !s.Handle?
    ensures EarlyPosted(Next(w, s)) && Next(w, s).m.pduLen == w.m.pduLen && !Internal(s)
  {
    assert s.Tick? || s.Finish? || s.Sleep?;
  }

  lemma PostedHandle(w: World, good: bool, ran: bool, exc: bool)
    requires EarlyPosted(w) && AllowedEarly(w, Handle(good, ran, exc))
    ensures var n := Next(w, Handle(good, ran, exc)); Inv(n) && InService(n) && Rank(n) < w.m.pduLen + 17
  {
    PostedHandled(w, good, ran, exc);
    hide Handled, Inv, Rank;
    DeliverInv(Handled(w, good, ran, exc));
    DeliverRank(Handled(w, good, ran, exc));
  }

  lemma PostedHandled(w: World, good: bool, ran: bool, exc: bool)
    requires EarlyPosted(w) && AllowedEarly(w, Handle(good, ran, exc))
    ensures var n := Handled(w, good, ran, exc); Inv(n) && InService(n) && Rank(n) < w.m.pduLen + 17
  {
  }

  lemma EarlyNext(w: World, s: Step)
    requires EarlyInv(w) && AllowedEarly(w, s) && (s.Submit? ==> Fetched(w))
    ensures EarlyInv(Next(w, s))
  {
    hide Inv, EarlyHeld, EarlyPosted, Next, Fetched;
    if EarlyHeld(w) {
      HeldStep(w, s);
    } else if EarlyPosted(w) {
      PostedStep(w, s);
    } else if s.Take? {
      TakeEarly(w, s.c);
    } else {
      NextInv(w, s);
    }
  }

  /** As long as requests are posted only once READY is fetched, everything stays in order. */
  lemma {:induction false} EarlyRunInv(ws: seq<World>, ss: seq<Step>, k: nat)
    requires EarlyRun(ws, ss) && k < |ws|
    requires forall j :: 0 <= j < k && ss[j].Submit? ==> Fetched(ws[j])
    ensures EarlyInv(ws[k])
  {
    hide Inv, EarlyHeld, EarlyPosted, Next, Fetched, AllowedEarly;
    if k == 0 {
      BeginInv(ws[0].m.t35);
    } else {
      EarlyRunInv(ws, ss, k - 1);
      EarlyNext(ws[k - 1], ss[k - 1]);
    }
  }

  // ----- when a request ends

  /** The resource is taken, and nobody has the next move. */
  predicate Stuck(w: World)
  {
    w.m.sem == 0 && w.holder.None? && w.m.pc.Waiting? && NoPoll(w.m) && Quiet(w.m)
  }

  predicate NoRelease(ss: seq<Step>)
  {
    forall k :: 0 <= k < |ss| ==> !ss[k].Release?
  }

  /** The stack is neither stuck nor confused, and has a step to make. */
  ghost predicate GoesOn(w: World)
  {
    !w.m.pc.Confused? && !Stuck(w) && exists s :: Internal(s) && AllowedEarly(w, s)
  }

  /** Whatever happens, until the resource is given back the stack goes on, for at most `bound` steps. */
  ghost predicate EndsWithin(w: World, bound: nat)
  {
    forall ws, ss :: EarlyPath(ws, ss) && ws[0] == w && NoRelease(ss) ==>
      InternalSteps(ss) <= bound && GoesOn(ws[|ss|])
  }

  ghost predicate Ends(w: World)
  {
    exists bound: nat :: EndsWithin(w, bound)
  }

  function EarlyRank(w: World): nat
  {
    if EarlyPosted(w) then w.m.pduLen + 17 else Rank(w)
  }

  lemma ServiceStep(w: World, s: Step)
    requires EarlyInv(w) && InService(w) && AllowedEarly(w, s) && !s.Release?
    ensures EarlyInv(Next(w, s)) && InService(Next(w, s))
    ensures EarlyRank(Next(w, s)) + (if Internal(s) then 1 else 0) <= EarlyRank(w)
  {
    hide Inv, Rank, Next, EarlyPosted;
    InvIsNotPosted(w);
    if EarlyPosted(w) {
      PostedStep(w, s);
      InvIsNotPosted(Next(w, s));
    } else {
      NotHeld(w);
      NextInv(w, s);
      InvIsNotPosted(Next(w, s));
      if Internal(s) { InternalDecreases(w, s); } else { OutsideKeepsRank(w, s); }
    }
  }

  lemma NotHeld(w: World)
    requires EarlyInv(w) && InService(w) && !EarlyPosted(w)
    ensures Inv(w) && forall c :: !AllowedEarly(w, Take(c))
  {
    hide Inv;
  }

  lemma InvIsNotPosted(w: World)
    ensures Inv(w) ==> !EarlyPosted(w)
  {
  }

  lemma {:induction false} ServicePath(ws: seq<World>, ss: seq<Step>)
    requires EarlyPath(ws, ss) && EarlyInv(ws[0]) && InService(ws[0]) && NoRelease(ss)
    ensures EarlyInv(ws[|ss|]) && InService(ws[|ss|])
    ensures InternalSteps(ss) + EarlyRank(ws[|ss|]) <= EarlyRank(ws[0])
    decreases |ss|
  {
    hide EarlyInv, EarlyRank, AllowedEarly, Next, InService;
    if ss != [] {
      var n := |ss| - 1;
      ServicePath(ws[..n + 1], ss[..n]);
      ServiceStep(ws[n], ss[n]);
    }
  }

  lemma ServiceGoesOn(w: World)
    requires EarlyInv(w) && InService(w)
    ensures GoesOn(w)
  {
    if EarlyPosted(w) {
      assert Internal(Handle(false, false, false)) && AllowedEarly(w, Handle(false, false, false));
    } else {
      NotHeld(w);
      NeverStuck(w);
      InvIsNotStuck(w);
    }
  }

  lemma InvIsNotStuck(w: World)
    requires Inv(w)
    ensures !Stuck(w) && !w.m.pc.Confused?
  {
  }

  lemma FetchedEnds(w: World, addr: nat, len: nat)
    requires EarlyInv(w) && AllowedEarly(w, Submit(addr, len)) && Fetched(w)
    ensures Ends(Next(w, Submit(addr, len)))
  {
    hide EarlyInv, EarlyRank, GoesOn;
    var n := Next(w, Submit(addr, len));
    EarlyNext(w, Submit(addr, len));
    SubmitServes(w, addr, len);
    var bound := EarlyRank(n);
    forall ws, ss | EarlyPath(ws, ss) && ws[0] == n && NoRelease(ss)
      ensures InternalSteps(ss) <= bound && GoesOn(ws[|ss|])
    {
      ServicePath(ws, ss);
      ServiceGoesOn(ws[|ss|]);
    }
    assert EndsWithin(n, bound);
  }

  lemma SubmitServes(w: World, addr: nat, len: nat)
    requires EarlyInv(w) && AllowedEarly(w, Submit(addr, len))
    ensures InService(Next(w, Submit(addr, len)))
  {
  }

  // ----- posted too early

  /** A path on which the stack comes to a halt, the resource still taken. */
  ghost predicate Halts(w: World, ws: seq<World>, ss: seq<Step>)
  {
    EarlyPath(ws, ss) && ws[0] == w && NoRelease(ss) && (Stuck(ws[|ss|]) || ws[|ss|].m.pc.Confused?)
  }

  /** Posted while the start-up timer runs: the poll takes the request, eMBMasterRTUSend refuses it, nobody
      looks at the refusal, and after READY the master is stuck. */
  lemma EarlyRequestSticks(w: World, addr: nat, len: nat)
    requires EarlyHeld(w) && Starting(w.m) && AllowedEarly(w, Submit(addr, len))
    ensures exists ws: seq<World>, ss: seq<Step> :: Halts(Next(w, Submit(addr, len)), ws, ss) && Stuck(ws[|ss|])
  {
    hide Next, AllowedEarly, Stuck;
    var w2 := Next(w, Submit(addr, len));
    var w3, w4 := RefusedEarly(w, addr, len);
    var w5, w6, w7 := ReadyAfterRefusal(w4);
    var h := Handle(false, false, false);
    var ss := [Get, h, Expire, Get, h];
    var ws := [w2, w3, w4, w5, w6, w7];
    assert Halts(w2, ws, ss) && Stuck(ws[|ss|]);
  }

  /** The request is gone, but its client holds the resource. */
  predicate Dropped(m: Master)
  {
    && !m.established && m.sem == 0 && m.pc.Waiting? && NoPoll(m)
    && m.snd.TxIdle? && m.rcv.RxInit? && m.timer > 0 && m.mode.T35? && m.rx && !m.tx
  }

  lemma RefusedEarly(w: World, addr: nat, len: nat) returns (w3: World, w4: World)
    requires EarlyHeld(w) && Starting(w.m) && AllowedEarly(w, Submit(addr, len))
    ensures var w2 := Next(w, Submit(addr, len));
      && AllowedEarly(w2, Get) && w3 == Next(w2, Get)
      && AllowedEarly(w3, Handle(false, false, false)) && w4 == Next(w3, Handle(false, false, false))
    ensures w4.holder.None? && Dropped(w4.m)
  {
    var w2 := Next(w, Submit(addr, len));
    assert w2.m.events * POLL_BITS == {FrameSent};
    w3 := Next(w2, Get);
    w4 := Next(w3, Handle(false, false, false));
  }

  lemma ReadyAfterRefusal(w4: World) returns (w5: World, w6: World, w7: World)
    requires w4.holder.None? && Dropped(w4.m)
    ensures AllowedEarly(w4, Expire) && w5 == Next(w4, Expire)
    ensures AllowedEarly(w5, Get) && w6 == Next(w5, Get)
    ensures AllowedEarly(w6, Handle(false, false, false)) && w7 == Next(w6, Handle(false, false, false))
    ensures Stuck(w7)
  {
    w5 := Next(w4, Expire);
    assert w5.m.events * POLL_BITS == {Ready};
    w6 := Next(w5, Get);
    w7 := Next(w6, Handle(false, false, false));
  }

  /** Posted between the start-up expiry and the fetch of READY: the poll finds two bits at once, clears both
      and serves neither. */
  lemma EarlyRequestConfuses(w: World, addr: nat, len: nat)
    requires EarlyHeld(w) && Announced(w.m) && AllowedEarly(w, Submit(addr, len))
    ensures var w2 := Next(w, Submit(addr, len));
      && AllowedEarly(w2, Get) && Next(w2, Get).m.pc.Confused? && NoPoll(Next(w2, Get).m)
      && exists ws: seq<World>, ss: seq<Step> :: Halts(w2, ws, ss) && ws[|ss|].m.pc.Confused?
  {
    var w2 := Next(w, Submit(addr, len));
    assert w2.m.events * POLL_BITS == {Ready, FrameSent};
    var w3 := Next(w2, Get);
    var ws, ss := [w2, w3], [Get];
    assert Halts(w2, ws, ss) && ws[|ss|].m.pc.Confused?;
  }

  lemma HaltsNeverEnds(w: World, ws: seq<World>, ss: seq<Step>)
    requires Halts(w, ws, ss)
    ensures !Ends(w)
  {
    forall bound: nat ensures !EndsWithin(w, bound) { assert !GoesOn(ws[|ss|]); }
  }

  /** A request, the first one or any later, ends on every path, without a stuck or confused state, if and
      only if READY has been fetched when it is posted. */
  lemma EarlyRequestEndsIff(ws: seq<World>, ss: seq<Step>, k: nat)
    requires EarlyRun(ws, ss) && k < |ss| && ss[k].Submit?
    requires forall j :: 0 <= j < k && ss[j].Submit? ==> Fetched(ws[j])
    ensures Ends(ws[k + 1]) <==> Fetched(ws[k])
  {
    hide Next, AllowedEarly, EarlyHeld, EarlyInv, Ends, Fetched;
    EarlyRunInv(ws, ss, k);
    var addr, len := ss[k].addr, ss[k].len;
    if Fetched(ws[k]) {
      FetchedEnds(ws[k], addr, len);
    } else {
      TooEarly(ws[k], addr, len);
      if Starting(ws[k].m) {
        EarlyRequestSticks(ws[k], addr, len);
      } else {
        EarlyRequestConfuses(ws[k], addr, len);
      }
      var xs: seq<World>, ts: seq<Step> :| Halts(ws[k + 1], xs, ts);
      HaltsNeverEnds(ws[k + 1], xs, ts);
    }
  }

  lemma TooEarly(w: World, addr: nat, len: nat)
    requires EarlyInv(w) && AllowedEarly(w, Submit(addr, len)) && !Fetched(w)
    ensures EarlyHeld(w) && (Starting(w.m) || Announced(w.m))
  {
  }

  // ----- both failures from the start

  lemma Prepend(w: World, s: Step, ws: seq<World>, ss: seq<Step>) returns (us: seq<World>, ts: seq<Step>)
    requires EarlyPath(ws, ss) && NoRelease(ss) && AllowedEarly(w, s) && Next(w, s) == ws[0] && !s.Release?
    ensures EarlyPath(us, ts) && NoRelease(ts) && |us| == |ts| + 1 && us[0] == w && us[|ts|] == ws[|ss|]
  {
    hide Next, AllowedEarly;
    us, ts := [w] + ws, [s] + ss;
    forall k | 0 <= k < |ts| ensures AllowedEarly(us[k], ts[k]) && us[k + 1] == Next(us[k], ts[k]) {
      if k > 0 { assert us[k] == ws[k - 1] && us[k + 1] == ws[k] && ts[k] == ss[k - 1]; }
    }
  }

  /** Taken and posted at once. */
  lemma SticksFromTheStart(t35: Period)
    ensures exists ws: seq<World>, ss: seq<Step> :: EarlyRun(ws, ss) && ws[0].m.t35 == t35 && NoRelease(ss) && Stuck(ws[|ss|])
  {
    hide Stuck, Next, AllowedEarly, NoRelease;
    var w1 := HeldAtStart(t35);
    EarlyRequestSticks(w1, 1, 5);
    var ws: seq<World>, ss: seq<Step> :| Halts(Next(w1, Submit(1, 5)), ws, ss) && Stuck(ws[|ss|]);
    ws, ss := Prepend(w1, Submit(1, 5), ws, ss);
    ws, ss := Prepend(Begin(t35), Take(1), ws, ss);
    assert EarlyRun(ws, ss) && ws[0].m.t35 == t35 && NoRelease(ss) && Stuck(ws[|ss|]);
  }

  lemma HeldAtStart(t35: Period) returns (w1: World)
    ensures AllowedEarly(Begin(t35), Take(1)) && w1 == Next(Begin(t35), Take(1))
    ensures EarlyHeld(w1) && Starting(w1.m) && AllowedEarly(w1, Submit(1, 5))
  {
    w1 := Next(Begin(t35), Take(1));
  }

  /** Taken and posted between the expiry and the fetch. */
  lemma ConfusesFromTheStart(t35: Period)
    ensures exists ws: seq<World>, ss: seq<Step> :: EarlyRun(ws, ss) && ws[0].m.t35 == t35 && NoRelease(ss) && ws[|ss|].m.pc.Confused?
  {
    hide Next, AllowedEarly, NoRelease;
    var w1, w2 := HeldAnnounced(t35);
    EarlyRequestConfuses(w2, 1, 5);
    var ws: seq<World>, ss: seq<Step> :| Halts(Next(w2, Submit(1, 5)), ws, ss) && ws[|ss|].m.pc.Confused?;
    ws, ss := Prepend(w2, Submit(1, 5), ws, ss);
    ws, ss := Prepend(w1, Take(1), ws, ss);
    ws, ss := Prepend(Begin(t35), Expire, ws, ss);
    assert EarlyRun(ws, ss) && ws[0].m.t35 == t35 && NoRelease(ss) && ws[|ss|].m.pc.Confused?;
  }

  lemma HeldAnnounced(t35: Period) returns (w1: World, w2: World)
    ensures AllowedEarly(Begin(t35), Expire) && w1 == Next(Begin(t35), Expire)
    ensures AllowedEarly(w1, Take(1)) && w2 == Next(w1, Take(1))
    ensures EarlyHeld(w2) && Announced(w2.m) && AllowedEarly(w2, Submit(1, 5))
  {
    w1 := FirstExpiry(t35);
    w2 := Next(w1, Take(1));
  }

  /** Once stuck, always stuck: the resource never comes back. */
  lemma {:induction false} StuckForever(ws: seq<World>, ss: seq<Step>, k: nat)
    requires EarlyPath(ws, ss) && Stuck(ws[0]) && k < |ws|
    ensures Stuck(ws[k])
    decreases k
  {
    hide Stuck, Next, AllowedEarly;
    if k > 0 {
      StuckForever(ws, ss, k - 1);
      StuckStep(ws[k - 1], ss[k - 1]);
    }
  }

  lemma StuckStep(w: World, s: Step)
    requires Stuck(w) && AllowedEarly(w, s)
    ensures Stuck(Next(w, s))
  {
    assert w.m.events * POLL_BITS == {};
    assert s.Tick? || s.Finish? || s.Sleep?;
  }
}
