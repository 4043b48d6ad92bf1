/** What the thread operations make of a thread, and in what order the ready threads of one priority run. */
module SchedulerOrder {

  import opened SchedulerSpec
  import opened Wrappers

  // ----- what a step makes of a thread

  /** The thread a step is about. */
  function Subject(x: Step): Option<Tid>
  {
    match x
    case DoStartup(t) => Some(t)
    case DoSuspend(t) => Some(t)
    case DoWait(t, _, _) => Some(t)
    case DoResume(t) => Some(t)
    case DoTimeout(t) => Some(t)
    case DoYield(t) => Some(t)
    case DoChange(t, _) => Some(t)
    case DoExit(t, _) => Some(t)
    case _ => None
  }

  /** The life of a thread: only the thread the step is about changes, a ready one can be suspended, a suspended one
      made ready, and a priority change or a yield leaves its state. */
  function After(th: Thread, x: Step): Stat
  {
    match x
    case DoStartup(_) => Ready
    case DoSuspend(_) => if th.stat.Ready? then Suspend else th.stat
    case DoWait(_, _, _) => if th.stat.Ready? then Suspend else th.stat
    case DoResume(_) => if th.stat.Suspend? then Ready else th.stat
    case DoTimeout(_) => Ready
    case DoExit(_, _) => Close
    case _ => th.stat
  }

  /** The priority with which it goes on. */
  function PrioAfter(th: Thread, x: Step): Prio
  {
    match x
    case DoStartup(_) => th.init
    case DoChange(_, p) => p
    case _ => th.cur
  }

  lemma StepThread(s: Sched, x: Step, u: Tid)
    requires Inv(s) && Allowed(s, x) && u < |s.thread|
    ensures |Next(s, x).thread| == |s.thread|
    ensures var n, th := Next(s, x).thread[u], s.thread[u];
      && n.init == th.init
      && n.stat == (if Subject(x) == Some(u) then After(th, x) else th.stat)
      && n.cur == (if Subject(x) == Some(u) then PrioAfter(th, x) else th.cur)
  {
    hide Inv, Resume, SuspendThread, SuspendOn, Timeout, Exit, ChangePriority, HighestReady, Without, Mask;
    if Subject(x).Some? { ThreadsAfter(s, Subject(x).value); }
    match x
    case DoStartup(t) => StartupThread(s, t);
    case DoWait(t, l, pos) => WaitThread(s, t, l, pos);
    case DoChange(t, p) => ChangeThread(s, t, p);
    case DoExit(t, keep) => ExitThread(s, t, keep);
    case _ =>
  }

  lemma ThreadsAfter(s: Sched, t: Tid)
    requires t < |s.thread|
    ensures Known(s, t) ==>
      && Resume(s, t).thread == (if s.thread[t].stat.Suspend? then s.thread[t := s.thread[t].(stat := Ready)] else s.thread)
      && SuspendThread(s, t).thread == (if s.thread[t].stat.Ready? then s.thread[t := s.thread[t].(stat := Suspend)] else s.thread)
      && Timeout(s, t).thread == s.thread[t := s.thread[t].(stat := Ready)]
  {
    hide Without, WithoutAll, SetBits, ClearBits;
  }

  lemma StartupThread(s: Sched, t: Tid)
    requires Known(s, t)
    ensures var th := s.thread[t];
      Startup(s, t).thread == s.thread[t := th.(cur := th.init, mask := Mask(th.init), stat := Ready)]
  {
    hide Without, WithoutAll, SetBits, Mask;
  }

  lemma WaitThread(s: Sched, t: Tid, l: nat, pos: nat)
    requires Known(s, t) && l < |s.lists| && pos <= |s.lists[l]|
    ensures SuspendOn(s, t, l, pos).thread
         == if s.thread[t].stat.Ready? then s.thread[t := s.thread[t].(stat := Suspend)] else s.thread
  {
    hide Without, ClearBits;
  }

  lemma ChangeThread(s: Sched, t: Tid, p: Prio)
    requires Known(s, t)
    ensures ChangePriority(s, t, p).thread == s.thread[t := s.thread[t].(cur := p, mask := Mask(p))]
  {
    hide Without, SetBits, ClearBits, Mask;
  }

  lemma ExitThread(s: Sched, t: Tid, keep: bool)
    requires Known(s, t)
    ensures Exit(s, t, keep).thread == s.thread[t := s.thread[t].(stat := Close)]
  {
    hide Without, WithoutAll, ClearBits;
  }

  /** On which suspend lists a thread then is: a waiting thread on the one it waits on, until it is resumed, times
      out or exits. */
  lemma StepList(s: Sched, x: Step, u: Tid, l: nat)
    requires Inv(s) && Allowed(s, x) && l < |s.lists|
    ensures |Next(s, x).lists| == |s.lists|
    ensures u in Next(s, x).lists[l] <==>
      (u in s.lists[l] && !(Subject(x) == Some(u) && (x.DoResume? || x.DoTimeout? || x.DoExit?)))
      || (x.DoWait? && x.t == u && x.l == l && s.thread[u].stat.Ready?)
  {
    hide BitSet, HighestReady, SetBits, ClearBits, Mask, Without;
    if x.DoWait? && x.l == l {
      var w := s.lists[l];
      assert w == w[..x.pos] + w[x.pos..];
    }
    assert ListRight(s, l);
  }

  /** A thread that waits stands at the place its flag gives it, and the others keep theirs. */
  lemma WaitPlace(s: Sched, t: Tid, l: nat, pos: nat, i: nat)
    requires Known(s, t) && l < |s.lists| && pos <= |s.lists[l]| && s.thread[t].stat.Ready? && i < |s.lists[l]|
    ensures var w := SuspendOn(s, t, l, pos).lists[l];
      |w| == |s.lists[l]| + 1 && w[pos] == t && w[if i < pos then i else i + 1] == s.lists[l][i]
  {
    hide Without, ClearBits;
  }

  /** A cleaned-up thread is on the defunct list, and nobody else comes on it. */
  lemma StepDefunct(s: Sched, x: Step, u: Tid)
    requires Inv(s) && Allowed(s, x)
    ensures u in Next(s, x).defunct <==> u in s.defunct || x == DoExit(u, true)
  {
    hide Inv, HighestReady, Without, WithoutAll, SetBits, ClearBits, Mask;
  }

  // ----- the order in a ready queue

  /** a stands before b. */
  ghost predicate Ahead(q: seq<Tid>, a: Tid, b: Tid)
  {
    exists i, j :: 0 <= i < j < |q| && q[i] == a && q[j] == b
  }

  /** The step makes t ready, or a ready t yields or is given a priority. */
  predicate Enters(s: Sched, x: Step, t: Tid)
  {
    Subject(x) == Some(t) && t < |s.thread| &&
    (x.DoStartup? || x.DoTimeout? || (x.DoResume? && s.thread[t].stat.Suspend?)
     || ((x.DoYield? || x.DoChange?) && s.thread[t].stat.Ready?))
  }

  lemma {:induction false} WithoutAbsent(q: seq<Tid>, t: Tid)
    requires t !in q
    ensures Without(q, t) == q
    decreases |q|
  {
    if q != [] {
      assert q == [q[0]] + q[1..];
      WithoutAbsent(q[1..], t);
    }
  }

  lemma {:induction false} WithoutOrder(q: seq<Tid>, t: Tid, a: Tid, b: Tid)
    requires Ahead(q, a, b) && a != t && b != t
    ensures Ahead(Without(q, t), a, b)
    decreases |q|
  {
    var i, j :| 0 <= i < j < |q| && q[i] == a && q[j] == b;
    var w := Without(q[1..], t);
    if i > 0 {
      assert q[1..][i - 1] == a && q[1..][j - 1] == b;
      WithoutOrder(q[1..], t, a, b);
      if q[0] != t { ConsOrder(q[0], w, a, b); }
    } else {
      assert q[1..][j - 1] == b && b in w;
      var k :| 0 <= k < |w| && w[k] == b;
      assert ([a] + w)[0] == a && ([a] + w)[k + 1] == b;
    }
  }

  lemma ConsOrder(x: Tid, q: seq<Tid>, a: Tid, b: Tid)
    requires Ahead(q, a, b)
    ensures Ahead([x] + q, a, b)
  {
    var i, j :| 0 <= i < j < |q| && q[i] == a && q[j] == b;
    assert ([x] + q)[i + 1] == a && ([x] + q)[j + 1] == b;
  }

  lemma AppendOrder(q: seq<Tid>, t: Tid, a: Tid, b: Tid)
    ensures Ahead(q, a, b) ==> Ahead(q + [t], a, b)
    ensures a in q ==> Ahead(q + [t], a, t)
  {
    var r := q + [t];
    if Ahead(q, a, b) {
      var i, j :| 0 <= i < j < |q| && q[i] == a && q[j] == b;
      assert r[i] == a && r[j] == b;
    }
    if a in q {
      var i :| 0 <= i < |q| && q[i] == a;
      assert r[i] == a && r[|q|] == t;
    }
  }

  /** What a step does to ready queue p: nothing, or the thread it is about leaves, or goes to the tail. */
  lemma QueueEffect(s: Sched, x: Step, p: Prio, t: Tid)
    requires Inv(s) && Allowed(s, x) && Subject(x) == Some(t)
    ensures AllKnown(s) && AllKnown(Next(s, x)) && t < |s.thread|
    ensures var q, n := s.queue[p], Next(s, x).queue[p];
      && (n == q || n == Without(q, t) || (Enters(s, x, t) && n == Without(q, t) + [t]))
      && (Enters(s, x, t) && t in n ==> n == Without(q, t) + [t])
  {
    hide BitSet, HighestReady, SetBits, ClearBits, Mask, Without, WithoutAll;
    assert QueueRight(s, p);
    var q := s.queue[p];
    if t !in q { WithoutAbsent(q, t); }
    if |q| == 1 && t in q { SingleWithout(q, t); }
  }

  lemma SingleWithout(q: seq<Tid>, t: Tid)
    requires |q| == 1 && t in q
    ensures Without(q, t) + [t] == q
  {
    assert q[1..] == [];
  }

  lemma QueueSame(s: Sched, x: Step, p: Prio)
    requires Inv(s) && Allowed(s, x) && Subject(x) == None
    ensures AllKnown(s) && AllKnown(Next(s, x)) && Next(s, x).queue[p] == s.queue[p]
  {
    hide BitSet, HighestReady;
  }

  /** Two threads that stay in a ready queue keep their order, unless the first one yields or is queued again. */
  lemma OrderKept(s: Sched, x: Step, p: Prio, a: Tid, b: Tid)
    requires Inv(s) && Allowed(s, x) && AllKnown(s) && AllKnown(Next(s, x)) && Ahead(s.queue[p], a, b) && !Enters(s, x, a)
    requires a in Next(s, x).queue[p] && b in Next(s, x).queue[p] && a != b
    ensures Ahead(Next(s, x).queue[p], a, b)
  {
    hide Inv, Allowed, Next, Enters, Without, Ahead;
    var q := s.queue[p];
    if Subject(x) == None {
      QueueSame(s, x, p);
    } else {
      var t := Subject(x).value;
      QueueEffect(s, x, p, t);
      if t != a && t != b { WithoutOrder(q, t, a, b); }
      AppendOrder(Without(q, t), t, a, b);
      BothIn(q, a, b);
    }
  }

  lemma BothIn(q: seq<Tid>, a: Tid, b: Tid)
    requires Ahead(q, a, b)
    ensures a in q && b in q
  {
  }

  /** A thread that becomes ready or yields stands behind everything that is in its queue. */
  lemma EntersLast(s: Sched, x: Step, p: Prio, t: Tid, a: Tid)
    requires Inv(s) && Allowed(s, x) && Enters(s, x, t) && AllKnown(Next(s, x))
    requires t in Next(s, x).queue[p] && a in Next(s, x).queue[p] && a != t
    ensures Ahead(Next(s, x).queue[p], a, t)
  {
    hide Inv, Allowed, Next, Without, Ahead;
    QueueEffect(s, x, p, t);
    AppendOrder(Without(s.queue[p], t), t, a, t);
  }

  /** Nobody comes into a queue in any other way. */
  lemma OnlyEnters(s: Sched, x: Step, p: Prio, t: Tid)
    requires Inv(s) && Allowed(s, x) && AllKnown(s) && AllKnown(Next(s, x)) && !Enters(s, x, t) && t in Next(s, x).queue[p]
    ensures t in s.queue[p]
  {
    hide Inv, Allowed, Next, Without, Enters;
    if Subject(x) == None { QueueSame(s, x, p); } else { QueueEffect(s, x, p, Subject(x).value); }
  }

  // ----- over runs

  lemma RunStep(ts: seq<Sched>, xs: seq<Step>, k: nat)
    requires Run(ts, xs) && k < |xs|
    ensures Inv(ts[k]) && Inv(ts[k + 1]) && Allowed(ts[k], xs[k]) && ts[k + 1] == Next(ts[k], xs[k])
    ensures AllKnown(ts[k]) && AllKnown(ts[k + 1])
  {
    hide Inv, Next, Allowed, Fresh;
    AlwaysInv(ts, xs, k);
    AlwaysInv(ts, xs, k + 1);
    InvKnown(ts[k]);
    InvKnown(ts[k + 1]);
  }

  lemma InvKnown(s: Sched)
    requires Inv(s)
    ensures AllKnown(s)
  {
  }

  /** Step i put t at the tail of queue p, and t has been in it since, up to state k, without being put there again. */
  ghost predicate ReadySince(ts: seq<Sched>, xs: seq<Step>, i: nat, k: nat, p: Prio, t: Tid)
  {
    && |ts| == |xs| + 1 && i < k < |ts| && Enters(ts[i], xs[i], t)
    && (forall m :: i < m <= k ==> AllKnown(ts[m]) && t in ts[m].queue[p])
    && (forall m :: i < m < k ==> !Enters(ts[m], xs[m], t))
  }

  /** In every run, of two ready threads of one priority the one that has been ready longer without yielding stands
      before the other. */
  lemma {:induction false} ReadyInOrder(ts: seq<Sched>, xs: seq<Step>, i: nat, j: nat, k: nat, p: Prio, a: Tid, b: Tid)
    requires Run(ts, xs) && i < j < k && a != b && ReadySince(ts, xs, i, k, p, a) && ReadySince(ts, xs, j, k, p, b)
    ensures Ahead(ts[k].queue[p], a, b)
    decreases k - j
  {
    hide Run, Inv, Allowed, Next, Enters, Ahead;
    RunStep(ts, xs, k - 1);
    if k == j + 1 {
      EntersLast(ts[j], xs[j], p, b, a);
    } else {
      assert ReadySince(ts, xs, i, k - 1, p, a) && ReadySince(ts, xs, j, k - 1, p, b);
      ReadyInOrder(ts, xs, i, j, k - 1, p, a, b);
      OrderKept(ts[k - 1], xs[k - 1], p, a, b);
    }
  }

  /** Every ready thread was put into its queue by some step. */
  lemma {:induction false} ReadyFrom(ts: seq<Sched>, xs: seq<Step>, k: nat, p: Prio, t: Tid) returns (i: nat)
    requires Run(ts, xs) && k < |ts| && AllKnown(ts[k]) && t in ts[k].queue[p]
    ensures i < k && ReadySince(ts, xs, i, k, p, t)
  {
    hide Inv, Allowed, Next, Enters;
    RunStep(ts, xs, k - 1);
    if Enters(ts[k - 1], xs[k - 1], t) {
      i := k - 1;
    } else {
      OnlyEnters(ts[k - 1], xs[k - 1], p, t);
      i := ReadyFrom(ts, xs, k - 1, p, t);
    }
  }

  lemma FirstIsAhead(q: seq<Tid>, b: Tid)
    requires NoRepeat(q) && b in q
    ensures b != q[0] ==> !Ahead(q, b, q[0])
  {
  }

  /** In every run rt_schedule takes the thread of the best priority that has been ready longest since it last
      yielded: every other ready thread has a worse priority, or was put into the same queue later. */
  lemma PicksLongestReady(ts: seq<Sched>, xs: seq<Step>, k: nat, b: Tid)
    requires Run(ts, xs) && k < |ts| && ts[k].nest == 0 && b < |ts[k].thread| && ts[k].thread[b].stat.Ready?
    ensures Inv(ts[k]) && Schedule(ts[k]).current.Some?
    ensures var h := Schedule(ts[k]).current.value;
      && h < |ts[k].thread| && ts[k].thread[h].stat.Ready? && ts[k].thread[h].cur <= ts[k].thread[b].cur
      && (h != b && ts[k].thread[h].cur == ts[k].thread[b].cur ==>
            exists i: nat, j: nat :: i < j && ReadySince(ts, xs, i, k, ts[k].thread[b].cur, h)
                                     && ReadySince(ts, xs, j, k, ts[k].thread[b].cur, b))
  {
    hide Inv, Fresh, Next, Allowed, ReadySince, HighestReady, Ahead, BitSet;
    AlwaysInv(ts, xs, k);
    var s, p := ts[k], ts[k].thread[b].cur;
    ReadyMeansGroup(s, b);
    ScheduleSelectsBest(s);
    InvQueue(s, p);
    var h := Schedule(s).current.value;
    if h != b && s.thread[h].cur == p {
      var i := ReadyFrom(ts, xs, k, p, h);
      var j := ReadyFrom(ts, xs, k, p, b);
      OneAtATime(ts, xs, i, j, k, p, h, b);
      FirstIsAhead(s.queue[p], b);
      if j < i { ReadyInOrder(ts, xs, j, i, k, p, b, h); }
    }
  }

  lemma ReadyMeansGroup(s: Sched, b: Tid)
    requires Inv(s) && b < |s.thread| && s.thread[b].stat.Ready?
    ensures s.group != 0
  {
    hide Inv;
    NothingReadyIff(s);
  }

  lemma InvQueue(s: Sched, p: Prio)
    requires Inv(s)
    ensures AllKnown(s) && NoRepeat(s.queue[p])
    ensures forall t: Tid :: t in s.queue[p] <==> t < |s.thread| && s.thread[t].stat.Ready? && s.thread[t].cur == p
  {
    assert QueueRight(s, p);
  }

  lemma OneAtATime(ts: seq<Sched>, xs: seq<Step>, i: nat, j: nat, k: nat, p: Prio, a: Tid, b: Tid)
    requires ReadySince(ts, xs, i, k, p, a) && ReadySince(ts, xs, j, k, p, b) && a != b
    ensures i != j
  {
  }

  // ----- the scheduler lock

  /** Calls of rt_enter_critical less calls of rt_exit_critical between states j and k. */
  function Locks(xs: seq<Step>, j: nat, k: nat): int
    requires j <= k <= |xs|
  {
    if k == j then 0
    else Locks(xs, j, k - 1) + (match xs[k - 1] case DoLock => 1 case DoUnlock => -1 case _ => 0)
  }

  /** In every run, while the locks outnumber the unlocks since a state without lock, no thread is switched. */
  lemma {:induction false} LockedKeepsCurrent(ts: seq<Sched>, xs: seq<Step>, j: nat, k: nat)
    requires Run(ts, xs) && j < k < |ts| && ts[j].nest == 0 && forall i :: j < i <= k ==> Locks(xs, j, i) > 0
    ensures ts[k].nest == Locks(xs, j, k) && ts[k].current == ts[j].current
    decreases k - j
  {
    hide Inv, Fresh, Allowed, Next;
    RunStep(ts, xs, k - 1);
    assert Locks(xs, j, j) == 0;
    if k > j + 1 { LockedKeepsCurrent(ts, xs, j, k - 1); }
    LockStep(ts[k - 1], xs[k - 1]);
  }

  lemma LockStep(s: Sched, x: Step)
    requires Inv(s) && Allowed(s, x)
    ensures Next(s, x).nest == match x case DoLock => s.nest + 1 case DoUnlock => (if s.nest == 0 then 0 else s.nest - 1) case _ => s.nest
    ensures !x.DoSchedule? || s.nest > 0 ==> Next(s, x).current == s.current
  {
    hide Inv, HighestReady;
  }
}
