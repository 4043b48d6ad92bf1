/** The message queue of ipc.c under interleaving: rt_mq_send, rt_mq_urgent and rt_mq_recv hold a pool node
    in hand between two critical sections, and any other call may run in between. Every critical section
    is one step. */
module MessageQueueSpec {

  type Node = nat
  type Tid = int
  type Data = int

  /** `sending` and `receiving` say which thread holds which node; `waiting` is suspend_thread, `woken` are
      the receivers that were resumed and have not run yet. `log` and `got` are the history: what was done
      to the queue, in order, and the messages taken. */
  datatype Mq = Mq(
    size: nat, free: seq<Node>, queue: seq<Node>, sending: map<Node, Tid>, receiving: map<Node, Tid>,
    body: seq<Data>, waiting: seq<Tid>, woken: set<Tid>, log: seq<Link>, got: seq<Data>)

  /** What happens to the queue: a message is linked at the tail or at the head, one is taken, all go. */
  datatype Link = Tail(d: Data) | Head(d: Data) | Take | Clear

  datatype Step =
    | TakeFree(t: Tid)                      // send, first section: a free node, or -RT_EFULL
    | Fill(n: Node, d: Data)                // the copy into the node in hand
    | LinkTail(n: Node)                     // send, second section
    | LinkHead(n: Node)                     // urgent, second section
    | Receive(t: Tid, block: bool, pos: nat) // recv, first section: a message, a wait (at the place the
                                            // FIFO or PRIO flag gives it), or -RT_ETIMEOUT
    | Expire(t: Tid)                        // a waiting receiver's timer
    | PutFree(n: Node)                      // recv, second section
    | Reset                                 // rt_mq_control

  predicate Distinct(s: seq<Node>)
  {
    forall i, j :: 0 <= i < j < |s| ==> s[i] != s[j]
  }

  /** No call of thread t is under way. */
  predicate Idle(m: Mq, t: Tid)
  {
    t !in m.waiting && t !in m.woken && t !in m.sending.Values && t !in m.receiving.Values
  }

  predicate Allowed(m: Mq, s: Step)
  {
    match s
    case TakeFree(t) => Idle(m, t)
    case Fill(n, d) => n in m.sending && n < |m.body|
    case LinkTail(n) => n in m.sending && n < |m.body|
    case LinkHead(n) => n in m.sending && n < |m.body|
    case Receive(t, _, pos) => (Idle(m, t) || t in m.woken) && pos <= |m.waiting| &&
      forall i :: 0 <= i < |m.queue| ==> m.queue[i] < |m.body|
    case Expire(t) => t in m.waiting
    case PutFree(n) => n in m.receiving
    case Reset => true
  }

  /** rt_ipc_list_resume on the suspend list, if anybody waits. */
  function Wake(m: Mq): Mq
  {
    if m.waiting == [] then m else m.(waiting := m.waiting[1..], woken := m.woken + {m.waiting[0]})
  }

  function Drop(s: seq<Tid>, t: Tid): (r: seq<Tid>)
    ensures forall x :: x in r ==> x in s
  {
    if s == [] then [] else if s[0] == t then s[1..] else [s[0]] + Drop(s[1..], t)
  }

  /** rt_mq_control(RESET) moves the nodes one by one, so they are freed in reverse. */
  function Freed(queue: seq<Node>, free: seq<Node>): seq<Node>
  {
    if queue == [] then free else Freed(queue[1..], [queue[0]] + free)
  }

  function Next(m: Mq, s: Step): Mq
    requires Allowed(m, s)
  {
    match s
    case TakeFree(t) =>
      if m.free == [] then m else m.(free := m.free[1..], sending := m.sending[m.free[0] := t])
    case Fill(n, d) => m.(body := m.body[n := d])
    case LinkTail(n) =>
      Wake(m.(queue := m.queue + [n], sending := m.sending - {n}, log := m.log + [Tail(m.body[n])]))
    case LinkHead(n) =>
      Wake(m.(queue := [n] + m.queue, sending := m.sending - {n}, log := m.log + [Head(m.body[n])]))
    case Receive(t, block, pos) =>
      var a := m.(woken := m.woken - {t});
      if m.queue != [] then
        a.(queue := m.queue[1..], receiving := m.receiving[m.queue[0] := t],
           log := m.log + [Take], got := m.got + [m.body[m.queue[0]]])
      else if block then a.(waiting := m.waiting[..pos] + [t] + m.waiting[pos..]) else a
    case Expire(t) => m.(waiting := Drop(m.waiting, t))
    case PutFree(n) => m.(free := [n] + m.free, receiving := m.receiving - {n})
    case Reset => m.(waiting := [], queue := [], free := Freed(m.queue, m.free), log := m.log + [Clear])
  }

  // ----- every node in exactly one place

  function Places(m: Mq, n: Node): nat
  {
    (if n in m.free then 1 else 0) + (if n in m.queue then 1 else 0)
    + (if n in m.sending then 1 else 0) + (if n in m.receiving then 1 else 0)
  }

  /** Each pool node is in exactly one of: the free list, the queue, one sender's hand, one receiver's. */
  ghost predicate Placed(m: Mq)
  {
    && Distinct(m.free) && Distinct(m.queue)
    && (forall n: Node :: n < m.size ==> Places(m, n) == 1)
    && (forall n: Node :: n >= m.size ==> Places(m, n) == 0)
  }

  ghost predicate Inv(m: Mq)
  {
    Placed(m) && |m.body| == m.size
  }

  lemma InvTakeFree(m: Mq, t: Tid)
    requires Inv(m) && Allowed(m, TakeFree(t))
    ensures Inv(Next(m, TakeFree(t)))
  {
    if m.free != [] {
      var a := Next(m, TakeFree(t));
      assert m.free == [m.free[0]] + m.free[1..];
      forall n: Node ensures Places(a, n) == Places(m, n) {
        assert n in m.free <==> n == m.free[0] || n in m.free[1..];
      }
    }
  }

  lemma InvFill(m: Mq, n: Node, d: Data)
    requires Inv(m) && Allowed(m, Fill(n, d))
    ensures Inv(Next(m, Fill(n, d)))
  {
    var a := Next(m, Fill(n, d));
    forall k: Node ensures Places(a, k) == Places(m, k) {}
  }

  lemma WakeKeeps(m: Mq)
    ensures var w := Wake(m);
      w == m.(waiting := w.waiting, woken := w.woken)
    ensures Placed(m) ==> Placed(Wake(m))
  {
    var w := Wake(m);
    forall k: Node ensures Places(w, k) == Places(m, k) {}
  }

  lemma InvLinkTail(m: Mq, n: Node)
    requires Inv(m) && Allowed(m, LinkTail(n))
    ensures Inv(Next(m, LinkTail(n)))
  {
    var a := m.(queue := m.queue + [n], sending := m.sending - {n}, log := m.log + [Tail(m.body[n])]);
    assert Places(m, n) == 1;
    forall k: Node ensures Places(a, k) == Places(m, k) {
      assert k in a.queue <==> k in m.queue || k == n;
    }
    WakeKeeps(a);
  }

  lemma InvLinkHead(m: Mq, n: Node)
    requires Inv(m) && Allowed(m, LinkHead(n))
    ensures Inv(Next(m, LinkHead(n)))
  {
    var a := m.(queue := [n] + m.queue, sending := m.sending - {n}, log := m.log + [Head(m.body[n])]);
    assert Places(m, n) == 1;
    forall k: Node ensures Places(a, k) == Places(m, k) {
      assert k in a.queue <==> k in m.queue || k == n;
    }
    WakeKeeps(a);
  }

  lemma InvReceive(m: Mq, t: Tid, block: bool, pos: nat)
    requires Inv(m) && Allowed(m, Receive(t, block, pos))
    ensures Inv(Next(m, Receive(t, block, pos)))
  {
    var a := Next(m, Receive(t, block, pos));
    if m.queue != [] {
      assert m.queue == [m.queue[0]] + m.queue[1..];
      assert Places(m, m.queue[0]) == 1;
      forall k: Node ensures Places(a, k) == Places(m, k) {
        assert k in m.queue <==> k == m.queue[0] || k in m.queue[1..];
      }
    } else {
      forall k: Node ensures Places(a, k) == Places(m, k) {}
    }
  }

  lemma InvPutFree(m: Mq, n: Node)
    requires Inv(m) && Allowed(m, PutFree(n))
    ensures Inv(Next(m, PutFree(n)))
  {
    var a := Next(m, PutFree(n));
    assert Places(m, n) == 1;
    forall k: Node ensures Places(a, k) == Places(m, k) {
      assert k in a.free <==> k in m.free || k == n;
    }
  }

  lemma {:induction false} FreedAll(queue: seq<Node>, free: seq<Node>)
    requires Distinct(queue) && Distinct(free) && forall n :: n in queue ==> n !in free
    ensures Distinct(Freed(queue, free))
    ensures forall n :: n in Freed(queue, free) <==> n in queue || n in free
    decreases |queue|
  {
    if queue != [] {
      assert queue == [queue[0]] + queue[1..] && queue[0] in queue;
      forall j | 0 <= j < |free| ensures free[j] != queue[0] { assert free[j] in free; }
      forall n | n in queue[1..] ensures n !in [queue[0]] + free {
        assert n in queue;
        var k :| 0 <= k < |queue[1..]| && queue[1..][k] == n;
        assert queue[k + 1] == n;
      }
      FreedAll(queue[1..], [queue[0]] + free);
    }
  }

  lemma InvReset(m: Mq)
    requires Inv(m)
    ensures Inv(Next(m, Reset))
  {
    var a := Next(m, Reset);
    forall n | n in m.queue ensures n !in m.free { assert Places(m, n) <= 1; }
    FreedAll(m.queue, m.free);
    forall k: Node ensures Places(a, k) == Places(m, k) { assert Places(m, k) <= 1; }
  }

  lemma NextInv(m: Mq, s: Step)
    requires Inv(m) && Allowed(m, s)
    ensures Inv(Next(m, s))
  {
    hide Inv, Next;
    match s
    case TakeFree(t) => InvTakeFree(m, t);
    case Fill(n, d) => InvFill(m, n, d);
    case LinkTail(n) => InvLinkTail(m, n);
    case LinkHead(n) => InvLinkHead(m, n);
    case Receive(t, block, pos) => InvReceive(m, t, block, pos);
    case Expire(t) => InvExpire(m, t);
    case PutFree(n) => InvPutFree(m, n);
    case Reset => InvReset(m);
  }

  lemma InvExpire(m: Mq, t: Tid)
    requires Inv(m) && Allowed(m, Expire(t))
    ensures Inv(Next(m, Expire(t)))
  {
    var a := Next(m, Expire(t));
    forall k: Node ensures Places(a, k) == Places(m, k) {}
  }

  // ----- runs

  /** rt_mq_init: the pool's nodes on the free list, last one first. */
  function Pool(n: nat): (r: seq<Node>)
    ensures |r| == n
    ensures forall i :: 0 <= i < n ==> r[i] == n - 1 - i
  {
    if n == 0 then [] else [n - 1] + Pool(n - 1)
  }

  ghost predicate Init(m: Mq)
  {
    && m.free == Pool(m.size) && m.queue == [] && m.sending == map[] && m.receiving == map[] && |m.body| == m.size
    && m.waiting == [] && m.woken == {} && m.log == [] && m.got == []
  }

  lemma InitInv(m: Mq)
    requires Init(m)
    ensures Inv(m)
  {
    forall n: Node | n < m.size ensures Places(m, n) == 1 { assert m.free[m.size - 1 - n] == n; }
  }

  ghost predicate Run(ms: seq<Mq>, ss: seq<Step>)
  {
    && |ms| == |ss| + 1 && Init(ms[0])
    && forall k :: 0 <= k < |ss| ==> Allowed(ms[k], ss[k]) && ms[k + 1] == Next(ms[k], ss[k])
  }

  /** However the calls interleave, every pool node is always in exactly one place. */
  lemma {:induction false} AlwaysOnePlace(ms: seq<Mq>, ss: seq<Step>, k: nat)
    requires Run(ms, ss) && k < |ms|
    ensures Inv(ms[k])
  {
    hide Inv, Next, Allowed, Init;
    if k == 0 {
      InitInv(ms[0]);
    } else {
      AlwaysOnePlace(ms, ss, k - 1);
      NextInv(ms[k - 1], ss[k - 1]);
    }
  }

  // ----- the plain deque

  /** A deque of messages named by the place of their link in the log; `out` and `lost` are the messages
      taken and the messages thrown away, in order. */
  datatype Deque = Deque(items: seq<nat>, out: seq<nat>, lost: seq<nat>)

  function Turn(q: Deque, e: Link, id: nat): Deque
  {
    match e
    case Tail(_) => q.(items := q.items + [id])
    case Head(_) => q.(items := [id] + q.items)
    case Take => if q.items == [] then q else Deque(q.items[1..], q.out + [q.items[0]], q.lost)
    case Clear => q.(items := [], lost := q.lost + q.items)
  }

  function Replay(log: seq<Link>): Deque
  {
    if log == [] then Deque([], [], []) else Turn(Replay(log[..|log| - 1]), log[|log| - 1], |log| - 1)
  }

  predicate IsLink(log: seq<Link>, x: nat)
  {
    x < |log| && (log[x].Tail? || log[x].Head?)
  }

  ghost predicate Links(log: seq<Link>, ids: seq<nat>)
  {
    forall i :: 0 <= i < |ids| ==> IsLink(log, ids[i])
  }

  function Values(log: seq<Link>, ids: seq<nat>): seq<Data>
    requires Links(log, ids)
  {
    seq(|ids|, i requires 0 <= i < |ids| && IsLink(log, ids[i]) => log[ids[i]].d)
  }

  /** The deque holds links of the log, each message in one place. */
  ghost predicate Sound(log: seq<Link>, q: Deque)
  {
    && Links(log, q.items) && Links(log, q.out) && Links(log, q.lost) && Distinct(q.items)
    && (forall x :: x in q.items ==> x !in q.out && x !in q.lost)
    && (forall x :: x in q.out ==> x !in q.lost)
  }

  /** In the deque urgent messages come first, the last one linked in front, and ordinary messages follow
      in link order; the ordinary messages taken were linked in the order they left, before those queued. */
  ghost predicate InOrder(log: seq<Link>, q: Deque)
    requires Sound(log, q)
  {
    QueueOrder(log, q.items) && LeftInOrder(log, q.out) && LeftBefore(log, q.out, q.items)
  }

  ghost predicate QueueOrder(log: seq<Link>, items: seq<nat>)
    requires Links(log, items)
  {
    forall i, j :: 0 <= i < j < |items| ==>
      && (log[items[j]].Head? ==> log[items[i]].Head? && items[j] < items[i])
      && (log[items[i]].Tail? ==> items[i] < items[j])
  }

  ghost predicate LeftInOrder(log: seq<Link>, out: seq<nat>)
    requires Links(log, out)
  {
    forall i, j :: 0 <= i < j < |out| && log[out[i]].Tail? && log[out[j]].Tail? ==> out[i] < out[j]
  }

  ghost predicate LeftBefore(log: seq<Link>, out: seq<nat>, items: seq<nat>)
    requires Links(log, out) && Links(log, items)
  {
    forall i, j :: 0 <= i < |out| && 0 <= j < |items| && log[out[i]].Tail? && log[items[j]].Tail? ==> out[i] < items[j]
  }

  lemma TurnSound(was: seq<Link>, log: seq<Link>, q: Deque)
    requires log != [] && was == log[..|log| - 1] && Sound(was, q)
    ensures Sound(log, Turn(q, log[|log| - 1], |log| - 1))
  {
    var n := Turn(q, log[|log| - 1], |log| - 1);
    TurnMembers(q, log[|log| - 1], |log| - 1);
    SoundMeans(was, q);
    forall x | x in n.items ensures IsLink(log, x) && x !in n.out && x !in n.lost { }
    forall x | x in n.out ensures IsLink(log, x) && x !in n.lost { }
    forall x | x in n.lost ensures IsLink(log, x) { }
    hide IsLink;
    MembersSound(log, n);
  }

  lemma SoundMeans(log: seq<Link>, q: Deque)
    requires Sound(log, q)
    ensures forall x :: x in q.items || x in q.out || x in q.lost ==> IsLink(log, x)
  {
  }

  lemma MembersSound(log: seq<Link>, q: Deque)
    requires Distinct(q.items)
    requires forall x :: x in q.items ==> IsLink(log, x) && x !in q.out && x !in q.lost
    requires forall x :: x in q.out ==> IsLink(log, x) && x !in q.lost
    requires forall x :: x in q.lost ==> IsLink(log, x)
    ensures Sound(log, q)
  {
    hide IsLink, Distinct;
    assert forall i :: 0 <= i < |q.items| ==> q.items[i] in q.items;
    assert forall i :: 0 <= i < |q.out| ==> q.out[i] in q.out;
    assert forall i :: 0 <= i < |q.lost| ==> q.lost[i] in q.lost;
  }

  /** What one entry of the log does to the three places. */
  lemma TurnMembers(q: Deque, e: Link, id: nat)
    requires Distinct(q.items) && id !in q.items
    ensures var n := Turn(q, e, id);
      && Distinct(n.items)
      && (forall x :: x in n.items ==> (x in q.items && !(e.Take? && x == q.items[0]) && !e.Clear?) || (x == id && (e.Tail? || e.Head?)))
      && (forall x :: x in n.out <==> x in q.out || (e.Take? && q.items != [] && x == q.items[0]))
      && (forall x :: x in n.lost <==> x in q.lost || (e.Clear? && x in q.items))
  {
    var n := Turn(q, e, id);
    assert forall i :: 0 <= i < |q.items| ==> q.items[i] in q.items;
    if e.Head? {
      assert forall i :: 0 < i < |n.items| ==> n.items[i] == q.items[i - 1];
    }
  }

  lemma TurnInOrder(was: seq<Link>, log: seq<Link>, q: Deque)
    requires log != [] && was == log[..|log| - 1] && Sound(was, q) && InOrder(was, q)
    requires Sound(log, Turn(q, log[|log| - 1], |log| - 1))
    ensures InOrder(log, Turn(q, log[|log| - 1], |log| - 1))
  {
    hide Sound, InOrder;
    var n := Turn(q, log[|log| - 1], |log| - 1);
    match log[|log| - 1]
    case Tail(_) => TailInOrder(was, log, q, n);
    case Head(_) => HeadInOrder(was, log, q, n);
    case Take => if q.items != [] { TakeInOrder(was, log, q, n); } else { FewerInOrder(was, log, q, n); }
    case Clear => FewerInOrder(was, log, q, n);
  }

  lemma TailInOrder(was: seq<Link>, log: seq<Link>, q: Deque, n: Deque)
    requires log != [] && was == log[..|log| - 1] && Sound(was, q) && InOrder(was, q) && Sound(log, n)
    requires log[|was|].Tail? && n == q.(items := q.items + [|was|])
    ensures InOrder(log, n)
  {
    assert forall i :: 0 <= i < |q.items| ==> n.items[i] == q.items[i] && q.items[i] < |was|;
  }

  lemma HeadInOrder(was: seq<Link>, log: seq<Link>, q: Deque, n: Deque)
    requires log != [] && was == log[..|log| - 1] && Sound(was, q) && InOrder(was, q) && Sound(log, n)
    requires log[|was|].Head? && n == q.(items := [|was|] + q.items)
    ensures InOrder(log, n)
  {
    assert forall i :: 0 < i < |n.items| ==> n.items[i] == q.items[i - 1] && n.items[i] < |was|;
  }

  lemma FewerInOrder(was: seq<Link>, log: seq<Link>, q: Deque, n: Deque)
    requires log != [] && was == log[..|log| - 1] && Sound(was, q) && InOrder(was, q) && Sound(log, n)
    requires n.out == q.out && (n.items == q.items || n.items == [])
    ensures InOrder(log, n)
  {
  }

  lemma TakeInOrder(was: seq<Link>, log: seq<Link>, q: Deque, n: Deque)
    requires log != [] && was == log[..|log| - 1] && Sound(was, q) && InOrder(was, q) && Sound(log, n)
    requires q.items != [] && n == Deque(q.items[1..], q.out + [q.items[0]], q.lost)
    ensures InOrder(log, n)
  {
    assert forall i :: 0 <= i < |n.items| ==> n.items[i] == q.items[i + 1] && n.items[i] < |was|;
    assert forall i :: 0 <= i < |q.out| ==> n.out[i] == q.out[i] && n.out[i] < |was|;
    assert n.out[|q.out|] == q.items[0] < |was|;
    assert QueueOrder(log, n.items) by { hide LeftInOrder, LeftBefore; }
    assert LeftInOrder(log, n.out) by { hide QueueOrder; }
    assert LeftBefore(log, n.out, n.items) by { hide LeftInOrder; }
  }

  /** Whatever was done to it, the deque keeps its order. */
  lemma {:induction false} ReplayInOrder(log: seq<Link>)
    ensures Sound(log, Replay(log)) && InOrder(log, Replay(log))
    decreases |log|
  {
    hide Sound, InOrder, Turn;
    if log == [] {
      EmptyInOrder();
    } else {
      var was := log[..|log| - 1];
      ReplayInOrder(was);
      TurnSound(was, log, Replay(was));
      TurnInOrder(was, log, Replay(was));
    }
  }

  lemma EmptyInOrder()
    ensures Sound([], Deque([], [], [])) && InOrder([], Deque([], [], []))
  {
  }

  /** Every message linked is in exactly one place: still queued, taken, or thrown away by a reset. */
  lemma {:induction false} EveryMessageSomewhere(log: seq<Link>, x: nat)
    requires IsLink(log, x)
    ensures var q := Replay(log);
      && (x in q.items || x in q.out || x in q.lost)
      && !(x in q.items && x in q.out) && !(x in q.items && x in q.lost) && !(x in q.out && x in q.lost)
    decreases |log|
  {
    hide Sound, InOrder, Turn;
    ReplayInOrder(log);
    SoundApart(log, Replay(log), x);
    var was := log[..|log| - 1];
    if x < |log| - 1 { EveryMessageSomewhere(was, x); }
    TurnLosesNone(Replay(was), log[|log| - 1], |log| - 1, x);
  }

  lemma SoundApart(log: seq<Link>, q: Deque, x: nat)
    requires Sound(log, q)
    ensures !(x in q.items && x in q.out) && !(x in q.items && x in q.lost) && !(x in q.out && x in q.lost)
  {
  }

  lemma TurnLosesNone(q: Deque, e: Link, id: nat, x: nat)
    requires x in q.items || x in q.out || x in q.lost || (x == id && (e.Tail? || e.Head?))
    ensures var n := Turn(q, e, id); x in n.items || x in n.out || x in n.lost
  {
    if q.items != [] { assert q.items == [q.items[0]] + q.items[1..]; }
  }

  /** What was taken or thrown away stays so, and nothing returns to the queue. */
  lemma {:induction false} Gone(log: seq<Link>, n: nat, x: nat)
    requires n <= |log|
    ensures Replay(log[..n]).out <= Replay(log).out && Replay(log[..n]).lost <= Replay(log).lost
    ensures x < n && x in Replay(log).items ==> x in Replay(log[..n]).items
    decreases |log|
  {
    if n == |log| {
      assert log[..n] == log;
    } else {
      var was := log[..|log| - 1];
      assert was[..n] == log[..n];
      Gone(was, n, x);
    }
  }

  /** Ordinary messages leave in the order they were linked, whatever urgent messages and resets occur. */
  lemma OrdinaryInOrder(log: seq<Link>, i: nat, j: nat)
    requires i < j < |Replay(log).out|
    ensures var q := Replay(log).out;
      IsLink(log, q[i]) && IsLink(log, q[j]) && (log[q[i]].Tail? && log[q[j]].Tail? ==> q[i] < q[j])
  {
    ReplayInOrder(log);
  }

  /** h stands before x. */
  ghost predicate Ahead(s: seq<nat>, h: nat, x: nat)
  {
    exists i, j :: 0 <= i < j < |s| && s[i] == h && s[j] == x
  }

  /** The urgent message h, linked while x was queued, stands before x or has left. */
  ghost predicate Leads(q: Deque, h: nat, x: nat)
  {
    (x in q.items ==> Ahead(q.items, h, x) || h in q.out) && (x in q.out ==> Ahead(q.out, h, x))
  }

  lemma TurnLeads(was: seq<Link>, q: Deque, e: Link, id: nat, h: nat, x: nat)
    requires Sound(was, q) && Leads(q, h, x) && id == |was| && x < id
    ensures Leads(Turn(q, e, id), h, x)
  {
    var n := Turn(q, e, id);
    match e
    case Tail(_) =>
      if x in n.items && h !in n.out { AheadInside(q.items, n.items, 0, h, x); }
    case Head(_) =>
      if x in n.items && h !in n.out { AheadInside(q.items, n.items, 1, h, x); }
    case Take =>
      if q.items != [] { TakeLeads(was, q, h, x); }
    case Clear =>
  }

  lemma AheadInside(s: seq<nat>, t: seq<nat>, k: nat, h: nat, x: nat)
    requires Ahead(s, h, x) && k + |s| <= |t| && forall i :: 0 <= i < |s| ==> t[k + i] == s[i]
    ensures Ahead(t, h, x)
  {
    var i, j :| 0 <= i < j < |s| && s[i] == h && s[j] == x;
    assert t[k + i] == h && t[k + j] == x;
  }

  lemma NoneBeforeFirst(s: seq<nat>, h: nat)
    requires Distinct(s) && s != []
    ensures !Ahead(s, h, s[0])
  {
  }

  lemma TakeLeads(was: seq<Link>, q: Deque, h: nat, x: nat)
    requires Sound(was, q) && Leads(q, h, x) && q.items != []
    ensures Leads(Turn(q, Take, |was|), h, x)
  {
    var n := Turn(q, Take, |was|);
    var f := q.items[0];
    assert q.items == [f] + n.items && f in q.items;
    if x in n.items {
      assert x in q.items;
      if h !in q.out {
        var i, j :| 0 <= i < j < |q.items| && q.items[i] == h && q.items[j] == x;
        if i > 0 { assert n.items[i - 1] == h && n.items[j - 1] == x; }
      }
    }
    if x in n.out {
      if x == f {
        NoneBeforeFirst(q.items, h);
        var i :| 0 <= i < |q.out| && q.out[i] == h;
        assert n.out[i] == h && n.out[|q.out|] == x;
      } else {
        AheadInside(q.out, n.out, 0, h, x);
      }
    }
  }

  lemma {:induction false} LeadsOn(log: seq<Link>, h: nat, x: nat)
    requires h < |log| && log[h].Head? && x in Replay(log[..h]).items
    ensures Leads(Replay(log), h, x)
    decreases |log|
  {
    hide Leads, Turn, InOrder;
    var was := log[..|log| - 1];
    ReplayInOrder(was);
    if h == |log| - 1 {
      LinkedLeads(was, Replay(was), log[h].d, x);
    } else {
      assert was[..h] == log[..h];
      LeadsOn(was, h, x);
      ReplayInOrder(log[..h]);
      MemberKnown(log[..h], Replay(log[..h]), x);
      TurnLeads(was, Replay(was), log[|log| - 1], |log| - 1, h, x);
    }
  }

  lemma MemberKnown(log: seq<Link>, q: Deque, x: nat)
    requires Sound(log, q) && x in q.items
    ensures x < |log|
  {
  }

  lemma LinkedLeads(was: seq<Link>, q: Deque, d: Data, x: nat)
    requires Sound(was, q) && x in q.items
    ensures Leads(Turn(q, Head(d), |was|), |was|, x)
  {
    var j :| 0 <= j < |q.items| && q.items[j] == x;
    var s := [|was|] + q.items;
    assert s[0] == |was| && s[j + 1] == x;
    assert Ahead(s, |was|, x);
    assert Turn(q, Head(d), |was|) == q.(items := s);
  }

  /** An urgent message leaves before everything that was queued when it was linked. */
  lemma UrgentFirst(log: seq<Link>, h: nat, x: nat)
    requires h < |log| && log[h].Head? && x in Replay(log[..h]).items && x in Replay(log).out
    ensures Ahead(Replay(log).out, h, x)
  {
    LeadsOn(log, h, x);
  }

  /** A message is thrown away if and only if it was queued at a reset. */
  lemma {:induction false} LostIff(log: seq<Link>, x: nat)
    ensures x in Replay(log).lost <==> exists c :: 0 <= c < |log| && log[c] == Clear && x in Replay(log[..c]).items
    decreases |log|
  {
    hide Turn;
    if log != [] {
      var was := log[..|log| - 1];
      LostIff(was, x);
      TurnLost(Replay(was), log[|log| - 1], |log| - 1, x);
      if x in Replay(log).lost {
        if x in Replay(was).lost {
          var c :| 0 <= c < |was| && was[c] == Clear && x in Replay(was[..c]).items;
          assert was[..c] == log[..c];
        } else {
          assert log[|log| - 1] == Clear && x in Replay(log[..|log| - 1]).items;
        }
      }
      if c :| 0 <= c < |log| && log[c] == Clear && x in Replay(log[..c]).items {
        if c < |log| - 1 { assert was[c] == Clear && was[..c] == log[..c]; }
      }
    }
  }

  lemma TurnLost(q: Deque, e: Link, id: nat, x: nat)
    ensures x in Turn(q, e, id).lost <==> x in q.lost || (e == Clear && x in q.items)
  {
  }

  /** A reset throws away exactly what is queued: none of it is ever received, none of it stays. */
  lemma ResetDiscards(log: seq<Link>, c: nat, x: nat)
    requires c < |log| && log[c] == Clear && x in Replay(log[..c]).items
    ensures x in Replay(log).lost && x !in Replay(log).out && x !in Replay(log).items
    ensures Replay(log[..c + 1]).items == []
  {
    hide Sound, InOrder, Turn, Replay;
    LostIff(log, x);
    ReplayInOrder(log[..c]);
    MemberKnown(log[..c], Replay(log[..c]), x);
    ReplayInOrder(log);
    SoundApart(log, Replay(log), x);
    ReplayCleared(log, c);
    Gone(log, c + 1, x);
  }

  lemma ReplayCleared(log: seq<Link>, c: nat)
    requires c < |log| && log[c] == Clear
    ensures Replay(log[..c + 1]).items == []
  {
    assert log[..c + 1][..c] == log[..c];
  }

  // ----- the message queue is that deque

  function Bodies(m: Mq, queue: seq<Node>): seq<Data>
    requires forall i :: 0 <= i < |queue| ==> queue[i] < |m.body|
  {
    seq(|queue|, i requires 0 <= i < |queue| => m.body[queue[i]])
  }

  /** What was received, and what is queued, is what the plain deque gives for the log. */
  ghost predicate Fifo(m: Mq)
  {
    && (forall i :: 0 <= i < |m.queue| ==> m.queue[i] < |m.body|)
    && Sound(m.log, Replay(m.log))
    && m.got == Values(m.log, Replay(m.log).out)
    && Bodies(m, m.queue) == Values(m.log, Replay(m.log).items)
  }

  lemma QueueKnown(m: Mq)
    requires Inv(m)
    ensures forall i :: 0 <= i < |m.queue| ==> m.queue[i] < |m.body|
    ensures forall n :: n in m.sending ==> n < |m.body| && n !in m.queue
  {
    forall i | 0 <= i < |m.queue| ensures m.queue[i] < |m.body| {
      assert m.queue[i] in m.queue;
      assert Places(m, m.queue[i]) >= 1;
    }
    forall n | n in m.sending ensures n < |m.body| && n !in m.queue { assert Places(m, n) >= 1; }
  }

  /** A longer log says the same about its earlier links. */
  lemma ValuesGrow(log: seq<Link>, e: Link, ids: seq<nat>)
    requires Links(log, ids)
    ensures Links(log + [e], ids)
    ensures Values(log + [e], ids) == Values(log, ids)
  {
  }

  lemma Logged(log: seq<Link>, e: Link)
    requires Sound(log, Replay(log))
    ensures Replay(log + [e]) == Turn(Replay(log), e, |log|) && Sound(log + [e], Replay(log + [e]))
    ensures Links(log + [e], Replay(log).out) && Links(log + [e], Replay(log).items)
    ensures Values(log + [e], Replay(log).out) == Values(log, Replay(log).out)
    ensures Values(log + [e], Replay(log).items) == Values(log, Replay(log).items)
  {
    hide Sound;
    assert (log + [e])[..|log|] == log;
    ReplayInOrder(log + [e]);
    SoundKnown(log, Replay(log));
    ValuesGrow(log, e, Replay(log).out);
    ValuesGrow(log, e, Replay(log).items);
  }

  lemma SoundKnown(log: seq<Link>, q: Deque)
    requires Sound(log, q)
    ensures Links(log, q.items) && Links(log, q.out)
  {
  }

  lemma FifoLink(m: Mq, a: Mq, n: Node, e: Link)
    requires Fifo(m) && n < |m.body| && (e == Tail(m.body[n]) || e == Head(m.body[n]))
    requires a.body == m.body && a.log == m.log + [e] && a.got == m.got
    requires a.queue == if e.Tail? then m.queue + [n] else [n] + m.queue
    ensures Fifo(a)
  {
    hide Replay, Sound, Values, Bodies, IsLink;
    Logged(m.log, e);
    var q := Replay(a.log);
    SoundKnown(a.log, q);
    SoundKnown(m.log, Replay(m.log));
    BodiesJoin(m, a, n);
    LinkedIs(a.log, |m.log|, Replay(m.log).items);
  }

  lemma BodiesJoin(m: Mq, a: Mq, n: Node)
    requires (forall i :: 0 <= i < |m.queue| ==> m.queue[i] < |m.body|) && n < |m.body| && a.body == m.body
    ensures forall i :: 0 <= i < |m.queue| ==> (m.queue + [n])[i] < |a.body| && ([n] + m.queue)[i + 1] < |a.body|
    ensures Bodies(a, m.queue + [n]) == Bodies(m, m.queue) + [m.body[n]]
    ensures Bodies(a, [n] + m.queue) == [m.body[n]] + Bodies(m, m.queue)
  {
  }

  lemma LinkedIs(log: seq<Link>, x: nat, ids: seq<nat>)
    requires IsLink(log, x) && Links(log, ids)
    ensures Values(log, ids + [x]) == Values(log, ids) + [log[x].d]
    ensures Values(log, [x] + ids) == [log[x].d] + Values(log, ids)
  {
  }

  lemma FifoTake(m: Mq, a: Mq)
    requires Fifo(m) && m.queue != [] && a.queue == m.queue[1..] && a.body == m.body
    requires a.log == m.log + [Take] && a.got == m.got + [m.body[m.queue[0]]]
    ensures Fifo(a)
  {
    hide Replay, Sound, Values, Bodies, IsLink;
    Logged(m.log, Take);
    var q, p := Replay(a.log), Replay(m.log);
    SoundKnown(a.log, q);
    SoundKnown(m.log, p);
    BodiesTail(m, a);
    ValuesTail(a.log, p.items);
    LinkedIs(a.log, p.items[0], p.out);
  }

  lemma BodiesTail(m: Mq, a: Mq)
    requires (forall i :: 0 <= i < |m.queue| ==> m.queue[i] < |m.body|) && m.queue != [] && a.body == m.body
    ensures forall i :: 0 <= i < |m.queue[1..]| ==> m.queue[1..][i] < |a.body|
    ensures |Bodies(m, m.queue)| == |m.queue| && Bodies(m, m.queue)[0] == m.body[m.queue[0]]
    ensures Bodies(a, m.queue[1..]) == Bodies(m, m.queue)[1..]
  {
  }

  lemma ValuesTail(log: seq<Link>, ids: seq<nat>)
    requires Links(log, ids)
    ensures |Values(log, ids)| == |ids|
    ensures ids != [] ==> Values(log, ids)[0] == log[ids[0]].d && Values(log, ids[1..]) == Values(log, ids)[1..]
  {
  }

  lemma FifoClear(m: Mq, a: Mq)
    requires Fifo(m) && a.queue == [] && a.log == m.log + [Clear] && a.got == m.got
    ensures Fifo(a)
  {
    hide Replay, Sound;
    Logged(m.log, Clear);
  }

  lemma FifoStep(m: Mq, s: Step)
    requires Inv(m) && Allowed(m, s) && Fifo(m)
    ensures Fifo(Next(m, s))
  {
    hide Placed, Replay, Sound, Values, Fifo;
    var a := Next(m, s);
    QueueKnown(m);
    match s
    case LinkTail(n) => FifoLink(m, a, n, Tail(m.body[n]));
    case LinkHead(n) => FifoLink(m, a, n, Head(m.body[n]));
    case Receive(t, block, pos) => if m.queue != [] { FifoTake(m, a); } else { FifoSame(m, a); }
    case Reset => FifoClear(m, a);
    case _ => FifoSame(m, a);
  }

  lemma FifoSame(m: Mq, a: Mq)
    requires Fifo(m) && a.queue == m.queue && a.log == m.log && a.got == m.got && |a.body| == |m.body|
    requires forall i :: 0 <= i < |m.queue| && m.queue[i] < |m.body| ==> a.body[m.queue[i]] == m.body[m.queue[i]]
    ensures Fifo(a)
  {
    hide Replay, Sound, Values;
    assert Bodies(a, a.queue) == Bodies(m, m.queue);
  }

  /** In every run, urgent messages and resets included, the messages received and the messages queued are
      those of the plain deque on which the same links, takes and resets were done. */
  lemma {:induction false} AlwaysFifo(ms: seq<Mq>, ss: seq<Step>, k: nat)
    requires Run(ms, ss) && k < |ms|
    ensures Fifo(ms[k])
  {
    hide Fifo, Inv, Next, Allowed;
    if k == 0 {
      InitFifo(ms[0]);
    } else {
      AlwaysFifo(ms, ss, k - 1);
      AlwaysOnePlace(ms, ss, k - 1);
      FifoStep(ms[k - 1], ss[k - 1]);
    }
  }

  lemma InitFifo(m: Mq)
    requires Init(m)
    ensures Fifo(m)
  {
  }

  /** What a step does to the queue, seen from outside. */
  function Entry(m: Mq, s: Step): seq<Link>
    requires Allowed(m, s)
  {
    match s
    case LinkTail(n) => [Tail(m.body[n])]
    case LinkHead(n) => [Head(m.body[n])]
    case Receive(_, _, _) => if m.queue == [] then [] else [Take]
    case Reset => [Clear]
    case _ => []
  }

  function History(ms: seq<Mq>, ss: seq<Step>, k: nat): seq<Link>
    requires k <= |ss| <= |ms| && forall i :: 0 <= i < k ==> Allowed(ms[i], ss[i])
  {
    if k == 0 then [] else History(ms, ss, k - 1) + Entry(ms[k - 1], ss[k - 1])
  }

  /** The log is the history of the run's sends, urgent sends, takes and resets. */
  lemma {:induction false} LogIsHistory(ms: seq<Mq>, ss: seq<Step>, k: nat)
    requires Run(ms, ss) && k < |ms|
    ensures ms[k].log == History(ms, ss, k)
  {
    hide Allowed;
    if k > 0 {
      LogIsHistory(ms, ss, k - 1);
      EntryLogged(ms[k - 1], ss[k - 1]);
    }
  }

  lemma EntryLogged(m: Mq, s: Step)
    requires Allowed(m, s)
    ensures Next(m, s).log == m.log + Entry(m, s)
  {
  }

  // ----- the same, on the nodes

  /** The queue of a is the front of b's, with the same bodies. */
  ghost predicate FrontKept(a: Mq, b: Mq)
  {
    && a.queue <= b.queue && |a.body| == |b.body|
    && forall i :: 0 <= i < |a.queue| ==> a.queue[i] < |a.body| && b.body[a.queue[i]] == a.body[a.queue[i]]
  }

  lemma FrontThrough(a: Mq, b: Mq, c: Mq)
    requires FrontKept(a, b) && FrontKept(b, c)
    ensures FrontKept(a, c)
  {
    forall i | 0 <= i < |a.queue| ensures c.body[a.queue[i]] == a.body[a.queue[i]] {
      assert b.queue[i] == a.queue[i];
    }
  }

  /** Between two points of a run without receive, urgent message and reset the queue only grows at its
      end, and its bodies stay. */
  lemma {:induction false} FrontStays(ms: seq<Mq>, ss: seq<Step>, k: nat, j: nat)
    requires Run(ms, ss) && k <= j < |ms|
    requires forall i :: k <= i < j ==> !ss[i].LinkHead? && !ss[i].Receive? && !ss[i].Reset?
    ensures FrontKept(ms[k], ms[j])
    decreases j - k
  {
    hide Run, Inv, Next, Allowed;
    RunStep(ms, ss, k);
    AlwaysOnePlace(ms, ss, k);
    QueueKnown(ms[k]);
    if k < j {
      hide FrontKept;
      FrontStays(ms, ss, k, j - 1);
      RunStep(ms, ss, j - 1);
      AlwaysOnePlace(ms, ss, j - 1);
      FrontStep(ms[j - 1], ss[j - 1]);
      FrontThrough(ms[k], ms[j - 1], ms[j]);
    }
  }

  lemma RunStep(ms: seq<Mq>, ss: seq<Step>, k: nat)
    requires Run(ms, ss)
    ensures |ms| == |ss| + 1
    ensures k < |ss| ==> Allowed(ms[k], ss[k]) && ms[k + 1] == Next(ms[k], ss[k])
  {
  }

  lemma FrontStep(m: Mq, s: Step)
    requires Inv(m) && Allowed(m, s) && !s.LinkHead? && !s.Receive? && !s.Reset?
    ensures FrontKept(m, Next(m, s))
  {
    hide Placed;
    QueueKnown(m);
  }

  /** From the receive that takes it to its return to the free list, a node is in that receiver's hand and its
      body is the value recorded as received: the copy between the two critical sections finds it. */
  lemma {:induction false} BodyStaysInHand(ms: seq<Mq>, ss: seq<Step>, k: nat, j: nat)
    requires Run(ms, ss) && k < |ss| && k < j < |ms| && ss[k].Receive? && ms[k].queue != []
    requires forall i :: k < i < j ==> ss[i] != PutFree(ms[k].queue[0])
    ensures ms[k].queue[0] < |ms[k].body| && ms[k + 1].got == ms[k].got + [ms[k].body[ms[k].queue[0]]]
    ensures ms[k].queue[0] in ms[j].receiving && ms[j].receiving[ms[k].queue[0]] == ss[k].t
    ensures ms[k].queue[0] < |ms[j].body| && ms[j].body[ms[k].queue[0]] == ms[k].body[ms[k].queue[0]]
    decreases j
  {
    hide Run;
    RunStep(ms, ss, k);
    AlwaysOnePlace(ms, ss, k);
    QueueKnown(ms[k]);
    if k + 1 < j {
      BodyStaysInHand(ms, ss, k, j - 1);
      RunStep(ms, ss, j - 1);
      AlwaysOnePlace(ms, ss, j - 1);
      HandStep(ms[j - 1], ss[j - 1], ms[k].queue[0]);
    }
  }

  lemma HandStep(m: Mq, s: Step, n: Node)
    requires Inv(m) && Allowed(m, s) && n in m.receiving && s != PutFree(n)
    ensures var a := Next(m, s);
      n in a.receiving && a.receiving[n] == m.receiving[n] && |a.body| == |m.body| && n < |m.body| && a.body[n] == m.body[n]
  {
    hide Freed;
    assert Places(m, n) == 1;
    if m.queue != [] { assert m.queue[0] in m.queue; }
  }

  /** An urgent message is the next one received, however long that takes. */
  lemma UrgentNext(ms: seq<Mq>, ss: seq<Step>, k: nat, j: nat, n: Node)
    requires Run(ms, ss) && k < j < |ss| && ss[k] == LinkHead(n) && ss[j].Receive?
    requires forall i :: k < i < j ==> !ss[i].LinkHead? && !ss[i].Receive? && !ss[i].Reset?
    ensures n < |ms[k].body| && ms[j + 1].got == ms[j].got + [ms[k].body[n]]
    ensures n in ms[j + 1].receiving && ms[j + 1].receiving[n] == ss[j].t
  {
    hide Run;
    RunStep(ms, ss, k);
    RunStep(ms, ss, j);
    FrontStays(ms, ss, k + 1, j);
    var a := ms[k].(queue := [n] + ms[k].queue, sending := ms[k].sending - {n}, log := ms[k].log + [Head(ms[k].body[n])]);
    WakeKeeps(a);
    assert ms[k + 1].queue[0] == n;
  }

  // ----- no receiver sleeps on a message

  /** While receivers wait, at least as many woken ones are on their way as messages are queued. */
  ghost predicate Served(m: Mq)
  {
    && (m.waiting != [] ==> |m.queue| <= |m.woken|)
    && NoRepeat(m.waiting)
    && (forall t :: t in m.waiting ==> t !in m.woken)
  }

  lemma WakeServes(m: Mq, before: nat)
    requires before + 1 == |m.queue| && (m.waiting != [] ==> before <= |m.woken|)
    requires Served(m.(queue := []))
    ensures Served(Wake(m))
  {
    if m.waiting != [] {
      var w := Wake(m);
      var n := m.(queue := []);
      assert n.waiting[0] in n.waiting;
      assert m.waiting[0] !in m.woken;
      assert |w.woken| == |m.woken| + 1;
      assert m.waiting == [m.waiting[0]] + w.waiting;
    }
  }

  predicate NoRepeat(s: seq<Tid>)
  {
    forall i, j :: 0 <= i < j < |s| ==> s[i] != s[j]
  }

  lemma {:induction false} DropKeeps(s: seq<Tid>, t: Tid)
    requires NoRepeat(s)
    ensures NoRepeat(Drop(s, t))
    decreases |s|
  {
    if s != [] && s[0] != t {
      var tail, r := s[1..], Drop(s[1..], t);
      DropKeeps(tail, t);
      forall i | 0 <= i < |r| ensures r[i] != s[0] {
        assert r[i] in r && r[i] in tail;
        var k :| 0 <= k < |tail| && tail[k] == r[i];
        assert s[k + 1] == r[i];
      }
      assert forall i :: 0 < i < |Drop(s, t)| ==> Drop(s, t)[i] == r[i - 1];
    }
  }

  lemma ServedStep(m: Mq, s: Step)
    requires Served(m) && Allowed(m, s)
    ensures Served(Next(m, s))
  {
    match s
    case LinkTail(n) =>
      var a := m.(queue := m.queue + [n], sending := m.sending - {n}, log := m.log + [Tail(m.body[n])]);
      WakeServes(a, |m.queue|);
    case LinkHead(n) =>
      var a := m.(queue := [n] + m.queue, sending := m.sending - {n}, log := m.log + [Head(m.body[n])]);
      WakeServes(a, |m.queue|);
    case Receive(t, block, pos) => ServedReceive(m, t, block, pos);
    case Expire(t) => DropKeeps(m.waiting, t);
    case _ =>
  }

  lemma InsertKeeps(s: seq<Tid>, t: Tid, pos: nat)
    requires NoRepeat(s) && t !in s && pos <= |s|
    ensures var r := s[..pos] + [t] + s[pos..];
      NoRepeat(r) && forall x :: x in r <==> x in s || x == t
  {
    var r := s[..pos] + [t] + s[pos..];
    InsertUnique(s, t, pos, r);
    forall x ensures x in r <==> x in s || x == t { InsertMembers(s, t, pos, x); }
  }

  lemma InsertUnique(s: seq<Tid>, t: Tid, pos: nat, r: seq<Tid>)
    requires NoRepeat(s) && t !in s && pos <= |s| && |r| == |s| + 1
    requires (forall i :: 0 <= i < pos ==> r[i] == s[i]) && r[pos] == t && forall i :: pos < i < |r| ==> r[i] == s[i - 1]
    ensures NoRepeat(r)
  {
    forall i, j | 0 <= i < j < |r| ensures r[i] != r[j] {
      var a, b := if i < pos then i else i - 1, if j < pos then j else j - 1;
      if i == pos {
        assert r[j] == s[b] && s[b] in s;
      } else if j == pos {
        assert r[i] == s[a] && s[a] in s;
      } else {
        assert r[i] == s[a] && r[j] == s[b];
      }
    }
  }

  lemma InsertMembers(s: seq<Tid>, t: Tid, pos: nat, x: Tid)
    requires pos <= |s|
    ensures x in s[..pos] + [t] + s[pos..] <==> x in s || x == t
  {
    assert s == s[..pos] + s[pos..];
    assert x in s <==> x in s[..pos] || x in s[pos..];
  }

  lemma ServedReceive(m: Mq, t: Tid, block: bool, pos: nat)
    requires Served(m) && Allowed(m, Receive(t, block, pos))
    ensures Served(Next(m, Receive(t, block, pos)))
  {
    var w := m.woken - {t};
    assert |w| >= |m.woken| - 1 by { if t in m.woken { assert m.woken == w + {t}; } else { assert w == m.woken; } }
    var a := Next(m, Receive(t, block, pos));
    if m.queue == [] && block { InsertKeeps(m.waiting, t, pos); }
  }

  /** Nobody sleeps for nothing: in every run, while a receiver waits and a message is queued, a receiver
      that was woken for it has yet to run. */
  lemma {:induction false} NoSleepOnMessage(ms: seq<Mq>, ss: seq<Step>, k: nat)
    requires Run(ms, ss) && k < |ms|
    ensures Served(ms[k])
    ensures ms[k].waiting != [] && ms[k].queue != [] ==> ms[k].woken != {}
  {
    hide Next, Allowed;
    if k > 0 {
      NoSleepOnMessage(ms, ss, k - 1);
      ServedStep(ms[k - 1], ss[k - 1]);
    }
  }

  // ----- what a send sends

  /** The node lies on no list but the free one, and in nobody's hand. */
  predicate Unused(m: Mq, n: Node)
  {
    n < m.size && n !in m.queue && n !in m.sending && n !in m.receiving
  }

  /** A send finds the queue full if and only if every node is queued or in somebody's hand; otherwise it gets one
      that is not. */
  lemma TakeFreeIff(m: Mq, t: Tid)
    requires Inv(m) && Allowed(m, TakeFree(t))
    ensures var a := Next(m, TakeFree(t));
      if exists n :: Unused(m, n) then exists n :: Unused(m, n) && a == m.(free := a.free, sending := m.sending[n := t])
      else a == m
  {
    if m.free != [] {
      assert m.free[0] in m.free && Places(m, m.free[0]) == 1;
      assert Unused(m, m.free[0]);
    }
    if n :| Unused(m, n) { assert Places(m, n) == 1; }
  }

  /** Nobody but a copy into it changes a node's body. */
  lemma BodyStep(m: Mq, s: Step, n: Node)
    requires Inv(m) && Allowed(m, s) && n < |m.body|
    ensures |Next(m, s).body| == |m.body|
    ensures !(s.Fill? && s.n == n) ==> Next(m, s).body[n] == m.body[n]
    ensures s.Fill? && s.n == n ==> Next(m, s).body[n] == s.d
  {
    hide Placed;
  }

  /** In every run, what is linked is what was last copied into the node. */
  lemma {:induction false} BodyIsCopied(ms: seq<Mq>, ss: seq<Step>, i: nat, k: nat, n: Node)
    requires Run(ms, ss) && i < k < |ms| && ss[i].Fill? && ss[i].n == n
    requires forall x :: i < x < k ==> !(ss[x].Fill? && ss[x].n == n)
    ensures n < |ms[k].body| && ms[k].body[n] == ss[i].d
    decreases k - i
  {
    hide Run, Inv, Next;
    RunStep(ms, ss, k - 1);
    AlwaysOnePlace(ms, ss, k - 1);
    if k > i + 1 { BodyIsCopied(ms, ss, i, k - 1, n); }
    BodyStep(ms[k - 1], ss[k - 1], n);
  }

  lemma FilledIsLinked(ms: seq<Mq>, ss: seq<Step>, i: nat, k: nat, n: Node)
    requires Run(ms, ss) && i < k < |ss| && ss[i].Fill? && ss[i].n == n && (ss[k] == LinkTail(n) || ss[k] == LinkHead(n))
    requires forall x :: i < x < k ==> !(ss[x].Fill? && ss[x].n == n)
    ensures ms[k + 1].log == ms[k].log + [if ss[k].LinkTail? then Tail(ss[i].d) else Head(ss[i].d)]
  {
    hide Run, Inv;
    RunStep(ms, ss, k);
    BodyIsCopied(ms, ss, i, k, n);
  }

  /** A link wakes the receiver that stands first, and nobody else. */
  lemma LinkWakesFirst(m: Mq, s: Step)
    requires Allowed(m, s) && (s.LinkTail? || s.LinkHead?)
    ensures var a := Next(m, s);
      if m.waiting == [] then a.waiting == [] && a.woken == m.woken
      else m.waiting == [m.waiting[0]] + a.waiting && a.woken == m.woken + {m.waiting[0]}
  {
  }

  /** A receiver that finds no message waits, if it may, at the place its flag gives it; one that finds one takes it. */
  lemma ReceiveSettles(m: Mq, t: Tid, block: bool, pos: nat, x: Tid)
    requires Inv(m) && Allowed(m, Receive(t, block, pos))
    ensures var a := Next(m, Receive(t, block, pos));
      && (x in a.waiting <==> x in m.waiting || (x == t && block && m.queue == []))
      && (block && m.queue == [] ==> a.waiting[pos] == t)
      && (x in a.woken <==> x in m.woken && x != t)
      && (t in a.receiving.Values ==> m.queue != [] || t in m.receiving.Values)
      && (m.queue != [] ==> m.queue[0] in a.receiving && a.receiving[m.queue[0]] == t)
  {
    assert m.waiting == m.waiting[..pos] + m.waiting[pos..];
  }

  // ----- who waits, and in which order

  lemma {:induction false} DropOne(s: seq<Tid>, t: Tid) returns (k: nat)
    requires t in s
    ensures k < |s| && s[k] == t && Drop(s, t) == s[..k] + s[k + 1..]
  {
    k := 0;
    if s[0] != t {
      assert s == [s[0]] + s[1..];
      var j := DropOne(s[1..], t);
      k := j + 1;
      assert [s[0]] + (s[1..][..j] + s[1..][j + 1..]) == s[..k] + s[k + 1..];
    }
  }

  lemma LeftOut(s: seq<Tid>, k: nat, x: Tid)
    requires NoRepeat(s) && k < |s|
    ensures x in s[..k] + s[k + 1..] <==> x in s && x != s[k]
  {
    assert s == s[..k] + [s[k]] + s[k + 1..];
    if x in s && x != s[k] {
      var i :| 0 <= i < |s| && s[i] == x;
      assert x == (s[..k] + s[k + 1..])[if i < k then i else i - 1];
    }
  }

  /** A waiting receiver stops waiting exactly when its timer runs out, a message is linked while it stands first, or
      the queue is reset; only in the second case does it look for a message again. */
  lemma WaitEndsIff(m: Mq, s: Step, t: Tid)
    requires Served(m) && Allowed(m, s) && t in m.waiting
    ensures var a := Next(m, s);
      && (t !in a.waiting <==> s == Expire(t) || s.Reset? || ((s.LinkTail? || s.LinkHead?) && m.waiting[0] == t))
      && (t in a.woken <==> (s.LinkTail? || s.LinkHead?) && m.waiting[0] == t)
  {
    hide NoRepeat;
    match s
    case Receive(u, block, pos) => if block && m.queue == [] { InsertMembers(m.waiting, u, pos, t); }
    case Expire(u) =>
      var k := DropOne(m.waiting, u);
      LeftOut(m.waiting, k, t);
    case LinkTail(_) => FirstLeaves(m.waiting, t);
    case LinkHead(_) => FirstLeaves(m.waiting, t);
    case _ =>
  }

  lemma FirstLeaves(s: seq<Tid>, t: Tid)
    requires NoRepeat(s) && s != []
    ensures t in s[1..] <==> t in s && t != s[0]
  {
    LeftOut(s, 0, t);
    assert s[..0] + s[0 + 1..] == s[1..];
  }

  ghost predicate StandsBefore(s: seq<Tid>, x: Tid, y: Tid)
  {
    exists i, j :: 0 <= i < j < |s| && s[i] == x && s[j] == y
  }

  lemma StandAt(s: seq<Tid>, x: Tid, y: Tid) returns (i: nat, j: nat)
    requires StandsBefore(s, x, y)
    ensures i < j < |s| && s[i] == x && s[j] == y
  {
    i, j :| 0 <= i < j < |s| && s[i] == x && s[j] == y;
  }

  lemma DroppedKeepsOrder(s: seq<Tid>, k: nat, x: Tid, y: Tid)
    requires NoRepeat(s) && k < |s| && StandsBefore(s, x, y) && x != s[k] && y != s[k]
    ensures StandsBefore(s[..k] + s[k + 1..], x, y)
  {
    var i, j := StandAt(s, x, y);
    var r := s[..k] + s[k + 1..];
    assert r[if i < k then i else i - 1] == x && r[if j < k then j else j - 1] == y;
  }

  lemma InsertedKeepsOrder(s: seq<Tid>, t: Tid, pos: nat, x: Tid, y: Tid)
    requires pos <= |s| && StandsBefore(s, x, y)
    ensures StandsBefore(s[..pos] + [t] + s[pos..], x, y)
  {
    var i, j := StandAt(s, x, y);
    var r := s[..pos] + [t] + s[pos..];
    assert r[if i < pos then i else i + 1] == x && r[if j < pos then j else j + 1] == y;
  }

  /** Two receivers that go on waiting keep their order. */
  lemma WaitOrderKept(m: Mq, s: Step, x: Tid, y: Tid)
    requires Served(m) && Allowed(m, s) && StandsBefore(m.waiting, x, y) && x in Next(m, s).waiting && y in Next(m, s).waiting
    ensures StandsBefore(Next(m, s).waiting, x, y)
  {
    hide NoRepeat, StandsBefore;
    var i, j := StandAt(m.waiting, x, y);
    WaitEndsIff(m, s, x);
    WaitEndsIff(m, s, y);
    match s
    case Receive(t, block, pos) => if block && m.queue == [] { InsertedKeepsOrder(m.waiting, t, pos, x, y); }
    case Expire(t) =>
      var k := DropOne(m.waiting, t);
      DroppedKeepsOrder(m.waiting, k, x, y);
    case LinkTail(_) => FirstKeepsOrder(m.waiting, x, y);
    case LinkHead(_) => FirstKeepsOrder(m.waiting, x, y);
    case _ =>
  }

  lemma FirstKeepsOrder(s: seq<Tid>, x: Tid, y: Tid)
    requires NoRepeat(s) && StandsBefore(s, x, y) && x != s[0]
    ensures StandsBefore(s[1..], x, y)
  {
    var i, j := StandAt(s, x, y);
    assert s[1..][i - 1] == x && s[1..][j - 1] == y;
  }

  /** The node given back last is the next one given out. */
  lemma LastFreedIsNext(m: Mq, n: Node, t: Tid)
    requires n in m.receiving && Idle(Next(m, PutFree(n)), t)
    ensures var a := Next(m, PutFree(n)); Next(a, TakeFree(t)) == a.(free := m.free, sending := m.sending[n := t])
  {
  }
}
