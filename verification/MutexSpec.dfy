/** The mutex of ipc.c with priority inheritance, recursive holds and timed waits, interleaved by any number
    of threads. A smaller number is a better priority. */
module MutexSpec {

  import opened Wrappers

  type Tid = nat

  const NO_PRIORITY := 0xFF

  /** `prio` are the threads' current priorities; `byPrio` is RT_IPC_FLAG_PRIO against RT_IPC_FLAG_FIFO. */
  datatype Mutex = Mutex(
    value: int, owner: Option<Tid>, original: nat, hold: nat, waiting: seq<Tid>, prio: seq<nat>, byPrio: bool)

  datatype Step =
    | Take(t: Tid, block: bool)
    | Release(t: Tid)
    | Expire(i: nat)              // a waiting thread's timer
    | SetPriority(t: Tid, p: nat) // of a thread that neither holds the mutex nor waits for it

  predicate Thread(m: Mutex, t: Tid)
  {
    t < |m.prio|
  }

  predicate Allowed(m: Mutex, s: Step)
  {
    match s
    case Take(t, _) => Thread(m, t) && t !in m.waiting
    case Release(t) => Thread(m, t) && t !in m.waiting
    case Expire(i) => i < |m.waiting|
    case SetPriority(t, p) => Thread(m, t) && m.owner != Some(t) && t !in m.waiting
  }

  // ----- rt_ipc_list_suspend

  predicate AllThreads(prio: seq<nat>, list: seq<Tid>)
  {
    forall i :: 0 <= i < |list| ==> list[i] < |prio|
  }

  /** Where RT_IPC_FLAG_PRIO puts t: before the first thread of worse priority. */
  function Place(prio: seq<nat>, list: seq<Tid>, t: Tid): (k: nat)
    requires AllThreads(prio, list) && t < |prio|
    ensures k <= |list|
  {
    if list == [] || prio[t] < prio[list[0]] then 0 else 1 + Place(prio, list[1..], t)
  }

  function Suspended(prio: seq<nat>, list: seq<Tid>, t: Tid, byPrio: bool): seq<Tid>
    requires AllThreads(prio, list) && t < |prio|
  {
    if byPrio then var k := Place(prio, list, t); list[..k] + [t] + list[k..] else list + [t]
  }

  /** Best priority first. */
  predicate Ordered(prio: seq<nat>, list: seq<Tid>)
  {
    AllThreads(prio, list) && forall i, j :: 0 <= i < j < |list| ==> prio[list[i]] <= prio[list[j]]
  }

  lemma {:induction false} PlaceSplits(prio: seq<nat>, list: seq<Tid>, t: Tid, i: nat)
    requires Ordered(prio, list) && t < |prio| && i < |list|
    ensures i < Place(prio, list, t) <==> prio[list[i]] <= prio[t]
    decreases |list|
  {
    if i > 0 && prio[list[0]] <= prio[t] {
      assert Ordered(prio, list[1..]);
      PlaceSplits(prio, list[1..], t, i - 1);
    }
  }

  /** The suspend list of a PRIO object stays in order, behind equals first come first. */
  lemma SuspendOrdered(prio: seq<nat>, list: seq<Tid>, t: Tid)
    requires Ordered(prio, list) && t < |prio|
    ensures Ordered(prio, Suspended(prio, list, t, true))
  {
    hide Place;
    var k, r := Place(prio, list, t), Suspended(prio, list, t, true);
    forall i | 0 <= i < |list| ensures i < k <==> prio[list[i]] <= prio[t] { PlaceSplits(prio, list, t, i); }
    assert forall i :: 0 <= i < k ==> r[i] == list[i];
    assert r[k] == t;
    assert forall i :: k < i < |r| ==> r[i] == list[i - 1];
  }

  lemma SuspendElements(prio: seq<nat>, list: seq<Tid>, t: Tid, byPrio: bool, x: Tid)
    requires AllThreads(prio, list) && t < |prio|
    ensures x in Suspended(prio, list, t, byPrio) <==> x == t || x in list
  {
    var k := Place(prio, list, t);
    assert list == list[..k] + list[k..];
  }

  // ----- rt_mutex_take, rt_mutex_release, rt_thread_timeout

  /** The owner inherits a better priority. */
  function Boosted(m: Mutex, t: Tid): seq<nat>
    requires Thread(m, t) && m.owner.Some? && Thread(m, m.owner.value)
  {
    if m.prio[t] < m.prio[m.owner.value] then m.prio[m.owner.value := m.prio[t]] else m.prio
  }

  predicate Known(m: Mutex)
  {
    AllThreads(m.prio, m.waiting) && (m.owner.Some? ==> Thread(m, m.owner.value))
  }

  function Next(m: Mutex, s: Step): Mutex
    requires Known(m) && Allowed(m, s)
  {
    match s
    case Take(t, block) =>
      if m.owner == Some(t) then m.(hold := m.hold + 1)
      else if m.value > 0 then
        m.(value := m.value - 1, owner := Some(t), original := m.prio[t], hold := m.hold + 1)
      else if !block || m.owner.None? then m
      else
        var prio := Boosted(m, t);
        m.(prio := prio, waiting := Suspended(prio, m.waiting, t, m.byPrio))
    case Release(t) =>
      if m.owner != Some(t) then m
      else if m.hold > 1 then m.(hold := m.hold - 1)
      else
        var prio := m.prio[t := m.original];
        if m.waiting == [] then
          m.(value := m.value + 1, owner := None, original := NO_PRIORITY, hold := 0, prio := prio)
        else
          var w := m.waiting[0];
          m.(owner := Some(w), original := prio[w], hold := 1, waiting := m.waiting[1..], prio := prio)
    case Expire(i) => m.(waiting := Left(m.waiting, i))
    case SetPriority(t, p) => m.(prio := m.prio[t := p])
  }

  // ----- what always holds

  predicate NoRepeat(s: seq<Tid>)
  {
    forall i, j :: 0 <= i < j < |s| ==> s[i] != s[j]
  }

  /** The count, the owner and the holds tell the same story, and nobody waits for a free mutex. */
  predicate Consistent(m: Mutex)
  {
    && (m.value == 0 || m.value == 1)
    && (m.value == 1 <==> m.owner.None?) && (m.owner.None? <==> m.hold == 0)
    && (m.owner.None? ==> m.waiting == [] && m.original == NO_PRIORITY)
    && (m.owner.Some? ==> m.owner.value !in m.waiting)
    && Known(m) && NoRepeat(m.waiting)
  }

  /** The owner's priority is no worse than any waiter's. */
  predicate Inherited(m: Mutex)
    requires Known(m)
  {
    m.owner.Some? ==> forall i :: 0 <= i < |m.waiting| ==> m.prio[m.owner.value] <= m.prio[m.waiting[i]]
  }

  ghost predicate Inv(m: Mutex)
  {
    Consistent(m) && (m.byPrio ==> Ordered(m.prio, m.waiting) && Inherited(m))
  }

  /** Changing the priority of a thread outside the list keeps the list's order. */
  lemma Reprioritised(prio: seq<nat>, list: seq<Tid>, t: Tid, p: nat)
    requires AllThreads(prio, list) && t < |prio| && t !in list
    ensures AllThreads(prio[t := p], list) && (Ordered(prio, list) ==> Ordered(prio[t := p], list))
    ensures forall i :: 0 <= i < |list| ==> prio[t := p][list[i]] == prio[list[i]]
  {
    assert forall i :: 0 <= i < |list| ==> list[i] in list;
  }

  lemma TakeWaits(m: Mutex, t: Tid)
    requires Inv(m) && Allowed(m, Take(t, true)) && m.owner.Some? && m.owner != Some(t)
    ensures Inv(Next(m, Take(t, true)))
  {
    var o := m.owner.value;
    var prio, n := Boosted(m, t), Next(m, Take(t, true));
    assert m.prio[o := m.prio[o]] == m.prio;
    Reprioritised(m.prio, m.waiting, o, prio[o]);
    assert prio == m.prio[o := prio[o]];
    SuspendUnique(prio, m.waiting, t, m.byPrio);
    SuspendElements(prio, m.waiting, t, m.byPrio, o);
    if m.byPrio {
      SuspendOrdered(prio, m.waiting, t);
      forall i | 0 <= i < |n.waiting| ensures prio[o] <= prio[n.waiting[i]] {
        assert n.waiting[i] in n.waiting;
        SuspendElements(prio, m.waiting, t, true, n.waiting[i]);
      }
    }
  }

  lemma SuspendUnique(prio: seq<nat>, list: seq<Tid>, t: Tid, byPrio: bool)
    requires AllThreads(prio, list) && t < |prio| && t !in list && NoRepeat(list)
    ensures var r := Suspended(prio, list, t, byPrio); NoRepeat(r) && AllThreads(prio, r)
  {
    hide Place;
    assert forall i :: 0 <= i < |list| ==> list[i] in list;
  }

  lemma ReleaseInv(m: Mutex, t: Tid)
    requires Inv(m) && Allowed(m, Release(t))
    ensures Inv(Next(m, Release(t)))
  {
    if m.owner == Some(t) && m.hold == 1 {
      Reprioritised(m.prio, m.waiting, t, m.original);
      if m.waiting != [] {
        var n := Next(m, Release(t));
        assert m.waiting == [m.waiting[0]] + n.waiting;
        assert forall i :: 0 <= i < |n.waiting| ==> n.waiting[i] == m.waiting[i + 1];
      }
    }
  }

  lemma NextInv(m: Mutex, s: Step)
    requires Inv(m) && Allowed(m, s)
    ensures Inv(Next(m, s))
  {
    match s
    case Take(t, block) =>
      if m.owner.Some? && m.owner != Some(t) && block { TakeWaits(m, t); }
    case Release(t) => ReleaseInv(m, t);
    case Expire(i) => ExpireInv(m, i);
    case SetPriority(t, p) => Reprioritised(m.prio, m.waiting, t, p);
  }

  lemma ExpireInv(m: Mutex, i: nat)
    requires Inv(m) && i < |m.waiting|
    ensures Inv(Next(m, Expire(i)))
  {
    hide Ordered, NoRepeat, AllThreads;
    LeftList(m.waiting, i);
    LeftOrder(m.prio, m.waiting, i);
  }

  function Left(list: seq<Tid>, i: nat): seq<Tid>
    requires i < |list|
  {
    list[..i] + list[i + 1..]
  }

  lemma LeftList(list: seq<Tid>, i: nat)
    requires i < |list|
    ensures var r := Left(list, i);
      && |r| == |list| - 1 && (forall k :: 0 <= k < |r| ==> r[k] == list[if k < i then k else k + 1])
      && (NoRepeat(list) ==> NoRepeat(r)) && forall t :: t in r ==> t in list
  {
  }

  lemma LeftOrder(prio: seq<nat>, list: seq<Tid>, i: nat)
    requires AllThreads(prio, list) && i < |list|
    ensures AllThreads(prio, Left(list, i)) && (Ordered(prio, list) ==> Ordered(prio, Left(list, i)))
  {
    hide Left;
    LeftList(list, i);
  }

  // ----- runs

  function Created(prio: seq<nat>, byPrio: bool): Mutex
  {
    Mutex(1, None, NO_PRIORITY, 0, [], prio, byPrio)
  }

  ghost predicate Run(ms: seq<Mutex>, ss: seq<Step>)
  {
    && |ms| == |ss| + 1 && ms[0] == Created(ms[0].prio, ms[0].byPrio)
    && forall k :: 0 <= k < |ss| ==> Allowed(ms[k], ss[k]) && (Known(ms[k]) ==> ms[k + 1] == Next(ms[k], ss[k]))
  }

  /** In every run, with either flag the count, owner and holds agree; with the PRIO flag the suspend list is
      ordered and the owner's priority is never worse than a waiter's, also right after a hand-off. */
  lemma {:induction false} AlwaysInv(ms: seq<Mutex>, ss: seq<Step>, k: nat)
    requires Run(ms, ss) && k < |ms|
    ensures Inv(ms[k])
  {
    hide Next;
    if k > 0 {
      AlwaysInv(ms, ss, k - 1);
      assert Allowed(ms[k - 1], ss[k - 1]);
      NextInv(ms[k - 1], ss[k - 1]);
    }
  }

  /** Step j makes t the owner: it takes a free mutex, or is handed it. */
  predicate Acquires(m: Mutex, n: Mutex, t: Tid)
  {
    m.owner != Some(t) && n.owner == Some(t)
  }

  lemma AcquireRemembers(m: Mutex, s: Step, t: Tid)
    requires Inv(m) && Allowed(m, s) && Acquires(m, Next(m, s), t) && Thread(m, t)
    ensures Next(m, s).original == m.prio[t] && Thread(Next(m, s), t)
  {
    if s.Release? { Reprioritised(m.prio, m.waiting, s.t, m.original); }
  }

  /** While t stays the owner the remembered priority stays. */
  lemma {:induction false} OriginalStays(ms: seq<Mutex>, ss: seq<Step>, j: nat, k: nat, t: Tid)
    requires Run(ms, ss) && j < k < |ms| && forall i :: j < i <= k ==> ms[i].owner == Some(t)
    ensures ms[k].original == ms[j + 1].original
    decreases k - j
  {
    if k > j + 1 {
      OriginalStays(ms, ss, j, k - 1, t);
      AlwaysInv(ms, ss, k - 1);
      assert Allowed(ms[k - 1], ss[k - 1]);
      assert ms[k - 1 + 1] == Next(ms[k - 1], ss[k - 1]) && ms[k].owner == Some(t);
      OwnerKeepsOriginal(ms[k - 1], ss[k - 1], t);
    }
  }

  lemma OwnerKeepsOriginal(m: Mutex, s: Step, t: Tid)
    requires Inv(m) && Allowed(m, s) && m.owner == Some(t) && Next(m, s).owner == Some(t)
    ensures Next(m, s).original == m.original
  {
    if m.waiting != [] { assert m.waiting[0] in m.waiting; }
  }

  /** The outermost release gives the owner back the priority it had when it got the mutex, whatever it
      inherited and however often it was held in between. */
  lemma OutermostReleaseRestores(ms: seq<Mutex>, ss: seq<Step>, j: nat, k: nat, t: Tid)
    requires Run(ms, ss) && j < k < |ss| && Thread(ms[j], t) && Acquires(ms[j], ms[j + 1], t)
    requires forall i :: j < i <= k ==> ms[i].owner == Some(t)
    requires ss[k] == Release(t) && ms[k].hold == 1
    ensures Thread(ms[k + 1], t) && ms[k + 1].prio[t] == ms[j].prio[t] && ms[k + 1].owner != Some(t)
  {
    AlwaysInv(ms, ss, j);
    AlwaysInv(ms, ss, k);
    assert Allowed(ms[j], ss[j]) && Allowed(ms[k], ss[k]);
    AcquireRemembers(ms[j], ss[j], t);
    OriginalStays(ms, ss, j, k, t);
    if ms[k].waiting != [] { assert ms[k].waiting[0] in ms[k].waiting; }
  }

  // ----- what the owner inherits

  /** Step s makes a thread begin to wait for the mutex. */
  predicate Waits(m: Mutex, s: Step)
  {
    s.Take? && s.block && m.owner.Some? && m.owner != Some(s.t)
  }

  lemma OwnerPriorityStep(m: Mutex, s: Step, t: Tid)
    requires Inv(m) && Allowed(m, s) && m.owner == Some(t) && Next(m, s).owner == Some(t)
    ensures Thread(m, t) && Thread(Next(m, s), t)
    ensures Next(m, s).prio[t] == if Waits(m, s) && m.prio[s.t] < m.prio[t] then m.prio[s.t] else m.prio[t]
  {
    if m.waiting != [] { assert m.waiting[0] in m.waiting; }
  }

  /** While a thread owns the mutex its priority is the best of the one it had when it got the mutex and of
      those of all threads that began to wait since, whether they still wait or not. */
  lemma {:induction false} OwnerPriorityIsBest(ms: seq<Mutex>, ss: seq<Step>, j: nat, k: nat, t: Tid)
    requires Run(ms, ss) && j < k < |ms| && Thread(ms[j], t) && Acquires(ms[j], ms[j + 1], t)
    requires forall i :: j < i <= k ==> ms[i].owner == Some(t)
    ensures Thread(ms[k], t) && ms[k].prio[t] <= ms[j].prio[t]
    ensures forall i :: j < i < k && Waits(ms[i], ss[i]) ==> Thread(ms[i], ss[i].t) && ms[k].prio[t] <= ms[i].prio[ss[i].t]
    ensures ms[k].prio[t] == ms[j].prio[t]
      || exists i :: j < i < k && Waits(ms[i], ss[i]) && Thread(ms[i], ss[i].t) && ms[k].prio[t] == ms[i].prio[ss[i].t]
    decreases k - j
  {
    hide Inv, Next;
    AlwaysInv(ms, ss, k - 1);
    assert Allowed(ms[k - 1], ss[k - 1]);
    InvKnown(ms[k - 1]);
    assert ms[k] == Next(ms[k - 1], ss[k - 1]);
    if k == j + 1 {
      AcquireKeepsPriority(ms[j], ss[j], t);
    } else {
      OwnerPriorityIsBest(ms, ss, j, k - 1, t);
      OwnerPriorityStep(ms[k - 1], ss[k - 1], t);
      if Waits(ms[k - 1], ss[k - 1]) { assert Thread(ms[k - 1], ss[k - 1].t); }
    }
  }

  lemma InvKnown(m: Mutex)
    requires Inv(m)
    ensures Known(m)
  {
  }

  lemma AcquireKeepsPriority(m: Mutex, s: Step, t: Tid)
    requires Inv(m) && Allowed(m, s) && Acquires(m, Next(m, s), t) && Thread(m, t)
    ensures Thread(Next(m, s), t) && Next(m, s).prio[t] == m.prio[t]
  {
    if s.Release? { Reprioritised(m.prio, m.waiting, s.t, m.original); }
  }

  // ----- the FIFO flag

  /** A hand-off leaves the new owner no worse than the remaining waiters if and only if the longest waiting
      thread is also one of the best; with the FIFO flag nothing makes it so. */
  lemma HandOffIff(m: Mutex, t: Tid)
    requires Consistent(m) && m.owner == Some(t) && m.hold == 1 && m.waiting != []
    ensures Known(Next(m, Release(t)))
    ensures Inherited(Next(m, Release(t))) <==> forall i :: 0 <= i < |m.waiting| ==> m.prio[m.waiting[0]] <= m.prio[m.waiting[i]]
  {
    Reprioritised(m.prio, m.waiting, t, m.original);
    var n := Next(m, Release(t));
    assert forall i :: 0 <= i < |n.waiting| ==> n.waiting[i] == m.waiting[i + 1];
    if Inherited(n) {
      forall i | 0 <= i < |m.waiting| ensures m.prio[m.waiting[0]] <= m.prio[m.waiting[i]] {
        if i > 0 { assert n.waiting[i - 1] == m.waiting[i]; }
      }
    }
  }

  /** Three threads of priorities 5, 20 and 10 and a FIFO mutex: after the release the thread of priority 20
      owns it while the one of priority 10 waits. */
  lemma FifoInversion()
    ensures exists ms: seq<Mutex>, ss: seq<Step> :: Run(ms, ss) && !ms[0].byPrio && Known(ms[|ss|]) && !Inherited(ms[|ss|])
  {
    hide Next, Allowed, Known, Owned, Inherited;
    var m4 := HandedOn();
    var ss := [Take(0, true), Take(1, true), Take(2, true), Release(0)];
    var ms := [Created([5, 20, 10], false), Owned([]), Owned([1]), Owned([1, 2]), m4];
    forall k | 0 <= k < 4 ensures Allowed(ms[k], ss[k]) && Known(ms[k]) && ms[k + 1] == Next(ms[k], ss[k]) {
      if k == 0 {
        TakenFree();
      } else if k == 1 {
        WaitsBehind([], 1);
        assert [] + [1] == [1];
      } else if k == 2 {
        WaitsBehind([1], 2);
        assert [1] + [2] == [1, 2];
      }
    }
    assert Run(ms, ss);
  }

  /** Thread 0 of priority 5 owns the mutex and `list` waits. */
  function Owned(list: seq<Tid>): Mutex
  {
    Mutex(0, Some(0), 5, 1, list, [5, 20, 10], false)
  }

  lemma TakenFree()
    ensures var m := Created([5, 20, 10], false);
      Known(m) && Allowed(m, Take(0, true)) && Next(m, Take(0, true)) == Owned([])
  {
  }

  lemma WaitsBehind(list: seq<Tid>, t: Tid)
    requires t == 1 || t == 2
    requires AllThreads([5, 20, 10], list) && t !in list
    ensures Known(Owned(list)) && Allowed(Owned(list), Take(t, true)) && Next(Owned(list), Take(t, true)) == Owned(list + [t])
  {
  }

  lemma HandedOn() returns (n: Mutex)
    ensures var m := Owned([1, 2]);
      Known(m) && Allowed(m, Release(0)) && Next(m, Release(0)) == n && Known(n) && !Inherited(n)
  {
    var m := Owned([1, 2]);
    assert m.prio[0 := 5] == m.prio && m.waiting[1..] == [2];
    n := Owned([2]).(owner := Some(1), original := 20);
    assert n.prio[1] > n.prio[n.waiting[0]];
  }

  // ----- takes against releases

  /** What step s does to the number of holds of an owner t: a take counts up, a release down. */
  function Effect(s: Step, t: Tid): int
  {
    match s
    case Take(u, _) => if u == t then 1 else 0
    case Release(u) => if u == t then -1 else 0
    case _ => 0
  }

  /** Takes less releases by t since it got the mutex in step j, up to state k; getting it is the first take. */
  function Balance(ss: seq<Step>, t: Tid, j: nat, k: nat): int
    requires j < k <= |ss|
  {
    if k == j + 1 then 1 else Balance(ss, t, j, k - 1) + Effect(ss[k - 1], t)
  }

  lemma AcquireHoldsOnce(m: Mutex, s: Step, t: Tid)
    requires Inv(m) && Allowed(m, s) && Acquires(m, Next(m, s), t)
    ensures Next(m, s).hold == 1
  {
  }

  lemma OwnerStep(m: Mutex, s: Step, t: Tid)
    requires Inv(m) && Allowed(m, s) && m.owner == Some(t)
    ensures Next(m, s).owner == Some(t) <==> m.hold + Effect(s, t) > 0
    ensures Next(m, s).owner == Some(t) ==> Next(m, s).hold == m.hold + Effect(s, t)
  {
    if m.waiting != [] { assert m.waiting[0] in m.waiting; }
  }

  /** In every run, from the step that makes t the owner, t stays the owner as long as its takes since then
      outnumber its releases, and no longer; the hold count is the difference. */
  lemma {:induction false} HoldIsBalance(ms: seq<Mutex>, ss: seq<Step>, j: nat, k: nat, t: Tid)
    requires Run(ms, ss) && j < k < |ms| && Acquires(ms[j], ms[j + 1], t)
    ensures OwnsThrough(ms, t, j, k) <==> Outnumber(ss, t, j, k)
    ensures OwnsThrough(ms, t, j, k) ==> ms[k].hold == Balance(ss, t, j, k)
    decreases k - j
  {
    hide Inv, Next, Allowed, Effect;
    RunStep(ms, ss, k - 1);
    if k == j + 1 {
      AcquireHoldsOnce(ms[j], ss[j], t);
    } else {
      HoldIsBalance(ms, ss, j, k - 1, t);
      Through(ms, ss, t, j, k);
      hide OwnsThrough, Outnumber;
      if OwnsThrough(ms, t, j, k - 1) { OwnerStep(ms[k - 1], ss[k - 1], t); }
    }
  }

  /** t owns the mutex in every state behind j up to k. */
  ghost predicate OwnsThrough(ms: seq<Mutex>, t: Tid, j: nat, k: nat)
  {
    k < |ms| && forall i :: j < i <= k ==> ms[i].owner == Some(t)
  }

  /** The takes outnumber the releases at every point behind j up to k. */
  ghost predicate Outnumber(ss: seq<Step>, t: Tid, j: nat, k: nat)
  {
    k <= |ss| && forall i :: j < i <= k ==> Balance(ss, t, j, i) > 0
  }

  lemma Through(ms: seq<Mutex>, ss: seq<Step>, t: Tid, j: nat, k: nat)
    requires |ms| == |ss| + 1 && j + 1 < k < |ms|
    ensures OwnsThrough(ms, t, j, k) <==> OwnsThrough(ms, t, j, k - 1) && ms[k].owner == Some(t)
    ensures OwnsThrough(ms, t, j, k - 1) ==> ms[k - 1].owner == Some(t)
    ensures Outnumber(ss, t, j, k) <==> Outnumber(ss, t, j, k - 1) && Balance(ss, t, j, k) > 0
  {
    hide Balance;
  }

  lemma RunStep(ms: seq<Mutex>, ss: seq<Step>, k: nat)
    requires Run(ms, ss) && k < |ss|
    ensures Inv(ms[k]) && Known(ms[k]) && Allowed(ms[k], ss[k]) && ms[k + 1] == Next(ms[k], ss[k])
  {
    hide Inv, Next, Allowed;
    AlwaysInv(ms, ss, k);
    InvKnown(ms[k]);
  }

  /** The ownership ends with the release that brings the difference to zero, and with nothing else. */
  lemma OwnershipEndsIff(ms: seq<Mutex>, ss: seq<Step>, j: nat, k: nat, t: Tid)
    requires Run(ms, ss) && j < k < |ss| && Acquires(ms[j], ms[j + 1], t)
    requires OwnsThrough(ms, t, j, k)
    ensures ms[k + 1].owner != Some(t) <==> ss[k] == Release(t) && Balance(ss, t, j, k + 1) == 0
  {
    hide Inv, Next, Allowed;
    HoldIsBalance(ms, ss, j, k, t);
    RunStep(ms, ss, k);
    OwnerStep(ms[k], ss[k], t);
    OwnerHolds(ms[k]);
  }

  lemma OwnerHolds(m: Mutex)
    requires Inv(m) && m.owner.Some?
    ensures m.hold >= 1
  {
  }

  // ----- who gets it

  /** A take succeeds on a free mutex and for its owner; otherwise the thread waits, if it may. */
  lemma TakeSettles(m: Mutex, t: Tid, block: bool, x: Tid)
    requires Inv(m) && Allowed(m, Take(t, block))
    ensures var n := Next(m, Take(t, block));
      && (n.owner == Some(t) <==> m.owner.None? || m.owner == Some(t))
      && (m.owner.Some? ==> n.owner == m.owner)
      && (x in n.waiting <==> x in m.waiting || (x == t && Waits(m, Take(t, block))))
      && (Waits(m, Take(t, block)) || n.owner == Some(t) || n == m)
  {
    if Waits(m, Take(t, block)) { SuspendElements(Boosted(m, t), m.waiting, t, m.byPrio, x); }
  }

  /** a stands before b. */
  ghost predicate Ahead(s: seq<Tid>, a: Tid, b: Tid)
  {
    exists i, j :: 0 <= i < j < |s| && s[i] == a && s[j] == b
  }

  /** A thread that begins to wait stands behind those that wait already, except that a PRIO list puts it before
      all of worse priority. */
  lemma JoinsBehind(m: Mutex, s: Step, a: Tid)
    requires Inv(m) && Allowed(m, s) && Waits(m, s) && a in m.waiting && Thread(m, a)
    ensures var w := Next(m, s).waiting;
      if !m.byPrio || m.prio[a] <= m.prio[s.t] then Ahead(w, a, s.t) else Ahead(w, s.t, a)
  {
    hide Place, Ordered, Boosted;
    var t, prio := s.t, Boosted(m, s.t);
    var i :| 0 <= i < |m.waiting| && m.waiting[i] == a;
    BoostOthers(m, t);
    var k := |m.waiting|;
    if m.byPrio {
      BoostOrdered(m, t);
      PlaceSplits(prio, m.waiting, t, i);
      k := Place(prio, m.waiting, t);
    } else {
      assert m.waiting + [t] == m.waiting[..k] + [t] + m.waiting[k..];
    }
    InsertAhead(m.waiting, t, k, i);
  }

  lemma InsertAhead(s: seq<Tid>, t: Tid, k: nat, i: nat)
    requires k <= |s| && i < |s|
    ensures var r := s[..k] + [t] + s[k..]; if i < k then Ahead(r, s[i], t) else Ahead(r, t, s[i])
  {
    var r := s[..k] + [t] + s[k..];
    assert r[k] == t && r[if i < k then i else i + 1] == s[i];
  }

  lemma InsertKeepsOrder(s: seq<Tid>, t: Tid, k: nat, i: nat, j: nat)
    requires k <= |s| && i < j < |s|
    ensures Ahead(s[..k] + [t] + s[k..], s[i], s[j])
  {
    var r := s[..k] + [t] + s[k..];
    assert r[if i < k then i else i + 1] == s[i] && r[if j < k then j else j + 1] == s[j];
  }

  lemma BoostOthers(m: Mutex, t: Tid)
    requires Inv(m) && Thread(m, t) && m.owner.Some? && m.owner != Some(t)
    ensures var prio := Boosted(m, t);
      |prio| == |m.prio| && prio[t] == m.prio[t] && AllThreads(prio, m.waiting)
      && forall x :: x in m.waiting ==> x < |prio| && prio[x] == m.prio[x]
  {
  }

  lemma BoostOrdered(m: Mutex, t: Tid)
    requires Inv(m) && m.byPrio && Thread(m, t) && m.owner.Some?
    ensures Ordered(Boosted(m, t), m.waiting)
  {
    var o := m.owner.value;
    assert m.prio[o := m.prio[o]] == m.prio;
    Reprioritised(m.prio, m.waiting, o, Boosted(m, t)[o]);
    assert Boosted(m, t) == m.prio[o := Boosted(m, t)[o]];
  }

  /** Two threads that go on waiting keep their order and their priorities. */
  lemma OrderKept(m: Mutex, s: Step, a: Tid, b: Tid)
    requires Inv(m) && Allowed(m, s) && Ahead(m.waiting, a, b) && a in Next(m, s).waiting && b in Next(m, s).waiting
    ensures Ahead(Next(m, s).waiting, a, b)
  {
    hide Place, Ordered, Ahead, Inherited, Boosted, NoRepeat;
    var i, j := AheadAt(m.waiting, a, b);
    match s
    case Take(t, block) =>
      if Waits(m, s) {
        BoostOthers(m, t);
        SuspendKeepsOrder(Boosted(m, t), m.waiting, t, m.byPrio, i, j);
      }
    case Release(t) => LeavesKept(m.waiting, Next(m, s).waiting, 0, i, j);
    case Expire(k) => LeavesKept(m.waiting, Next(m, s).waiting, k, i, j);
    case SetPriority(_, _) =>
  }

  lemma AheadAt(s: seq<Tid>, a: Tid, b: Tid) returns (i: nat, j: nat)
    requires Ahead(s, a, b)
    ensures i < j < |s| && s[i] == a && s[j] == b
  {
    i, j :| 0 <= i < j < |s| && s[i] == a && s[j] == b;
  }

  lemma SuspendKeepsOrder(prio: seq<nat>, list: seq<Tid>, t: Tid, byPrio: bool, i: nat, j: nat)
    requires AllThreads(prio, list) && t < |prio| && i < j < |list|
    ensures Ahead(Suspended(prio, list, t, byPrio), list[i], list[j])
  {
    hide Place, Ahead;
    var k := if byPrio then Place(prio, list, t) else |list|;
    assert !byPrio ==> list + [t] == list[..k] + [t] + list[k..];
    InsertKeepsOrder(list, t, k, i, j);
  }

  lemma LeavesKept(s: seq<Tid>, r: seq<Tid>, k: nat, i: nat, j: nat)
    requires NoRepeat(s) && i < j < |s| && s[i] in r && s[j] in r
    requires r == s || (k < |s| && r == s[..k] + s[k + 1..])
    ensures Ahead(r, s[i], s[j])
  {
    if r != s {
      LeftOut(s, k);
      var p, q := if i < k then i else i - 1, if j < k then j else j - 1;
      assert i != k && j != k;
      assert r[p] == s[i] && r[q] == s[j];
    }
  }

  lemma LeftOut(s: seq<Tid>, k: nat)
    requires NoRepeat(s) && k < |s|
    ensures s[k] !in s[..k] + s[k + 1..]
  {
  }

  /** Nobody's priority changes while it waits. */
  lemma WaitersKeepPriority(m: Mutex, s: Step, a: Tid)
    requires Inv(m) && Allowed(m, s) && a in m.waiting && Thread(m, a)
    ensures Next(m, s).byPrio == m.byPrio && Thread(Next(m, s), a) && (a in Next(m, s).waiting ==> Next(m, s).prio[a] == m.prio[a])
  {
    if s.Release? && m.waiting != [] { assert m.waiting[0] in m.waiting; }
  }

  /** t waits from state j to state k. */
  ghost predicate WaitsFrom(ms: seq<Mutex>, t: Tid, j: nat, k: nat)
  {
    k < |ms| && forall i :: j <= i <= k ==> t in ms[i].waiting
  }

  /** In every run, of two waiting threads the one that began earlier stands before the other, except that with
      the PRIO flag the better priority goes first; equals stand in the order in which they came. */
  lemma {:induction false} WaitOrder(ms: seq<Mutex>, ss: seq<Step>, i: nat, k: nat, a: Tid, b: Tid)
    requires Run(ms, ss) && i < k < |ms| && Waits(ms[i], ss[i]) && ss[i].t == b
    requires WaitsFrom(ms, a, i, k) && WaitsFrom(ms, b, i + 1, k)
    ensures Thread(ms[k], a) && Thread(ms[k], b)
    ensures if !ms[k].byPrio || ms[k].prio[a] <= ms[k].prio[b] then Ahead(ms[k].waiting, a, b) else Ahead(ms[k].waiting, b, a)
    decreases k - i
  {
    hide Inv, Next, Allowed, Ahead;
    RunStep(ms, ss, k - 1);
    WaiterKnown(ms[k - 1], a);
    if k == i + 1 {
      JoinsBehind(ms[i], ss[i], a);
      JoinerKeepsPriority(ms[i], ss[i]);
      WaitersKeepPriority(ms[i], ss[i], a);
    } else {
      WaitOrder(ms, ss, i, k - 1, a, b);
      WaiterKnown(ms[k - 1], b);
      WaitersKeepPriority(ms[k - 1], ss[k - 1], a);
      WaitersKeepPriority(ms[k - 1], ss[k - 1], b);
      if !ms[k].byPrio || ms[k].prio[a] <= ms[k].prio[b] {
        OrderKept(ms[k - 1], ss[k - 1], a, b);
      } else {
        OrderKept(ms[k - 1], ss[k - 1], b, a);
      }
    }
  }

  lemma WaiterKnown(m: Mutex, a: Tid)
    requires Inv(m) && a in m.waiting
    ensures Thread(m, a)
  {
  }

  lemma JoinerKeepsPriority(m: Mutex, s: Step)
    requires Inv(m) && Allowed(m, s) && Waits(m, s)
    ensures Thread(m, s.t) && Thread(Next(m, s), s.t) && Next(m, s).prio[s.t] == m.prio[s.t]
  {
    BoostOthers(m, s.t);
  }

  /** The release that ends an ownership hands the mutex to the waiting thread that stands before all others, or
      leaves it free if nobody waits. */
  lemma HandsToFirst(m: Mutex, t: Tid)
    requires Inv(m) && Allowed(m, Release(t)) && m.owner == Some(t) && Next(m, Release(t)).owner != Some(t)
    ensures var n := Next(m, Release(t));
      if m.waiting == [] then n.owner == None
      else n.owner.Some? && n.owner.value in m.waiting && n.owner.value !in n.waiting
           && (forall x :: x in m.waiting && x != n.owner.value ==> x in n.waiting && Ahead(m.waiting, n.owner.value, x))
  {
    if m.waiting != [] {
      var n := Next(m, Release(t));
      forall x | x in m.waiting && x != m.waiting[0] ensures x in n.waiting && Ahead(m.waiting, m.waiting[0], x) {
        var i :| 0 <= i < |m.waiting| && m.waiting[i] == x;
        assert n.waiting[i - 1] == x;
      }
      LeftOut(m.waiting, 0);
    }
  }

  /** A thread stops waiting exactly when its own timer runs out or, as the first of the list, it is handed the
      mutex; the timer changes nothing else. */
  lemma WaitEndsIff(m: Mutex, s: Step, a: Tid)
    requires Inv(m) && Allowed(m, s) && a in m.waiting
    ensures var n := Next(m, s);
      && (a !in n.waiting <==> (s.Expire? && m.waiting[s.i] == a) || (m.waiting[0] == a && n.owner == Some(a)))
      && (s.Expire? ==> n.owner == m.owner && n.hold == m.hold && n.original == m.original && n.prio == m.prio)
  {
    hide Ordered, Inherited, Boosted;
    match s
    case Take(t, block) =>
      if Waits(m, s) { TakeSettles(m, t, block, a); }
    case Release(_) => StaysUnless(m.waiting, 0, a);
    case Expire(i) => StaysUnless(m.waiting, i, a);
    case SetPriority(_, _) =>
  }

  lemma StaysUnless(s: seq<Tid>, k: nat, a: Tid)
    requires NoRepeat(s) && k < |s| && a in s
    ensures a in s[..k] + s[k + 1..] <==> a != s[k]
  {
    LeftOut(s, k);
    assert s == s[..k] + [s[k]] + s[k + 1..];
  }

  /** What one step makes of a thread's priority: the owner inherits from a better waiter and gets its own
      priority back when the ownership ends; everybody else's changes only when it is set. */
  lemma PriorityStep(m: Mutex, s: Step, t: Tid)
    requires Inv(m) && Allowed(m, s) && Thread(m, t)
    ensures var n := Next(m, s);
      Thread(n, t) && n.prio[t] ==
        if s.SetPriority? && s.t == t then s.p
        else if m.owner == Some(t) && n.owner != Some(t) then m.original
        else if m.owner == Some(t) && Waits(m, s) then if m.prio[s.t] < m.prio[t] then m.prio[s.t] else m.prio[t]
        else m.prio[t]
  {
    if m.waiting != [] { assert m.waiting[0] in m.waiting; }
  }
}
