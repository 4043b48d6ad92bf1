/** The scheduler of scheduler.c and the thread operations of thread.c that move threads between its lists:
    32 ready queues, a bitmap of the non-empty ones, and the suspend lists of any number of IPC objects.
    A smaller number is a better priority. */
module SchedulerSpec {

  import opened FindFirstSet
  import opened Wrappers

  const RT_THREAD_PRIORITY_MAX := 32

  type Prio = p: nat | p < RT_THREAD_PRIORITY_MAX
  type Tid = nat

  datatype Stat = Init | Ready | Suspend | Close
  datatype Thread = Thread(stat: Stat, cur: Prio, init: Prio, mask: bv32)

  /** `queue` is rt_thread_priority_table, `group` the ready bitmap, `lists` the suspend lists. */
  datatype Sched = Sched(
    queue: seq<seq<Tid>>, group: bv32, lists: seq<seq<Tid>>, defunct: seq<Tid>,
    thread: seq<Thread>, current: Option<Tid>, nest: nat)

  // ----- the bitmap

  function Num(p: Prio): (b: bv8)
    ensures b < 32
  {
    p as bv8
  }

  lemma NumInjective(p: Prio, q: Prio)
    ensures Num(p) == Num(q) <==> p == q
  {
    hide Num;
    NumAsNat(p);
    NumAsNat(q);
  }

  lemma NumAsNat(p: Prio)
    ensures Num(p) as nat == p
  {
  }

  function Shifted(b: bv8): bv32
    requires b < 32
  {
    1 << b
  }

  function Mask(p: Prio): bv32 { Shifted(Num(p)) }

  predicate BitSet(g: bv32, p: Prio) { Bit(g, Num(p)) }

  function SetBits(g: bv32, m: bv32): bv32 { g | m }

  function ClearBits(g: bv32, m: bv32): bv32 { g & !m }

  lemma GroupBits(g: bv32, p: Prio, q: Prio)
    ensures BitSet(SetBits(g, Mask(p)), q) <==> BitSet(g, q) || p == q
    ensures BitSet(ClearBits(g, Mask(p)), q) <==> BitSet(g, q) && p != q
  {
    hide Mask, SetBits, ClearBits, Common, BitSet;
    BitIsMask(g, q);
    BitIsMask(SetBits(g, Mask(p)), q);
    BitIsMask(ClearBits(g, Mask(p)), q);
    MasksApart(p, q);
    if p == q { SameMask(g, Mask(p)); } else { OtherMask(g, Mask(p), Mask(q)); }
  }

  function Common(g: bv32, m: bv32): bv32 { g & m }

  lemma BitIsMask(g: bv32, q: Prio)
    ensures BitSet(g, q) <==> Common(g, Mask(q)) != 0
  {
    hide Num, Shifted, Bit;
    ShiftedBit(g, Num(q));
  }

  lemma ShiftedBit(g: bv32, b: bv8)
    requires b < 32
    ensures Bit(g, b) <==> Common(g, Shifted(b)) != 0
  {
  }

  lemma MasksApart(p: Prio, q: Prio)
    ensures Mask(p) != 0 && (p != q ==> Common(Mask(p), Mask(q)) == 0)
  {
    hide Num, Shifted, Common;
    NumInjective(p, q);
    ShiftsApart(Num(p), Num(q));
  }

  lemma ShiftsApart(a: bv8, b: bv8)
    requires a < 32 && b < 32
    ensures Shifted(a) != 0 && (a != b ==> Common(Shifted(a), Shifted(b)) == 0)
  {
  }

  lemma SameMask(g: bv32, m: bv32)
    ensures Common(SetBits(g, m), m) == m && Common(ClearBits(g, m), m) == 0
  {
  }

  lemma OtherMask(g: bv32, m: bv32, b: bv32)
    requires Common(m, b) == 0
    ensures Common(SetBits(g, m), b) == Common(g, b) && Common(ClearBits(g, m), b) == Common(g, b)
  {
    hide Common, SetBits, ClearBits;
    OtherSet(g, m, b);
    OtherClear(g, m, b);
  }

  lemma OtherSet(g: bv32, m: bv32, b: bv32)
    requires Common(m, b) == 0
    ensures Common(SetBits(g, m), b) == Common(g, b)
  {
  }

  lemma OtherClear(g: bv32, m: bv32, b: bv32)
    requires Common(m, b) == 0
    ensures Common(ClearBits(g, m), b) == Common(g, b)
  {
  }

  // ----- list operations

  function Without(s: seq<Tid>, t: Tid): (r: seq<Tid>)
    ensures t !in r && forall x :: x in r <==> x in s && x != t
  {
    if s == [] then [] else if s[0] == t then Without(s[1..], t) else [s[0]] + Without(s[1..], t)
  }

  predicate NoRepeat(s: seq<Tid>)
  {
    forall i, j :: 0 <= i < j < |s| ==> s[i] != s[j]
  }

  lemma {:induction false} WithoutNoRepeat(s: seq<Tid>, t: Tid)
    requires NoRepeat(s)
    ensures NoRepeat(Without(s, t))
    decreases |s|
  {
    if s != [] {
      var tail, r := s[1..], Without(s[1..], t);
      WithoutNoRepeat(tail, t);
      forall i | 0 <= i < |r| ensures r[i] != s[0] {
        assert r[i] in r && r[i] in tail;
        var k :| 0 <= k < |tail| && tail[k] == r[i];
        assert s[k + 1] == r[i];
      }
      if s[0] != t { assert forall i :: 0 < i < |Without(s, t)| ==> Without(s, t)[i] == r[i - 1]; }
    }
  }

  function WithoutAll(ls: seq<seq<Tid>>, t: Tid): (r: seq<seq<Tid>>)
    ensures |r| == |ls| && forall i :: 0 <= i < |ls| ==> r[i] == Without(ls[i], t)
  {
    seq(|ls|, i requires 0 <= i < |ls| => Without(ls[i], t))
  }

  // ----- scheduler.c

  predicate AllKnown(s: Sched)
  {
    |s.queue| == RT_THREAD_PRIORITY_MAX
  }

  predicate Known(s: Sched, t: Tid)
  {
    t < |s.thread| && AllKnown(s)
  }

  function SetThread(s: Sched, t: Tid, th: Thread): Sched
    requires t < |s.thread|
  {
    s.(thread := s.thread[t := th])
  }

  /** rt_schedule_insert_thread of a thread that is on no list. */
  function InsertThread(s: Sched, t: Tid): Sched
    requires Known(s, t)
  {
    var th := s.thread[t].(stat := Ready);
    SetThread(s, t, th).(queue := s.queue[th.cur := s.queue[th.cur] + [t]], group := SetBits(s.group, th.mask))
  }

  /** rt_schedule_remove_thread: off the ready queue, whose bit goes when it is left empty. */
  function RemoveThread(s: Sched, t: Tid): Sched
    requires Known(s, t)
  {
    var th := s.thread[t];
    var q := Without(s.queue[th.cur], t);
    s.(queue := s.queue[th.cur := q], group := if q == [] then ClearBits(s.group, th.mask) else s.group)
  }

  /** The best priority with a ready thread, by the bitmap. */
  function HighestReady(s: Sched): Prio
    requires s.group != 0
  {
    FfsIsLowest(s.group);
    (Ffs(s.group) - 1) as nat
  }

  /** There is a thread to pick; the invariant leaves only the bitmap to look at. */
  predicate Pickable(s: Sched)
  {
    s.group != 0 && AllKnown(s) && s.queue[HighestReady(s)] != []
  }

  /** rt_schedule, unless the scheduler is locked. */
  function Schedule(s: Sched): Sched
  {
    if s.nest == 0 && Pickable(s) then s.(current := Some(s.queue[HighestReady(s)][0])) else s
  }

  // ----- thread.c

  /** rt_thread_resume */
  function Resume(s: Sched, t: Tid): Sched
    requires Known(s, t)
  {
    if !s.thread[t].stat.Suspend? then s else InsertThread(s.(lists := WithoutAll(s.lists, t)), t)
  }

  /** rt_thread_suspend */
  function SuspendThread(s: Sched, t: Tid): Sched
    requires Known(s, t)
  {
    if !s.thread[t].stat.Ready? then s
    else RemoveThread(SetThread(s, t, s.thread[t].(stat := Suspend)), t)
  }

  /** rt_ipc_list_suspend of a running thread: on list l, at the place its flag gives it. */
  function SuspendOn(s: Sched, t: Tid, l: nat, pos: nat): Sched
    requires Known(s, t) && l < |s.lists| && pos <= |s.lists[l]|
  {
    if !s.thread[t].stat.Ready? then s
    else
      var a := SuspendThread(s, t);
      a.(lists := a.lists[l := a.lists[l][..pos] + [t] + a.lists[l][pos..]])
  }

  /** rt_thread_startup of an initialised thread. */
  function Startup(s: Sched, t: Tid): Sched
    requires Known(s, t)
  {
    var th := s.thread[t];
    Resume(SetThread(s, t, th.(cur := th.init, mask := Mask(th.init), stat := Suspend)), t)
  }

  /** rt_thread_timeout */
  function Timeout(s: Sched, t: Tid): Sched
    requires Known(s, t)
  {
    InsertThread(s.(lists := WithoutAll(s.lists, t)), t)
  }

  /** rt_thread_yield of the current thread. */
  function Yield(s: Sched, t: Tid): Sched
    requires Known(s, t)
  {
    var q := s.queue[s.thread[t].cur];
    if s.thread[t].stat.Ready? && |q| > 1 then
      s.(queue := s.queue[s.thread[t].cur := Without(q, t) + [t]])
    else s
  }

  /** rt_thread_control(CHANGE_PRIORITY) */
  function ChangePriority(s: Sched, t: Tid, p: Prio): Sched
    requires Known(s, t)
  {
    if s.thread[t].stat.Ready? then
      var a := RemoveThread(s, t);
      InsertThread(SetThread(a, t, a.thread[t].(cur := p, mask := Mask(p))), t)
    else SetThread(s, t, s.thread[t].(cur := p, mask := Mask(p)))
  }

  /** rt_thread_exit, and deletion or detachment of a started thread: off every list, onto the defunct
      list if its object is to be cleaned up later. */
  function Exit(s: Sched, t: Tid, keep: bool): Sched
    requires Known(s, t)
  {
    var a := RemoveThread(s, t);
    var b := SetThread(a.(lists := WithoutAll(a.lists, t)), t, a.thread[t].(stat := Close));
    if keep then b.(defunct := [t] + b.defunct) else b
  }

  // ----- the invariant

  /** Bit p of the ready group is set exactly when ready queue p is not empty. */
  ghost predicate BitsRight(s: Sched)
    requires AllKnown(s)
  {
    forall p: Prio :: BitSet(s.group, p) <==> s.queue[p] != []
  }

  /** Ready queue p holds exactly the READY threads of priority p, each once. */
  ghost predicate QueueRight(s: Sched, p: Prio)
    requires AllKnown(s)
  {
    && NoRepeat(s.queue[p])
    && forall t: Tid :: t in s.queue[p] <==> t < |s.thread| && s.thread[t].stat.Ready? && s.thread[t].cur == p
  }

  /** A suspend list holds SUSPENDed threads, each once. */
  ghost predicate ListRight(s: Sched, l: nat)
    requires l < |s.lists|
  {
    NoRepeat(s.lists[l]) && forall t :: t in s.lists[l] ==> t < |s.thread| && s.thread[t].stat.Suspend?
  }

  /** No thread is on two suspend lists. */
  ghost predicate ListsApart(s: Sched)
  {
    forall l, k, t: Tid :: 0 <= l < k < |s.lists| && t in s.lists[l] ==> t !in s.lists[k]
  }

  ghost predicate DefunctRight(s: Sched)
  {
    NoRepeat(s.defunct) && forall t :: t in s.defunct ==> t < |s.thread| && s.thread[t].stat.Close?
  }

  ghost predicate MaskRight(s: Sched)
  {
    forall t: Tid :: t < |s.thread| && !s.thread[t].stat.Init? ==> s.thread[t].mask == Mask(s.thread[t].cur)
  }

  ghost predicate Inv(s: Sched)
  {
    && AllKnown(s) && BitsRight(s) && (forall p: Prio :: QueueRight(s, p))
    && (forall l :: 0 <= l < |s.lists| ==> ListRight(s, l))
    && ListsApart(s) && DefunctRight(s) && MaskRight(s)
  }

  // ----- a thread on its way from one list to another

  ghost predicate QueueRightBut(s: Sched, p: Prio, t: Tid)
    requires AllKnown(s)
  {
    && NoRepeat(s.queue[p]) && t !in s.queue[p]
    && forall x: Tid :: x != t ==> (x in s.queue[p] <==> x < |s.thread| && s.thread[x].stat.Ready? && s.thread[x].cur == p)
  }

  ghost predicate ListRightBut(s: Sched, l: nat, t: Tid)
    requires l < |s.lists|
  {
    && NoRepeat(s.lists[l]) && t !in s.lists[l]
    && forall x :: x in s.lists[l] ==> x < |s.thread| && s.thread[x].stat.Suspend?
  }

  /** Everything is right but for thread t, which is on no list. */
  ghost predicate Floating(s: Sched, t: Tid)
  {
    && AllKnown(s) && t < |s.thread| && BitsRight(s) && (forall p: Prio :: QueueRightBut(s, p, t))
    && (forall l :: 0 <= l < |s.lists| ==> ListRightBut(s, l, t))
    && ListsApart(s) && DefunctRight(s) && t !in s.defunct && MaskRight(s)
  }

  /** Taken off its lists, a ready or suspended thread floats. */
  lemma OffQueue(s: Sched, t: Tid)
    requires Inv(s) && t < |s.thread| && (s.thread[t].stat.Ready? || s.thread[t].stat.Suspend?)
    ensures var a := RemoveThread(s, t);
      && AllKnown(a) && BitsRight(a) && (forall p: Prio :: QueueRightBut(a, p, t))
      && a.lists == s.lists && a.thread == s.thread && a.defunct == s.defunct
  {
    var th, a := s.thread[t], RemoveThread(s, t);
    assert MaskRight(s) && th.mask == Mask(th.cur);
    forall p: Prio ensures QueueRightBut(a, p, t) {
      assert QueueRight(s, p);
      WithoutNoRepeat(s.queue[p], t);
    }
    forall p: Prio ensures BitSet(a.group, p) <==> a.queue[p] != [] { RemoveBit(s, t, p); }
  }

  lemma RemoveBit(s: Sched, t: Tid, p: Prio)
    requires Inv(s) && t < |s.thread| && s.thread[t].mask == Mask(s.thread[t].cur)
    ensures BitSet(RemoveThread(s, t).group, p) <==> RemoveThread(s, t).queue[p] != []
  {
    hide BitSet, Mask, ClearBits;
    GroupBits(s.group, s.thread[t].cur, p);
    assert QueueRight(s, p) && QueueRight(s, s.thread[t].cur);
    var q := s.queue[s.thread[t].cur];
    if q == [] { assert Without(q, t) == []; }
  }

  lemma OffLists(s: Sched, t: Tid)
    requires Inv(s) && t < |s.thread|
    ensures var a := s.(lists := WithoutAll(s.lists, t));
      ListsApart(a) && forall l :: 0 <= l < |a.lists| ==> ListRightBut(a, l, t)
  {
    var a := s.(lists := WithoutAll(s.lists, t));
    forall l | 0 <= l < |a.lists| ensures ListRightBut(a, l, t) {
      assert ListRight(s, l);
      WithoutNoRepeat(s.lists[l], t);
    }
  }

  /** A ready thread is on no suspend list, a suspended one in no ready queue. */
  lemma OnlyReady(s: Sched, t: Tid)
    requires Inv(s) && t < |s.thread|
    ensures !s.thread[t].stat.Suspend? ==> forall l :: 0 <= l < |s.lists| ==> ListRightBut(s, l, t)
    ensures !s.thread[t].stat.Ready? ==> forall p: Prio :: QueueRightBut(s, p, t)
    ensures !s.thread[t].stat.Close? ==> t !in s.defunct
  {
    forall l | 0 <= l < |s.lists| && !s.thread[t].stat.Suspend? ensures ListRightBut(s, l, t) { assert ListRight(s, l); }
    forall p: Prio | !s.thread[t].stat.Ready? ensures QueueRightBut(s, p, t) { assert QueueRight(s, p); }
  }

  /** What is written into a floating thread's record disturbs nobody. */
  lemma FloatingSet(s: Sched, t: Tid, th: Thread)
    requires Floating(s, t) && (th.stat.Init? || th.mask == Mask(th.cur))
    ensures Floating(SetThread(s, t, th), t)
  {
    var a := SetThread(s, t, th);
    forall p: Prio ensures QueueRightBut(a, p, t) { assert QueueRightBut(s, p, t); }
    forall l | 0 <= l < |a.lists| ensures ListRightBut(a, l, t) { assert ListRightBut(s, l, t); }
  }

  /** Inserted into its ready queue, it is where it belongs. */
  lemma LandReady(s: Sched, t: Tid)
    requires Floating(s, t) && s.thread[t].mask == Mask(s.thread[t].cur)
    ensures Inv(InsertThread(s, t))
  {
    var a := InsertThread(s, t);
    forall p: Prio ensures QueueRight(a, p) { assert QueueRightBut(s, p, t); }
    forall p: Prio ensures BitSet(a.group, p) <==> a.queue[p] != [] { InsertBit(s, t, p); }
    forall l | 0 <= l < |a.lists| ensures ListRight(a, l) { assert ListRightBut(s, l, t); }
  }

  lemma InsertBit(s: Sched, t: Tid, p: Prio)
    requires AllKnown(s) && t < |s.thread| && BitsRight(s) && s.thread[t].mask == Mask(s.thread[t].cur)
    ensures BitSet(InsertThread(s, t).group, p) <==> InsertThread(s, t).queue[p] != []
  {
    hide BitSet, Mask, SetBits;
    GroupBits(s.group, s.thread[t].cur, p);
  }

  /** A floating thread that is not ready may stay on no list. */
  lemma LandNowhere(s: Sched, t: Tid)
    requires Floating(s, t) && !s.thread[t].stat.Ready?
    ensures Inv(s)
  {
    forall p: Prio ensures QueueRight(s, p) { assert QueueRightBut(s, p, t); }
    forall l | 0 <= l < |s.lists| ensures ListRight(s, l) { assert ListRightBut(s, l, t); }
  }

  /** Or go onto a suspend list. */
  lemma LandOnList(s: Sched, t: Tid, l: nat, pos: nat)
    requires Floating(s, t) && s.thread[t].stat.Suspend? && l < |s.lists| && pos <= |s.lists[l]|
    ensures Inv(s.(lists := s.lists[l := s.lists[l][..pos] + [t] + s.lists[l][pos..]]))
  {
    var r := s.lists[l][..pos] + [t] + s.lists[l][pos..];
    var a := s.(lists := s.lists[l := r]);
    assert ListRightBut(s, l, t);
    InsertedOnce(s.lists[l], t, pos);
    forall p: Prio ensures QueueRight(a, p) { assert QueueRightBut(s, p, t); }
    forall k | 0 <= k < |a.lists| ensures ListRight(a, k) { assert ListRightBut(s, k, t); }
    forall i, k, x: Tid | 0 <= i < k < |a.lists| && x in a.lists[i] ensures x !in a.lists[k] {
      assert ListRightBut(s, i, t) && ListRightBut(s, k, t);
    }
  }

  lemma InsertedOnce(s: seq<Tid>, t: Tid, pos: nat)
    requires NoRepeat(s) && t !in s && pos <= |s|
    ensures var r := s[..pos] + [t] + s[pos..];
      NoRepeat(r) && forall x :: x in r <==> x in s || x == t
  {
    var r := s[..pos] + [t] + s[pos..];
    InsertedUnique(s, t, pos, r);
    forall x ensures x in r <==> x in s || x == t { InsertedMembers(s, t, pos, x); }
  }

  lemma InsertedUnique(s: seq<Tid>, t: Tid, pos: nat, r: seq<Tid>)
    requires NoRepeat(s) && t !in s && pos <= |s| && |r| == |s| + 1
    requires (forall i :: 0 <= i < pos ==> r[i] == s[i]) && r[pos] == t && forall i :: pos < i < |r| ==> r[i] == s[i - 1]
    ensures NoRepeat(r)
  {
    forall i, j | 0 <= i < j < |r| ensures r[i] != r[j] {
      var a, b := if i < pos then i else i - 1, if j < pos then j else j - 1;
      if i == pos {
        assert r[j] == s[b] && s[b] in s;
      } else if j == pos {
        assert r[i] == s[a] && s[a] in s;
      } else {
        assert r[i] == s[a] && r[j] == s[b];
      }
    }
  }

  lemma InsertedMembers(s: seq<Tid>, t: Tid, pos: nat, x: Tid)
    requires pos <= |s|
    ensures x in s[..pos] + [t] + s[pos..] <==> x in s || x == t
  {
    assert s == s[..pos] + s[pos..];
    assert x in s <==> x in s[..pos] || x in s[pos..];
  }

  /** Or onto the defunct list. */
  lemma LandDefunct(s: Sched, t: Tid)
    requires Floating(s, t) && s.thread[t].stat.Close?
    ensures Inv(s.(defunct := [t] + s.defunct))
  {
    var a := s.(defunct := [t] + s.defunct);
    forall i | 0 <= i < |s.defunct| ensures s.defunct[i] != t { assert s.defunct[i] in s.defunct; }
    forall p: Prio ensures QueueRight(a, p) { assert QueueRightBut(s, p, t); }
    forall l | 0 <= l < |a.lists| ensures ListRight(a, l) { assert ListRightBut(s, l, t); }
  }

  // ----- the operations

  /** A ready or suspended thread is taken off whatever list it is on. */
  lemma Off(s: Sched, t: Tid)
    requires Inv(s) && t < |s.thread| && (s.thread[t].stat.Ready? || s.thread[t].stat.Suspend?)
    ensures var a := RemoveThread(s, t); Floating(a.(lists := WithoutAll(a.lists, t)), t)
    ensures s.thread[t].stat.Suspend? ==> Floating(s.(lists := WithoutAll(s.lists, t)), t)
    ensures s.thread[t].stat.Ready? ==> Floating(RemoveThread(s, t), t)
  {
    hide RemoveThread, BitSet, QueueRightBut, ListRightBut, Floating;
    OffQueue(s, t);
    OffLists(s, t);
    OnlyReady(s, t);
    var a := RemoveThread(s, t);
    var u := s.(lists := WithoutAll(s.lists, t));
    Assemble(s, a, u, t);
    if s.thread[t].stat.Suspend? { Assemble(s, s, u, t); }
    if s.thread[t].stat.Ready? {
      Assemble(s, a, s, t);
      assert a.(lists := s.lists) == a;
    }
    assert s.(lists := u.lists) == u;
  }

  /** The queues of q, cleared of t, and the lists of u, cleared of t, make t float. */
  lemma Assemble(s: Sched, q: Sched, u: Sched, t: Tid)
    requires Inv(s) && t < |s.thread| && t !in s.defunct
    requires q.thread == s.thread && q.defunct == s.defunct && u == s.(lists := u.lists)
    requires AllKnown(q) && BitsRight(q) && forall p: Prio :: QueueRightBut(q, p, t)
    requires ListsApart(u) && forall l :: 0 <= l < |u.lists| ==> ListRightBut(u, l, t)
    ensures Floating(q.(lists := u.lists), t)
  {
    hide BitSet;
    var r := q.(lists := u.lists);
    forall p: Prio ensures QueueRightBut(r, p, t) { assert QueueRightBut(q, p, t); }
    forall l | 0 <= l < |r.lists| ensures ListRightBut(r, l, t) { assert ListRightBut(u, l, t); }
  }

  lemma ResumeInv(s: Sched, t: Tid)
    requires Inv(s) && t < |s.thread|
    ensures Inv(Resume(s, t))
  {
    hide InsertThread, Inv;
    InvParts(s, t);
    if s.thread[t].stat.Suspend? {
      Off(s, t);
      LandReady(s.(lists := WithoutAll(s.lists, t)), t);
    }
  }

  lemma InvParts(s: Sched, t: Tid)
    requires Inv(s) && t < |s.thread|
    ensures Known(s, t) && (!s.thread[t].stat.Init? ==> s.thread[t].mask == Mask(s.thread[t].cur))
  {
  }

  lemma SuspendInv(s: Sched, t: Tid)
    requires Inv(s) && t < |s.thread| && s.thread[t].stat.Ready?
    ensures Floating(SuspendThread(s, t), t) && Inv(SuspendThread(s, t)) && SuspendThread(s, t).lists == s.lists
    ensures SuspendThread(s, t).thread[t].stat.Suspend?
  {
    hide Inv, Floating;
    InvParts(s, t);
    Off(s, t);
    var th := s.thread[t].(stat := Suspend);
    FloatingSet(RemoveThread(s, t), t, th);
    assert SuspendThread(s, t) == SetThread(RemoveThread(s, t), t, th);
    LandNowhere(SuspendThread(s, t), t);
  }

  lemma SuspendOnInv(s: Sched, t: Tid, l: nat, pos: nat)
    requires Inv(s) && t < |s.thread| && l < |s.lists| && pos <= |s.lists[l]|
    ensures Inv(SuspendOn(s, t, l, pos))
  {
    hide Inv, Floating, SuspendThread;
    InvParts(s, t);
    if s.thread[t].stat.Ready? {
      SuspendInv(s, t);
      LandOnList(SuspendThread(s, t), t, l, pos);
    }
  }

  lemma StartupInv(s: Sched, t: Tid)
    requires Inv(s) && t < |s.thread| && s.thread[t].stat.Init?
    ensures Inv(Startup(s, t))
  {
    hide Inv, Floating, Resume;
    InvParts(s, t);
    var th := s.thread[t].(cur := s.thread[t].init, mask := Mask(s.thread[t].init), stat := Suspend);
    InitFloats(s, t);
    FloatingSet(s, t, th);
    LandNowhere(SetThread(s, t, th), t);
    ResumeInv(SetThread(s, t, th), t);
  }

  lemma InitFloats(s: Sched, t: Tid)
    requires Inv(s) && t < |s.thread| && s.thread[t].stat.Init?
    ensures Floating(s, t)
  {
    OnlyReady(s, t);
  }

  lemma TimeoutInv(s: Sched, t: Tid)
    requires Inv(s) && t < |s.thread| && s.thread[t].stat.Suspend?
    ensures Inv(Timeout(s, t))
  {
    hide InsertThread, Inv, Floating;
    InvParts(s, t);
    Off(s, t);
    LandReady(s.(lists := WithoutAll(s.lists, t)), t);
  }

  lemma YieldInv(s: Sched, t: Tid)
    requires Inv(s) && t < |s.thread|
    ensures Inv(Yield(s, t))
  {
    hide BitSet;
    var a, p := Yield(s, t), s.thread[t].cur;
    assert QueueRight(s, p);
    if s.thread[t].stat.Ready? && |s.queue[p]| > 1 {
      WithoutNoRepeat(s.queue[p], t);
      InsertedOnce(Without(s.queue[p], t), t, |Without(s.queue[p], t)|);
      var w := Without(s.queue[p], t);
      assert w[..|w|] + [t] + w[|w|..] == w + [t];
      assert s.queue[p] != [];
    }
    forall q: Prio ensures QueueRight(a, q) { assert QueueRight(s, q); }
    forall l | 0 <= l < |a.lists| ensures ListRight(a, l) { assert ListRight(s, l); }
    forall q: Prio ensures BitSet(a.group, q) <==> a.queue[q] != [] { assert BitSet(s.group, q) <==> s.queue[q] != []; }
  }

  lemma ChangePriorityInv(s: Sched, t: Tid, p: Prio)
    requires Inv(s) && t < |s.thread|
    ensures Inv(ChangePriority(s, t, p))
  {
    hide InsertThread, RemoveThread, Inv, Floating;
    InvParts(s, t);
    if s.thread[t].stat.Ready? {
      Off(s, t);
      RemoveKeepsThreads(s, t);
      var a := RemoveThread(s, t);
      FloatingSet(a, t, a.thread[t].(cur := p, mask := Mask(p)));
      LandReady(SetThread(a, t, a.thread[t].(cur := p, mask := Mask(p))), t);
    } else {
      ChangeUnready(s, t, p);
    }
  }

  lemma RemoveKeepsThreads(s: Sched, t: Tid)
    requires Known(s, t)
    ensures Known(RemoveThread(s, t), t) && RemoveThread(s, t).thread == s.thread && RemoveThread(s, t).lists == s.lists
  {
  }

  lemma ChangeUnready(s: Sched, t: Tid, p: Prio)
    requires Inv(s) && t < |s.thread| && !s.thread[t].stat.Ready?
    ensures Inv(SetThread(s, t, s.thread[t].(cur := p, mask := Mask(p))))
  {
    var a := SetThread(s, t, s.thread[t].(cur := p, mask := Mask(p)));
    forall q: Prio ensures QueueRight(a, q) { assert QueueRight(s, q); }
    forall l | 0 <= l < |a.lists| ensures ListRight(a, l) { assert ListRight(s, l); }
  }

  lemma ExitInv(s: Sched, t: Tid, keep: bool)
    requires Inv(s) && t < |s.thread| && (s.thread[t].stat.Ready? || s.thread[t].stat.Suspend?)
    ensures Inv(Exit(s, t, keep))
  {
    hide RemoveThread, Inv, Floating;
    InvParts(s, t);
    Off(s, t);
    RemoveKeepsThreads(s, t);
    var a := RemoveThread(s, t);
    var b := a.(lists := WithoutAll(a.lists, t));
    FloatingSet(b, t, a.thread[t].(stat := Close));
    LandNowhere(SetThread(b, t, a.thread[t].(stat := Close)), t);
    LandDefunct(SetThread(b, t, a.thread[t].(stat := Close)), t);
  }

  // ----- runs

  datatype Step =
    | DoStartup(t: Tid)
    | DoSuspend(t: Tid)
    | DoWait(t: Tid, l: nat, pos: nat)
    | DoResume(t: Tid)
    | DoTimeout(t: Tid)
    | DoYield(t: Tid)
    | DoChange(t: Tid, p: Prio)
    | DoExit(t: Tid, keep: bool)
    | DoSchedule
    | DoLock
    | DoUnlock

  /** Only initialised threads are started, only suspended ones time out, only started ones exit. */
  predicate Allowed(s: Sched, x: Step)
  {
    match x
    case DoStartup(t) => Known(s, t) && s.thread[t].stat.Init?
    case DoSuspend(t) => Known(s, t)
    case DoWait(t, l, pos) => Known(s, t) && l < |s.lists| && pos <= |s.lists[l]|
    case DoResume(t) => Known(s, t)
    case DoTimeout(t) => Known(s, t) && s.thread[t].stat.Suspend?
    case DoYield(t) => Known(s, t) && s.current == Some(t)
    case DoChange(t, p) => Known(s, t)
    case DoExit(t, _) => Known(s, t) && (s.thread[t].stat.Ready? || s.thread[t].stat.Suspend?)
    case DoSchedule => s.group != 0
    case DoLock => true
    case DoUnlock => true
  }

  function Next(s: Sched, x: Step): Sched
    requires Allowed(s, x)
  {
    match x
    case DoStartup(t) => Startup(s, t)
    case DoSuspend(t) => SuspendThread(s, t)
    case DoWait(t, l, pos) => SuspendOn(s, t, l, pos)
    case DoResume(t) => Resume(s, t)
    case DoTimeout(t) => Timeout(s, t)
    case DoYield(t) => Yield(s, t)
    case DoChange(t, p) => ChangePriority(s, t, p)
    case DoExit(t, keep) => Exit(s, t, keep)
    case DoSchedule => Schedule(s)
    case DoLock => s.(nest := s.nest + 1)
    case DoUnlock => s.(nest := if s.nest <= 1 then 0 else s.nest - 1)
  }

  lemma Unmoved(s: Sched, a: Sched)
    requires Inv(s) && a == s.(current := a.current, nest := a.nest)
    ensures Inv(a)
  {
    forall p: Prio ensures QueueRight(a, p) { assert QueueRight(s, p); }
    forall l | 0 <= l < |a.lists| ensures ListRight(a, l) { assert ListRight(s, l); }
  }

  lemma NextInv(s: Sched, x: Step)
    requires Inv(s) && Allowed(s, x)
    ensures Inv(Next(s, x))
  {
    hide Inv, Startup, SuspendThread, SuspendOn, Resume, Timeout, Yield, ChangePriority, Exit, HighestReady;
    match x
    case DoStartup(t) => StartupInv(s, t);
    case DoSuspend(t) => SuspendStep(s, t);
    case DoWait(t, l, pos) => SuspendOnInv(s, t, l, pos);
    case DoResume(t) => ResumeInv(s, t);
    case DoTimeout(t) => TimeoutInv(s, t);
    case DoYield(t) => YieldInv(s, t);
    case DoChange(t, p) => ChangePriorityInv(s, t, p);
    case DoExit(t, keep) => ExitInv(s, t, keep);
    case _ => Unmoved(s, Next(s, x));
  }

  lemma SuspendStep(s: Sched, t: Tid)
    requires Inv(s) && t < |s.thread|
    ensures Known(s, t) && Inv(SuspendThread(s, t))
  {
    hide Inv;
    InvParts(s, t);
    if s.thread[t].stat.Ready? { SuspendInv(s, t); }
  }

  /** rt_system_scheduler_init, with any number of initialised threads and IPC objects. */
  ghost predicate Fresh(s: Sched)
  {
    && |s.queue| == RT_THREAD_PRIORITY_MAX && (forall p: Prio :: s.queue[p] == []) && s.group == 0
    && (forall l :: 0 <= l < |s.lists| ==> s.lists[l] == []) && s.defunct == []
    && (forall t :: 0 <= t < |s.thread| ==> s.thread[t].stat.Init?) && s.current == None && s.nest == 0
  }

  ghost predicate Run(ts: seq<Sched>, xs: seq<Step>)
  {
    && |ts| == |xs| + 1 && Fresh(ts[0])
    && forall k :: 0 <= k < |xs| ==> Allowed(ts[k], xs[k]) && ts[k + 1] == Next(ts[k], xs[k])
  }

  lemma FreshInv(s: Sched)
    requires Fresh(s)
    ensures Inv(s)
  {
    hide BitSet;
    forall p: Prio ensures !BitSet(s.group, p) { ZeroHasNoBit(p); }
  }

  lemma ZeroHasNoBit(p: Prio)
    ensures !BitSet(0, p)
  {
    hide Num;
  }

  /** In every run, bit p of the ready group is set exactly when queue p is not empty, every queue holds
      exactly the READY threads of its priority, and every list holds each thread at most once. */
  lemma {:induction false} AlwaysInv(ts: seq<Sched>, xs: seq<Step>, k: nat)
    requires Run(ts, xs) && k < |ts|
    ensures Inv(ts[k])
  {
    hide Inv, Next, Allowed, Fresh;
    if k == 0 {
      FreshInv(ts[0]);
    } else {
      AlwaysInv(ts, xs, k - 1);
      NextInv(ts[k - 1], xs[k - 1]);
    }
  }

  // ----- what rt_schedule picks

  lemma HighestBits(s: Sched, q: Prio)
    requires s.group != 0
    ensures BitSet(s.group, HighestReady(s)) && (q < HighestReady(s) ==> !BitSet(s.group, q))
  {
    FfsIsLowest(s.group);
    var k := Ffs(s.group) - 1;
    NumBack(k);
    if q < HighestReady(s) {
      NumLess(q, k);
      NoneBelow(s.group, k, Num(q));
    }
  }

  lemma NumBack(k: bv8)
    requires k < 32
    ensures Num(k as nat) == k
  {
  }

  lemma NumLess(q: Prio, k: bv8)
    requires k < 32 && q < k as nat
    ensures Num(q) < k
  {
    assert Num(q) as nat == q;
  }

  /** rt_schedule picks, through __rt_ffs, the head of the best non-empty ready queue, which no ready
      thread beats. */
  lemma ScheduleSelectsBest(s: Sched)
    requires Inv(s) && s.group != 0
    ensures var p := HighestReady(s);
      && s.queue[p] != [] && (forall q: Prio :: q < p ==> s.queue[q] == [])
      && (s.nest == 0 ==> Schedule(s).current == Some(s.queue[p][0]))
      && s.queue[p][0] < |s.thread| && s.thread[s.queue[p][0]].stat.Ready? && s.thread[s.queue[p][0]].cur == p
      && (forall t: Tid :: t < |s.thread| && s.thread[t].stat.Ready? ==> s.thread[t].cur >= p)
  {
    hide HighestReady, BitSet;
    var p := HighestReady(s);
    HighestBits(s, p);
    assert QueueRight(s, p) && s.queue[p][0] in s.queue[p];
    forall q: Prio | q < p ensures s.queue[q] == [] { HighestBits(s, q); }
    forall t: Tid | t < |s.thread| && s.thread[t].stat.Ready? ensures s.thread[t].cur >= p {
      assert QueueRight(s, s.thread[t].cur);
    }
  }

  /** The bitmap is empty, and rt_schedule without a thread to pick, if and only if no thread is ready. */
  lemma NothingReadyIff(s: Sched)
    requires Inv(s)
    ensures s.group == 0 <==> forall t: Tid :: t < |s.thread| ==> !s.thread[t].stat.Ready?
  {
    hide BitSet, HighestReady;
    if s.group == 0 {
      forall t: Tid | t < |s.thread| && s.thread[t].stat.Ready? ensures false {
        assert QueueRight(s, s.thread[t].cur);
        ZeroHasNoBit(s.thread[t].cur);
      }
    } else {
      ScheduleSelectsBest(s);
    }
  }

  /** Each thread is on at most one list. */
  lemma OneListEach(s: Sched, t: Tid)
    requires Inv(s)
    ensures forall p: Prio, q: Prio :: t in s.queue[p] && t in s.queue[q] ==> p == q
    ensures forall p: Prio, l :: 0 <= l < |s.lists| && t in s.queue[p] ==> t !in s.lists[l] && t !in s.defunct
    ensures forall l, k :: 0 <= l < |s.lists| && 0 <= k < |s.lists| && t in s.lists[l] && t in s.lists[k] ==> l == k
    ensures forall l :: 0 <= l < |s.lists| && t in s.lists[l] ==> t !in s.defunct
  {
    hide BitSet;
    forall p: Prio ensures t in s.queue[p] ==> t < |s.thread| && s.thread[t].stat.Ready? && s.thread[t].cur == p {
      assert QueueRight(s, p);
    }
    forall l | 0 <= l < |s.lists| ensures t in s.lists[l] ==> t < |s.thread| && s.thread[t].stat.Suspend? {
      assert ListRight(s, l);
    }
  }
}
