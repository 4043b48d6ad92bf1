/** The scheduler's variables and the routines that update them: scheduler.c and thread.c. Each method is
    one step and keeps the invariant of the state machine. Where thread.c tests the status outside the
    interrupts-disabled region, or uses two of them, nobody is assumed to touch that thread in between. */
module Scheduler {

  import opened FindFirstSet
  import opened SchedulerSpec
  import opened Wrappers

  const RT_NULL := -1

  class Kernel {
    var priorityTable: seq<seq<Tid>>   // rt_thread_priority_table
    var readyGroup: bv32               // rt_thread_ready_priority_group
    var suspendLists: seq<seq<Tid>>    // of the IPC objects
    var defunct: seq<Tid>              // rt_thread_defunct
    var thread: seq<Thread>
    var currentThread: int
    var lockNest: nat

    ghost function Abs(): Sched
      reads this
    {
      Sched(priorityTable, readyGroup, suspendLists, defunct, thread,
            if currentThread < 0 then None else Some(currentThread), lockNest)
    }

    ghost predicate Valid()
      reads this
    {
      Inv(Abs())
    }

    /** rt_system_scheduler_init, and the threads' and objects' own initialisation. */
    constructor (threads: seq<Thread>, objects: nat)
      requires forall t :: 0 <= t < |threads| ==> threads[t].stat.Init?
      ensures Valid() && Fresh(Abs()) && thread == threads && |suspendLists| == objects
    {
      priorityTable := seq(RT_THREAD_PRIORITY_MAX, _ => []);
      readyGroup, suspendLists, defunct := 0, seq(objects, _ => []), [];
      thread, currentThread, lockNest := threads, RT_NULL, 0;
      new;
      FreshInv(Abs());
    }

    /** rt_list_remove(&thread->tlist) for a thread that waits on an IPC object. */
    method UnlinkSuspended(t: Tid)
      modifies this`suspendLists
      ensures suspendLists == WithoutAll(old(suspendLists), t)
    {
      var l := 0;
      ghost var was := suspendLists;
      while l < |suspendLists|
        invariant l <= |suspendLists| == |was|
        invariant forall k :: 0 <= k < l ==> suspendLists[k] == Without(was[k], t)
        invariant forall k :: l <= k < |was| ==> suspendLists[k] == was[k]
      {
        suspendLists := suspendLists[l := Without(suspendLists[l], t)];
        l := l + 1;
      }
      assert suspendLists == WithoutAll(was, t);
    }

    /** rt_schedule_insert_thread */
    method ScheduleInsertThread(t: Tid)
      requires Known(Abs(), t)
      modifies this`thread, this`priorityTable, this`readyGroup
      ensures Abs() == InsertThread(old(Abs()), t)
    {
      hide SetBits;
      thread := thread[t := thread[t].(stat := Ready)];
      var p := thread[t].cur;
      priorityTable := priorityTable[p := priorityTable[p] + [t]];
      readyGroup := SetBits(readyGroup, thread[t].mask);
    }

    /** rt_schedule_remove_thread */
    method ScheduleRemoveThread(t: Tid)
      requires Known(Abs(), t)
      modifies this`priorityTable, this`readyGroup
      ensures Abs() == RemoveThread(old(Abs()), t)
    {
      hide ClearBits;
      var p := thread[t].cur;
      priorityTable := priorityTable[p := Without(priorityTable[p], t)];
      if priorityTable[p] == [] {
        readyGroup := ClearBits(readyGroup, thread[t].mask);
      }
    }

    /** rt_schedule: the next thread to run. */
    method Reschedule()
      requires Valid() && readyGroup != 0
      modifies this`currentThread
      ensures Valid() && Abs() == Schedule(old(Abs()))
    {
      hide Inv, HighestReady;
      ScheduleSelectsBest(Abs());
      if lockNest == 0 {
        var highestReadyPriority := HighestOf(readyGroup);
        SameHighest(Abs());
        QueuesKnown(Abs());
        var toThread := priorityTable[highestReadyPriority][0];
        if toThread != currentThread { currentThread := toThread; }
      }
      Unmoved(old(Abs()), Abs());
    }

    /** __rt_ffs(rt_thread_ready_priority_group) - 1 */
    static function HighestOf(group: bv32): Prio
      requires group != 0
    {
      FfsIsLowest(group);
      (Ffs(group) - 1) as nat
    }

    static lemma QueuesKnown(s: Sched)
      requires Inv(s)
      ensures AllKnown(s)
    {
    }

    static lemma SameHighest(s: Sched)
      requires s.group != 0
      ensures HighestOf(s.group) == HighestReady(s)
    {
    }

    /** rt_thread_resume; an error unless the thread is suspended. */
    method ThreadResume(t: Tid) returns (ok: bool)
      requires Valid() && t < |thread|
      modifies this`thread, this`priorityTable, this`readyGroup, this`suspendLists
      ensures Valid() && Abs() == Resume(old(Abs()), t) && (ok <==> old(thread)[t].stat.Suspend?)
    {
      hide Inv, InsertThread;
      InvParts(Abs(), t);
      ResumeInv(Abs(), t);
      if !thread[t].stat.Suspend? { return false; }
      UnlinkSuspended(t);
      ScheduleInsertThread(t);
      return true;
    }

    /** rt_thread_suspend; an error unless the thread is ready. */
    method ThreadSuspend(t: Tid) returns (ok: bool)
      requires Valid() && t < |thread|
      modifies this`thread, this`priorityTable, this`readyGroup
      ensures Valid() && Abs() == SuspendThread(old(Abs()), t) && (ok <==> old(thread)[t].stat.Ready?)
    {
      hide Inv, RemoveThread;
      InvParts(Abs(), t);
      SuspendStep(Abs(), t);
      if !thread[t].stat.Ready? { return false; }
      thread := thread[t := thread[t].(stat := Suspend)];
      ScheduleRemoveThread(t);
      return true;
    }

    /** rt_ipc_list_suspend of a ready thread on the list of object l. */
    method ListSuspend(t: Tid, l: nat, pos: nat)
      requires Valid() && t < |thread| && thread[t].stat.Ready? && l < |suspendLists| && pos <= |suspendLists[l]|
      modifies this`thread, this`priorityTable, this`readyGroup, this`suspendLists
      ensures Valid() && Abs() == SuspendOn(old(Abs()), t, l, pos)
    {
      hide Inv, SuspendThread;
      SuspendOnInv(Abs(), t, l, pos);
      SuspendInv(Abs(), t);
      var _ := ThreadSuspend(t);
      suspendLists := suspendLists[l := suspendLists[l][..pos] + [t] + suspendLists[l][pos..]];
    }

    /** rt_thread_startup */
    method ThreadStartup(t: Tid)
      requires Valid() && t < |thread| && thread[t].stat.Init?
      modifies this`thread, this`priorityTable, this`readyGroup, this`suspendLists
      ensures Valid() && Abs() == Startup(old(Abs()), t)
    {
      hide Inv, Resume, Mask;
      StartupReady(Abs(), t);
      thread := thread[t := thread[t].(cur := thread[t].init)];
      thread := thread[t := thread[t].(mask := Mask(thread[t].cur))];
      thread := thread[t := thread[t].(stat := Suspend)];
      assert Abs() == SetThread(old(Abs()), t, thread[t]);
      var _ := ThreadResume(t);
    }

    lemma StartupReady(s: Sched, t: Tid)
      requires Inv(s) && t < |s.thread| && s.thread[t].stat.Init?
      ensures Known(s, t)
      ensures Inv(SetThread(s, t, s.thread[t].(cur := s.thread[t].init, mask := Mask(s.thread[t].init), stat := Suspend)))
    {
      hide Inv, Floating;
      InvParts(s, t);
      InitFloats(s, t);
      var th := s.thread[t].(cur := s.thread[t].init, mask := Mask(s.thread[t].init), stat := Suspend);
      FloatingSet(s, t, th);
      LandNowhere(SetThread(s, t, th), t);
    }

    /** rt_thread_timeout, without the reschedule. */
    method ThreadTimeout(t: Tid)
      requires Valid() && t < |thread| && thread[t].stat.Suspend?
      modifies this`thread, this`priorityTable, this`readyGroup, this`suspendLists
      ensures Valid() && Abs() == SchedulerSpec.Timeout(old(Abs()), t)
    {
      hide Inv, InsertThread;
      InvParts(Abs(), t);
      TimeoutInv(Abs(), t);
      UnlinkSuspended(t);
      ScheduleInsertThread(t);
    }

    /** rt_thread_yield, without the reschedule. */
    method ThreadYield()
      requires Valid() && 0 <= currentThread < |thread|
      modifies this`priorityTable
      ensures Valid() && Abs() == Yield(old(Abs()), currentThread)
    {
      hide Inv;
      var t := currentThread;
      InvParts(Abs(), t);
      YieldInv(Abs(), t);
      var p := thread[t].cur;
      if thread[t].stat.Ready? && |priorityTable[p]| > 1 {
        priorityTable := priorityTable[p := Without(priorityTable[p], t)];
        priorityTable := priorityTable[p := priorityTable[p] + [t]];
        assert priorityTable == old(priorityTable)[p := priorityTable[p]];
      }
    }

    /** rt_thread_control(RT_THREAD_CTRL_CHANGE_PRIORITY) */
    method ThreadChangePriority(t: Tid, p: Prio)
      requires Valid() && t < |thread|
      modifies this`thread, this`priorityTable, this`readyGroup
      ensures Valid() && Abs() == ChangePriority(old(Abs()), t, p)
    {
      hide Inv, InsertThread, RemoveThread, Mask;
      InvParts(Abs(), t);
      ChangePriorityInv(Abs(), t, p);
      if thread[t].stat.Ready? {
        RemoveKeepsThreads(Abs(), t);
        ScheduleRemoveThread(t);
        thread := thread[t := thread[t].(cur := p, mask := Mask(p))];
        ScheduleInsertThread(t);
      } else {
        thread := thread[t := thread[t].(cur := p, mask := Mask(p))];
      }
    }

    /** rt_thread_exit, or deletion of a started thread; `keep` when its object is cleaned up later. */
    method ThreadExit(t: Tid, keep: bool)
      requires Valid() && t < |thread| && (thread[t].stat.Ready? || thread[t].stat.Suspend?)
      modifies this`thread, this`priorityTable, this`readyGroup, this`suspendLists, this`defunct
      ensures Valid() && Abs() == Exit(old(Abs()), t, keep)
    {
      hide Inv, RemoveThread;
      InvParts(Abs(), t);
      ExitInv(Abs(), t, keep);
      RemoveKeepsThreads(Abs(), t);
      ScheduleRemoveThread(t);
      UnlinkSuspended(t);
      thread := thread[t := thread[t].(stat := Close)];
      if keep { defunct := [t] + defunct; }
    }
  }
}
