/** struct rt_mutex, its two operations, and rt_ipc_list_suspend. `currentPriority` holds the threads'
    current priorities. */
module MutexObject {

  import opened MutexSpec
  import opened Wrappers

  const RT_NULL := -1

  class MutexObj {
    var value: int
    var owner: int
    var originalPriority: nat
    var hold: nat
    var suspendThread: seq<Tid>
    var currentPriority: seq<nat>
    const flagPrio: bool

    ghost function Abs(): Mutex
      reads this
    {
      Mutex(value, if owner < 0 then None else Some(owner), originalPriority, hold, suspendThread, currentPriority, flagPrio)
    }

    ghost predicate Valid()
      reads this
    {
      owner >= RT_NULL && Inv(Abs())
    }

    /** rt_mutex_init */
    constructor (flagPrio: bool, priorities: seq<nat>)
      ensures Valid() && Abs() == Created(priorities, flagPrio)
    {
      value, owner, originalPriority, hold := 1, RT_NULL, NO_PRIORITY, 0;
      suspendThread := [];
      currentPriority := priorities;
      this.flagPrio := flagPrio;
    }

    /** rt_ipc_list_suspend */
    method ListSuspend(thread: Tid)
      requires AllThreads(currentPriority, suspendThread) && thread < |currentPriority|
      modifies this`suspendThread
      ensures suspendThread == Suspended(currentPriority, old(suspendThread), thread, flagPrio)
    {
      if !flagPrio {
        suspendThread := suspendThread + [thread];
        return;
      }
      var n := 0;
      while n < |suspendThread|
        invariant n <= |suspendThread| && suspendThread == old(suspendThread)
        invariant Place(currentPriority, suspendThread, thread) == n + Place(currentPriority, suspendThread[n..], thread)
      {
        if currentPriority[thread] < currentPriority[suspendThread[n]] { break; }
        assert suspendThread[n..][1..] == suspendThread[n + 1..];
        n := n + 1;
      }
      suspendThread := suspendThread[..n] + [thread] + suspendThread[n..];
    }

    /** rt_mutex_take up to the point where the thread owns the mutex, waits, or gives up (`block` is false
        for time 0). True: the thread has the mutex. */
    method TakeMutex(thread: Tid, block: bool) returns (ok: bool)
      requires Valid() && Allowed(Abs(), Take(thread, block))
      modifies this
      ensures Valid() && Abs() == Next(old(Abs()), Take(thread, block))
      ensures ok <==> owner == thread
    {
      hide Inv;
      InvKnown(Abs());
      NextInv(Abs(), Take(thread, block));
      if owner == thread {
        hold := hold + 1;
        return true;
      }
      if value > 0 {
        value := value - 1;
        owner := thread;
        originalPriority := currentPriority[thread];
        hold := hold + 1;
        return true;
      }
      if !block { return false; }
      if currentPriority[thread] < currentPriority[owner] {
        currentPriority := currentPriority[owner := currentPriority[thread]];
      }
      ListSuspend(thread);
      return false;
    }

    lemma InvKnown(m: Mutex)
      requires Inv(m)
      ensures Known(m) && (m.value <= 0 ==> m.owner.Some?) && (m.owner.Some? ==> m.hold > 0)
    {
    }

    /** rt_mutex_release; false when the caller is not the owner. */
    method ReleaseMutex(thread: Tid) returns (ok: bool)
      requires Valid() && Allowed(Abs(), Release(thread))
      modifies this
      ensures Valid() && Abs() == Next(old(Abs()), Release(thread))
      ensures ok <==> old(owner) == thread
    {
      hide Inv;
      InvKnown(Abs());
      NextInv(Abs(), Release(thread));
      if thread != owner { return false; }
      hold := hold - 1;
      if hold == 0 {
        RestorePriority();
        if suspendThread != [] {
          owner := suspendThread[0];
          originalPriority := currentPriority[owner];
          hold := hold + 1;
          suspendThread := suspendThread[1..];
        } else {
          value := value + 1;
          owner := RT_NULL;
          originalPriority := NO_PRIORITY;
        }
      }
      return true;
    }

    /** The owner goes back to its original priority. */
    method RestorePriority()
      requires 0 <= owner < |currentPriority|
      modifies this`currentPriority
      ensures currentPriority == old(currentPriority)[owner := originalPriority]
    {
      if originalPriority != currentPriority[owner] {
        currentPriority := currentPriority[owner := originalPriority];
      }
    }

    /** rt_thread_timeout of a waiting thread. */
    method Timeout(i: nat)
      requires Valid() && i < |suspendThread|
      modifies this`suspendThread
      ensures Valid() && Abs() == Next(old(Abs()), Expire(i))
    {
      hide Inv;
      InvKnown(Abs());
      NextInv(Abs(), Expire(i));
      suspendThread := suspendThread[..i] + suspendThread[i + 1..];
    }
  }
}
