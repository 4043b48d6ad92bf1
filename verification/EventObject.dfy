/** struct rt_event and its two operations. */
module EventObject {

  import opened EventSpec

  class EventObj {
    var eventSet: Bits
    var suspendThread: seq<Waiter>
    ghost var e: Event

    ghost predicate Valid()
      reads this
    {
      eventSet == e.set_ && suspendThread == e.waiting && Inv(e)
    }

    /** rt_event_init */
    constructor ()
      ensures Valid() && e == Event(0, [], [], [])
    {
      eventSet, suspendThread := 0, [];
      e := Event(0, [], [], []);
    }

    /** rt_event_send; `out` are the threads it resumes, with what their event_set then holds. */
    method Send(bits: Bits) returns (ok: bool, out: seq<Delivery>)
      requires Valid()
      modifies this
      ensures Valid() && e == Next(old(e), EventSpec.Step.Send(bits)) && (ok <==> bits != 0)
      ensures e.log == old(e).log + out
      ensures forall i :: 0 <= i < |suspendThread| ==> !Asked(suspendThread[i], eventSet)
    {
      hide Inv, Scan, Satisfied, Join, Asked;
      out := [];
      if bits == 0 {
        NobodyAsks();
        return false, out;
      }
      NextInv(e, EventSpec.Step.Send(bits));
      eventSet := Join(eventSet, bits);
      ghost var whole := Scan(eventSet, suspendThread);
      var n: nat := 0;
      assert [] + whole.1 == whole.1 && [] + whole.2 == whole.2;
      assert suspendThread[n..] == suspendThread && suspendThread[..n] == [];
      while n < |suspendThread|
        invariant n <= |suspendThread| && e == old(e)
        invariant whole == Behind(suspendThread[..n], out, Scan(eventSet, suspendThread[n..]))
        decreases |suspendThread| - n
      {
        var d;
        n, d := ServeAt(n, out);
        out := out + d;
      }
      ScanStep(eventSet, suspendThread[n..]);
      assert suspendThread[..n] == suspendThread && suspendThread[n..] == [];
      e := Next(e, EventSpec.Step.Send(bits));
      NobodyAsks();
      return true, out;
    }

    lemma NobodyAsks()
      requires Valid()
      ensures forall i :: 0 <= i < |suspendThread| ==> !Asked(suspendThread[i], eventSet)
    {
      hide Asked, Satisfied;
      forall i | 0 <= i < |suspendThread| ensures !Asked(suspendThread[i], eventSet) {
        SatisfiedIffAsked(suspendThread[i], eventSet);
      }
    }

    /** The loop's result, with what it has already kept and handed out in front. */
    static function Behind(kept: seq<Waiter>, out: seq<Delivery>, r: (Bits, seq<Waiter>, seq<Delivery>)):
      (Bits, seq<Waiter>, seq<Delivery>)
    {
      (r.0, kept + r.1, out + r.2)
    }

    /** One turn of the loop: the thread at n is resumed and taken off the list, or passed over. */
    method ServeAt(n: nat, ghost before: seq<Delivery>) returns (next: nat, out: seq<Delivery>)
      requires n < |suspendThread|
      modifies this`eventSet, this`suspendThread
      ensures next <= |suspendThread| && |suspendThread| - next == |old(suspendThread)| - n - 1
      ensures Behind(old(suspendThread)[..n], before, Scan(old(eventSet), old(suspendThread)[n..])) ==
        Behind(suspendThread[..next], before + out, Scan(eventSet, suspendThread[next..]))
      ensures out != [] <==> Asked(old(suspendThread)[n], old(eventSet))
    {
      hide Scan, Satisfied, Meet, Minus, Asked;
      SatisfiedIffAsked(suspendThread[n], eventSet);
      var thread := suspendThread[n];
      ScanStep(eventSet, suspendThread[n..]);
      assert suspendThread[n..][1..] == suspendThread[n + 1..];
      if Satisfied(thread, eventSet) {
        var got := Meet(thread.want, eventSet);
        if thread.clear { eventSet := Minus(eventSet, got); }
        suspendThread := suspendThread[..n] + suspendThread[n + 1..];
        out := [Delivery(thread.t, got, thread.clear)];
        next := n;
        assert suspendThread[next..] == old(suspendThread)[n + 1..] && suspendThread[..n] == old(suspendThread)[..n];
        assert forall r: seq<Delivery> {:trigger out + r} :: before + (out + r) == (before + out) + r;
      } else {
        next, out := n + 1, [];
        assert before + [] == before;
        assert suspendThread[..next] == suspendThread[..n] + [thread];
        assert forall r: seq<Waiter> {:trigger [thread] + r} ::
          suspendThread[..n] + ([thread] + r) == (suspendThread[..n] + [thread]) + r;
      }
    }

    lemma ScanStep(s: Bits, ws: seq<Waiter>)
      ensures ws == [] ==> Scan(s, ws) == (s, [], [])
      ensures ws != [] && !Satisfied(ws[0], s) ==> var r := Scan(s, ws[1..]); Scan(s, ws) == (r.0, [ws[0]] + r.1, r.2)
      ensures ws != [] && Satisfied(ws[0], s) ==>
        var got := Meet(ws[0].want, s);
        var r := Scan(Left(ws[0], got, s), ws[1..]);
        Scan(s, ws) == (r.0, r.1, [Delivery(ws[0].t, got, ws[0].clear)] + r.2)
    {
    }

    /** rt_event_recv up to the point where the thread has its bits, waits, or gives up. The thread is put at
        `pos` in the suspend list, where the FIFO or PRIO flag wants it. */
    method Recv(w: Waiter, block: bool, pos: nat) returns (recved: Bits)
      requires Valid() && pos <= |suspendThread|
      modifies this
      ensures Valid() && e == Next(old(e), EventSpec.Step.Recv(w, block, pos))
      ensures recved == if w.want != 0 && Asked(w, old(eventSet)) then Meet(w.want, old(eventSet)) else 0
      ensures w.want != 0 && Asked(w, old(eventSet)) ==> recved != 0
    {
      hide Inv, Asked;
      SatisfiedIffAsked(w, eventSet);
      recved := 0;
      if w.want == 0 { return; }
      NextInv(e, EventSpec.Step.Recv(w, block, pos));
      if Satisfied(w, eventSet) {
        recved := Meet(eventSet, w.want);
        MeetCommutes(w.want, eventSet);
        if w.clear { eventSet := Minus(eventSet, w.want); }
      } else if block {
        suspendThread := suspendThread[..pos] + [w] + suspendThread[pos..];
      }
      e := Next(e, EventSpec.Step.Recv(w, block, pos));
    }

    /** A waiting thread's timer expires: rt_thread_timeout takes it off the list. */
    method Timeout(i: nat)
      requires Valid() && i < |suspendThread|
      modifies this
      ensures Valid() && e == Next(old(e), Expire(i))
    {
      NextInv(e, Expire(i));
      suspendThread := suspendThread[..i] + suspendThread[i + 1..];
      e := Next(e, Expire(i));
    }

    lemma MeetCommutes(a: Bits, b: Bits)
      ensures Meet(a, b) == Meet(b, a)
    {
    }
  }
}
