/** Event objects of ipc.c: a 32-bit set, receivers waiting for all or any of their bits, and CLEAR receivers
    that take the bits they were given out of the set, in the middle of the send loop. */
module EventSpec {

  type Bits = bv32
  type Tid = int

  /** A waiting thread's event_set and event_info; `all` is RT_EVENT_FLAG_AND, otherwise RT_EVENT_FLAG_OR. */
  datatype Waiter = Waiter(t: Tid, want: Bits, all: bool, clear: bool)
  datatype Delivery = Delivery(t: Tid, got: Bits, clear: bool)

  function Meet(a: Bits, b: Bits): Bits { a & b }

  function Join(a: Bits, b: Bits): Bits { a | b }

  function Minus(a: Bits, b: Bits): Bits { a & !b }

  predicate Satisfied(w: Waiter, s: Bits)
  {
    if w.all then Meet(w.want, s) == w.want else Meet(w.want, s) != 0
  }

  function Left(w: Waiter, got: Bits, s: Bits): Bits
  {
    if w.clear then Minus(s, got) else s
  }

  /** The loop of rt_event_send over the suspend list: the set and the waiters it leaves, and what it
      hands out, in order. */
  function Scan(s: Bits, ws: seq<Waiter>): (Bits, seq<Waiter>, seq<Delivery>)
  {
    if ws == [] then (s, [], []) else
      var w := ws[0];
      if Satisfied(w, s) then
        var got := Meet(w.want, s);
        var (r, rest, out) := Scan(Left(w, got, s), ws[1..]);
        (r, rest, [Delivery(w.t, got, w.clear)] + out)
      else
        var (r, rest, out) := Scan(s, ws[1..]);
        (r, [w] + rest, out)
  }

  /** `sends` and `log` are the history: the sets sent, and the deliveries made. */
  datatype Event = Event(set_: Bits, waiting: seq<Waiter>, sends: seq<Bits>, log: seq<Delivery>)

  datatype Step =
    | Send(s: Bits)
    | Recv(w: Waiter, block: bool, pos: nat)
    | Expire(i: nat)

  predicate Allowed(e: Event, s: Step)
  {
    match s
    case Send(_) => true
    case Recv(_, _, pos) => pos <= |e.waiting|
    case Expire(i) => i < |e.waiting|
  }

  /** A zero set is refused by both calls. */
  function Next(e: Event, s: Step): Event
    requires Allowed(e, s)
  {
    match s
    case Send(b) =>
      if b == 0 then e else
        var (r, rest, out) := Scan(Join(e.set_, b), e.waiting);
        Event(r, rest, e.sends + [b], e.log + out)
    case Recv(w, block, pos) =>
      if w.want == 0 then e
      else if Satisfied(w, e.set_) then
        e.(set_ := if w.clear then Minus(e.set_, w.want) else e.set_,
           log := e.log + [Delivery(w.t, Meet(w.want, e.set_), w.clear)])
      else if block then e.(waiting := e.waiting[..pos] + [w] + e.waiting[pos..])
      else e
    case Expire(i) => e.(waiting := e.waiting[..i] + e.waiting[i + 1..])
  }

  // ----- no lost wakeup

  /** No waiting thread's condition holds. */
  predicate NoneReady(s: Bits, ws: seq<Waiter>)
  {
    forall i :: 0 <= i < |ws| ==> !Satisfied(ws[i], s) && ws[i].want != 0
  }

  /** Taking bits away satisfies nobody. */
  lemma FewerBits(w: Waiter, s: Bits, got: Bits)
    requires !Satisfied(w, s)
    ensures !Satisfied(w, Minus(s, got))
  {
    hide Minus, Meet;
    MeetMinus(w.want, s, got);
  }

  lemma MeetMinus(a: Bits, s: Bits, b: Bits)
    ensures Meet(a, Minus(s, b)) == a ==> Meet(a, s) == a
    ensures Meet(a, Minus(s, b)) != 0 ==> Meet(a, s) != 0
  {
  }

  lemma ScanShrinks(w: Waiter, s: Bits, ws: seq<Waiter>)
    requires !Satisfied(w, s)
    ensures !Satisfied(w, Scan(s, ws).0)
    decreases |ws|
  {
    hide Satisfied, Minus, Meet;
    if ws != [] {
      var v := ws[0];
      if Satisfied(v, s) {
        FewerBits(w, s, Meet(v.want, s));
        ScanShrinks(w, Left(v, Meet(v.want, s), s), ws[1..]);
      } else {
        ScanShrinks(w, s, ws[1..]);
      }
    }
  }

  /** After the loop nobody who is still waiting could have been served, although CLEAR receivers shrink
      the set while it runs. */
  lemma {:induction false} ScanLeavesNone(s: Bits, ws: seq<Waiter>)
    requires forall i :: 0 <= i < |ws| ==> ws[i].want != 0
    ensures NoneReady(Scan(s, ws).0, Scan(s, ws).1)
    decreases |ws|
  {
    hide Satisfied, Minus, Meet;
    if ws != [] {
      var w := ws[0];
      if Satisfied(w, s) {
        ScanLeavesNone(Left(w, Meet(w.want, s), s), ws[1..]);
      } else {
        ScanLeavesNone(s, ws[1..]);
        ScanShrinks(w, s, ws[1..]);
      }
    }
  }

  ghost predicate Inv(e: Event)
  {
    NoneReady(e.set_, e.waiting)
  }

  lemma NextInv(e: Event, s: Step)
    requires Inv(e) && Allowed(e, s)
    ensures Inv(Next(e, s))
  {
    hide Satisfied, Scan, Minus, Meet, Join;
    match s
    case Send(b) => ScanLeavesNone(Join(e.set_, b), e.waiting);
    case Recv(w, block, pos) =>
      forall i | 0 <= i < |e.waiting| ensures !Satisfied(e.waiting[i], Minus(e.set_, w.want)) {
        FewerBits(e.waiting[i], e.set_, w.want);
      }
    case Expire(i) =>
  }

  ghost predicate Run(es: seq<Event>, ss: seq<Step>)
  {
    && |es| == |ss| + 1 && es[0] == Event(0, [], [], [])
    && forall k :: 0 <= k < |ss| ==> Allowed(es[k], ss[k]) && es[k + 1] == Next(es[k], ss[k])
  }

  /** In every run, no thread waits on an event object whose set satisfies it. */
  lemma {:induction false} NoLostWakeup(es: seq<Event>, ss: seq<Step>, k: nat)
    requires Run(es, ss) && k < |es|
    ensures Inv(es[k])
  {
    hide Inv, Next, Allowed;
    if k > 0 {
      NoLostWakeup(es, ss, k - 1);
      NextInv(es[k - 1], ss[k - 1]);
    } else {
      assert Inv(es[0]) by { EmptyInv(); }
    }
  }

  lemma EmptyInv()
    ensures Inv(Event(0, [], [], []))
  {
  }

  // ----- each sent bit is taken at most once

  predicate Single(bit: Bits)
  {
    bit != 0 && bit & (bit - 1) == 0
  }

  predicate Has(s: Bits, bit: Bits)
  {
    Meet(s, bit) != 0
  }

  lemma BitOps(a: Bits, b: Bits, bit: Bits)
    requires Single(bit)
    ensures Has(Join(a, b), bit) <==> Has(a, bit) || Has(b, bit)
    ensures Has(Meet(a, b), bit) <==> Has(a, bit) && Has(b, bit)
    ensures Has(Minus(a, b), bit) <==> Has(a, bit) && !Has(b, bit)
  {
    hide Single, Meet, Join, Minus;
    OneOf(a, bit);
    OneOf(b, bit);
    DistributeJoin(a, b, bit);
    DistributeMeet(a, b, bit);
    DistributeMinus(a, b, bit);
    OneBitOps(bit);
  }

  lemma OneOf(a: Bits, bit: Bits)
    requires Single(bit)
    ensures bit != 0 && (Meet(a, bit) == 0 || Meet(a, bit) == bit)
  {
  }

  lemma OneBitOps(bit: Bits)
    ensures Join(0, 0) == 0 && Join(0, bit) == bit && Join(bit, 0) == bit && Join(bit, bit) == bit
    ensures Meet(0, 0) == 0 && Meet(0, bit) == 0 && Meet(bit, 0) == 0 && Meet(bit, bit) == bit
    ensures Minus(0, 0) == 0 && Minus(0, bit) == 0 && Minus(bit, 0) == bit && Minus(bit, bit) == 0
  {
  }

  lemma DistributeJoin(a: Bits, b: Bits, bit: Bits)
    ensures Meet(Join(a, b), bit) == Join(Meet(a, bit), Meet(b, bit))
  {
  }

  lemma DistributeMeet(a: Bits, b: Bits, bit: Bits)
    ensures Meet(Meet(a, b), bit) == Meet(Meet(a, bit), Meet(b, bit))
  {
  }

  lemma DistributeMinus(a: Bits, b: Bits, bit: Bits)
    ensures Meet(Minus(a, b), bit) == Minus(Meet(a, bit), Meet(b, bit))
  {
  }

  function One(b: bool): nat
  {
    if b then 1 else 0
  }

  /** How many sends carried the bit. */
  function Sent(sends: seq<Bits>, bit: Bits): nat
  {
    if sends == [] then 0 else Sent(sends[..|sends| - 1], bit) + One(Has(sends[|sends| - 1], bit))
  }

  /** How many CLEAR receivers were given the bit. */
  function Taken(log: seq<Delivery>, bit: Bits): nat
  {
    if log == [] then 0
    else Taken(log[..|log| - 1], bit) + One(log[|log| - 1].clear && Has(log[|log| - 1].got, bit))
  }

  lemma {:induction false} TakenConcat(a: seq<Delivery>, b: seq<Delivery>, bit: Bits)
    ensures Taken(a + b, bit) == Taken(a, bit) + Taken(b, bit)
    decreases |b|
  {
    hide Has;
    if b == [] {
      assert a + b == a;
    } else {
      var c := b[..|b| - 1];
      TakenConcat(a, c, bit);
      assert (a + b)[..|a + b| - 1] == a + c;
    }
  }

  /** The loop hands a bit to at most one CLEAR receiver, and then the bit is gone from the set. */
  lemma {:induction false} ScanTakesOnce(s: Bits, ws: seq<Waiter>, bit: Bits)
    requires Single(bit)
    ensures Taken(Scan(s, ws).2, bit) + One(Has(Scan(s, ws).0, bit)) == One(Has(s, bit))
    decreases |ws|
  {
    hide Has, Meet, Minus, Single, Satisfied;
    if ws != [] {
      var w := ws[0];
      if Satisfied(w, s) {
        var got := Meet(w.want, s);
        ScanTakesOnce(Left(w, got, s), ws[1..], bit);
        BitOps(w.want, s, bit);
        BitOps(s, got, bit);
        TakenConcat([Delivery(w.t, got, w.clear)], Scan(Left(w, got, s), ws[1..]).2, bit);
        TakenOne(Delivery(w.t, got, w.clear), bit);
      } else {
        ScanTakesOnce(s, ws[1..], bit);
      }
    }
  }

  lemma TakenOne(d: Delivery, bit: Bits)
    ensures Taken([d], bit) == One(d.clear && Has(d.got, bit))
  {
    assert [d][..0] == [];
  }

  lemma ConserveStep(e: Event, s: Step, bit: Bits)
    requires Allowed(e, s) && Single(bit)
    requires Taken(e.log, bit) + One(Has(e.set_, bit)) <= Sent(e.sends, bit)
    ensures Taken(Next(e, s).log, bit) + One(Has(Next(e, s).set_, bit)) <= Sent(Next(e, s).sends, bit)
  {
    hide Next, Has, Taken, Sent, Single, Allowed;
    match s
    case Send(b) => SendConserves(e, b, bit);
    case Recv(w, block, pos) => RecvConserves(e, w, block, pos, bit);
    case Expire(i) => ExpireConserves(e, i);
  }

  lemma SendConserves(e: Event, b: Bits, bit: Bits)
    requires Allowed(e, Send(b)) && Single(bit)
    requires Taken(e.log, bit) + One(Has(e.set_, bit)) <= Sent(e.sends, bit)
    ensures var n := Next(e, Send(b)); Taken(n.log, bit) + One(Has(n.set_, bit)) <= Sent(n.sends, bit)
  {
    hide Has, Meet, Minus, Join, Single, Satisfied, Scan, Taken, Sent;
    ScanTakesOnce(Join(e.set_, b), e.waiting, bit);
    BitOps(e.set_, b, bit);
    TakenConcat(e.log, Scan(Join(e.set_, b), e.waiting).2, bit);
    SentOneMore(e.sends, b, bit);
  }

  lemma SentOneMore(sends: seq<Bits>, b: Bits, bit: Bits)
    ensures Sent(sends + [b], bit) == Sent(sends, bit) + One(Has(b, bit))
  {
    hide Has;
    assert (sends + [b])[..|sends|] == sends;
  }

  lemma RecvConserves(e: Event, w: Waiter, block: bool, pos: nat, bit: Bits)
    requires Allowed(e, Recv(w, block, pos)) && Single(bit)
    requires Taken(e.log, bit) + One(Has(e.set_, bit)) <= Sent(e.sends, bit)
    ensures var n := Next(e, Recv(w, block, pos)); Taken(n.log, bit) + One(Has(n.set_, bit)) <= Sent(n.sends, bit)
  {
    hide Has, Meet, Minus, Join, Single, Satisfied, Taken, Sent;
    var d := Delivery(w.t, Meet(w.want, e.set_), w.clear);
    BitOps(e.set_, w.want, bit);
    BitOps(w.want, e.set_, bit);
    TakenConcat(e.log, [d], bit);
    TakenOne(d, bit);
  }

  lemma ExpireConserves(e: Event, i: nat)
    requires Allowed(e, Expire(i))
    ensures var n := Next(e, Expire(i)); n.log == e.log && n.set_ == e.set_ && n.sends == e.sends
  {
  }

  /** In every run and for every bit, CLEAR receivers are given the bit at most once per send of it. */
  lemma {:induction false} EachBitTakenOnce(es: seq<Event>, ss: seq<Step>, k: nat, bit: Bits)
    requires Run(es, ss) && k < |es| && Single(bit)
    ensures Taken(es[k].log, bit) + One(Has(es[k].set_, bit)) <= Sent(es[k].sends, bit)
  {
    hide Next, Allowed, Single;
    if k > 0 {
      EachBitTakenOnce(es, ss, k - 1, bit);
      ConserveStep(es[k - 1], ss[k - 1], bit);
    }
  }

  /** What a receiver is given: all it asked for under AND, some of it under OR. */
  lemma {:induction false} ScanGives(s: Bits, ws: seq<Waiter>, i: nat)
    requires i < |Scan(s, ws).2|
    ensures exists j :: 0 <= j < |ws| && Answers(ws[j], Scan(s, ws).2[i])
    decreases |ws|
  {
    hide Meet, Minus;
    var w := ws[0];
    if Satisfied(w, s) {
      if i == 0 {
        MeetTwice(w.want, s);
        assert Answers(ws[0], Scan(s, ws).2[0]);
      } else {
        ScanGives(Left(w, Meet(w.want, s), s), ws[1..], i - 1);
        var j :| 0 <= j < |ws[1..]| && Answers(ws[1..][j], Scan(s, ws).2[i]);
        assert Answers(ws[j + 1], Scan(s, ws).2[i]);
      }
    } else {
      ScanGives(s, ws[1..], i);
      var j :| 0 <= j < |ws[1..]| && Answers(ws[1..][j], Scan(s, ws).2[i]);
      assert Answers(ws[j + 1], Scan(s, ws).2[i]);
    }
  }

  /** The delivery is a proper answer to what w waits for. */
  predicate Answers(w: Waiter, d: Delivery)
  {
    d.t == w.t && d.clear == w.clear && (if w.all then d.got == w.want else d.got != 0 && Meet(d.got, w.want) == d.got)
  }

  lemma MeetTwice(a: Bits, s: Bits)
    ensures Meet(Meet(a, s), a) == Meet(a, s)
  {
  }

  // ----- who is served, bit by bit

  function LowBit(a: Bits): Bits
  {
    a & (0 - a)
  }

  lemma LowBitIsIn(a: Bits)
    requires a != 0
    ensures Single(LowBit(a)) && Has(a, LowBit(a))
  {
  }

  lemma MinusMeans(a: Bits, s: Bits)
    ensures Minus(a, s) == 0 <==> Meet(a, s) == a
  {
  }

  /** Every asked bit is set under AND, some asked bit is set under OR. */
  ghost predicate Asked(w: Waiter, s: Bits)
  {
    if w.all then forall bit :: Single(bit) && Has(w.want, bit) ==> Has(s, bit)
    else exists bit :: Single(bit) && Has(w.want, bit) && Has(s, bit)
  }

  /** The test of rt_event_send and rt_event_recv is that. */
  lemma SatisfiedIffAsked(w: Waiter, s: Bits)
    ensures Satisfied(w, s) <==> Asked(w, s)
  {
    hide Single, Has, LowBit, Meet, Minus;
    if w.all {
      MinusMeans(w.want, s);
      forall bit | Single(bit) { BitOps(w.want, s, bit); }
      if Minus(w.want, s) != 0 {
        LowBitIsIn(Minus(w.want, s));
        assert !(Has(w.want, LowBit(Minus(w.want, s))) ==> Has(s, LowBit(Minus(w.want, s))));
      } else {
        forall bit | Single(bit) ensures !Has(Minus(w.want, s), bit) { NoneInZero(bit); }
      }
    } else {
      forall bit | Single(bit) { BitOps(w.want, s, bit); }
      if Meet(w.want, s) != 0 {
        LowBitIsIn(Meet(w.want, s));
      } else {
        forall bit | Single(bit) ensures !Has(Meet(w.want, s), bit) { NoneInZero(bit); }
      }
    }
  }

  lemma NoneInZero(bit: Bits)
    ensures !Has(0, bit)
  {
  }

  /** Two sets with the same bits are the same. */
  lemma BitsDecide(a: Bits, b: Bits)
    requires forall bit :: Single(bit) ==> (Has(a, bit) <==> Has(b, bit))
    ensures a == b
  {
    hide Single, Has, LowBit, Minus;
    OneSided(a, b);
    OneSided(b, a);
    BothEmpty(a, b);
  }

  lemma OneSided(a: Bits, b: Bits)
    requires forall bit :: Single(bit) ==> (Has(a, bit) <==> Has(b, bit))
    ensures Minus(a, b) == 0
  {
    hide Single, Has, LowBit, Minus;
    if Minus(a, b) != 0 {
      LowBitIsIn(Minus(a, b));
      BitOps(a, b, LowBit(Minus(a, b)));
    }
  }

  lemma BothEmpty(a: Bits, b: Bits)
    requires Minus(a, b) == 0 && Minus(b, a) == 0
    ensures a == b
  {
  }

  /** In every run, of a thread that waits for all of its bits some bit is not set, and of one that waits for any
      of its bits none is set. */
  lemma WaitersLackBits(es: seq<Event>, ss: seq<Step>, k: nat, i: nat)
    requires Run(es, ss) && k < |es| && i < |es[k].waiting|
    ensures var w := es[k].waiting[i]; var s := es[k].set_;
      if w.all then exists bit :: Single(bit) && Has(w.want, bit) && !Has(s, bit)
      else forall bit :: Single(bit) && Has(w.want, bit) ==> !Has(s, bit)
  {
    hide Run, Satisfied, Single, Has;
    NoLostWakeup(es, ss, k);
    SatisfiedIffAsked(es[k].waiting[i], es[k].set_);
  }

  /** d gives w the bits it asked for that are in s, and r is what CLEAR then leaves. */
  ghost predicate Serves(w: Waiter, s: Bits, d: Delivery, r: Bits)
  {
    && d.t == w.t && d.clear == w.clear
    && (forall bit :: Single(bit) ==> (Has(d.got, bit) <==> Has(w.want, bit) && Has(s, bit)))
    && (forall bit :: Single(bit) ==> (Has(r, bit) <==> Has(s, bit) && !(w.clear && Has(w.want, bit))))
  }

  lemma ServesBits(w: Waiter, s: Bits)
    ensures Serves(w, s, Delivery(w.t, Meet(w.want, s), w.clear), Left(w, w.want, s))
    ensures Left(w, Meet(w.want, s), s) == Left(w, w.want, s)
  {
    hide Single, Has, Meet, Minus;
    forall bit | Single(bit)
      ensures (Has(Meet(w.want, s), bit) <==> Has(w.want, bit) && Has(s, bit))
      ensures (Has(Minus(s, w.want), bit) <==> Has(s, bit) && !Has(w.want, bit))
    {
      BitOps(w.want, s, bit);
      BitOps(s, w.want, bit);
    }
    MinusMeet(s, w.want);
  }

  lemma MinusMeet(s: Bits, a: Bits)
    ensures Minus(s, Meet(a, s)) == Minus(s, a)
  {
  }

  /** rt_event_recv serves the caller at once if and only if every asked bit (AND) or some asked bit (OR) is set;
      otherwise it takes nothing, and the caller waits, if it may. */
  lemma RecvServesIff(e: Event, w: Waiter, block: bool, pos: nat)
    requires Allowed(e, Recv(w, block, pos)) && w.want != 0
    ensures var n := Next(e, Recv(w, block, pos));
      if Asked(w, e.set_) then
        |n.log| == |e.log| + 1 && n.log[..|e.log|] == e.log && Serves(w, e.set_, n.log[|e.log|], n.set_)
        && n.waiting == e.waiting
      else
        n.log == e.log && n.set_ == e.set_
        && n.waiting == if block then e.waiting[..pos] + [w] + e.waiting[pos..] else e.waiting
  {
    hide Satisfied, Asked, Serves, Meet, Minus;
    SatisfiedIffAsked(w, e.set_);
    ServesBits(w, e.set_);
  }

  /** One turn of the loop of rt_event_send serves the waiter, in the same sense, and goes on with the set that is
      left; or it passes the waiter by. */
  lemma TurnServesIff(s: Bits, ws: seq<Waiter>)
    requires ws != []
    ensures var (r, left, out) := Scan(s, ws); var w := ws[0];
      if Asked(w, s) then
        out != [] && left == Scan(Left(w, w.want, s), ws[1..]).1 && out[1..] == Scan(Left(w, w.want, s), ws[1..]).2
        && r == Scan(Left(w, w.want, s), ws[1..]).0 && Serves(w, s, out[0], Left(w, w.want, s))
      else
        left == [w] + Scan(s, ws[1..]).1 && out == Scan(s, ws[1..]).2 && r == Scan(s, ws[1..]).0
  {
    hide Satisfied, Asked, Serves, Meet, Minus, Left;
    SatisfiedIffAsked(ws[0], s);
    ServesBits(ws[0], s);
  }

  /** rt_event_send adds exactly the bits sent before it looks at the waiters. */
  lemma SendAdds(e: Event, b: Bits)
    requires b != 0
    ensures exists s :: Together(s, e.set_, b) && var n := Next(e, Send(b));
      (n.set_, n.waiting) == (Scan(s, e.waiting).0, Scan(s, e.waiting).1) && n.log == e.log + Scan(s, e.waiting).2
  {
    hide Scan, Join, Has, Single;
    var s := Join(e.set_, b);
    forall bit | Single(bit) ensures Has(s, bit) <==> Has(e.set_, bit) || Has(b, bit) { BitOps(e.set_, b, bit); }
    assert Together(s, e.set_, b);
  }

  ghost predicate Together(s: Bits, a: Bits, b: Bits)
  {
    forall bit :: Single(bit) ==> (Has(s, bit) <==> Has(a, bit) || Has(b, bit))
  }

  /** A timeout takes that one waiter off the list and touches nothing else. */
  lemma ExpireLeaves(e: Event, i: nat)
    requires i < |e.waiting|
    ensures var n := Next(e, Expire(i));
      && n.set_ == e.set_ && n.sends == e.sends && n.log == e.log
      && multiset(n.waiting) == multiset(e.waiting) - multiset{e.waiting[i]}
      && forall k :: 0 <= k < |n.waiting| ==> n.waiting[k] == e.waiting[if k < i then k else k + 1]
  {
    hide Scan, Satisfied, Meet, Minus, Join;
    WithoutOne(e.waiting, i);
  }

  lemma WithoutOne(s: seq<Waiter>, i: nat)
    requires i < |s|
    ensures multiset(s[..i] + s[i + 1..]) == multiset(s) - multiset{s[i]}
  {
    assert s == s[..i] + [s[i]] + s[i + 1..];
  }
}
