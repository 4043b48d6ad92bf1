/** The hard timer list of timer.c: 32-bit ticks, rows of timers, and the loops that search and relink
    them. Ghost fields carry the unbounded clock that the 32-bit ticks stand for. */
module Timers {

  import opened TimerRows
  import opened TimerSpec

  class TimerList {
    var rows: seq<seq<Id>>         // rt_timer_list, head to tail
    var timeoutTick: seq<int>
    var initTick: seq<nat>
    var periodicFlag: seq<bool>
    var activated: seq<bool>
    var rtTick: int                // rt_tick
    var randomNr: nat
    ghost var now: nat
    ghost var due: seq<nat>
    ghost var stamp: seq<nat>
    ghost var starts: nat
    ghost var hand: set<Id>        // timers whose start was interrupted between its two parts
    ghost const late: nat

    ghost function Abs(): Clock
      requires rows != []
      reads this
    {
      Clock(now, Bottom(rows), Book(due, stamp), initTick, periodicFlag, starts, hand, late)
    }

    /** Timer x as the rows' searches see it: its 32-bit deadline, and whether it is listed. */
    ghost predicate InStep(x: Id)
      requires rows != []
      reads this
    {
      InStepWith(x, Bottom(rows))
    }

    ghost predicate InStepWith(x: Id, row: seq<Id>)
      reads this`timeoutTick, this`activated, this`due, this`hand
    {
      && x < |timeoutTick| && x < |activated| && x < |due|
      && (activated[x] <==> x in row)
      && (activated[x] || x in hand ==> timeoutTick[x] == due[x] % TICK_SPAN)
    }

    ghost predicate Valid()
      reads this
    {
      && rows != [] && Rows(Book(due, stamp), rows) && CheckInv(Abs())
      && rtTick == now % TICK_SPAN && randomNr < TICK_SPAN
      && |timeoutTick| == |activated| == |initTick|
      && InStepBut({})
    }

    ghost predicate InStepBut(out: set<Id>)
      requires rows != []
      reads this
    {
      forall x: Id :: x < |initTick| && x !in out ==> InStep(x)
    }

    /** `count` timers, none started. */
    constructor (levels: nat, count: nat, ghost delay: nat)
      requires levels >= 1 && 1 <= delay < HALF
      ensures Valid() && Inv(Abs()) && Bottom(rows) == [] && |rows| == levels && |initTick| == count && now == 0
      ensures late == delay && hand == {}
    {
      hand, late := {}, delay;
      rows := seq(levels, _ => []);
      timeoutTick, initTick := seq(count, _ => 0), seq(count, _ => 0);
      periodicFlag, activated := seq(count, _ => false), seq(count, _ => false);
      rtTick, randomNr := 0, 0;
      now, starts := 0, 0;
      due, stamp := seq(count, _ => 0), seq(count, _ => 0);
    }

    /** One row of the search in rt_timer_start, from the place the row above led to. */
    method SearchRow(row: seq<Id>, start: nat, tick: int, ghost d: nat) returns (head: nat)
      requires Sorted(Book(due, stamp), row) && start <= Upper(Book(due, stamp), row, d) && tick == d % TICK_SPAN
      requires forall i :: 0 <= i < |row| ==>
        row[i] < |timeoutTick| && timeoutTick[row[i]] == due[row[i]] % TICK_SPAN && -HALF <= due[row[i]] - d < HALF
      ensures head == Upper(Book(due, stamp), row, d)
    {
      hide Upper;
      ghost var b := Book(due, stamp);
      head := start;
      while head < |row|
        invariant head <= Upper(b, row, d)
      {
        var t := row[head];
        WrapOrder(due[t], d);
        UpperSplits(b, row, d, head);
        if Diff(timeoutTick[t], tick) == 0 {
          head := head + 1;
        } else if Diff(timeoutTick[t], tick) < HALF {
          break;
        } else {
          head := head + 1;
        }
      }
    }

    /** Timer x is in no row, and booked for d. */
    ghost predicate Ready(x: Id, d: nat)
      reads this
    {
      && rows != [] && Rows(Book(due, stamp), rows) && Known(Book(due, stamp), x) && due[x] == d
      && x < |timeoutTick| && timeoutTick[x] == d % TICK_SPAN && x !in Bottom(rows)
      && forall y :: y in Bottom(rows) ==> Comparable(y, d) && stamp[y] < stamp[x]
    }

    ghost predicate Comparable(y: Id, d: nat)
      reads this
    {
      Known(Book(due, stamp), y) && y < |timeoutTick| && timeoutTick[y] == due[y] % TICK_SPAN
      && -HALF <= due[y] - d < HALF
    }

    lemma RowComparable(x: Id, d: nat, l: nat)
      requires Ready(x, d) && l < |rows|
      ensures Sorted(Book(due, stamp), rows[l])
      ensures forall i :: 0 <= i < |rows[l]| ==> Comparable(rows[l][i], d)
    {
      forall i | 0 <= i < |rows[l]| ensures Comparable(rows[l][i], d) {
        InBottom(Book(due, stamp), rows, l, rows[l][i]);
      }
    }

    /** The first loop of rt_timer_start: down the rows, each search starting where the last one ended. */
    method FindHeads(x: Id, ghost d: nat) returns (heads: seq<nat>)
      requires Ready(x, d)
      ensures |heads| == |rows|
      ensures forall l :: 0 <= l < |rows| ==> AllKnown(Book(due, stamp), rows[l])
      ensures forall l :: 0 <= l < |rows| ==> heads[l] == Upper(Book(due, stamp), rows[l], d)
    {
      hide Upper;
      ghost var b := Book(due, stamp);
      heads := [];
      var start: nat := 0;
      var lvl := 0;
      while lvl < |rows|
        invariant lvl <= |rows| && |heads| == lvl
        invariant forall l :: 0 <= l < |rows| ==> AllKnown(b, rows[l])
        invariant lvl < |rows| ==> start <= Upper(b, rows[lvl], d)
        invariant forall l :: 0 <= l < lvl ==> heads[l] == Upper(b, rows[l], d)
      {
        RowComparable(x, d, lvl);
        var head := SearchRow(rows[lvl], start, timeoutTick[x], d);
        heads := heads + [head];
        start := 0;
        if lvl != |rows| - 1 && head > 0 {
          assert Within(rows[lvl], rows[lvl + 1]);
          DescentStarts(b, rows[lvl], rows[lvl + 1], d);
          start := IndexOf(rows[lvl + 1], rows[lvl][head - 1]) + 1;
        }
        lvl := lvl + 1;
      }
    }

    /** The search ended at these places. */
    ghost predicate HeadsFor(was: seq<seq<Id>>, heads: seq<nat>, x: Id)
      reads this
    {
      && |heads| == |was| && Known(Book(due, stamp), x)
      && (forall l :: 0 <= l < |was| ==> AllKnown(Book(due, stamp), was[l]))
      && (forall l :: 0 <= l < |was| ==> heads[l] == Upper(Book(due, stamp), was[l], due[x]))
    }

    /** rt_list_insert_after in the next row up, behind the place where its search ended. */
    method InsertAbove(x: Id, heads: seq<nat>, h: nat, ghost was: seq<seq<Id>>)
      requires HeadsFor(was, heads, x) && h < |rows|
      requires rows == InsertRows(Book(due, stamp), was, x, h)
      modifies this`rows
      ensures |rows| == |was| && rows == InsertRows(Book(due, stamp), was, x, h + 1)
    {
      hide Upper, InsertRows;
      InsertRowsStep(Book(due, stamp), was, x, h);
      var lvl := |rows| - 1 - h;
      var head := heads[lvl];
      rows := rows[lvl := rows[lvl][..head] + [x] + rows[lvl][head..]];
    }

    /** The second loop of rt_timer_start: into the last row, and upwards while the counter bits allow. */
    method InsertRowsUp(x: Id, heads: seq<nat>, bits: nat)
      requires rows != [] && HeadsFor(rows, heads, x)
      modifies this`rows
      ensures rows == InsertRows(Book(due, stamp), old(rows), x, 1 + Extra(bits, |old(rows)| - 1))
    {
      hide Extra, InsertRows, Upper;
      ghost var was, b, m := rows, Book(due, stamp), |rows|;
      var tstNr: nat := bits;
      NoRows(b, was, x);
      InsertAbove(x, heads, 0, was);
      var rowLvl: nat := 2;
      while rowLvl <= |rows|
        invariant 2 <= rowLvl <= m + 1 && |rows| == m
        invariant rows == InsertRows(b, was, x, rowLvl - 1)
        invariant Extra(bits, m - 1) == rowLvl - 2 + Extra(tstNr, m + 1 - rowLvl)
      {
        ExtraStep(tstNr, m + 1 - rowLvl);
        if tstNr % (RT_TIMER_SKIP_LIST_MASK + 1) != 0 { break; }
        InsertAbove(x, heads, rowLvl - 1, was);
        tstNr := tstNr / (RT_TIMER_SKIP_LIST_MASK + 1);
        rowLvl := rowLvl + 1;
      }
      ExtraStep(tstNr, m + 1 - rowLvl);
    }

    /** _rt_timer_remove */
    method Remove(x: Id)
      modifies this`rows
      ensures rows == RemoveRows(old(rows), x)
    {
      var i := 0;
      ghost var was := rows;
      while i < |rows|
        invariant i <= |rows| == |was|
        invariant forall l :: 0 <= l < i ==> rows[l] == Without(was[l], x)
        invariant forall l :: i <= l < |was| ==> rows[l] == was[l]
      {
        rows := rows[i := Without(rows[i], x)];
        i := i + 1;
      }
      assert rows == RemoveRows(was, x);
    }

    /** rt_timer_stop of a listed timer, and the first part of rt_timer_start. */
    method Unlist(x: Id)
      requires Valid() && Timer(Abs(), x)
      modifies this`rows, this`activated
      ensures Valid() && Abs() == StopTimer(old(Abs()), x) && !activated[x] && |rows| == |old(rows)|
    {
      hide Sorted, Within, Without;
      StopKeeps(Abs(), x);
      RemoveKeepsRows(Book(due, stamp), rows, x);
      Remove(x);
      activated := activated[x := false];
      forall y: Id | y < |initTick| ensures InStep(y) { assert old(InStep(y)); }
    }

    /** The first part of rt_timer_start: out of the rows, and the deadline is rt_tick_get() plus its ticks. */
    method StartRead(x: Id)
      requires Valid() && Startable(Abs(), x) && x !in hand
      modifies this`rows, this`activated, this`timeoutTick, this`due, this`hand
      ensures Valid() && Abs() == ReadTimer(old(Abs()), x) && |rows| == |old(rows)|
    {
      hide Rows, Sorted, Without, InStepBut;
      ReadKeeps(Abs(), x);
      Unlist(x);
      ReadTick(x);
    }

    /** timer->timeout_tick = rt_tick_get() + timer->init_tick */
    method ReadTick(x: Id)
      requires Valid() && Startable(Abs(), x) && !activated[x]
      modifies this`timeoutTick, this`due, this`hand
      ensures Abs() == old(Abs()).(b := Book(due, stamp), hand := old(hand) + {x})
      ensures due == old(due)[x := now + initTick[x]] && Rows(Book(due, stamp), rows)
      ensures |timeoutTick| == |initTick| && InStepBut({})
    {
      hide Rows, Sorted, Configured, HandOk;
      assert InStep(x);
      AddTicks(now, initTick[x]);
      RebookRows(x, now + initTick[x]);
      timeoutTick := timeoutTick[x := (rtTick + initTick[x]) % TICK_SPAN];
      due := due[x := now + initTick[x]];
      hand := hand + {x};
      forall y: Id | y < |initTick| ensures InStep(y) { assert old(InStep(y)); }
    }

    lemma RebookRows(x: Id, d: nat)
      requires Valid() && Timer(Abs(), x) && !activated[x]
      ensures x < |due| && Rows(Book(due[x := d], stamp), rows)
    {
      var b, c := Book(due, stamp), Book(due[x := d], stamp);
      assert InStep(x);
      assert stamp[x := stamp[x]] == stamp;
      forall l | 0 <= l < |rows| ensures Sorted(c, rows[l]) {
        if x in rows[l] { InBottom(b, rows, l, x); }
        Rebooked(b, rows[l], x, d, stamp[x]);
      }
    }

    /** The second part: the timer gets its place in the rows. */
    method StartLink(x: Id)
      requires Valid() && x in hand && x < |due| && now < due[x] + late
      modifies this`rows, this`randomNr, this`activated, this`stamp, this`starts, this`hand
      ensures Valid() && Abs() == LinkTimer(old(Abs()), x) && |rows| == |old(rows)|
    {
      hide Rows, Sorted, Insert, InStepBut, Ready;
      LinkKeeps(Abs(), x);
      Stamp(x);
      Link(x);
    }

    /** The start gets its number. */
    ghost method Stamp(x: Id)
      requires Valid() && x in hand && x < |due| && now < due[x] + late
      modifies this`stamp, this`starts, this`hand
      ensures x < |old(stamp)| && stamp == old(stamp)[x := old(starts)] && starts == old(starts) + 1 && hand == old(hand) - {x}
      ensures Ready(x, due[x]) && InStepBut({x}) && x < |initTick|
    {
      hide Rows, Sorted;
      LinkReady(x);
      stamp := stamp[x := starts];
      starts := starts + 1;
      hand := hand - {x};
      forall y: Id | y < |initTick| && y != x ensures InStep(y) { assert old(InStep(y)); }
    }

    /** A timer in hand can be compared with every listed one. */
    lemma LinkReady(x: Id)
      requires Valid() && x in hand && x < |due| && now < due[x] + late
      ensures x < |stamp| && x < |timeoutTick| && timeoutTick[x] == due[x] % TICK_SPAN && x !in Bottom(rows)
      ensures Rows(Book(due, stamp[x := starts]), rows) && x < |initTick| && !activated[x]
      ensures forall y :: y in Bottom(rows) ==> y != x && Comparable(y, due[x]) && stamp[y] < starts
    {
      hide Rows;
      assert InStep(x);
      forall y | y in Bottom(rows) ensures Comparable(y, due[x]) && stamp[y] < starts {
        var i :| 0 <= i < |Bottom(rows)| && Bottom(rows)[i] == y;
        assert InStep(y);
      }
      RestampRows(x);
    }

    lemma RestampRows(x: Id)
      requires Valid() && Timer(Abs(), x) && x !in Bottom(rows)
      ensures x < |stamp| && Rows(Book(due, stamp[x := starts]), rows)
    {
      var b, c := Book(due, stamp), Book(due, stamp[x := starts]);
      assert due[x := due[x]] == due;
      forall l | 0 <= l < |rows| ensures Sorted(c, rows[l]) {
        if x in rows[l] { InBottom(b, rows, l, x); }
        Rebooked(b, rows[l], x, due[x], starts);
      }
    }

    /** Put timer x into the rows. */
    method Link(x: Id)
      requires x < |due| && Ready(x, due[x]) && InStepBut({x}) && x < |activated| == |initTick|
      modifies this`rows, this`randomNr, this`activated
      ensures rows != [] && Rows(Book(due, stamp), rows) && |rows| == |old(rows)| && randomNr < TICK_SPAN
      ensures AllKnown(Book(due, stamp), old(Bottom(rows))) && Bottom(rows) == Insert(Book(due, stamp), old(Bottom(rows)), x)
      ensures InStepBut({}) && |activated| == |initTick|
    {
      hide Insert, Rows, InStepWith;
      ghost var d, b := due[x], Book(due, stamp);
      ghost var was := Bottom(rows);
      forall y: Id | y < |initTick| && y != x ensures InStepWith(y, was) { assert InStep(y); }
      var heads := FindHeads(x, d);
      RowsLinked(x, 1 + Extra((randomNr + 1) % TICK_SPAN, |rows| - 1));
      randomNr := (randomNr + 1) % TICK_SPAN;
      InsertRowsUp(x, heads, randomNr);
      Activate(x, was);
    }

    method Activate(x: Id, ghost was: seq<Id>)
      requires x < |due| && x < |timeoutTick| && x < |activated| == |initTick| && timeoutTick[x] == due[x] % TICK_SPAN
      requires rows != [] && Known(Book(due, stamp), x) && AllKnown(Book(due, stamp), was)
      requires Bottom(rows) == Insert(Book(due, stamp), was, x)
      requires forall y: Id :: y < |initTick| && y != x ==> InStepWith(y, was)
      modifies this`activated
      ensures InStepBut({}) && |activated| == |initTick|
    {
      hide Insert;
      activated := activated[x := true];
      forall y: Id | y < |initTick| ensures InStep(y) {
        InsertElements(Book(due, stamp), was, x, y);
        assert y != x ==> old(InStepWith(y, was));
      }
    }

    lemma RowsLinked(x: Id, height: nat)
      requires x < |due| && Ready(x, due[x]) && 1 <= height <= |rows|
      ensures rows != [] && Known(Book(due, stamp), x) && forall l :: 0 <= l < |rows| ==> AllKnown(Book(due, stamp), rows[l])
      ensures var r := InsertRows(Book(due, stamp), rows, x, height);
        Rows(Book(due, stamp), r) && Bottom(r) == Insert(Book(due, stamp), Bottom(rows), x)
    {
      hide Insert, InsertRows, Sorted, Within;
      RowsKnown(Book(due, stamp), rows);
      InsertKeepsRows(Book(due, stamp), rows, x, height);
    }

    /** rt_timer_start with interrupts disabled around it. */
    method Start(x: Id)
      requires Valid() && Startable(Abs(), x) && x !in hand
      modifies this
      ensures Valid() && Abs() == StartTimer(old(Abs()), x)
      ensures rtTick == old(rtTick) && |rows| == |old(rows)|
    {
      hide Insert, Rows, Without, InStepBut, Sorted;
      WindowOpen();
      StartIsBoth(Abs(), x);
      StartRead(x);
      StartLink(x);
    }

    lemma WindowOpen()
      requires Valid()
      ensures late >= 1 && AllKnown(Book(due, stamp), Bottom(rows))
    {
    }

    /** rt_timer_stop; an inactive timer is an error. */
    method Stop(x: Id) returns (ok: bool)
      requires Valid() && Timer(Abs(), x)
      modifies this`rows, this`activated
      ensures Valid() && ok == old(activated)[x]
      ensures Abs() == if ok then StopTimer(old(Abs()), x) else old(Abs())
    {
      if !activated[x] { return false; }
      Unlist(x);
      return true;
    }

    /** rt_timer_control, setting the initial tick and the periodic flag. */
    method SetTimer(x: Id, init: nat, periodic: bool)
      requires Valid() && Timer(Abs(), x)
      requires (x in Bottom(rows) && periodic) || x in hand ==> GoodTicks(Abs(), init, periodic)
      modifies this`initTick, this`periodicFlag
      ensures Valid() && Abs() == Control(old(Abs()), x, init, periodic)
    {
      hide Rows, Sorted;
      initTick := initTick[x := init];
      periodicFlag := periodicFlag[x := periodic];
      forall y: Id | y < |initTick| ensures InStep(y) { assert old(InStep(y)); }
    }

    /** The body of the loop in rt_timer_check, for a timer whose deadline has passed. */
    method FireFirst() returns (t: Id)
      requires Valid() && AllKnown(Book(due, stamp), Bottom(rows)) && Due(Abs())
      modifies this
      ensures Valid() && t == old(Bottom(rows))[0] && Abs() == Fire(old(Abs())) && rtTick == old(rtTick)
    {
      hide Rows, InStepBut, StartTimer, Sorted;
      t := Bottom(rows)[0];
      FirstListed();
      Unlist(t);
      if periodicFlag[t] { Start(t); }
    }

    lemma FirstListed()
      requires Valid() && Bottom(rows) != []
      ensures var x := Bottom(rows)[0];
        x < |initTick| == |periodicFlag| == |activated| == |timeoutTick| == |due| && activated[x]
        && timeoutTick[x] == due[x] % TICK_SPAN && -HALF < due[x] - now < HALF
        && Without(Bottom(rows), x) == Bottom(rows)[1..] && AllKnown(Book(due, stamp), Bottom(rows))
    {
      var x := Bottom(rows)[0];
      assert InStep(x);
      HeadOnce(Book(due, stamp), Bottom(rows));
      WithoutAbsent(Bottom(rows)[1..], x);
    }

    /** rt_timer_check: fires, in order, what Check says. */
    method CheckTimers() returns (fired: seq<Id>)
      requires Valid()
      modifies this
      ensures Valid() && (Abs(), fired) == Check(old(Abs())) && rtTick == old(rtTick)
    {
      hide Rows, InStepBut, CheckInv, Fire, Check, Lateness;
      fired := [];
      ghost var c := Abs();
      while Bottom(rows) != []
        invariant Valid() && rtTick == old(rtTick) && CheckInv(c) && CheckInv(Abs())
        invariant Check(c).0 == Check(Abs()).0 && Check(c).1 == fired + Check(Abs()).1
        decreases Lateness(Abs())
      {
        FirstListed();
        CheckTurn(Abs());
        var t := Bottom(rows)[0];
        WrapDue(due[t], now);
        if Diff(rtTick, timeoutTick[t]) < HALF {
          var x := FireFirst();
          fired := fired + [x];
        } else {
          break;
        }
      }
      EmptyKnown();
      CheckTurn(Abs());
      assert fired + [] == fired;
    }

    lemma EmptyKnown()
      requires Valid()
      ensures AllKnown(Book(due, stamp), Bottom(rows))
    {
    }

    /** rt_tick_increase: the next tick, and the check. */
    method TickIncrease() returns (fired: seq<Id>)
      requires Valid() && Inv(Abs())
      modifies this
      ensures Valid() && Inv(Abs())
      ensures Abs() == Next(old(Abs()), Tick) && fired == Fired(old(Abs()), Tick)
    {
      hide Rows, CheckInv, Check, Inv;
      NextInv(Abs(), Tick);
      TickReady(Abs());
      AddTicks(now, 1);
      rtTick := (rtTick + 1) % TICK_SPAN;
      now := now + 1;
      forall y: Id | y < |initTick| ensures InStep(y) { assert old(InStep(y)); }
      fired := CheckTimers();
    }
  }
}
