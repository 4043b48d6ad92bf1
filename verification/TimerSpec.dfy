/** The hard timers of timer.c against an unbounded clock: the pending list ordered by true deadline and
    start order, what rt_timer_check fires, and the 32-bit comparisons that stand for all this. */
module TimerSpec {

  import opened Wrappers

  const TICK_SPAN := 0x1_0000_0000
  const HALF := 0x7FFF_FFFF          // RT_TICK_MAX / 2

  // ----- wraparound

  /** The 32-bit difference a - b. */
  function Diff(a: int, b: int): (d: int)
    ensures 0 <= d < TICK_SPAN
  {
    (a - b) % TICK_SPAN
  }

  /** The search of rt_timer_start goes past a timer with this difference. */
  predicate Passes(diff: int)
  {
    diff == 0 || !(diff < HALF)
  }

  /** Ticks of moments that lie less than half a span apart compare like the moments themselves. */
  lemma WrapOrder(a: int, b: int)
    requires -HALF <= a - b < HALF
    ensures Passes(Diff(a % TICK_SPAN, b % TICK_SPAN)) <==> a <= b
  {
    DiffOfTicks(a, b);
    SmallMod(a - b);
  }

  /** The test of rt_timer_check: has the moment passed? */
  lemma WrapDue(due: int, now: int)
    requires -HALF < due - now < HALF
    ensures Diff(now % TICK_SPAN, due % TICK_SPAN) < HALF <==> due <= now
  {
    DiffOfTicks(now, due);
    SmallMod(now - due);
  }

  lemma DiffOfTicks(a: int, b: int)
    ensures Diff(a % TICK_SPAN, b % TICK_SPAN) == (a - b) % TICK_SPAN
  {
    var k := (a / TICK_SPAN) - (b / TICK_SPAN);
    assert (a % TICK_SPAN) - (b % TICK_SPAN) == (a - b) - k * TICK_SPAN;
    ModShift(a - b, k);
  }

  lemma {:induction false} ModShift(x: int, k: int)
    ensures (x - k * TICK_SPAN) % TICK_SPAN == x % TICK_SPAN
    decreases if k < 0 then -k else k
  {
    if k > 0 {
      ModShift(x - TICK_SPAN, k - 1);
    } else if k < 0 {
      ModShift(x + TICK_SPAN, k + 1);
    }
  }

  lemma AddTicks(n: int, i: int)
    ensures (n % TICK_SPAN + i) % TICK_SPAN == (n + i) % TICK_SPAN
  {
    ModShift(n + i, n / TICK_SPAN);
    assert n % TICK_SPAN == n - (n / TICK_SPAN) * TICK_SPAN;
  }

  lemma SmallMod(x: int)
    requires -TICK_SPAN < x < TICK_SPAN
    ensures x % TICK_SPAN == if x < 0 then x + TICK_SPAN else x
  {
  }

  // ----- the pending list

  type Id = nat

  /** When each timer is due, and the order of the starts. */
  datatype Book = Book(due: seq<nat>, stamp: seq<nat>)

  predicate Known(b: Book, x: Id)
  {
    x < |b.due| && x < |b.stamp|
  }

  predicate Before(b: Book, x: Id, y: Id)
    requires Known(b, x) && Known(b, y)
  {
    b.due[x] < b.due[y] || (b.due[x] == b.due[y] && b.stamp[x] < b.stamp[y])
  }

  predicate AllKnown(b: Book, row: seq<Id>)
  {
    forall i :: 0 <= i < |row| ==> Known(b, row[i])
  }

  /** By deadline, ties in start order. */
  predicate Sorted(b: Book, row: seq<Id>)
  {
    AllKnown(b, row) && forall i, j :: 0 <= i < j < |row| ==> Before(b, row[i], row[j])
  }

  /** How many timers are due at d or earlier. */
  function Upper(b: Book, row: seq<Id>, d: int): (u: nat)
    requires AllKnown(b, row)
    ensures u <= |row|
  {
    if row == [] || b.due[row[0]] > d then 0 else 1 + Upper(b, row[1..], d)
  }

  /** Plain sorted insertion: behind everything due at the same moment or earlier. */
  function Insert(b: Book, row: seq<Id>, x: Id): (r: seq<Id>)
    requires AllKnown(b, row) && Known(b, x)
    ensures |r| == |row| + 1
  {
    var u := Upper(b, row, b.due[x]);
    row[..u] + [x] + row[u..]
  }

  function Without(row: seq<Id>, x: Id): (r: seq<Id>)
    ensures x !in r && forall y :: y in r <==> y in row && y != x
  {
    if row == [] then []
    else if row[0] == x then Without(row[1..], x)
    else [row[0]] + Without(row[1..], x)
  }

  /** In a sorted list the first Upper timers are the ones due by d. */
  lemma {:induction false} UpperSplits(b: Book, row: seq<Id>, d: int, i: nat)
    requires Sorted(b, row) && i < |row|
    ensures i < Upper(b, row, d) <==> b.due[row[i]] <= d
    decreases |row|
  {
    SortedTail(b, row);
    if i > 0 {
      assert Before(b, row[0], row[i]);
      if b.due[row[0]] <= d { UpperSplits(b, row[1..], d, i - 1); }
    }
  }

  lemma SortedTail(b: Book, row: seq<Id>)
    requires Sorted(b, row) && row != []
    ensures Sorted(b, row[1..])
  {
  }

  lemma {:induction false} WithoutKnown(b: Book, row: seq<Id>, x: Id)
    requires AllKnown(b, row)
    ensures AllKnown(b, Without(row, x))
  {
    if row != [] { WithoutKnown(b, row[1..], x); }
  }

  lemma InsertSorted(b: Book, row: seq<Id>, x: Id)
    requires Sorted(b, row) && Known(b, x) && x !in row
    requires forall i :: 0 <= i < |row| ==> b.stamp[row[i]] < b.stamp[x]
    ensures Sorted(b, Insert(b, row, x))
  {
    hide Upper;
    var u := Upper(b, row, b.due[x]);
    var r := Insert(b, row, x);
    forall i | 0 <= i < |row| ensures i < u <==> b.due[row[i]] <= b.due[x] { UpperSplits(b, row, b.due[x], i); }
    InsertIndex(b, row, x);
    forall i, j | 0 <= i < j < |r| ensures Known(b, r[i]) && Known(b, r[j]) && Before(b, r[i], r[j]) {
      if i < u {
        if j < u { assert Before(b, row[i], row[j]); } else if j > u { assert Before(b, row[i], row[j - 1]); }
      } else if i > u {
        assert Before(b, row[i - 1], row[j - 1]);
      }
    }
  }

  lemma InsertIndex(b: Book, row: seq<Id>, x: Id)
    requires AllKnown(b, row) && Known(b, x)
    ensures var u, r := Upper(b, row, b.due[x]), Insert(b, row, x);
      && (forall i :: 0 <= i < u ==> r[i] == row[i]) && r[u] == x
      && (forall i :: u < i < |r| ==> r[i] == row[i - 1])
  {
  }

  lemma InsertElements(b: Book, row: seq<Id>, x: Id, y: Id)
    requires AllKnown(b, row) && Known(b, x)
    ensures y in Insert(b, row, x) <==> y == x || y in row
  {
    var u := Upper(b, row, b.due[x]);
    assert row == row[..u] + row[u..];
  }

  lemma {:induction false} WithoutSorted(b: Book, row: seq<Id>, x: Id)
    requires Sorted(b, row)
    ensures Sorted(b, Without(row, x))
    decreases |row|
  {
    if row != [] {
      SortedTail(b, row);
      WithoutSorted(b, row[1..], x);
      if row[0] != x {
        var t := Without(row[1..], x);
        forall j | 0 <= j < |t| ensures Known(b, t[j]) && Before(b, row[0], t[j]) {
          assert t[j] in row[1..];
          var k :| 0 <= k < |row[1..]| && row[1..][k] == t[j];
          assert row[k + 1] == t[j];
        }
        ConsSorted(b, row[0], t);
      }
    }
  }

  lemma ConsSorted(b: Book, x: Id, t: seq<Id>)
    requires Known(b, x) && Sorted(b, t) && forall j :: 0 <= j < |t| ==> Before(b, x, t[j])
    ensures Sorted(b, [x] + t)
  {
    var r := [x] + t;
    forall i, j | 0 <= i < j < |r| ensures Known(b, r[i]) && Known(b, r[j]) && Before(b, r[i], r[j]) {
      assert r[j] == t[j - 1];
      if i > 0 { assert r[i] == t[i - 1]; }
    }
  }

  lemma {:induction false} WithoutAbsent(row: seq<Id>, x: Id)
    requires x !in row
    ensures Without(row, x) == row
    decreases |row|
  {
    if row != [] {
      assert row == [row[0]] + row[1..];
      WithoutAbsent(row[1..], x);
    }
  }

  /** Rewriting the book for a timer that is not listed leaves the list in order. */
  lemma Rebooked(b: Book, row: seq<Id>, x: Id, due: nat, stamp: nat)
    requires Sorted(b, row) && x !in row && Known(b, x)
    ensures Sorted(Book(b.due[x := due], b.stamp[x := stamp]), row)
  {
    var c := Book(b.due[x := due], b.stamp[x := stamp]);
    forall i, j | 0 <= i < j < |row| ensures Known(c, row[i]) && Known(c, row[j]) && Before(c, row[i], row[j]) {
      assert row[i] in row && row[j] in row;
      assert Before(b, row[i], row[j]);
    }
    forall i | 0 <= i < |row| ensures Known(c, row[i]) { assert Known(b, row[i]); }
  }

  // ----- the unbounded clock

  /** `row` lists the activated timers; `next` numbers the insertions. A start that is interrupted between
      reading the tick and linking the timer has it in `hand`; `late` bounds, from above, by how many ticks
      such a link may come after the deadline. */
  datatype Clock = Clock(
    now: nat, row: seq<Id>, b: Book, init: seq<nat>, periodic: seq<bool>, next: nat, hand: set<Id>, late: nat)

  /** One entry of the pending list. */
  predicate Listed(c: Clock, x: Id)
  {
    Known(c.b, x) && c.now < c.b.due[x] + c.late <= c.now + HALF && c.b.stamp[x] < c.next
  }

  predicate Sizes(c: Clock)
  {
    |c.b.due| == |c.b.stamp| == |c.init| == |c.periodic|
  }

  /** Ticks far enough below half the range, and no zero period. When no start is delayed beyond its
      deadline, `late` is 1 and this is what rt_timer_start asserts. */
  predicate GoodTicks(c: Clock, init: nat, periodic: bool)
  {
    init + c.late <= HALF && (periodic ==> init >= 1)
  }

  /** A listed periodic timer, which rt_timer_check will start again, has such ticks. */
  predicate Configured(c: Clock)
  {
    forall i :: 0 <= i < |c.row| && Timer(c, c.row[i]) && c.row[i] < |c.periodic| && c.periodic[c.row[i]] ==>
      1 <= c.init[c.row[i]] <= HALF - c.late
  }

  /** Timer x may be started. */
  predicate Startable(c: Clock, x: Id)
  {
    Timer(c, x) && x < |c.periodic| && GoodTicks(c, c.init[x], c.periodic[x])
  }

  /** A timer in hand is in no row, and its deadline is not too far ahead. */
  predicate HandOk(c: Clock)
  {
    1 <= c.late < HALF && forall x :: x in c.hand ==>
      Startable(c, x) && Known(c.b, x) && x !in c.row && c.b.due[x] + c.late <= c.now + HALF
  }

  predicate Inv(c: Clock)
  {
    && Sizes(c) && Configured(c) && Sorted(c.b, c.row) && HandOk(c)
    && forall i :: 0 <= i < |c.row| ==> Listed(c, c.row[i])
  }

  predicate Timer(c: Clock, x: Id)
  {
    x < |c.init|
  }

  /** rt_timer_start */
  function StartTimer(c: Clock, x: Id): Clock
    requires Sizes(c) && Timer(c, x) && AllKnown(c.b, c.row)
  {
    var row := Without(c.row, x);
    var b := Book(c.b.due[x := c.now + c.init[x]], c.b.stamp[x := c.next]);
    WithoutKnown(c.b, c.row, x);
    c.(row := Insert(b, row, x), b := b, next := c.next + 1)
  }

  /** The first part of rt_timer_start: the timer leaves the rows, and the tick is read. */
  function ReadTimer(c: Clock, x: Id): Clock
    requires Sizes(c) && Timer(c, x)
  {
    c.(row := Without(c.row, x), b := Book(c.b.due[x := c.now + c.init[x]], c.b.stamp), hand := c.hand + {x})
  }

  /** The second part: the timer is linked. */
  function LinkTimer(c: Clock, x: Id): Clock
    requires Sizes(c) && Timer(c, x) && AllKnown(c.b, c.row)
  {
    var b := Book(c.b.due, c.b.stamp[x := c.next]);
    c.(row := Insert(b, c.row, x), b := b, next := c.next + 1, hand := c.hand - {x})
  }

  /** With interrupts disabled around it, rt_timer_start is both at one moment. */
  lemma StartIsBoth(c: Clock, x: Id)
    requires Sizes(c) && Timer(c, x) && AllKnown(c.b, c.row) && x !in c.hand
    ensures Sizes(ReadTimer(c, x)) && AllKnown(ReadTimer(c, x).b, ReadTimer(c, x).row)
    ensures LinkTimer(ReadTimer(c, x), x) == StartTimer(c, x)
  {
    WithoutKnown(c.b, c.row, x);
  }

  /** rt_timer_stop */
  function StopTimer(c: Clock, x: Id): Clock
  {
    c.(row := Without(c.row, x))
  }

  /** rt_timer_control on the initial tick and the periodic flag. */
  function Control(c: Clock, x: Id, init: nat, periodic: bool): Clock
    requires Sizes(c) && Timer(c, x)
  {
    c.(init := c.init[x := init], periodic := c.periodic[x := periodic])
  }

  /** One turn of the loop in rt_timer_check. */
  function Fire(c: Clock): Clock
    requires Sizes(c) && c.row != [] && AllKnown(c.b, c.row)
  {
    var x := c.row[0];
    var d := c.(row := c.row[1..]);
    if c.periodic[x] then StartTimer(d, x) else d
  }

  predicate Due(c: Clock)
    requires AllKnown(c.b, c.row)
  {
    c.row != [] && c.b.due[c.row[0]] <= c.now
  }

  /** rt_timer_check: the state it leaves and the timers it fires, in order. */
  function Check(c: Clock): (Clock, seq<Id>)
    requires CheckInv(c)
    decreases Upper(c.b, c.row, c.now)
  {
    if !Due(c) then (c, []) else
      FireInv(c);
      var (r, fired) := Check(Fire(c));
      (r, [c.row[0]] + fired)
  }

  /** What holds while rt_timer_check is at work: a deadline may have just been passed. */
  predicate CheckInv(c: Clock)
  {
    && Sizes(c) && Configured(c) && Sorted(c.b, c.row) && HandOk(c)
    && forall i :: 0 <= i < |c.row| ==>
         Known(c.b, c.row[i]) && c.now <= c.b.due[c.row[i]] + c.late <= c.now + HALF && c.b.stamp[c.row[i]] < c.next
  }

  /** All of CheckInv but for the period: a listed periodic timer may have zero ticks. */
  predicate Loose(c: Clock)
  {
    && Sizes(c) && Sorted(c.b, c.row) && HandOk(c)
    && (forall i :: 0 <= i < |c.row| ==>
          Known(c.b, c.row[i]) && c.now <= c.b.due[c.row[i]] + c.late <= c.now + HALF && c.b.stamp[c.row[i]] < c.next)
    && (forall i :: 0 <= i < |c.row| && Timer(c, c.row[i]) && c.periodic[c.row[i]] ==> c.init[c.row[i]] <= HALF - c.late)
  }

  lemma LooseIs(c: Clock)
    ensures CheckInv(c) <==> Loose(c) && Configured(c)
  {
  }

  lemma LooseStart(c: Clock, x: Id)
    requires Loose(c) && Timer(c, x) && c.init[x] + c.late <= HALF && x !in c.hand
    ensures Loose(StartTimer(c, x))
    ensures forall y :: y in StartTimer(c, x).row <==> y == x || y in c.row
  {
    hide Sorted, Insert, Without;
    SortedKnown(c.b, c.row);
    StartRow(c, x);
    var d := StartTimer(c, x);
    forall i | 0 <= i < |d.row| ensures d.row[i] == x || d.row[i] in c.row { assert d.row[i] in d.row; }
  }

  /** What a start does to the list: it stays in order and gains the timer. */
  lemma StartRow(c: Clock, x: Id)
    requires Sizes(c) && Sorted(c.b, c.row) && Timer(c, x)
    requires forall i :: 0 <= i < |c.row| ==> c.row[i] < |c.b.stamp| && c.b.stamp[c.row[i]] < c.next
    ensures Sorted(StartTimer(c, x).b, StartTimer(c, x).row)
    ensures forall y :: y in StartTimer(c, x).row <==> y == x || y in c.row
  {
    hide Sorted, Insert;
    var row := Without(c.row, x);
    SortedKnown(c.b, c.row);
    WithoutSorted(c.b, c.row, x);
    Rebooked(c.b, row, x, c.now + c.init[x], c.next);
    SortedKnown(c.b, row);
    var d := StartTimer(c, x);
    forall i | 0 <= i < |row| ensures d.b.stamp[row[i]] < d.b.stamp[x] { assert row[i] in row; }
    InsertSorted(d.b, row, x);
    forall y ensures y in d.row <==> y == x || y in c.row { InsertElements(d.b, row, x, y); }
  }

  lemma StartKeeps(c: Clock, x: Id)
    requires CheckInv(c) && Startable(c, x) && x !in c.hand
    ensures CheckInv(StartTimer(c, x))
    ensures Inv(c) ==> Inv(StartTimer(c, x))
    ensures forall y :: y in StartTimer(c, x).row <==> y == x || y in c.row
  {
    hide Sorted, Insert, Without;
    LooseIs(c);
    LooseStart(c, x);
    var d := StartTimer(c, x);
    forall i | 0 <= i < |d.row| ensures d.row[i] == x || d.row[i] in c.row { assert d.row[i] in d.row; }
    LooseIs(d);
  }

  lemma FireInv(c: Clock)
    requires CheckInv(c) && Due(c)
    ensures CheckInv(Fire(c))
    ensures Upper(Fire(c).b, Fire(c).row, c.now) == Upper(c.b, c.row, c.now) - 1
  {
    var x := c.row[0];
    var d := c.(row := c.row[1..]);
    SortedTail(c.b, c.row);
    assert CheckInv(d);
    HeadOnce(c.b, c.row);
    if c.periodic[x] {
      StartKeeps(d, x);
      RestartLeavesDue(d, x);
    }
  }

  lemma HeadOnce(b: Book, row: seq<Id>)
    requires Sorted(b, row) && row != []
    ensures row[0] !in row[1..]
  {
    forall i | 0 <= i < |row[1..]| ensures row[1..][i] != row[0] { assert Before(b, row[0], row[i + 1]); }
  }

  /** A restarted periodic timer is due later, so the due ones are as before. */
  lemma RestartLeavesDue(d: Clock, x: Id)
    requires Loose(d) && Timer(d, x) && x !in d.row && 1 <= d.init[x] <= HALF - d.late && x !in d.hand
    ensures AllKnown(StartTimer(d, x).b, StartTimer(d, x).row)
    ensures Upper(StartTimer(d, x).b, StartTimer(d, x).row, d.now) == Upper(d.b, d.row, d.now)
  {
    WithoutAbsent(d.row, x);
    var b := StartTimer(d, x).b;
    Rebooked(d.b, d.row, x, d.now + d.init[x], d.next);
    UpperRebooked(d.b, b, d.row, x, d.now);
    InsertBehindDue(b, d.row, x, d.now);
    LooseStart(d, x);
  }

  lemma {:induction false} UpperRebooked(b: Book, c: Book, row: seq<Id>, x: Id, d: int)
    requires AllKnown(b, row) && AllKnown(c, row) && x !in row
    requires forall i :: 0 <= i < |row| ==> b.due[row[i]] == c.due[row[i]]
    ensures Upper(b, row, d) == Upper(c, row, d)
    decreases |row|
  {
    if row != [] { UpperRebooked(b, c, row[1..], x, d); }
  }

  lemma {:induction false} InsertBehindDue(b: Book, row: seq<Id>, x: Id, d: int)
    requires AllKnown(b, row) && Known(b, x) && b.due[x] > d
    ensures Upper(b, Insert(b, row, x), d) == Upper(b, row, d)
    decreases |row|
  {
    var r := Insert(b, row, x);
    InsertIndex(b, row, x);
    if row != [] && b.due[row[0]] <= b.due[x] {
      InsertBehindDue(b, row[1..], x, d);
      assert r[1..] == Insert(b, row[1..], x);
      assert r[0] == row[0];
    }
  }

  // ----- what one check fires

  /** rt_timer_check fires exactly the timers due by now, by deadline and start order, leaves the others,
      and nothing due stays behind. */
  lemma {:induction false} CheckFires(c: Clock)
    requires CheckInv(c)
    ensures var (d, fired) := Check(c);
      && fired == c.row[..Upper(c.b, c.row, c.now)]
      && Inv(d) && d.now == c.now && d.init == c.init && d.periodic == c.periodic
      && (forall i :: 0 <= i < |d.row| ==> d.b.due[d.row[i]] > d.now)
    decreases Upper(c.b, c.row, c.now)
  {
    hide Upper;
    if !Due(c) {
      NothingDue(c);
    } else {
      FireInv(c);
      CheckFires(Fire(c));
      FirePrefix(c);
      UpperPositive(c);
      var u := Upper(c.b, c.row, c.now);
      assert c.row[..u] == [c.row[0]] + c.row[1..u];
    }
  }

  lemma CheckTurn(c: Clock)
    requires CheckInv(c) && AllKnown(c.b, c.row)
    ensures !Due(c) ==> Check(c) == (c, [])
    ensures Due(c) ==> Sizes(c) && CheckInv(Fire(c)) && Check(c) == (Check(Fire(c)).0, [c.row[0]] + Check(Fire(c)).1)
    ensures Due(c) ==> Lateness(Fire(c)) < Lateness(c)
  {
    if Due(c) { FireInv(c); }
  }

  /** How many timers a check still has to fire. */
  function Lateness(c: Clock): nat
  {
    if CheckInv(c) then Upper(c.b, c.row, c.now) else 0
  }

  lemma UpperPositive(c: Clock)
    requires AllKnown(c.b, c.row) && Due(c)
    ensures Upper(c.b, c.row, c.now) >= 1
  {
  }

  lemma NothingDue(c: Clock)
    requires CheckInv(c) && !Due(c)
    ensures Inv(c) && Upper(c.b, c.row, c.now) == 0 && forall i :: 0 <= i < |c.row| ==> c.b.due[c.row[i]] > c.now
  {
    forall i | 0 <= i < |c.row| ensures c.b.due[c.row[i]] > c.now && Listed(c, c.row[i]) {
      if i > 0 { assert Before(c.b, c.row[0], c.row[i]); }
    }
  }

  /** One turn leaves the rest of the due timers in front, in their order. */
  lemma FirePrefix(c: Clock)
    requires CheckInv(c) && Due(c)
    ensures CheckInv(Fire(c)) && Fire(c).now == c.now && Fire(c).init == c.init && Fire(c).periodic == c.periodic
    ensures var u := Upper(c.b, c.row, c.now);
      u >= 1 && u - 1 <= |Fire(c).row| && Fire(c).row[..u - 1] == c.row[1..u]
  {
    var x, d := c.row[0], c.(row := c.row[1..]);
    FireInv(c);
    SortedTail(c.b, c.row);
    HeadOnce(c.b, c.row);
    if c.periodic[x] {
      WithoutAbsent(d.row, x);
      var b := StartTimer(d, x).b;
      UpperRebooked(d.b, b, d.row, x, c.now);
      InsertIndex(b, d.row, x);
      UpperMonotone(b, d.row, c.now, b.due[x]);
    }
  }

  lemma {:induction false} UpperMonotone(b: Book, row: seq<Id>, d: int, e: int)
    requires AllKnown(b, row) && d <= e
    ensures Upper(b, row, d) <= Upper(b, row, e)
    decreases |row|
  {
    if row != [] { UpperMonotone(b, row[1..], d, e); }
  }

  // ----- runs

  /** Start is rt_timer_start called with interrupts disabled; Read and Link are its two parts when it is not. */
  datatype Step =
    | Start(x: Id) | Read(x: Id) | Link(x: Id) | Stop(x: Id) | Set(x: Id, init: nat, periodic: bool) | Tick

  predicate Legal(c: Clock, s: Step)
  {
    match s
    case Start(x) => Startable(c, x) && x !in c.hand
    case Read(x) => Startable(c, x) && x !in c.hand
    case Link(x) => x in c.hand && Known(c.b, x) && c.now < c.b.due[x] + c.late
    case Stop(x) => Timer(c, x)
    case Set(x, init, periodic) => Timer(c, x) && ((x in c.row && periodic) || x in c.hand ==> GoodTicks(c, init, periodic))
    case Tick => true
  }

  function NextTick(c: Clock): Clock
  {
    c.(now := c.now + 1)
  }

  lemma TickReady(c: Clock)
    requires Inv(c)
    ensures CheckInv(NextTick(c))
  {
  }

  function Next(c: Clock, s: Step): Clock
    requires Inv(c) && Legal(c, s)
  {
    match s
    case Start(x) => StartTimer(c, x)
    case Read(x) => ReadTimer(c, x)
    case Link(x) => LinkTimer(c, x)
    case Stop(x) => StopTimer(c, x)
    case Set(x, init, periodic) => Control(c, x, init, periodic)
    case Tick => Check(NextTick(c)).0
  }

  /** What a step fires. */
  function Fired(c: Clock, s: Step): seq<Id>
    requires Inv(c)
  {
    if s.Tick? then Check(NextTick(c)).1 else []
  }

  lemma NextInv(c: Clock, s: Step)
    requires Inv(c) && Legal(c, s)
    ensures Inv(Next(c, s))
  {
    match s
    case Start(x) => StartKeeps(c, x);
    case Read(x) => ReadKeeps(c, x);
    case Link(x) => LinkKeeps(c, x);
    case Stop(x) => StopKeeps(c, x);
    case Set(_, _, _) =>
    case Tick => CheckFires(NextTick(c));
  }

  lemma ReadKeeps(c: Clock, x: Id)
    requires CheckInv(c) && Startable(c, x) && x !in c.hand
    ensures CheckInv(ReadTimer(c, x)) && (Inv(c) ==> Inv(ReadTimer(c, x)))
    ensures forall y :: y in ReadTimer(c, x).row <==> y != x && y in c.row
  {
    hide Sorted;
    var row := Without(c.row, x);
    WithoutSorted(c.b, c.row, x);
    SortedKnown(c.b, c.row);
    Rebooked(c.b, row, x, c.now + c.init[x], c.b.stamp[x]);
    assert c.b.stamp[x := c.b.stamp[x]] == c.b.stamp;
    forall i | 0 <= i < |row| ensures row[i] in c.row && row[i] != x { assert row[i] in row; }
  }

  lemma SortedKnown(b: Book, row: seq<Id>)
    requires Sorted(b, row)
    ensures AllKnown(b, row)
  {
  }

  lemma LinkKeeps(c: Clock, x: Id)
    requires CheckInv(c) && x in c.hand && c.now < c.b.due[x] + c.late
    ensures CheckInv(LinkTimer(c, x)) && (Inv(c) ==> Inv(LinkTimer(c, x)))
    ensures forall y :: y in LinkTimer(c, x).row <==> y == x || y in c.row
  {
    hide Sorted, Insert;
    var d := LinkTimer(c, x);
    SortedKnown(c.b, c.row);
    Rebooked(c.b, c.row, x, c.b.due[x], c.next);
    assert c.b.due[x := c.b.due[x]] == c.b.due;
    forall i | 0 <= i < |c.row| ensures d.b.stamp[c.row[i]] < d.b.stamp[x] { assert c.row[i] in c.row; }
    InsertSorted(d.b, c.row, x);
    forall y ensures y in d.row <==> y == x || y in c.row { InsertElements(d.b, c.row, x, y); }
    forall i | 0 <= i < |d.row| ensures d.row[i] == x || d.row[i] in c.row { assert d.row[i] in d.row; }
  }

  lemma StopKeeps(c: Clock, x: Id)
    requires CheckInv(c)
    ensures CheckInv(StopTimer(c, x))
    ensures Inv(c) ==> Inv(StopTimer(c, x))
  {
    var row := Without(c.row, x);
    WithoutSorted(c.b, c.row, x);
    forall i | 0 <= i < |row| ensures row[i] in c.row { assert row[i] in row; }
  }

  ghost predicate Run(cs: seq<Clock>, ss: seq<Step>)
  {
    && |cs| == |ss| + 1 && Inv(cs[0])
    && forall k :: 0 <= k < |ss| ==> Legal(cs[k], ss[k]) && (Inv(cs[k]) ==> cs[k + 1] == Next(cs[k], ss[k]))
  }

  /** Over every run of starts, stops, reconfigurations and ticks the list stays in order. */
  lemma {:induction false} RunInv(cs: seq<Clock>, ss: seq<Step>, k: nat)
    requires Run(cs, ss) && k < |cs|
    ensures Inv(cs[k])
  {
    hide Inv, Next;
    if k > 0 {
      RunInv(cs, ss, k - 1);
      assert Legal(cs[k - 1], ss[k - 1]);
      NextInv(cs[k - 1], ss[k - 1]);
    }
  }

  /** Timer x is pending for moment d. */
  predicate Pending(c: Clock, x: Id, d: int)
  {
    x in c.row && Known(c.b, x) && c.b.due[x] == d
  }

  /** A timer that is not yet due stays pending through a check. */
  lemma {:induction false} CheckKeeps(c: Clock, x: Id, d: int)
    requires CheckInv(c) && Pending(c, x, d) && d > c.now
    ensures Pending(Check(c).0, x, d) && x !in Check(c).1
    decreases Upper(c.b, c.row, c.now)
  {
    hide Upper;
    if Due(c) {
      FireInv(c);
      FireKeeps(c, x, d);
      CheckKeeps(Fire(c), x, d);
    }
  }

  lemma FireKeeps(c: Clock, x: Id, d: int)
    requires CheckInv(c) && Due(c) && Pending(c, x, d) && d > c.now
    ensures Pending(Fire(c), x, d) && Fire(c).now == c.now
  {
    var e := c.(row := c.row[1..]);
    assert c.row == [c.row[0]] + c.row[1..];
    SortedTail(c.b, c.row);
    if c.periodic[c.row[0]] { StartKeeps(e, c.row[0]); }
  }

  /** A start makes the timer pending for now plus its ticks. */
  lemma StartPends(c: Clock, x: Id)
    requires Inv(c) && Startable(c, x) && x !in c.hand
    ensures Pending(StartTimer(c, x), x, c.now + c.init[x])
  {
    StartKeeps(c, x);
  }

  /** A step about other timers, or a tick before the deadline, leaves the timer pending. */
  lemma StepKeepsPending(c: Clock, s: Step, x: Id, d: int)
    requires Inv(c) && Legal(c, s) && Pending(c, x, d)
    requires s != Start(x) && s != Read(x) && s != Stop(x) && (s.Tick? ==> c.now + 1 < d)
    ensures Pending(Next(c, s), x, d) && x !in Fired(c, s)
  {
    match s
    case Start(y) => StartKeeps(c, y);
    case Read(y) => ReadKeeps(c, y);
    case Link(y) => LinkKeeps(c, y);
    case Stop(y) =>
    case Set(_, _, _) =>
    case Tick => CheckKeeps(NextTick(c), x, d);
  }

  /** The tick at or behind the deadline fires it. */
  lemma TickFires(c: Clock, x: Id, d: int)
    requires Inv(c) && Pending(c, x, d) && d <= c.now + 1
    ensures x in Fired(c, Tick)
  {
    var e := NextTick(c);
    CheckFires(e);
    var i :| 0 <= i < |c.row| && c.row[i] == x;
    UpperSplits(e.b, e.row, e.now, i);
    assert e.row[..Upper(e.b, e.row, e.now)][i] == x;
  }

  function Later(a: nat, b: nat): nat
  {
    if a < b then b else a
  }

  lemma {:induction false} PendingUntil(cs: seq<Clock>, ss: seq<Step>, j: nat, m: nat, x: Id, d: nat)
    requires Run(cs, ss) && j <= m < |cs| && Pending(cs[j], x, d)
    requires forall i :: j <= i < m ==> ss[i] != Start(x) && ss[i] != Read(x) && ss[i] != Stop(x)
    requires cs[m].now < Later(d, cs[j].now + 1)
    ensures Pending(cs[m], x, d) && forall i :: j <= i < m ==> Inv(cs[i])
    ensures forall i :: j <= i < m ==> x !in Fired(cs[i], ss[i])
    decreases m - j
  {
    hide Inv, Fired, Pending, Next, Run;
    if m > j {
      RunSize(cs, ss);
      RunStep(cs, ss, m - 1);
      StepNow(cs[m - 1], ss[m - 1]);
      NowGrows(cs, ss, j, m - 1);
      PendingUntil(cs, ss, j, m - 1, x, d);
      StepKeepsPending(cs[m - 1], ss[m - 1], x, d);
    }
  }

  lemma RunSize(cs: seq<Clock>, ss: seq<Step>)
    requires Run(cs, ss)
    ensures |cs| == |ss| + 1
  {
  }

  lemma RunStep(cs: seq<Clock>, ss: seq<Step>, k: nat)
    requires Run(cs, ss) && k < |ss|
    ensures |cs| == |ss| + 1 && Inv(cs[k]) && Legal(cs[k], ss[k]) && cs[k + 1] == Next(cs[k], ss[k])
  {
    hide Inv, Next, Legal;
    RunInv(cs, ss, k);
  }

  lemma StepNow(c: Clock, s: Step)
    requires Inv(c) && Legal(c, s)
    ensures Next(c, s).now == if s.Tick? then c.now + 1 else c.now
  {
    hide Sorted, Insert, Check;
    if s.Tick? {
      TickReady(c);
      CheckFires(NextTick(c));
    }
  }

  lemma {:induction false} NowGrows(cs: seq<Clock>, ss: seq<Step>, j: nat, m: nat)
    requires Run(cs, ss) && j <= m < |cs|
    ensures cs[j].now <= cs[m].now
    decreases m - j
  {
    hide Inv, Next, Run, Legal;
    if m > j {
      NowGrows(cs, ss, j, m - 1);
      RunSize(cs, ss);
      RunStep(cs, ss, m - 1);
      StepNow(cs[m - 1], ss[m - 1]);
    }
  }

  /** In every run, a timer started at moment t with i ticks and not started or stopped since fires on
      the tick t + i and on no earlier one; with no ticks it fires on the tick after its start. */
  lemma FiresOnDeadline(cs: seq<Clock>, ss: seq<Step>, j: nat, k: nat, x: Id)
    requires Run(cs, ss) && j < k < |ss| && ss[j] == Start(x) && ss[k].Tick?
    requires forall i :: j < i <= k ==> ss[i] != Start(x) && ss[i] != Read(x) && ss[i] != Stop(x)
    requires Timer(cs[j], x) && cs[k].now + 1 == cs[j].now + Later(cs[j].init[x], 1)
    ensures Inv(cs[k]) && x in Fired(cs[k], ss[k])
    ensures forall i :: j < i < k ==> Inv(cs[i]) && x !in Fired(cs[i], ss[i])
  {
    hide Inv, Fired;
    RunInv(cs, ss, j);
    RunInv(cs, ss, k);
    assert Legal(cs[j], ss[j]);
    StartPends(cs[j], x);
    var d := cs[j].now + cs[j].init[x];
    PendingUntil(cs, ss, j + 1, k, x, d);
    TickFires(cs[k], x, d);
  }

  // ----- a start in two parts

  /** While other timers are restarted, a timer in hand keeps its deadline and does not fire. */
  lemma {:induction false} CheckKeepsHand(c: Clock, x: Id)
    requires CheckInv(c) && x in c.hand
    ensures x < |c.b.due| == |Check(c).0.b.due| && Check(c).0.b.due[x] == c.b.due[x]
    ensures x in Check(c).0.hand && x !in Check(c).1
    decreases Upper(c.b, c.row, c.now)
  {
    hide Upper, Sorted;
    if Due(c) {
      FireInv(c);
      assert c.row[0] in c.row;
      CheckKeepsHand(Fire(c), x);
    }
  }

  lemma HandStep(c: Clock, s: Step, x: Id)
    requires Inv(c) && Legal(c, s) && x in c.hand && s != Link(x)
    ensures x < |c.b.due| == |Next(c, s).b.due| && Next(c, s).b.due[x] == c.b.due[x]
    ensures x in Next(c, s).hand && x !in Fired(c, s)
  {
    hide Upper, Sorted, Insert;
    if s.Tick? {
      TickReady(c);
      CheckKeepsHand(NextTick(c), x);
    }
  }

  lemma {:induction false} HandUntil(cs: seq<Clock>, ss: seq<Step>, r: nat, m: nat, x: Id)
    requires Run(cs, ss) && r < m < |cs| && ss[r] == Read(x) && Timer(cs[r], x)
    requires forall i :: r < i < m ==> ss[i] != Link(x)
    ensures x in cs[m].hand && x < |cs[m].b.due| && cs[m].b.due[x] == cs[r].now + cs[r].init[x]
    ensures forall i :: r <= i < m ==> Inv(cs[i]) && x !in Fired(cs[i], ss[i])
    decreases m - r
  {
    hide Inv, Fired, Next;
    RunInv(cs, ss, m - 1);
    assert Legal(cs[m - 1], ss[m - 1]);
    assert cs[m] == Next(cs[m - 1], ss[m - 1]);
    if m == r + 1 {
      ReadPends(cs[r], x);
    } else {
      HandUntil(cs, ss, r, m - 1, x);
      HandStep(cs[m - 1], ss[m - 1], x);
    }
  }

  lemma ReadPends(c: Clock, x: Id)
    requires Inv(c) && Legal(c, Read(x))
    ensures var d := Next(c, Read(x)); x in d.hand && x < |d.b.due| && d.b.due[x] == c.now + c.init[x]
    ensures x !in Fired(c, Read(x))
  {
  }

  lemma LinkPends(c: Clock, x: Id)
    requires Inv(c) && Legal(c, Link(x)) && x in c.hand && x < |c.b.due|
    ensures Pending(Next(c, Link(x)), x, c.b.due[x]) && Next(c, Link(x)).now == c.now
    ensures x !in Fired(c, Link(x))
  {
    hide Sorted, Insert;
    LinkKeeps(c, x);
  }

  /** rt_timer_start with interrupts enabled, in every run: the tick is read at one moment, the timer linked at
      a later one, and ticks and other calls come in between. It fires on its deadline if and only if it is
      linked before that tick, and otherwise on the first tick behind the link; and on no tick before. */
  lemma LinkedFires(cs: seq<Clock>, ss: seq<Step>, r: nat, l: nat, k: nat, x: Id)
    requires Run(cs, ss) && r < l < k < |ss| && ss[r] == Read(x) && ss[l] == Link(x) && ss[k].Tick?
    requires forall i :: r < i < l ==> ss[i] != Link(x)
    requires forall i :: l < i <= k ==> ss[i] != Start(x) && ss[i] != Read(x) && ss[i] != Stop(x)
    requires Timer(cs[r], x) && cs[k].now + 1 == Later(cs[r].now + cs[r].init[x], cs[l].now + 1)
    ensures forall i :: r <= i <= k ==> Inv(cs[i])
    ensures x in Fired(cs[k], ss[k]) && forall i :: r <= i < k ==> x !in Fired(cs[i], ss[i])
    ensures cs[k].now + 1 == cs[r].now + cs[r].init[x] <==> cs[l].now < cs[r].now + cs[r].init[x]
  {
    hide Inv, Fired, Next, Pending;
    var d := cs[r].now + cs[r].init[x];
    HandUntil(cs, ss, r, l, x);
    RunInv(cs, ss, l);
    RunInv(cs, ss, k);
    assert Legal(cs[l], ss[l]);
    LinkPends(cs[l], x);
    assert cs[l + 1] == Next(cs[l], ss[l]);
    PendingUntil(cs, ss, l + 1, k, x, d);
    TickFires(cs[k], x, d);
  }

  /** What one tick fires comes by deadline, ties in start order, and is everything due. */
  lemma TickFiresInOrder(c: Clock, i: nat, j: nat)
    requires Inv(c) && i < j < |Fired(c, Tick)|
    ensures Known(c.b, Fired(c, Tick)[i]) && Known(c.b, Fired(c, Tick)[j])
    ensures Before(c.b, Fired(c, Tick)[i], Fired(c, Tick)[j])
  {
    CheckFires(NextTick(c));
    assert Before(c.b, c.row[i], c.row[j]);
  }

  /** A periodic timer that fires is pending again for one period later; a one-shot timer is gone. */
  lemma {:induction false} CheckRestarts(c: Clock, x: Id)
    requires CheckInv(c) && x in Check(c).1 && Timer(c, x)
    ensures if c.periodic[x] then Pending(Check(c).0, x, c.now + c.init[x]) else x !in Check(c).0.row
    decreases Upper(c.b, c.row, c.now)
  {
    hide Upper;
    FireInv(c);
    FirePrefix(c);
    HeadOnce(c.b, c.row);
    if x == c.row[0] {
      FireHead(c);
      if c.periodic[x] { CheckKeeps(Fire(c), x, c.now + c.init[x]); } else { CheckAddsNone(Fire(c), x); }
    } else {
      CheckRestarts(Fire(c), x);
    }
  }

  lemma FireHead(c: Clock)
    requires CheckInv(c) && Due(c)
    ensures var x := c.row[0];
      if c.periodic[x] then Pending(Fire(c), x, c.now + c.init[x]) else x !in Fire(c).row
  {
    var d := c.(row := c.row[1..]);
    HeadOnce(c.b, c.row);
    SortedTail(c.b, c.row);
    if c.periodic[c.row[0]] { StartKeeps(d, c.row[0]); }
  }

  lemma {:induction false} CheckAddsNone(c: Clock, x: Id)
    requires CheckInv(c) && x !in c.row
    ensures x !in Check(c).0.row
    decreases Upper(c.b, c.row, c.now)
  {
    hide Upper;
    if Due(c) {
      FireInv(c);
      assert c.row[0] in c.row;
      var d := c.(row := c.row[1..]);
      SortedTail(c.b, c.row);
      assert c.row == [c.row[0]] + d.row;
      if c.periodic[c.row[0]] { StartKeeps(d, c.row[0]); }
      CheckAddsNone(Fire(c), x);
    }
  }

  // ----- a periodic timer

  /** Timer x is periodic with p ticks. */
  predicate Periodic(c: Clock, x: Id, p: nat)
  {
    Timer(c, x) && x < |c.periodic| && c.periodic[x] && c.init[x] == p
  }

  lemma StepKeepsPeriod(c: Clock, s: Step, x: Id, p: nat)
    requires Inv(c) && Legal(c, s) && Periodic(c, x, p) && !(s.Set? && s.x == x)
    ensures Periodic(Next(c, s), x, p)
  {
    hide Upper, Check;
    if s.Tick? {
      TickReady(c);
      CheckFires(NextTick(c));
    }
  }

  /** While nobody touches it, the timer stays pending for the next multiple of its period. */
  lemma {:induction false} PeriodicPending(cs: seq<Clock>, ss: seq<Step>, j: nat, m: nat, x: Id, p: nat) returns (i: nat)
    requires Run(cs, ss) && j < m < |cs| && ss[j] == Start(x) && Periodic(cs[j], x, p)
    requires forall k :: j < k < m ==> Leaves(ss[k], x)
    ensures p >= 1 && i >= 1 && Pending(cs[m], x, cs[j].now + i * p) && Periodic(cs[m], x, p)
    ensures cs[m].now < cs[j].now + i * p <= cs[m].now + p
    decreases m - j
  {
    hide Inv, Fired, Pending, Periodic, Next, Startable, StartTimer;
    RunInv(cs, ss, m - 1);
    assert Legal(cs[m - 1], ss[m - 1]);
    assert cs[m] == Next(cs[m - 1], ss[m - 1]);
    if m == j + 1 {
      i := 1;
      StartedPeriodic(cs[j], x, p);
    } else {
      var h := PeriodicPending(cs, ss, j, m - 1, x, p);
      StepKeepsPeriod(cs[m - 1], ss[m - 1], x, p);
      i := PeriodicStep(cs[m - 1], ss[m - 1], x, p, cs[j].now, h);
    }
  }

  /** Neither started, nor stopped, nor reconfigured. */
  predicate Leaves(s: Step, x: Id)
  {
    s != Start(x) && s != Read(x) && s != Stop(x) && !(s.Set? && s.x == x)
  }

  lemma StartedPeriodic(c: Clock, x: Id, p: nat)
    requires Inv(c) && Legal(c, Start(x)) && Periodic(c, x, p)
    ensures p >= 1 && Pending(Next(c, Start(x)), x, c.now + p) && Periodic(Next(c, Start(x)), x, p)
    ensures Next(c, Start(x)).now == c.now
  {
    StartPends(c, x);
  }

  lemma PeriodicStep(c: Clock, s: Step, x: Id, p: nat, t: nat, h: nat) returns (i: nat)
    requires Inv(c) && Legal(c, s) && Leaves(s, x) && Periodic(c, x, p)
    requires h >= 1 && Pending(c, x, t + h * p) && c.now < t + h * p <= c.now + p
    ensures i >= 1 && Pending(Next(c, s), x, t + i * p) && Next(c, s).now < t + i * p <= Next(c, s).now + p
    ensures x in Fired(c, s) <==> s.Tick? && c.now + 1 == t + h * p
  {
    hide Inv, Pending, Upper, Check, Startable;
    i := h;
    StepNow(c, s);
    if s.Tick? && c.now + 1 == t + h * p {
      i := h + 1;
      assert t + i * p == c.now + 1 + p;
      TickFires(c, x, t + h * p);
      TickReady(c);
      CheckRestarts(NextTick(c), x);
    } else {
      StepKeepsPending(c, s, x, t + h * p);
    }
  }

  /** In every run, a periodic timer started at moment t with p ticks and left alone since fires on the
      ticks t + p, t + 2p, t + 3p, … and on no others. */
  lemma FiresEveryPeriod(cs: seq<Clock>, ss: seq<Step>, j: nat, k: nat, x: Id, p: nat)
    requires Run(cs, ss) && j < k < |ss| && ss[j] == Start(x) && Periodic(cs[j], x, p) && ss[k].Tick?
    requires forall i :: j < i < k ==> Leaves(ss[i], x)
    ensures Inv(cs[k])
    ensures x in Fired(cs[k], ss[k]) <==> exists i: nat :: i >= 1 && cs[k].now + 1 == cs[j].now + i * p
  {
    hide Inv, Fired, Pending, Periodic, Next;
    RunInv(cs, ss, k);
    var h := PeriodicPending(cs, ss, j, k, x, p);
    assert Legal(cs[k], ss[k]);
    var i := PeriodicStep(cs[k], ss[k], x, p, cs[j].now, h);
    if i: nat :| i >= 1 && cs[k].now + 1 == cs[j].now + i * p { SameMultiple(i, h, p); }
  }

  lemma SameMultiple(i: nat, h: nat, p: nat)
    requires p >= 1 && i * p <= h * p < i * p + p
    ensures i == h
  {
    assert (i + 1) * p == i * p + p && (h + 1) * p == h * p + p;
    Smaller(h, i + 1, p);
    Smaller(i, h + 1, p);
  }

  lemma {:induction false} Smaller(a: nat, b: nat, p: nat)
    requires a * p < b * p
    ensures a < b
    decreases a
  {
    assert a * p >= 0;
    if a > 0 && b > 0 {
      assert (a - 1) * p == a * p - p && (b - 1) * p == b * p - p;
      Smaller(a - 1, b - 1, p);
    }
  }

  // ----- a periodic timer of zero ticks

  /** A timer that is due, periodic and of period zero. */
  predicate Spins(c: Clock, x: Id)
  {
    x in c.row && Known(c.b, x) && c.b.due[x] <= c.now && Periodic(c, x, 0)
  }

  /** After any turn of the loop it is still listed and due. */
  lemma FireSpins(c: Clock, x: Id)
    requires Loose(c) && Spins(c, x)
    ensures Due(c) && Loose(Fire(c)) && Spins(Fire(c), x)
  {
    var i :| 0 <= i < |c.row| && c.row[i] == x;
    if i > 0 { assert Before(c.b, c.row[0], c.row[i]); }
    LooseFire(c);
  }

  lemma LooseFire(c: Clock)
    requires Loose(c) && Due(c)
    ensures Loose(Fire(c)) && Fire(c).now == c.now && Fire(c).init == c.init && Fire(c).periodic == c.periodic
    ensures forall y :: y in Fire(c).row <==> y in c.row && (y != c.row[0] || c.periodic[c.row[0]])
  {
    hide Sorted, Insert;
    LooseTail(c);
    var d := c.(row := c.row[1..]);
    assert c.row == [c.row[0]] + d.row;
    if c.periodic[c.row[0]] { LooseStart(d, c.row[0]); }
  }

  /** A due listed periodic timer of zero ticks keeps rt_timer_check turning for any number of turns. */
  lemma ZeroPeriodSpins(c: Clock, x: Id, turns: nat)
    requires Loose(c) && Spins(c, x)
    ensures Turns(c, turns).Some? && Due(Turns(c, turns).value)
    decreases turns
  {
    hide Spins, Loose;
    LooseKnown(c);
    FireSpins(c, x);
    LooseKnown(Fire(c));
    if turns > 0 { ZeroPeriodSpins(Fire(c), x, turns - 1); }
  }

  lemma LooseKnown(c: Clock)
    requires Loose(c)
    ensures Sizes(c) && AllKnown(c.b, c.row)
  {
  }

  /** That many turns of the loop, if its condition lets it turn. */
  function Turns(c: Clock, n: nat): (r: Option<Clock>)
    requires Sizes(c) && AllKnown(c.b, c.row)
    ensures r.Some? ==> AllKnown(r.value.b, r.value.row)
    decreases n
  {
    if n == 0 then Some(c)
    else if !Due(c) then None
    else if !(Sizes(Fire(c)) && AllKnown(Fire(c).b, Fire(c).row)) then None
    else Turns(Fire(c), n - 1)
  }

  predicate NoneSpins(c: Clock)
  {
    forall x :: x in c.row ==> !Spins(c, x)
  }

  /** Without such a timer each turn leaves one due timer less. */
  lemma FireEnds(c: Clock)
    requires Loose(c) && NoneSpins(c) && Due(c)
    ensures Loose(Fire(c)) && NoneSpins(Fire(c))
    ensures Upper(Fire(c).b, Fire(c).row, c.now) == Upper(c.b, c.row, c.now) - 1
  {
    hide Sorted, Insert, Upper, HandOk;
    LooseFire(c);
    FireCounts(c);
    forall y | y in Fire(c).row ensures !Spins(Fire(c), y) { assert !Spins(c, y); }
  }

  lemma FireCounts(c: Clock)
    requires Loose(c) && NoneSpins(c) && Due(c)
    ensures Sizes(Fire(c)) && AllKnown(Fire(c).b, Fire(c).row)
    ensures Upper(Fire(c).b, Fire(c).row, c.now) == Upper(c.b, c.row, c.now) - 1
  {
    hide Sorted, Insert;
    var x, d := c.row[0], c.(row := c.row[1..]);
    LooseTail(c);
    assert x in c.row;
    if c.periodic[x] {
      assert !Spins(c, x);
      RestartLeavesDue(d, x);
    }
  }

  lemma LooseTail(c: Clock)
    requires Loose(c) && c.row != []
    ensures Sizes(c) && AllKnown(c.b, c.row) && AllKnown(c.b, c.row[1..]) && Loose(c.(row := c.row[1..]))
    ensures c.row[0] !in c.row[1..] && c.row[0] !in c.hand
  {
    assert c.row[0] in c.row;
    SortedTail(c.b, c.row);
    HeadOnce(c.b, c.row);
    assert forall y :: y in c.row[1..] ==> y in c.row;
  }

  lemma {:induction false} CheckEnds(c: Clock)
    requires Loose(c) && NoneSpins(c)
    ensures var t := Turns(c, Upper(c.b, c.row, c.now)); t.Some? && !Due(t.value)
    decreases Upper(c.b, c.row, c.now)
  {
    hide Loose, NoneSpins;
    LooseKnown(c);
    if Due(c) {
      FireEnds(c);
      FireNow(c);
      LooseKnown(Fire(c));
      CheckEnds(Fire(c));
    } else {
      LooseRest(c);
    }
  }

  lemma FireNow(c: Clock)
    requires Sizes(c) && AllKnown(c.b, c.row) && Due(c)
    ensures Fire(c).now == c.now
  {
  }

  lemma LooseRest(c: Clock)
    requires AllKnown(c.b, c.row) && !Due(c)
    ensures Upper(c.b, c.row, c.now) == 0
  {
  }

  /** The loop of rt_timer_check ends if and only if no due periodic timer has zero ticks. */
  lemma CheckEndsIff(c: Clock)
    requires Loose(c)
    ensures Sizes(c) && AllKnown(c.b, c.row)
    ensures (exists n :: Turns(c, n).Some? && !Due(Turns(c, n).value))
       <==> forall x :: x in c.row && Known(c.b, x) && c.b.due[x] <= c.now ==> !Periodic(c, x, 0)
  {
    hide Loose, Periodic, Turns, Due;
    LooseKnown(c);
    if NoneSpins(c) {
      CheckEnds(c);
    } else {
      var x :| x in c.row && Spins(c, x);
      forall n: nat ensures !(Turns(c, n).Some? && !Due(Turns(c, n).value)) { ZeroPeriodSpins(c, x, n); }
    }
    assert NoneSpins(c) ==> forall x :: x in c.row && Known(c.b, x) && c.b.due[x] <= c.now ==> !Spins(c, x);
  }

  // ----- what rt_timer_control and rt_timer_stop are for

  lemma {:induction false} CheckKeepsSettings(c: Clock)
    requires CheckInv(c)
    ensures Check(c).0.init == c.init && Check(c).0.periodic == c.periodic
    decreases Upper(c.b, c.row, c.now)
  {
    hide Upper, Sorted, Insert;
    if Due(c) {
      FireInv(c);
      CheckKeepsSettings(Fire(c));
    }
  }

  lemma SettingsStep(c: Clock, s: Step, x: Id)
    requires Inv(c) && Legal(c, s) && Timer(c, x)
    ensures var n := Next(c, s);
      && |n.init| == |c.init| && |n.periodic| == |c.periodic| == |c.init|
      && (if s.Set? && s.x == x then n.init[x] == s.init && n.periodic[x] == s.periodic
          else n.init[x] == c.init[x] && n.periodic[x] == c.periodic[x])
  {
    hide Sorted, Insert, Check;
    if s.Tick? {
      TickReady(c);
      CheckKeepsSettings(NextTick(c));
    }
  }

  /** In every run a timer keeps the ticks and the flag that rt_timer_control gave it until it is given others. */
  lemma {:induction false} SettingsStay(cs: seq<Clock>, ss: seq<Step>, i: nat, k: nat, x: Id)
    requires Run(cs, ss) && i < k < |cs| && ss[i].Set? && ss[i].x == x && Timer(cs[i], x)
    requires forall m :: i < m < k ==> !(ss[m].Set? && ss[m].x == x)
    ensures Timer(cs[k], x) && x < |cs[k].periodic|
    ensures cs[k].init[x] == ss[i].init && cs[k].periodic[x] == ss[i].periodic
    decreases k - i
  {
    hide Run, Inv, Next, Legal;
    RunSize(cs, ss);
    RunStep(cs, ss, k - 1);
    if k > i + 1 { SettingsStay(cs, ss, i, k - 1, x); }
    SettingsStep(cs[k - 1], ss[k - 1], x);
  }

  /** So a timer set to i ticks and started later fires i ticks behind its start. */
  lemma FiresAsSet(cs: seq<Clock>, ss: seq<Step>, i: nat, j: nat, k: nat, x: Id)
    requires Run(cs, ss) && i < j < k < |ss| && ss[i].Set? && ss[i].x == x && Timer(cs[i], x)
    requires forall m :: i < m < j ==> !(ss[m].Set? && ss[m].x == x)
    requires ss[j] == Start(x) && ss[k].Tick? && cs[k].now + 1 == cs[j].now + Later(ss[i].init, 1)
    requires forall m :: j < m <= k ==> ss[m] != Start(x) && ss[m] != Read(x) && ss[m] != Stop(x)
    ensures Inv(cs[k]) && x in Fired(cs[k], ss[k])
  {
    hide Run, Inv, Fired, Next;
    RunSize(cs, ss);
    SettingsStay(cs, ss, i, j, x);
    FiresOnDeadline(cs, ss, j, k, x);
  }

  lemma OutStep(c: Clock, s: Step, x: Id)
    requires Inv(c) && Legal(c, s) && (x !in c.row || s == Stop(x)) && s != Start(x) && s != Link(x)
    ensures x !in Next(c, s).row && (x !in c.row ==> x !in Fired(c, s)) && (s == Stop(x) ==> x !in Fired(c, s))
  {
    hide Sorted, Insert, Check;
    match s
    case Start(y) => StartKeeps(c, y);
    case Read(y) => ReadKeeps(c, y);
    case Link(y) => LinkKeeps(c, y);
    case Tick =>
      TickReady(c);
      CheckAddsNone(NextTick(c), x);
      FiredIsListed(NextTick(c), x);
    case _ =>
  }

  lemma FiredIsListed(c: Clock, x: Id)
    requires CheckInv(c) && x !in c.row
    ensures x !in Check(c).1
  {
    hide Sorted, Upper;
    CheckFires(c);
    assert forall i :: 0 <= i < |Check(c).1| ==> Check(c).1[i] == c.row[i];
  }

  /** In every run a stopped timer does not fire until it is started, or its start is completed. */
  lemma {:induction false} StoppedStaysOut(cs: seq<Clock>, ss: seq<Step>, j: nat, k: nat, x: Id)
    requires Run(cs, ss) && j < k < |cs| && ss[j] == Stop(x)
    requires forall i :: j < i < k ==> ss[i] != Start(x) && ss[i] != Link(x)
    ensures x !in cs[k].row && forall i :: j <= i < k ==> Inv(cs[i]) && x !in Fired(cs[i], ss[i])
    decreases k - j
  {
    hide Run, Inv, Next, Legal, Fired;
    RunSize(cs, ss);
    RunStep(cs, ss, k - 1);
    if k > j + 1 { StoppedStaysOut(cs, ss, j, k - 1, x); }
    OutStep(cs[k - 1], ss[k - 1], x);
  }
}
