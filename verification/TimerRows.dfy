/** The skip list of timer.c: several rows over the same timers, the last row holding them all. */
module TimerRows {

  import opened TimerSpec

  const RT_TIMER_SKIP_LIST_MASK := 3

  /** a is b with some elements left out. */
  predicate Subsequence(a: seq<Id>, b: seq<Id>)
    decreases |b|
  {
    if a == [] then true
    else if b == [] then false
    else if a[0] == b[0] then Subsequence(a[1..], b[1..])
    else Subsequence(a, b[1..])
  }

  predicate Within(a: seq<Id>, b: seq<Id>)
  {
    forall x :: x in a ==> x in b
  }

  /** Every row is in order, and each is contained in the next. */
  predicate Rows(b: Book, rows: seq<seq<Id>>)
  {
    && rows != []
    && (forall l :: 0 <= l < |rows| ==> Sorted(b, rows[l]))
    && (forall l :: 0 <= l < |rows| - 1 ==> Within(rows[l], rows[l + 1]))
  }

  function Bottom(rows: seq<seq<Id>>): seq<Id>
    requires rows != []
  {
    rows[|rows| - 1]
  }

  /** Rows in the same order are subsequences of each other as soon as they are contained. */
  lemma {:induction false} SortedWithin(b: Book, s: seq<Id>, t: seq<Id>)
    requires Sorted(b, s) && Sorted(b, t) && Within(s, t)
    ensures Subsequence(s, t)
    decreases |t|
  {
    if s != [] {
      assert s[0] in t;
      SortedTail(b, t);
      HeadOnce(b, s);
      if s[0] == t[0] {
        SortedTail(b, s);
        forall x | x in s[1..] ensures x in t[1..] { assert x in s && x in [t[0]] + t[1..] && x != s[0]; }
        SortedWithin(b, s[1..], t[1..]);
      } else {
        HeadBelow(b, s, t);
        SortedWithin(b, s, t[1..]);
      }
    }
  }

  lemma HeadBelow(b: Book, s: seq<Id>, t: seq<Id>)
    requires Sorted(b, s) && Sorted(b, t) && Within(s, t) && s != [] && t != [] && s[0] != t[0]
    ensures Within(s, t[1..])
  {
    assert s[0] in t;
    var k :| 0 <= k < |t| && t[k] == s[0];
    assert Before(b, t[0], s[0]);
    forall x | x in s ensures x in t[1..] {
      var i :| 0 <= i < |s| && s[i] == x;
      assert i > 0 ==> Before(b, s[0], s[i]);
      assert x in [t[0]] + t[1..];
    }
  }

  lemma RowsAreSubsequences(b: Book, rows: seq<seq<Id>>, l: nat)
    requires Rows(b, rows) && l < |rows| - 1
    ensures Subsequence(rows[l], rows[l + 1])
  {
    SortedWithin(b, rows[l], rows[l + 1]);
  }

  /** A timer listed anywhere is listed in the last row. */
  lemma {:induction false} InBottom(b: Book, rows: seq<seq<Id>>, l: nat, x: Id)
    requires Rows(b, rows) && l < |rows| && x in rows[l]
    ensures x in Bottom(rows)
    decreases |rows| - l
  {
    if l < |rows| - 1 {
      assert Within(rows[l], rows[l + 1]);
      InBottom(b, rows, l + 1, x);
    }
  }

  // ----- _rt_timer_remove

  function RemoveRows(rows: seq<seq<Id>>, x: Id): (r: seq<seq<Id>>)
    ensures |r| == |rows| && forall l :: 0 <= l < |rows| ==> r[l] == Without(rows[l], x)
  {
    seq(|rows|, l requires 0 <= l < |rows| => Without(rows[l], x))
  }

  lemma RemoveKeepsRows(b: Book, rows: seq<seq<Id>>, x: Id)
    requires Rows(b, rows)
    ensures Rows(b, RemoveRows(rows, x)) && Bottom(RemoveRows(rows, x)) == Without(Bottom(rows), x)
  {
    var r := RemoveRows(rows, x);
    forall l | 0 <= l < |rows| ensures Sorted(b, r[l]) { WithoutSorted(b, rows[l], x); }
    forall l | 0 <= l < |rows| - 1 ensures Within(r[l], r[l + 1]) { assert Within(rows[l], rows[l + 1]); }
  }

  // ----- the height of a new timer

  /** How many rows above the last one get the timer, from the bits of the insert counter. */
  function Extra(nr: nat, room: nat): (h: nat)
    ensures h <= room
  {
    if room > 0 && nr % (RT_TIMER_SKIP_LIST_MASK + 1) == 0
    then 1 + Extra(nr / (RT_TIMER_SKIP_LIST_MASK + 1), room - 1) else 0
  }

  /** The last `height` rows get the timer at its sorted place. */
  function InsertRows(b: Book, rows: seq<seq<Id>>, x: Id, height: nat): (r: seq<seq<Id>>)
    requires Known(b, x) && forall l :: 0 <= l < |rows| ==> AllKnown(b, rows[l])
    ensures |r| == |rows|
    ensures forall l :: 0 <= l < |rows| ==> r[l] == if l >= |rows| - height then Insert(b, rows[l], x) else rows[l]
  {
    seq(|rows|, l requires 0 <= l < |rows| => if l >= |rows| - height then Insert(b, rows[l], x) else rows[l])
  }

  lemma InsertRowsStep(b: Book, rows: seq<seq<Id>>, x: Id, height: nat)
    requires Known(b, x) && (forall l :: 0 <= l < |rows| ==> AllKnown(b, rows[l])) && height < |rows|
    ensures var r, l := InsertRows(b, rows, x, height), |rows| - 1 - height;
      r[l] == rows[l] && InsertRows(b, rows, x, height + 1) == r[l := Insert(b, rows[l], x)]
  {
  }

  lemma NoRows(b: Book, rows: seq<seq<Id>>, x: Id)
    requires Known(b, x) && forall l :: 0 <= l < |rows| ==> AllKnown(b, rows[l])
    ensures InsertRows(b, rows, x, 0) == rows
  {
  }

  lemma ExtraStep(nr: nat, room: nat)
    ensures Extra(nr, room) ==
      if room > 0 && nr % (RT_TIMER_SKIP_LIST_MASK + 1) == 0
      then 1 + Extra(nr / (RT_TIMER_SKIP_LIST_MASK + 1), room - 1) else 0
  {
  }

  /** Whatever the height, the rows stay in order and nested, and the last row is the plain sorted
      insertion into the old last row. */
  lemma InsertKeepsRows(b: Book, rows: seq<seq<Id>>, x: Id, height: nat)
    requires Rows(b, rows) && Known(b, x) && x !in Bottom(rows) && 1 <= height <= |rows|
    requires forall i :: 0 <= i < |Bottom(rows)| ==> b.stamp[Bottom(rows)[i]] < b.stamp[x]
    ensures Rows(b, InsertRows(b, rows, x, height))
    ensures Bottom(InsertRows(b, rows, x, height)) == Insert(b, Bottom(rows), x)
  {
    hide Insert, Sorted, Within, InsertRows;
    RowsKnown(b, rows);
    var r := InsertRows(b, rows, x, height);
    forall l | 0 <= l < |rows| ensures Sorted(b, r[l]) { NewRowSorted(b, rows, x, l); }
    forall l | 0 <= l < |rows| - 1 ensures Within(r[l], r[l + 1]) { NewRowNested(b, rows, x, height, l); }
  }

  lemma RowsKnown(b: Book, rows: seq<seq<Id>>)
    requires Rows(b, rows)
    ensures forall l :: 0 <= l < |rows| ==> AllKnown(b, rows[l])
  {
  }

  lemma NewRowNested(b: Book, rows: seq<seq<Id>>, x: Id, height: nat, l: nat)
    requires Rows(b, rows) && Known(b, x) && l + 1 < |rows|
    requires forall k :: 0 <= k < |rows| ==> AllKnown(b, rows[k])
    ensures var r := InsertRows(b, rows, x, height); Within(r[l], r[l + 1])
  {
    hide Insert, Sorted, InsertRows;
    assert Within(rows[l], rows[l + 1]);
    InsertNested(b, rows[l], rows[l + 1], x);
  }

  lemma InsertNested(b: Book, s: seq<Id>, t: seq<Id>, x: Id)
    requires AllKnown(b, s) && AllKnown(b, t) && Known(b, x) && Within(s, t)
    ensures Within(Insert(b, s, x), Insert(b, t, x)) && Within(s, Insert(b, t, x))
  {
    forall y ensures y in Insert(b, s, x) <==> y == x || y in s { InsertElements(b, s, x, y); }
    forall y ensures y in Insert(b, t, x) <==> y == x || y in t { InsertElements(b, t, x, y); }
  }

  lemma NewRowSorted(b: Book, rows: seq<seq<Id>>, x: Id, l: nat)
    requires Rows(b, rows) && Known(b, x) && x !in Bottom(rows) && l < |rows|
    requires forall i :: 0 <= i < |Bottom(rows)| ==> b.stamp[Bottom(rows)[i]] < b.stamp[x]
    ensures Sorted(b, rows[l]) && Sorted(b, Insert(b, rows[l], x))
  {
    forall i | 0 <= i < |rows[l]| ensures b.stamp[rows[l][i]] < b.stamp[x] && rows[l][i] != x {
      InBottom(b, rows, l, rows[l][i]);
    }
    InsertSorted(b, rows[l], x);
  }

  // ----- the search down the rows

  function IndexOf(row: seq<Id>, x: Id): (k: nat)
    requires x in row
    ensures k < |row| && row[k] == x
  {
    if row[0] == x then 0 else 1 + IndexOf(row[1..], x)
  }

  /** The search may start the next row right behind the timer where it left the row above: everything
      up to there is due no later. */
  lemma DescentStarts(b: Book, upper: seq<Id>, lower: seq<Id>, d: int)
    requires Sorted(b, upper) && Sorted(b, lower) && Within(upper, lower) && Upper(b, upper, d) > 0
    ensures var e := upper[Upper(b, upper, d) - 1];
      e in lower && IndexOf(lower, e) + 1 <= Upper(b, lower, d)
  {
    hide Upper;
    var u := Upper(b, upper, d);
    var e := upper[u - 1];
    UpperSplits(b, upper, d, u - 1);
    UpperSplits(b, lower, d, IndexOf(lower, e));
  }
}
