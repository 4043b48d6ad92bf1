/** The page allocator of slab.c: a singly linked list of free page runs, kept in the first page of
    each run. Pages are numbered; the list is the canonical form of the set of free pages. */
module PageHeapSpec {

  datatype Run = Run(start: int, len: int)

  const NIL := -1

  ghost predicate Has(r: Run, p: int)
  {
    r.start <= p < r.start + r.len
  }

  /** Page p is free. */
  ghost predicate Free(l: seq<Run>, p: int)
  {
    exists i :: 0 <= i < |l| && Has(l[i], p)
  }

  /** Address-ordered, disjoint runs that could not be longer: a used page separates two runs. */
  ghost predicate Canonical(l: seq<Run>)
  {
    && (forall i :: 0 <= i < |l| ==> l[i].len > 0)
    && (forall i, j :: 0 <= i < j < |l| ==> l[i].start + l[i].len < l[j].start)
  }

  ghost predicate SamePages(a: seq<Run>, b: seq<Run>)
  {
    forall p :: Free(a, p) <==> Free(b, p)
  }

  lemma FreeCons(r: Run, l: seq<Run>, p: int)
    ensures Free([r] + l, p) <==> Has(r, p) || Free(l, p)
  {
    var c := [r] + l;
    if Free(l, p) {
      var i :| 0 <= i < |l| && Has(l[i], p);
      assert c[i + 1] == l[i];
    }
    if Has(r, p) { assert c[0] == r; }
    if Free(c, p) {
      var i :| 0 <= i < |c| && Has(c[i], p);
      assert i == 0 || c[i] == l[i - 1];
    }
  }

  lemma FreeHead(l: seq<Run>, p: int)
    requires l != []
    ensures Free(l, p) <==> Has(l[0], p) || Free(l[1..], p)
  {
    assert l == [l[0]] + l[1..];
    FreeCons(l[0], l[1..], p);
  }

  /** In a canonical list every free page lies at or behind the first run's start, and the page
      right behind the first run is not free. */
  lemma HeadIsLowest(l: seq<Run>, p: int)
    requires Canonical(l) && l != []
    ensures Free(l, p) ==> l[0].start <= p
    ensures !Free(l, l[0].start + l[0].len)
    ensures Free(l[1..], p) ==> l[0].start + l[0].len < p
  {
    forall i | 0 <= i < |l| ensures !Has(l[i], l[0].start + l[0].len) {
      if i > 0 { assert l[0].start + l[0].len < l[i].start; }
    }
  }

  /** Uniqueness: a set of free pages has only one canonical list. */
  lemma {:induction false} CanonicalUnique(a: seq<Run>, b: seq<Run>)
    requires Canonical(a) && Canonical(b) && SamePages(a, b)
    ensures a == b
    decreases |a|
  {
    if a != [] { assert Has(a[0], a[0].start) && Free(a, a[0].start); }
    if b != [] { assert Has(b[0], b[0].start) && Free(b, b[0].start); }
    if a != [] && b != [] {
      SameHead(a, b);
      assert a[0] == b[0];
      forall p ensures Free(a[1..], p) <==> Free(b[1..], p) {
        FreeHead(a, p);
        FreeHead(b, p);
        HeadIsLowest(a, p);
        HeadIsLowest(b, p);
      }
      CanonicalUnique(a[1..], b[1..]);
      assert a == [a[0]] + a[1..] && b == [b[0]] + b[1..];
    }
  }

  lemma SameHead(a: seq<Run>, b: seq<Run>)
    requires Canonical(a) && Canonical(b) && SamePages(a, b) && a != [] && b != []
    ensures a[0] == b[0]
  {
    var x, y := a[0], b[0];
    assert Has(x, x.start) && Has(y, y.start);
    assert Free(a, x.start) && Free(b, y.start);
    HeadIsLowest(a, y.start);
    HeadIsLowest(b, x.start);
    HeadIsLowest(a, 0);
    HeadIsLowest(b, 0);
    assert x.len < y.len ==> Has(y, x.start + x.len);
    assert y.len < x.len ==> Has(x, y.start + y.len);
  }

  /** Consecutive free pages always lie in one run. */
  lemma {:induction false} OneRun(l: seq<Run>, q: int, n: nat) returns (i: int)
    requires Canonical(l) && n > 0 && forall p :: q <= p < q + n ==> Free(l, p)
    ensures 0 <= i < |l| && l[i].start <= q && q + n <= l[i].start + l[i].len
    decreases n
  {
    assert Free(l, q);
    if n == 1 {
      i :| 0 <= i < |l| && Has(l[i], q);
    } else {
      i := OneRun(l, q, n - 1);
      var last := q + n - 1;
      assert Free(l, last);
      var j :| 0 <= j < |l| && Has(l[j], last);
    }
  }

  // ----- rt_page_alloc

  function AllocRuns(l: seq<Run>, n: int): (seq<Run>, int)
  {
    if l == [] then ([], NIL)
    else if l[0].len > n then ([Run(l[0].start + n, l[0].len - n)] + l[1..], l[0].start)
    else if l[0].len == n then (l[1..], l[0].start)
    else ([l[0]] + AllocRuns(l[1..], n).0, AllocRuns(l[1..], n).1)
  }

  ghost predicate Within(a: int, n: int, p: int) { a <= p < a + n }

  /** Exactly the n pages from a on are gone. */
  ghost predicate Removed(l: seq<Run>, r: seq<Run>, a: int, n: int)
  {
    forall p :: Free(r, p) <==> Free(l, p) && !Within(a, n, p)
  }

  ghost predicate AllFree(l: seq<Run>, a: int, n: int)
  {
    forall p :: Within(a, n, p) ==> Free(l, p)
  }

  ghost predicate NonNegative(l: seq<Run>)
  {
    forall i :: 0 <= i < |l| ==> 0 <= l[i].start
  }

  /** What one allocation promises: exactly n consecutive free pages are taken off, or no run is
      long enough and nothing changes. */
  ghost predicate Taken(l: seq<Run>, n: int, r: seq<Run>, a: int)
  {
    && (a == NIL <==> forall i :: 0 <= i < |l| ==> l[i].len < n)
    && (a == NIL ==> r == l)
    && (a != NIL ==> AllFree(l, a, n) && Removed(l, r, a, n))
  }

  /** rt_page_alloc takes exactly npages consecutive free pages off a canonical list, which stays
      canonical, or fails because no run is long enough. */
  lemma {:induction false} AllocExact(l: seq<Run>, n: int)
    requires Canonical(l) && n > 0 && NonNegative(l)
    ensures var (r, a) := AllocRuns(l, n);
      Taken(l, n, r, a) && Canonical(r) && NonNegative(r) && (r != [] ==> l != [] && l[0].start <= r[0].start)
  {
    hide Taken;
    if l == [] {
      TakenNone(n);
    } else if l[0].len >= n {
      AllocHead(l, n);
    } else {
      AllocExact(l[1..], n);
      TailCanonical(l, AllocRuns(l[1..], n).0);
      AllocTail(l, n, AllocRuns(l[1..], n).0, AllocRuns(l[1..], n).1);
    }
  }

  lemma TakenNone(n: int)
    ensures Taken([], n, [], NIL)
  {
  }

  lemma AllocHead(l: seq<Run>, n: int)
    requires Canonical(l) && n > 0 && NonNegative(l) && l != [] && l[0].len >= n
    ensures var (r, a) := AllocRuns(l, n);
      Taken(l, n, r, a) && Canonical(r) && NonNegative(r) && (r != [] ==> l[0].start <= r[0].start)
  {
    var (r, a) := AllocRuns(l, n);
    forall p ensures Free(r, p) <==> Free(l, p) && !Within(a, n, p) {
      FreeHead(l, p);
      HeadIsLowest(l, p);
      if l[0].len > n { FreeCons(Run(a + n, l[0].len - n), l[1..], p); }
    }
    forall p | Within(a, n, p) ensures Free(l, p) { assert Has(l[0], p); }
  }

  lemma TailCanonical(l: seq<Run>, r: seq<Run>)
    requires Canonical(l) && NonNegative(l) && l != [] && Canonical(r) && NonNegative(r)
    requires r != [] ==> l[0].start + l[0].len < r[0].start
    ensures Canonical([l[0]] + r) && NonNegative([l[0]] + r)
  {
    var c := [l[0]] + r;
    assert forall i :: 0 < i < |c| ==> c[i] == r[i - 1];
    assert forall j :: 0 < j < |r| ==> r[0].start + r[0].len < r[j].start;
  }

  lemma AllocTail(l: seq<Run>, n: int, r: seq<Run>, a: int)
    requires Canonical(l) && n > 0 && l != [] && l[0].len < n && Taken(l[1..], n, r, a)
    ensures Taken(l, n, [l[0]] + r, a)
  {
    hide Canonical;
    var t := l[1..];
    assert l == [l[0]] + t;
    forall p | a != NIL
      ensures Free([l[0]] + r, p) <==> Free(l, p) && !Within(a, n, p)
      ensures Within(a, n, p) ==> Free(l, p)
    {
      FreeCons(l[0], r, p);
      FreeCons(l[0], t, p);
      HeadIsLowest(l, p);
    }
    assert forall i :: 0 < i < |l| ==> l[i] == t[i - 1];
  }

  /** rt_page_alloc fails if and only if no npages consecutive pages are free. */
  lemma AllocFailsIff(l: seq<Run>, n: int)
    requires Canonical(l) && n > 0 && NonNegative(l)
    ensures AllocRuns(l, n).1 == NIL <==> forall a :: !AllFree(l, a, n)
  {
    AllocExact(l, n);
    forall a | AllocRuns(l, n).1 == NIL && AllFree(l, a, n) ensures false {
      assert forall p :: a <= p < a + n ==> Within(a, n, p);
      var i := OneRun(l, a, n);
    }
    if AllocRuns(l, n).1 != NIL { assert AllFree(l, AllocRuns(l, n).1, n); }
  }

  // ----- rt_page_free

  function FreeRuns(l: seq<Run>, a: int, n: int): seq<Run>
  {
    if l == [] then [Run(a, n)]
    else if l[0].start + l[0].len == a then
      if |l| > 1 && l[0].start + (l[0].len + n) == l[1].start
      then [Run(l[0].start, l[0].len + n + l[1].len)] + l[2..]
      else [Run(l[0].start, l[0].len + n)] + l[1..]
    else if l[0].start == a + n then [Run(a, n + l[0].len)] + l[1..]
    else if l[0].start > a + n then [Run(a, n)] + l
    else [l[0]] + FreeRuns(l[1..], a, n)
  }

  /** Exactly the n pages from a on have been added. */
  ghost predicate Added(l: seq<Run>, r: seq<Run>, a: int, n: int)
  {
    forall p :: Free(r, p) <==> Free(l, p) || Within(a, n, p)
  }

  ghost predicate NoneFree(l: seq<Run>, a: int, n: int)
  {
    forall p :: Within(a, n, p) ==> !Free(l, p)
  }

  function Lower(a: int, b: int): int { if a < b then a else b }

  /** rt_page_free of pages none of which is free adds exactly those and keeps the list canonical. */
  lemma {:induction false} PageFreeExact(l: seq<Run>, a: int, n: int)
    requires Canonical(l) && n > 0 && NonNegative(l) && 0 <= a && NoneFree(l, a, n)
    ensures var r := FreeRuns(l, a, n);
      Added(l, r, a, n) && Canonical(r) && NonNegative(r)
      && r != [] && r[0].start == (if l == [] then a else Lower(a, l[0].start))
  {
    hide Added, NoneFree;
    if l == [] {
      AddedAlone(a, n);
    } else if l[0].start + l[0].len == a {
      FreeBehindHead(l, a, n);
    } else if l[0].start >= a + n {
      FreeBeforeHead(l, a, n);
    } else {
      HeadBelow(l, a, n);
      PageFreeExact(l[1..], a, n);
      TailCanonical(l, FreeRuns(l[1..], a, n));
      AddedTail(l, FreeRuns(l[1..], a, n), a, n);
    }
  }

  lemma AddedAlone(a: int, n: int)
    requires n > 0
    ensures Added([], [Run(a, n)], a, n)
  {
    forall p ensures Free([Run(a, n)], p) <==> Free([], p) || Within(a, n, p) { FreeCons(Run(a, n), [], p); }
  }

  /** The run grows at its end, and swallows the next one when they meet. */
  lemma FreeBehindHead(l: seq<Run>, a: int, n: int)
    requires Canonical(l) && n > 0 && NonNegative(l) && l != [] && l[0].start + l[0].len == a && NoneFree(l, a, n)
    ensures var r := FreeRuns(l, a, n);
      Added(l, r, a, n) && Canonical(r) && NonNegative(r) && r != [] && r[0].start == l[0].start
  {
    if |l| > 1 {
      assert Has(l[1], l[1].start) && Free(l, l[1].start);
      assert !Within(a, n, l[1].start);
    }
    GrownShape(l, a, n);
    forall p ensures Free(FreeRuns(l, a, n), p) <==> Free(l, p) || Within(a, n, p) {
      GrownPages(l, a, n, p);
    }
  }

  lemma GrownShape(l: seq<Run>, a: int, n: int)
    requires Canonical(l) && n > 0 && NonNegative(l) && l != [] && l[0].start + l[0].len == a
    requires |l| > 1 ==> a + n <= l[1].start
    ensures var r := FreeRuns(l, a, n); Canonical(r) && NonNegative(r) && r != [] && r[0].start == l[0].start
  {
    var r := FreeRuns(l, a, n);
    if |l| > 1 && a + n == l[1].start {
      HeadReplaced(l[1..], r, r[0]);
    } else {
      HeadReplaced(l, r, r[0]);
    }
  }

  /** A list stays canonical when its first run is replaced by one that ends before the second. */
  lemma HeadReplaced(l: seq<Run>, r: seq<Run>, h: Run)
    requires Canonical(l) && NonNegative(l) && l != [] && r == [h] + l[1..]
    requires h.len > 0 && 0 <= h.start && (|l| > 1 ==> h.start + h.len < l[1].start)
    ensures Canonical(r) && NonNegative(r)
  {
    assert forall k :: 0 < k < |r| ==> r[k] == l[k];
  }

  lemma GrownPages(l: seq<Run>, a: int, n: int, p: int)
    requires Canonical(l) && n > 0 && l != [] && l[0].start + l[0].len == a && (|l| > 1 ==> a + n <= l[1].start)
    ensures Free(FreeRuns(l, a, n), p) <==> Free(l, p) || Within(a, n, p)
  {
    hide Canonical, Free;
    var r := FreeRuns(l, a, n);
    RunsPositive(l);
    FreeHead(l, p);
    FreeHead(r, p);
    if |l| > 1 {
      FreeHead(l[1..], p);
      assert l[1..][1..] == l[2..];
    }
  }

  lemma RunsPositive(l: seq<Run>)
    requires Canonical(l)
    ensures forall i :: 0 <= i < |l| ==> l[i].len > 0
  {
  }

  lemma FreeBeforeHead(l: seq<Run>, a: int, n: int)
    requires Canonical(l) && n > 0 && NonNegative(l) && 0 <= a && l != [] && l[0].start >= a + n
    requires l[0].start + l[0].len != a
    ensures var r := FreeRuns(l, a, n);
      Added(l, r, a, n) && Canonical(r) && NonNegative(r) && r != [] && r[0].start == a
  {
    PrependShape(l, a, n);
    RunsPositive(l);
    forall p ensures Free(FreeRuns(l, a, n), p) <==> Free(l, p) || Within(a, n, p) {
      PrependPages(l, a, n, p);
    }
  }

  lemma PrependShape(l: seq<Run>, a: int, n: int)
    requires Canonical(l) && n > 0 && NonNegative(l) && 0 <= a && l != [] && l[0].start >= a + n
    requires l[0].start + l[0].len != a
    ensures var r := FreeRuns(l, a, n); Canonical(r) && NonNegative(r) && r != [] && r[0].start == a
  {
    var r := FreeRuns(l, a, n);
    if l[0].start == a + n {
      assert forall k :: 0 < k < |r| ==> r[k] == l[k];
    } else {
      assert forall k :: 0 < k < |r| ==> r[k] == l[k - 1];
    }
  }

  lemma PrependPages(l: seq<Run>, a: int, n: int, p: int)
    requires n > 0 && l != [] && l[0].len > 0 && l[0].start >= a + n
    ensures Free(FreeRuns(l, a, n), p) <==> Free(l, p) || Within(a, n, p)
  {
    hide Free;
    FreeHead(l, p);
    FreeHead(FreeRuns(l, a, n), p);
  }

  /** Otherwise the first run ends before the freed pages, with a used page in between. */
  lemma HeadBelow(l: seq<Run>, a: int, n: int)
    requires Canonical(l) && n > 0 && l != [] && NoneFree(l, a, n)
    requires l[0].start + l[0].len != a && l[0].start < a + n
    ensures l[0].start + l[0].len < a && Canonical(l[1..]) && NoneFree(l[1..], a, n)
    ensures NonNegative(l) ==> NonNegative(l[1..])
    ensures |l| > 1 ==> l[0].start + l[0].len < l[1].start
  {
    assert Has(l[0], l[0].start) && Free(l, l[0].start);
    assert l[0].start < a by { assert !Within(a, n, l[0].start); }
    assert Has(l[0], a) ==> Free(l, a);
    assert Within(a, n, a);
    forall p ensures Free(l[1..], p) ==> Free(l, p) { FreeHead(l, p); }
  }

  lemma AddedTail(l: seq<Run>, r: seq<Run>, a: int, n: int)
    requires l != [] && Added(l[1..], r, a, n)
    ensures Added(l, [l[0]] + r, a, n)
  {
    forall p ensures Free([l[0]] + r, p) <==> Free(l, p) || Within(a, n, p) {
      FreeHead(l, p);
      FreeCons(l[0], r, p);
    }
  }

  /** Freeing what was just allocated restores the identical list. */
  lemma AllocFreeRestores(l: seq<Run>, n: int)
    requires Canonical(l) && n > 0 && NonNegative(l) && AllocRuns(l, n).1 != NIL
    ensures FreeRuns(AllocRuns(l, n).0, AllocRuns(l, n).1, n) == l
  {
    var (r, a) := AllocRuns(l, n);
    AllocExact(l, n);
    AllocatedIsPage(l, n);
    PageFreeExact(r, a, n);
    CanonicalUnique(FreeRuns(r, a, n), l);
  }

  lemma {:induction false} AllocatedIsPage(l: seq<Run>, n: int)
    requires NonNegative(l) && AllocRuns(l, n).1 != NIL
    ensures AllocRuns(l, n).1 >= 0
  {
    if l[0].len < n { AllocatedIsPage(l[1..], n); }
  }

  // ----- runs of calls

  datatype Op = DoAlloc(n: int) | DoFree(addr: int, n: int)

  ghost predicate Legal(l: seq<Run>, op: Op)
  {
    match op
    case DoAlloc(n) => n > 0
    case DoFree(a, n) => n > 0 && a >= 0 && NoneFree(l, a, n)
  }

  function Step(l: seq<Run>, op: Op): seq<Run>
  {
    match op
    case DoAlloc(n) => AllocRuns(l, n).0
    case DoFree(a, n) => FreeRuns(l, a, n)
  }

  ghost predicate Trace(ls: seq<seq<Run>>, ops: seq<Op>)
  {
    && |ls| == |ops| + 1 && Canonical(ls[0]) && NonNegative(ls[0])
    && forall k :: 0 <= k < |ops| ==> Legal(ls[k], ops[k]) && ls[k + 1] == Step(ls[k], ops[k])
  }

  /** Over every run of calls the list stays canonical. */
  lemma {:induction false} TraceCanonical(ls: seq<seq<Run>>, ops: seq<Op>, k: nat)
    requires Trace(ls, ops) && k < |ls|
    ensures Canonical(ls[k]) && NonNegative(ls[k])
  {
    hide Canonical, NonNegative, AllocRuns, FreeRuns;
    if k > 0 {
      TraceCanonical(ls, ops, k - 1);
      match ops[k - 1]
      case DoAlloc(n) => AllocExact(ls[k - 1], n);
      case DoFree(a, n) => PageFreeExact(ls[k - 1], a, n);
    }
  }
}
