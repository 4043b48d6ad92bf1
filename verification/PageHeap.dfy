/** The page run list of slab.c as it lies in memory: each run's first page holds its next link and length. */
module PageHeap {

  import opened PageHeapSpec

  // ----- the linked list

  function First(l: seq<Run>, i: int): int
  {
    if 0 <= i < |l| then l[i].start else NIL
  }

  /** Run i as it lies in memory. */
  ghost predicate Node(next: seq<int>, page: seq<int>, l: seq<Run>, i: int)
    requires |next| == |page| && 0 <= i < |l|
  {
    0 <= l[i].start < |next| && page[l[i].start] == l[i].len && next[l[i].start] == First(l, i + 1)
  }

  /** The page heads of the runs are linked in list order from head on. */
  ghost predicate Rep(head: int, next: seq<int>, page: seq<int>, l: seq<Run>)
  {
    && |next| == |page|
    && head == First(l, 0)
    && forall i :: 0 <= i < |l| ==> Node(next, page, l, i)
  }

  /** The search of rt_page_alloc passes the runs that are too short. */
  lemma {:induction false} AllocAt(l: seq<Run>, n: int, i: int)
    requires 0 <= i <= |l| && forall k :: 0 <= k < i ==> l[k].len < n
    ensures AllocRuns(l, n) == (l[..i] + AllocRuns(l[i..], n).0, AllocRuns(l[i..], n).1)
    decreases i
  {
    if i > 0 {
      AllocAt(l[1..], n, i - 1);
      assert l[1..][i - 1..] == l[i..] && l[..i] == [l[0]] + l[1..][..i - 1];
      var r := AllocRuns(l[i..], n).0;
      assert l[..i] + r == [l[0]] + (l[1..][..i - 1] + r);
    } else {
      assert l[..0] == [] && l[0..] == l;
      assert l[..0] + AllocRuns(l, n).0 == AllocRuns(l, n).0;
    }
  }

  lemma AllocWhole(l: seq<Run>, n: int, i: int)
    requires 0 <= i < |l| && l[i].len == n && forall k :: 0 <= k < i ==> l[k].len < n
    ensures AllocRuns(l, n) == (l[..i] + l[i + 1..], l[i].start)
  {
    AllocAt(l, n, i);
    assert l[i..][1..] == l[i + 1..];
  }

  lemma AllocPart(l: seq<Run>, n: int, i: int)
    requires 0 <= i < |l| && l[i].len > n && forall k :: 0 <= k < i ==> l[k].len < n
    ensures AllocRuns(l, n) == (Spliced(l, i, 1, Run(l[i].start + n, l[i].len - n)), l[i].start)
  {
    AllocAt(l, n, i);
    assert l[i..][1..] == l[i + 1..];
    var r := Run(l[i].start + n, l[i].len - n);
    assert l[..i] + ([r] + l[i + 1..]) == l[..i] + [r] + l[i + 1..];
  }

  /** The search of rt_page_free passes run k. */
  predicate Passed(r: Run, a: int, n: int)
  {
    r.start + r.len != a && r.start != a + n && r.start <= a + n
  }

  lemma {:induction false} FreeAt(l: seq<Run>, a: int, n: int, i: int)
    requires 0 <= i <= |l| && forall k :: 0 <= k < i ==> Passed(l[k], a, n)
    ensures FreeRuns(l, a, n) == l[..i] + FreeRuns(l[i..], a, n)
    decreases i
  {
    hide FreeRuns;
    if i > 0 {
      FreePassed(l, a, n);
      FreeAt(l[1..], a, n, i - 1);
      assert l[1..][i - 1..] == l[i..] && l[..i] == [l[0]] + l[1..][..i - 1];
    } else {
      assert l[..0] == [] && l[0..] == l;
    }
  }

  lemma FreePassed(l: seq<Run>, a: int, n: int)
    requires l != [] && Passed(l[0], a, n)
    ensures FreeRuns(l, a, n) == [l[0]] + FreeRuns(l[1..], a, n)
  {
  }

  /** The grown run i reaches the run behind it. */
  predicate Meets(l: seq<Run>, a: int, n: int, i: int)
    requires 0 <= i < |l|
  {
    i + 1 < |l| && l[i].start + l[i].len + n == l[i + 1].start
  }

  lemma FreeGrow(l: seq<Run>, a: int, n: int, i: int)
    requires 0 <= i < |l| && l[i].start + l[i].len == a && forall k :: 0 <= k < i ==> Passed(l[k], a, n)
    ensures var d := if Meets(l, a, n, i) then 2 else 1;
      FreeRuns(l, a, n) ==
      Spliced(l, i, d, Run(l[i].start, l[i].len + n + (if d == 2 then l[i + 1].len else 0)))
  {
    FreeAt(l, a, n, i);
    var t := l[i..];
    assert t[1..] == l[i + 1..];
    var d := if Meets(l, a, n, i) then 2 else 1;
    var r := Run(l[i].start, l[i].len + n + (if d == 2 then l[i + 1].len else 0));
    if d == 2 { assert t[2..] == l[i + 2..] && t[1] == l[i + 1]; }
    assert FreeRuns(t, a, n) == [r] + l[i + d..];
    assert l[..i] + ([r] + l[i + d..]) == l[..i] + [r] + l[i + d..];
  }

  lemma FreeMerge(l: seq<Run>, a: int, n: int, i: int)
    requires 0 <= i < |l| && l[i].start == a + n && l[i].start + l[i].len != a
    requires forall k :: 0 <= k < i ==> Passed(l[k], a, n)
    ensures FreeRuns(l, a, n) == Spliced(l, i, 1, Run(a, n + l[i].len))
  {
    FreeAt(l, a, n, i);
    var r := Run(a, n + l[i].len);
    assert l[i..][1..] == l[i + 1..];
    assert l[..i] + ([r] + l[i + 1..]) == l[..i] + [r] + l[i + 1..];
  }

  lemma FreeInsert(l: seq<Run>, a: int, n: int, i: int)
    requires 0 <= i <= |l| && (i < |l| ==> l[i].start > a + n && l[i].start + l[i].len != a)
    requires forall k :: 0 <= k < i ==> Passed(l[k], a, n)
    ensures FreeRuns(l, a, n) == Spliced(l, i, 0, Run(a, n))
  {
    FreeAt(l, a, n, i);
    assert l[..i] + ([Run(a, n)] + l[i..]) == l[..i] + [Run(a, n)] + l[i..];
  }

  /** Runs i .. i + d of the list are replaced by the single run r, whose head page is written and
      linked in behind run i - 1. */
  function Linked(head: int, next: seq<int>, prev: int, r: int, succ: int): (int, seq<int>)
    requires 0 <= r < |next| && prev < |next|
  {
    var n := next[r := succ];
    if prev < 0 then (r, n) else (head, n[prev := r])
  }

  function Spliced(l: seq<Run>, i: int, d: int, r: Run): seq<Run>
    requires 0 <= i && 0 <= d && i + d <= |l|
  {
    l[..i] + [r] + l[i + d..]
  }

  ghost predicate Distinct(l: seq<Run>)
  {
    forall j, k :: 0 <= j < |l| && 0 <= k < |l| && j != k ==> l[j].start != l[k].start
  }

  /** Page p heads no run outside the replaced ones. */
  ghost predicate Elsewhere(l: seq<Run>, i: int, d: int, p: int)
  {
    forall k :: 0 <= k < |l| && !(i <= k < i + d) ==> l[k].start != p
  }

  lemma RepSplice(head: int, next: seq<int>, page: seq<int>, l: seq<Run>, i: int, d: int, r: Run)
    requires Rep(head, next, page, l) && Distinct(l) && 0 <= i && 0 <= d && i + d <= |l|
    requires 0 <= r.start < |next| && Elsewhere(l, i, d, r.start)
    ensures First(l, i - 1) < |next| && First(l, i - 1) != r.start
    ensures var (h, n) := Linked(head, next, First(l, i - 1), r.start, First(l, i + d));
      Rep(h, n, page[r.start := r.len], Spliced(l, i, d, r))
  {
    hide Distinct, Node, Spliced;
    SplicePrev(next, page, l, i, d, r);
    var (h, n) := Linked(head, next, First(l, i - 1), r.start, First(l, i + d));
    var c := Spliced(l, i, d, r);
    SplicedIndex(l, i, d, r);
    var q := page[r.start := r.len];
    forall k | 0 <= k < |c| ensures Node(n, q, c, k) {
      SpliceNode(head, next, page, l, i, d, r, k);
    }
  }

  lemma SplicedIndex(l: seq<Run>, i: int, d: int, r: Run)
    requires 0 <= i && 0 <= d && i + d <= |l|
    ensures |Spliced(l, i, d, r)| == |l| - d + 1 && Spliced(l, i, d, r)[i] == r
    ensures forall k :: 0 <= k < i ==> Spliced(l, i, d, r)[k] == l[k]
    ensures forall k :: i < k <= |l| - d ==> Spliced(l, i, d, r)[k] == l[k + d - 1]
  {
  }

  lemma SplicePrev(next: seq<int>, page: seq<int>, l: seq<Run>, i: int, d: int, r: Run)
    requires |next| == |page| && (forall k :: 0 <= k < |l| ==> Node(next, page, l, k))
    requires 0 <= i && 0 <= d && i + d <= |l| && 0 <= r.start && Elsewhere(l, i, d, r.start)
    ensures First(l, i - 1) < |next| && First(l, i - 1) != r.start
    ensures i > 0 ==> First(l, i - 1) >= 0
  {
    if i > 0 { assert Node(next, page, l, i - 1); }
  }

  lemma SpliceNode(head: int, next: seq<int>, page: seq<int>, l: seq<Run>, i: int, d: int, r: Run, k: int)
    requires Rep(head, next, page, l) && Distinct(l) && 0 <= i && 0 <= d && i + d <= |l|
    requires 0 <= r.start < |next| && Elsewhere(l, i, d, r.start) && 0 <= k <= |l| - d
    requires First(l, i - 1) < |next| && First(l, i - 1) != r.start
    ensures var (h, n) := Linked(head, next, First(l, i - 1), r.start, First(l, i + d));
      var c := Spliced(l, i, d, r);
      |n| == |next| && k < |c| && Node(n, page[r.start := r.len], c, k)
  {
    hide Rep, Spliced;
    SplicedIndex(l, i, d, r);
    if k < i {
      RepNode(head, next, page, l, k);
    } else if k > i {
      RepNode(head, next, page, l, k + d - 1);
      assert Spliced(l, i, d, r)[k] == l[k + d - 1];
      assert First(Spliced(l, i, d, r), k + 1) == First(l, k + d) == next[l[k + d - 1].start];
      assert l[k + d - 1].start != r.start;
      assert i > 0 ==> l[i - 1].start != l[k + d - 1].start;
    } else {
      HeadLink(head, next, page, l);
    }
  }

  lemma RepNode(head: int, next: seq<int>, page: seq<int>, l: seq<Run>, i: int)
    requires Rep(head, next, page, l) && 0 <= i < |l|
    ensures |next| == |page| && Node(next, page, l, i)
  {
  }

  /** Run i is taken out. */
  lemma RepRemove(head: int, next: seq<int>, page: seq<int>, l: seq<Run>, i: int)
    requires Rep(head, next, page, l) && Distinct(l) && 0 <= i < |l|
    ensures First(l, i - 1) < |next|
    ensures var (h, n) := Relinked(head, next, First(l, i - 1), First(l, i + 1));
      Rep(h, n, page, l[..i] + l[i + 1..])
  {
    hide Distinct, Node;
    if i > 0 { NodeAt(head, next, page, l, i - 1); }
    var (h, n) := Relinked(head, next, First(l, i - 1), First(l, i + 1));
    var c := l[..i] + l[i + 1..];
    forall k | 0 <= k < |c| ensures Node(n, page, c, k) {
      RemoveNode(head, next, page, l, i, k);
    }
  }

  /** Rewriting run i in place moves no other link. */
  lemma LinkedInPlace(head: int, next: seq<int>, page: seq<int>, l: seq<Run>, i: int, d: int)
    requires Rep(head, next, page, l) && Distinct(l) && 0 <= i < |l| && i + d <= |l| && d > 0
    ensures First(l, i - 1) < |next| && 0 <= l[i].start < |next|
    ensures Linked(head, next, First(l, i - 1), l[i].start, First(l, i + d)) ==
      (head, next[l[i].start := First(l, i + d)])
  {
    NodeAt(head, next, page, l, i);
    if i > 0 {
      NodeAt(head, next, page, l, i - 1);
      var n := next[l[i].start := First(l, i + d)];
      assert n[l[i - 1].start := l[i].start] == n;
    }
  }

  function Relinked(head: int, next: seq<int>, prev: int, succ: int): (int, seq<int>)
    requires prev < |next|
  {
    if prev < 0 then (succ, next) else (head, next[prev := succ])
  }

  lemma RemoveNode(head: int, next: seq<int>, page: seq<int>, l: seq<Run>, i: int, k: int)
    requires Rep(head, next, page, l) && Distinct(l) && 0 <= i < |l| && 0 <= k < |l| - 1 && First(l, i - 1) < |next|
    ensures var (h, n) := Relinked(head, next, First(l, i - 1), First(l, i + 1));
      |n| == |page| && Node(n, page, l[..i] + l[i + 1..], k)
  {
    hide Rep;
    var c := l[..i] + l[i + 1..];
    assert forall j :: 0 <= j < i ==> c[j] == l[j];
    assert forall j :: i <= j < |c| ==> c[j] == l[j + 1];
    RepNode(head, next, page, l, if k < i then k else k + 1);
  }

  lemma StartsDistinct(l: seq<Run>)
    requires Canonical(l)
    ensures Distinct(l)
  {
    forall j, k | 0 <= j < |l| && 0 <= k < |l| && j != k ensures l[j].start != l[k].start {
      if j < k { assert l[j].start + l[j].len < l[k].start; } else { assert l[k].start + l[k].len < l[j].start; }
    }
  }

  lemma NodeAt(head: int, next: seq<int>, page: seq<int>, l: seq<Run>, i: int)
    requires Rep(head, next, page, l) && 0 <= i < |l|
    ensures 0 <= l[i].start < |next| == |page| && page[l[i].start] == l[i].len && next[l[i].start] == First(l, i + 1)
  {
    RepNode(head, next, page, l, i);
  }

  class PageList {
    var head: int          // rt_page_list
    var next: array<int>   // the two words of each page's head
    var page: array<int>
    ghost var runs: seq<Run>

    ghost predicate Valid()
      reads this, next, page
    {
      next != page && Rep(head, next[..], page[..], runs) && Canonical(runs) && NonNegative(runs)
      && Bounded(runs, next.Length)
    }

    /** rt_page_init: an empty list, to which all pages are then freed. */
    constructor (total: nat, addr: nat, npages: nat)
      requires npages > 0 && addr + npages <= total
      ensures Valid() && runs == [Run(addr, npages)] && fresh(next) && fresh(page) && next.Length == total
    {
      head := NIL;
      next := new int[total];
      page := new int[total];
      runs := [];
      new;
      Free(addr, npages);
    }

    /** *prev = r, where prev is &rt_page_list or the next word of a page. */
    method SetLink(prev: int, r: int)
      requires prev < next.Length
      modifies this`head, next
      ensures prev < 0 ==> head == r && next[..] == old(next[..])
      ensures prev >= 0 ==> head == old(head) && next[..] == old(next[..])[prev := r]
    {
      if prev < 0 {
        head := r;
      } else {
        next[prev] := r;
      }
    }

    /** rt_page_alloc */
    method Alloc(npages: nat) returns (b: int)
      requires Valid()
      modifies this`head, this`runs, next, page
      ensures Valid()
      ensures npages == 0 ==> b == NIL && runs == old(runs)
      ensures npages > 0 ==> (runs, b) == AllocRuns(old(runs), npages)
    {
      hide Rep, Canonical, AllocRuns, Bounded, PageHeapSpec.Free, Distinct;
      if npages == 0 { return NIL; }
      HeadLink(head, next[..], page[..], runs);
      b := head;
      var prev := NIL;
      ghost var i := 0;
      while b != NIL
        invariant Valid() && runs == old(runs) && 0 <= i <= |runs| && b == First(runs, i)
        invariant prev == First(runs, i - 1)
        invariant forall k :: 0 <= k < i ==> runs[k].len < npages
        decreases |runs| - i
      {
        NodeAt(head, next[..], page[..], runs, i);
        if page[b] > npages {
          TakePart(prev, b, npages, i);
          return;
        }
        if page[b] == npages {
          TakeWhole(prev, b, npages, i);
          return;
        }
        prev := b;
        b := next[b];
        i := i + 1;
      }
      NilEnds(runs, i);
      AllocNone(runs, npages);
    }

    /** Split run i: its first npages go out, the rest stays listed. */
    method TakePart(prev: int, b: int, npages: nat, ghost i: int)
      requires Valid() && 0 <= i < |runs| && runs[i].start == b && npages > 0 && runs[i].len > npages
      requires prev == First(runs, i - 1)
      requires forall k :: 0 <= k < i ==> runs[k].len < npages
      modifies this`head, this`runs, next, page
      ensures Valid() && (runs, b) == AllocRuns(old(runs), npages)
    {
      hide Rep, Canonical, AllocRuns, Bounded, Distinct, Elsewhere;
      AllocKeeps(runs, npages, next.Length);
      AllocPart(runs, npages, i);
      NodeAt(head, next[..], page[..], runs, i);
      ghost var r := Run(b + npages, runs[i].len - npages);
      InsideUnlisted(runs, next.Length, i, r.start);
      StartsDistinct(runs);
      RepSplice(head, next[..], page[..], runs, i, 1, r);
      var n := b + npages;
      next[n] := next[b];
      page[n] := page[b] - npages;
      SetLink(prev, n);
      runs := Spliced(runs, i, 1, r);
    }

    /** Take run i out. */
    method TakeWhole(prev: int, b: int, npages: nat, ghost i: int)
      requires Valid() && 0 <= i < |runs| && runs[i].start == b && npages > 0 && runs[i].len == npages
      requires prev == First(runs, i - 1)
      requires forall k :: 0 <= k < i ==> runs[k].len < npages
      modifies this`head, this`runs, next, page
      ensures Valid() && (runs, b) == AllocRuns(old(runs), npages)
    {
      hide Rep, Canonical, AllocRuns, Bounded, Distinct;
      AllocKeeps(runs, npages, next.Length);
      AllocWhole(runs, npages, i);
      StartsDistinct(runs);
      RepRemove(head, next[..], page[..], runs, i);
      NodeAt(head, next[..], page[..], runs, i);
      SetLink(prev, next[b]);
      runs := runs[..i] + runs[i + 1..];
    }

    /** rt_page_free */
    method Free(addr: int, npages: nat)
      requires Valid() && npages > 0 && 0 <= addr && addr + npages <= next.Length && NoneFree(runs, addr, npages)
      modifies this`head, this`runs, next, page
      ensures Valid() && runs == FreeRuns(old(runs), addr, npages)
    {
      hide Rep, Canonical, FreeRuns, Bounded, PageHeapSpec.Free, NoneFree, NonNegative;
      HeadLink(head, next[..], page[..], runs);
      var b := head;
      var prev := NIL;
      ghost var i := 0;
      while b != NIL
        invariant Valid() && runs == old(runs) && 0 <= i <= |runs| && b == First(runs, i)
        invariant prev == First(runs, i - 1) && NoneFree(runs, addr, npages)
        invariant forall k :: 0 <= k < i ==> Passed(runs[k], addr, npages)
        decreases |runs| - i
      {
        NodeAt(head, next[..], page[..], runs, i);
        if b + page[b] == addr {
          GrowRun(b, addr, npages, i);
          return;
        }
        if b == addr + npages {
          Prepend(prev, b, addr, npages, i);
          return;
        }
        if b > addr + npages { break; }
        prev := b;
        b := next[b];
        i := i + 1;
      }
      Insert(prev, b, addr, npages, i);
    }

    /** Run i ends where the freed pages begin: it grows, and swallows the run it then meets. */
    method GrowRun(b: int, addr: int, npages: nat, ghost i: int)
      requires Valid() && npages > 0 && 0 <= addr && addr + npages <= next.Length && NoneFree(runs, addr, npages)
      requires 0 <= i < |runs| && runs[i].start == b && b + runs[i].len == addr
      requires forall k :: 0 <= k < i ==> Passed(runs[k], addr, npages)
      modifies this`head, this`runs, next, page
      ensures Valid() && runs == FreeRuns(old(runs), addr, npages)
    {
      hide Rep, Canonical, FreeRuns, Bounded, PageHeapSpec.Free, NoneFree, Distinct, Elsewhere;
      FreeKeeps(runs, addr, npages, next.Length);
      FreeGrow(runs, addr, npages, i);
      StartsDistinct(runs);
      NodeAt(head, next[..], page[..], runs, i);
      ghost var d := if Meets(runs, addr, npages, i) then 2 else 1;
      ghost var r := Run(b, runs[i].len + npages + (if d == 2 then runs[i + 1].len else 0));
      HeadElsewhere(runs, i, d);
      RepSplice(head, next[..], page[..], runs, i, d, r);
      LinkedInPlace(head, next[..], page[..], runs, i, d);
      page[b] := page[b] + npages;
      if b + page[b] == next[b] {
        NodeAt(head, next[..], old(page[..]), runs, i + 1);
        page[b] := page[b] + page[next[b]];
        next[b] := next[next[b]];
      }
      assert next[..] == old(next[..])[b := First(runs, i + d)];
      assert page[..] == old(page[..])[b := r.len];
      runs := Spliced(runs, i, d, r);
    }

    /** The freed pages end where run i begins: they become its head. */
    method Prepend(prev: int, b: int, addr: int, npages: nat, ghost i: int)
      requires Valid() && npages > 0 && 0 <= addr && addr + npages <= next.Length && NoneFree(runs, addr, npages)
      requires 0 <= i < |runs| && runs[i].start == b == addr + npages && b + runs[i].len != addr
      requires prev == First(runs, i - 1)
      requires forall k :: 0 <= k < i ==> Passed(runs[k], addr, npages)
      modifies this`head, this`runs, next, page
      ensures Valid() && runs == FreeRuns(old(runs), addr, npages)
    {
      hide Rep, Canonical, FreeRuns, Bounded, PageHeapSpec.Free, NoneFree, Distinct, Elsewhere;
      FreeKeeps(runs, addr, npages, next.Length);
      FreeMerge(runs, addr, npages, i);
      StartsDistinct(runs);
      NodeAt(head, next[..], page[..], runs, i);
      ghost var r := Run(addr, npages + runs[i].len);
      UsedElsewhere(runs, addr, npages, i, 1);
      RepSplice(head, next[..], page[..], runs, i, 1, r);
      page[addr] := page[b] + npages;
      next[addr] := next[b];
      SetLink(prev, addr);
      runs := Spliced(runs, i, 1, r);
    }

    /** No run touches the freed pages: they become a run of their own before run i. */
    method Insert(prev: int, b: int, addr: int, npages: nat, ghost i: int)
      requires Valid() && npages > 0 && 0 <= addr && addr + npages <= next.Length && NoneFree(runs, addr, npages)
      requires 0 <= i <= |runs| && b == First(runs, i) && prev == First(runs, i - 1)
      requires b == NIL || (b > addr + npages && b + runs[i].len != addr)
      requires forall k :: 0 <= k < i ==> Passed(runs[k], addr, npages)
      modifies this`head, this`runs, next, page
      ensures Valid() && runs == FreeRuns(old(runs), addr, npages)
    {
      hide Rep, Canonical, FreeRuns, Bounded, PageHeapSpec.Free, NoneFree, Distinct, Elsewhere;
      FreeKeeps(runs, addr, npages, next.Length);
      NilEnds(runs, i);
      HeadLink(head, next[..], page[..], runs);
      FreeInsert(runs, addr, npages, i);
      StartsDistinct(runs);
      UsedElsewhere(runs, addr, npages, i, 0);
      RepSplice(head, next[..], page[..], runs, i, 0, Run(addr, npages));
      page[addr] := npages;
      next[addr] := b;
      SetLink(prev, addr);
      runs := Spliced(runs, i, 0, Run(addr, npages));
    }
  }

  ghost predicate Bounded(l: seq<Run>, total: int)
  {
    forall i :: 0 <= i < |l| ==> l[i].start + l[i].len <= total
  }

  lemma HeadLink(head: int, next: seq<int>, page: seq<int>, l: seq<Run>)
    requires Rep(head, next, page, l)
    ensures head == First(l, 0) && |next| == |page|
  {
  }

  lemma NilEnds(l: seq<Run>, i: int)
    requires NonNegative(l) && 0 <= i <= |l|
    ensures First(l, i) == NIL <==> i == |l|
  {
  }

  lemma AllocNone(l: seq<Run>, n: int)
    requires forall k :: 0 <= k < |l| ==> l[k].len < n
    ensures AllocRuns(l, n) == (l, NIL)
  {
    AllocAt(l, n, |l|);
    assert l[|l|..] == [] && l[..|l|] + [] == l;
  }

  lemma InsideUnlisted(l: seq<Run>, total: int, i: int, p: int)
    requires Canonical(l) && NonNegative(l) && Bounded(l, total) && 0 <= i < |l|
    requires l[i].start < p < l[i].start + l[i].len
    ensures 0 <= p < total && Elsewhere(l, i, 1, p)
  {
  }

  lemma HeadElsewhere(l: seq<Run>, i: int, d: int)
    requires Distinct(l) && 0 <= i < |l| && d > 0
    ensures Elsewhere(l, i, d, l[i].start)
  {
  }

  lemma UsedElsewhere(l: seq<Run>, a: int, n: int, i: int, d: int)
    requires NoneFree(l, a, n) && n > 0 && Canonical(l)
    ensures Elsewhere(l, i, d, a)
  {
    forall k | 0 <= k < |l| ensures l[k].start != a {
      assert l[k].start == a ==> Has(l[k], a) && Free(l, a) && Within(a, n, a);
    }
  }

  lemma {:induction false} AllocBounded(l: seq<Run>, n: int, total: int)
    requires Bounded(l, total) && n > 0
    ensures Bounded(AllocRuns(l, n).0, total)
  {
    if l != [] && l[0].len < n { AllocBounded(l[1..], n, total); }
  }

  lemma AllocKeeps(l: seq<Run>, n: int, total: int)
    requires Canonical(l) && NonNegative(l) && Bounded(l, total) && n > 0
    ensures var r := AllocRuns(l, n).0; Canonical(r) && NonNegative(r) && Bounded(r, total)
  {
    AllocExact(l, n);
    AllocBounded(l, n, total);
  }

  lemma {:induction false} FreeBounded(l: seq<Run>, a: int, n: int, total: int)
    requires Bounded(l, total) && a + n <= total
    ensures Bounded(FreeRuns(l, a, n), total)
  {
    if l != [] { FreeBounded(l[1..], a, n, total); }
  }

  lemma FreeKeeps(l: seq<Run>, a: int, n: int, total: int)
    requires Canonical(l) && NonNegative(l) && Bounded(l, total) && n > 0 && 0 <= a && NoneFree(l, a, n) && a + n <= total
    ensures var r := FreeRuns(l, a, n); Canonical(r) && NonNegative(r) && Bounded(r, total)
  {
    PageFreeExact(l, a, n);
    FreeBounded(l, a, n, total);
  }
}
