/** The circular doubly linked list of rtservice.h, on which every kernel list is built. Nodes are numbered;
    a list is named by its head node, and `Ring` says which nodes hang on it, in order. It is what lets the
    other modules write a kernel list as a sequence. */
module RtList {

  type Node = nat

  predicate Distinct(r: seq<Node>)
  {
    forall i, j :: 0 <= i < j < |r| ==> r[i] != r[j]
  }

  /** Position i of the ring, going round. */
  function Wrap(r: seq<Node>, i: int): Node
    requires r != [] && -1 <= i <= |r|
  {
    if i == |r| then r[0] else if i == -1 then r[|r| - 1] else r[i]
  }

  ghost predicate Linked(next: seq<Node>, prev: seq<Node>, r: seq<Node>, i: int)
    requires 0 <= i < |r|
  {
    r[i] < |next| && r[i] < |prev| && next[r[i]] == Wrap(r, i + 1) && prev[r[i]] == Wrap(r, i - 1)
  }

  /** r is a full turn of the links, starting anywhere. */
  ghost predicate Ring(next: seq<Node>, prev: seq<Node>, r: seq<Node>)
  {
    r != [] && |next| == |prev| && Distinct(r) && forall i :: 0 <= i < |r| ==> Linked(next, prev, r, i)
  }

  /** Node n goes in behind position k. */
  function Inserted(r: seq<Node>, k: nat, n: Node): seq<Node>
    requires k < |r|
  {
    r[..k + 1] + [n] + r[k + 1..]
  }

  function Dropped(r: seq<Node>, k: nat): seq<Node>
    requires k < |r|
  {
    r[..k] + r[k + 1..]
  }

  /** The four stores of rt_list_insert_after. */
  function InsertNext(next: seq<Node>, l: Node, n: Node): seq<Node>
    requires l < |next| && n < |next|
  {
    next[n := next[l]][l := n]
  }

  function InsertPrev(next: seq<Node>, prev: seq<Node>, l: Node, n: Node): seq<Node>
    requires l < |next| && n < |prev| && next[l] < |prev|
  {
    prev[next[l] := n][n := l]
  }

  lemma InsertLinked(next: seq<Node>, prev: seq<Node>, r: seq<Node>, k: nat, n: Node, i: nat)
    requires Ring(next, prev, r) && k < |r| && n < |next| && n !in r && i <= |r|
    ensures r[k] < |next| && next[r[k]] < |prev|
    ensures Linked(InsertNext(next, r[k], n), InsertPrev(next, prev, r[k], n), Inserted(r, k, n), i)
  {
    hide Ring, Distinct, Inserted;
    var q := Inserted(r, k, n);
    var j := if i <= k then i else if i == k + 1 then k else i - 1;
    var s := if k + 1 < |r| then k + 1 else 0;
    InsertedIndex(r, k, n);
    RingAt(next, prev, r, k, k);
    RingAt(next, prev, r, j, k);
    RingAt(next, prev, r, j, s);
    RingAt(next, prev, r, s, k);
  }

  lemma RingAt(next: seq<Node>, prev: seq<Node>, r: seq<Node>, i: nat, j: nat)
    requires Ring(next, prev, r) && i < |r| && j < |r|
    ensures |next| == |prev| && Linked(next, prev, r, i) && r[i] in r
    ensures r[i] == r[j] <==> i == j
  {
  }

  lemma InsertedIndex(r: seq<Node>, k: nat, n: Node)
    requires k < |r|
    ensures var q := Inserted(r, k, n);
      && |q| == |r| + 1 && q[k + 1] == n
      && (forall x :: 0 <= x <= k ==> q[x] == r[x])
      && (forall x :: k + 1 < x < |q| ==> q[x] == r[x - 1])
  {
  }

  lemma InsertRing(next: seq<Node>, prev: seq<Node>, r: seq<Node>, k: nat, n: Node)
    requires Ring(next, prev, r) && k < |r| && n < |next| && n !in r
    ensures r[k] < |next| && next[r[k]] < |prev|
    ensures Ring(InsertNext(next, r[k], n), InsertPrev(next, prev, r[k], n), Inserted(r, k, n))
  {
    hide Linked;
    InsertLinked(next, prev, r, k, n, 0);
    var a, b, q := InsertNext(next, r[k], n), InsertPrev(next, prev, r[k], n), Inserted(r, k, n);
    assert forall i :: 0 <= i < |r| ==> r[i] in r;
    forall i | 0 <= i < |q| ensures Linked(a, b, q, i) { InsertLinked(next, prev, r, k, n, i); }
  }

  /** The first two stores of rt_list_remove. */
  function RemoveNext(next: seq<Node>, prev: seq<Node>, n: Node): seq<Node>
    requires n < |prev| && prev[n] < |next| && n < |next|
  {
    next[prev[n] := next[n]][n := n]
  }

  lemma RemoveRing(next: seq<Node>, prev: seq<Node>, r: seq<Node>, k: nat)
    requires Ring(next, prev, r) && k < |r| && |r| >= 2
    ensures r[k] < |next| && next[r[k]] < |prev| && prev[r[k]] < |next|
    ensures Ring(RemoveNext(next, prev, r[k]), RemoveNext(prev, next, r[k]), Dropped(r, k))
  {
    hide Linked;
    RemoveLinked(next, prev, r, k, 0);
    var a, b, q := RemoveNext(next, prev, r[k]), RemoveNext(prev, next, r[k]), Dropped(r, k);
    forall i | 0 <= i < |q| ensures Linked(a, b, q, i) { RemoveLinked(next, prev, r, k, i); }
  }

  lemma RemoveLinked(next: seq<Node>, prev: seq<Node>, r: seq<Node>, k: nat, i: nat)
    requires Ring(next, prev, r) && k < |r| && i < |r| - 1
    ensures r[k] < |next| && next[r[k]] < |prev| && prev[r[k]] < |next|
    ensures Linked(RemoveNext(next, prev, r[k]), RemoveNext(prev, next, r[k]), Dropped(r, k), i)
  {
    hide Ring, Distinct, Dropped;
    var j := if i < k then i else i + 1;
    DroppedIndex(r, k);
    var up, down := if k + 1 == |r| then 0 else k + 1, if k == 0 then |r| - 1 else k - 1;
    RingAt(next, prev, r, k, j);
    RingAt(next, prev, r, j, up);
    RingAt(next, prev, r, j, down);
    RingAt(next, prev, r, up, k);
    RingAt(next, prev, r, down, k);
  }

  lemma DroppedIndex(r: seq<Node>, k: nat)
    requires k < |r|
    ensures var q := Dropped(r, k);
      && |q| == |r| - 1
      && (forall x :: 0 <= x < k ==> q[x] == r[x])
      && (forall x :: k <= x < |q| ==> q[x] == r[x + 1])
  {
  }

  class Lists {
    const next: array<Node>
    const prev: array<Node>

    ghost predicate Holds(r: seq<Node>)
      reads this, next, prev
    {
      next != prev && Ring(next[..], prev[..], r)
    }

    /** rt_list_insert_after(l, n), l at position k of its ring. */
    method InsertAfter(l: Node, n: Node, ghost r: seq<Node>, ghost k: nat)
      requires Holds(r) && k < |r| && r[k] == l && n < next.Length && n !in r
      modifies next, prev
      ensures Holds(Inserted(r, k, n))
    {
      hide Linked, Ring;
      InsertRing(next[..], prev[..], r, k, n);
      RingLengths(next[..], prev[..], r);
      var succ := next[l];
      prev[succ] := n;
      next[n] := next[l];
      next[l] := n;
      prev[n] := l;
    }

    /** rt_list_insert_before(l, n): behind l's predecessor. */
    method InsertBefore(l: Node, n: Node, ghost r: seq<Node>)
      requires Holds(r) && r[0] == l && n < next.Length && n !in r
      modifies next, prev
      ensures Holds(r + [n])
    {
      hide Linked, Ring;
      RingLengths(next[..], prev[..], r);
      ghost var k: nat := |r| - 1;
      HeadPrev(next[..], prev[..], r);
      InsertRing(next[..], prev[..], r, k, n);
      var pred := prev[l];
      next[pred] := n;
      prev[n] := prev[l];
      prev[l] := n;
      next[n] := l;
      assert Inserted(r, k, n) == r + [n];
      assert next[..] == InsertNext(old(next[..]), r[k], n);
      assert prev[..] == InsertPrev(old(next[..]), old(prev[..]), r[k], n);
    }

    lemma RingLengths(nx: seq<Node>, pv: seq<Node>, r: seq<Node>)
      requires Ring(nx, pv, r)
      ensures r != [] && |nx| == |pv|
      ensures forall i :: 0 <= i < |r| ==> r[i] < |nx|
    {
      forall i | 0 <= i < |r| ensures r[i] < |nx| { assert Linked(nx, pv, r, i); }
    }

    lemma HeadPrev(nx: seq<Node>, pv: seq<Node>, r: seq<Node>)
      requires Ring(nx, pv, r)
      ensures r[0] < |pv| && pv[r[0]] == r[|r| - 1] && r[|r| - 1] < |nx| && nx[r[|r| - 1]] == r[0]
    {
      assert Linked(nx, pv, r, 0) && Linked(nx, pv, r, |r| - 1);
    }

    /** rt_list_remove(n), n at position k: the others stay in order, and n is a list of its own. */
    method Remove(n: Node, ghost r: seq<Node>, ghost k: nat)
      requires Holds(r) && k < |r| && |r| >= 2 && r[k] == n
      modifies next, prev
      ensures Holds(Dropped(r, k)) && Holds([n])
    {
      hide Linked, Ring;
      RemoveRing(next[..], prev[..], r, k);
      RingLengths(next[..], prev[..], r);
      Neighbours(next[..], prev[..], r, k);
      var succ, pred := next[n], prev[n];
      prev[succ] := prev[n];
      next[pred] := next[n];
      prev[n] := n;
      next[n] := n;
      AloneRing(next[..], prev[..], n);
    }

    lemma Neighbours(nx: seq<Node>, pv: seq<Node>, r: seq<Node>, k: nat)
      requires Ring(nx, pv, r) && k < |r| && |r| >= 2
      ensures r[k] < |nx| == |pv| && nx[r[k]] != r[k] && pv[r[k]] != r[k]
    {
      assert Linked(nx, pv, r, k);
    }

    lemma AloneRing(nx: seq<Node>, pv: seq<Node>, n: Node)
      requires n < |nx| == |pv| && nx[n] == n && pv[n] == n
      ensures Ring(nx, pv, [n])
    {
    }

    /** rt_list_isempty */
    method IsEmpty(l: Node, ghost r: seq<Node>) returns (b: bool)
      requires Holds(r) && r[0] == l
      ensures b <==> r == [l]
    {
      assert Linked(next[..], prev[..], r, 0);
      b := next[l] == l;
    }
  }
}
