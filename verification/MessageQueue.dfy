/** struct rt_messagequeue: the linked lists behind the message queue. Every method is one critical section
    of rt_mq_send, rt_mq_urgent, rt_mq_recv or rt_mq_control, and does what the state machine says. */
module MessageQueue {

  import opened MessageQueueSpec

  const RT_NULL := -1

  function At(l: seq<Node>, i: int): int
  {
    if 0 <= i < |l| then l[i] else RT_NULL
  }

  /** The nodes l are linked from `first` on, in this order, up to RT_NULL. */
  ghost predicate Chain(first: int, next: seq<int>, l: seq<Node>)
  {
    && first == At(l, 0)
    && forall i :: 0 <= i < |l| ==> l[i] < |next| && next[l[i]] == At(l, i + 1)
  }

  lemma ChainPush(first: int, next: seq<int>, l: seq<Node>, n: Node)
    requires Chain(first, next, l) && n < |next| && n !in l
    ensures Chain(n, next[n := first], [n] + l)
  {
    var c := [n] + l;
    assert forall i :: 0 < i < |c| ==> c[i] == l[i - 1] && c[i] in l;
  }

  lemma ChainTail(first: int, next: seq<int>, l: seq<Node>)
    requires Chain(first, next, l) && l != []
    ensures first == l[0] && l[0] < |next| && Chain(next[first], next, l[1..])
  {
  }

  lemma ChainFrame(first: int, next: seq<int>, l: seq<Node>, n: Node, v: int)
    requires Chain(first, next, l) && n < |next| && n !in l
    ensures Chain(first, next[n := v], l)
  {
    assert forall i :: 0 <= i < |l| ==> l[i] in l;
  }

  lemma ChainAppend(first: int, next: seq<int>, l: seq<Node>, n: Node)
    requires Chain(first, next, l) && n < |next| && n !in l && Distinct(l)
    ensures l == [] ==> Chain(n, next[n := RT_NULL], [n])
    ensures l != [] ==> l[|l| - 1] < |next| && Chain(first, next[n := RT_NULL][l[|l| - 1] := n], l + [n])
  {
    var c := l + [n];
    if l != [] {
      var last := l[|l| - 1];
      assert last in l;
      var nx := next[n := RT_NULL][last := n];
      forall i | 0 <= i < |c| ensures c[i] < |nx| && nx[c[i]] == At(c, i + 1) {
        if i < |l| { assert l[i] in l; }
      }
    }
  }

  lemma ChainEmpty(next: seq<int>)
    ensures Chain(RT_NULL, next, [])
  {
  }

  lemma PoolNew(n: nat)
    ensures n !in Pool(n)
  {
  }

  class Queue {
    var msgQueueHead: int
    var msgQueueTail: int
    var msgQueueFree: int
    var entry: nat
    var suspendThread: seq<Tid>
    const next: array<int>
    const body: array<Data>
    ghost var m: Mq

    ghost predicate Valid()
      reads this, next, body
    {
      && Inv(m) && next != body && next.Length == m.size && body[..] == m.body
      && Chain(msgQueueFree, next[..], m.free) && Chain(msgQueueHead, next[..], m.queue)
      && msgQueueTail == At(m.queue, |m.queue| - 1)
      && entry == |m.queue| && suspendThread == m.waiting
    }

    /** The counters and end pointers agree with the list. */
    lemma Ends()
      requires Valid()
      ensures msgQueueHead == RT_NULL <==> m.queue == []
      ensures msgQueueTail == RT_NULL <==> m.queue == []
      ensures entry == 0 <==> m.queue == []
    {
    }

    /** rt_mq_init with `count` nodes. */
    constructor (count: nat)
      ensures Valid() && Init(m) && m.size == count && fresh(next) && fresh(body)
    {
      hide Inv, Chain, Pool;
      msgQueueHead, msgQueueTail, msgQueueFree, entry := RT_NULL, RT_NULL, RT_NULL, 0;
      suspendThread := [];
      var nx := new int[count](_ => 0);
      var bd := new Data[count](_ => 0);
      next := nx;
      body := bd;
      new;
      LinkPool();
      ChainEmpty(next[..]);
      m := Mq(count, Pool(count), [], map[], map[], body[..], [], {}, [], []);
      InitInv(m);
    }

    /** The loop of rt_mq_init that puts every node on the free list. */
    method LinkPool()
      requires msgQueueFree == RT_NULL
      modifies this`msgQueueFree, next
      ensures Chain(msgQueueFree, next[..], Pool(next.Length))
    {
      var temp: nat := 0;
      while temp < next.Length
        invariant temp <= next.Length && Chain(msgQueueFree, next[..], Pool(temp))
      {
        PoolNew(temp);
        ChainPush(msgQueueFree, next[..], Pool(temp), temp);
        next[temp] := msgQueueFree;
        msgQueueFree := temp;
        temp := temp + 1;
      }
    }

    /** Sender t takes a free node, or finds the queue full. */
    method TakeFreeNode(t: Tid) returns (msg: int)
      requires Valid() && Allowed(m, TakeFree(t))
      modifies this`msgQueueFree, this`m
      ensures Valid() && m == Next(old(m), TakeFree(t)) && msg == At(old(m).free, 0)
    {
      hide Inv, Allowed;
      NextInv(m, TakeFree(t));
      msg := msgQueueFree;
      if msg == RT_NULL { return; }
      ChainTail(msgQueueFree, next[..], m.free);
      msgQueueFree := next[msg];
      m := Next(m, TakeFree(t));
    }

    /** The copy into the node in hand. */
    method FillNode(n: Node, d: Data)
      requires Valid() && Allowed(m, Fill(n, d))
      modifies this`m, body
      ensures Valid() && m == Next(old(m), Fill(n, d))
    {
      hide Inv, Chain;
      NextInv(m, Fill(n, d));
      body[n] := d;
      m := Next(m, Fill(n, d));
    }

    /** rt_ipc_list_resume, if a receiver waits. */
    method ResumeOne()
      modifies this`suspendThread
      ensures suspendThread == if old(suspendThread) == [] then [] else old(suspendThread)[1..]
    {
      if suspendThread != [] { suspendThread := suspendThread[1..]; }
    }

    /** The node in hand becomes the tail. Its link, which rt_mq_send clears while the node is still its
        own, is cleared here. */
    method LinkAtTail(n: Node)
      requires Valid() && Allowed(m, LinkTail(n))
      modifies this`msgQueueHead, this`msgQueueTail, this`entry, this`suspendThread, this`m, next
      ensures Valid() && m == Next(old(m), LinkTail(n))
    {
      hide Inv, Chain, Places;
      NextInv(m, LinkTail(n));
      AppendNode(n);
      entry := entry + 1;
      ResumeOne();
      m := Next(m, LinkTail(n));
    }

    method AppendNode(n: Node)
      requires Valid() && n in m.sending
      modifies this`msgQueueHead, this`msgQueueTail, next
      ensures Chain(msgQueueFree, next[..], m.free) && Chain(msgQueueHead, next[..], m.queue + [n])
      ensures msgQueueTail == n
    {
      hide Inv, Chain, Places;
      InHand(n);
      Ends();
      ChainAppend(msgQueueHead, next[..], m.queue, n);
      FrameFree(next[..], n);
      next[n] := RT_NULL;
      if msgQueueTail != RT_NULL { next[msgQueueTail] := n; }
      msgQueueTail := n;
      if msgQueueHead == RT_NULL { msgQueueHead := n; }
      assert m.queue == [] ==> m.queue + [n] == [n];
    }

    /** The node in hand becomes the head. */
    method LinkAtHead(n: Node)
      requires Valid() && Allowed(m, LinkHead(n))
      modifies this`msgQueueHead, this`msgQueueTail, this`entry, this`suspendThread, this`m, next
      ensures Valid() && m == Next(old(m), LinkHead(n))
    {
      hide Inv, Chain, Places;
      NextInv(m, LinkHead(n));
      PrependNode(n);
      entry := entry + 1;
      ResumeOne();
      m := Next(m, LinkHead(n));
    }

    method PrependNode(n: Node)
      requires Valid() && n in m.sending
      modifies this`msgQueueHead, this`msgQueueTail, next
      ensures Chain(msgQueueFree, next[..], m.free) && Chain(msgQueueHead, next[..], [n] + m.queue)
      ensures msgQueueTail == At([n] + m.queue, |m.queue|)
    {
      hide Inv, Chain, Places;
      InHand(n);
      Ends();
      ChainPush(msgQueueHead, next[..], m.queue, n);
      ChainFrame(msgQueueFree, next[..], m.free, n, msgQueueHead);
      next[n] := msgQueueHead;
      msgQueueHead := n;
      if msgQueueTail == RT_NULL { msgQueueTail := n; }
    }

    /** A node in a sender's hand is in neither list. */
    lemma InHand(n: Node)
      requires Valid() && n in m.sending
      ensures n < next.Length && n !in m.queue && n !in m.free && Distinct(m.queue)
      ensures forall i :: 0 <= i < |m.queue| ==> m.queue[i] < next.Length && m.queue[i] !in m.free
    {
      assert Places(m, n) >= 1;
      forall i | 0 <= i < |m.queue| ensures m.queue[i] < next.Length && m.queue[i] !in m.free {
        assert m.queue[i] in m.queue;
        assert Places(m, m.queue[i]) >= 1;
      }
    }

    /** Linking at the tail does not touch the free list. */
    lemma FrameFree(nx: seq<int>, n: Node)
      requires Valid() && nx == next[..] && n in m.sending
      ensures n < |nx| && Chain(msgQueueFree, nx[n := RT_NULL], m.free)
      ensures m.queue == [] || m.queue[|m.queue| - 1] < |nx|
      ensures m.queue == [] || Chain(msgQueueFree, nx[n := RT_NULL][m.queue[|m.queue| - 1] := n], m.free)
    {
      InHand(n);
      ChainFrame(msgQueueFree, nx, m.free, n, RT_NULL);
      if m.queue != [] { ChainFrame(msgQueueFree, nx[n := RT_NULL], m.free, m.queue[|m.queue| - 1], n); }
    }

    /** Receiver t takes the head, or waits, or gives up. */
    method ReceiveNode(t: Tid, block: bool, pos: nat) returns (msg: int)
      requires Valid() && Allowed(m, Receive(t, block, pos))
      modifies this`msgQueueHead, this`msgQueueTail, this`entry, this`suspendThread, this`m
      ensures Valid() && m == Next(old(m), Receive(t, block, pos)) && msg == At(old(m).queue, 0)
    {
      hide Inv;
      NextInv(m, Receive(t, block, pos));
      Ends();
      msg := RT_NULL;
      if entry == 0 {
        if block { suspendThread := suspendThread[..pos] + [t] + suspendThread[pos..]; }
      } else {
        QueueDistinct(m);
        ChainTail(msgQueueHead, next[..], m.queue);
        msg := msgQueueHead;
        msgQueueHead := next[msg];
        if msgQueueTail == msg { msgQueueTail := RT_NULL; }
        entry := entry - 1;
      }
      m := Next(m, Receive(t, block, pos));
    }

    /** The node goes back to the free list. */
    method PutFreeNode(n: Node)
      requires Valid() && Allowed(m, PutFree(n))
      modifies this`msgQueueFree, this`m, next
      ensures Valid() && m == Next(old(m), PutFree(n))
    {
      hide Inv, Chain, Places;
      NextInv(m, PutFree(n));
      InReceiver(n);
      ChainPush(msgQueueFree, next[..], m.free, n);
      ChainFrame(msgQueueHead, next[..], m.queue, n, msgQueueFree);
      next[n] := msgQueueFree;
      msgQueueFree := n;
      m := Next(m, PutFree(n));
    }

    /** rt_mq_control(RT_IPC_CMD_RESET) */
    method ResetQueue()
      requires Valid()
      modifies this, next
      ensures Valid() && m == Next(old(m), Reset)
    {
      hide Inv, Chain, Places, Freed;
      NextInv(m, Reset);
      QueueApart();
      suspendThread := [];
      ghost var q: seq<Node>, f: seq<Node> := m.queue, m.free;
      while msgQueueHead != RT_NULL
        invariant Chain(msgQueueHead, next[..], q) && Chain(msgQueueFree, next[..], f)
        invariant msgQueueTail == At(q, |q| - 1) && Apart(q, f) && Freed(q, f) == Freed(m.queue, m.free)
        invariant m == old(m) && suspendThread == [] && body[..] == m.body && next.Length == m.size
        decreases |q|
      {
        HeadOf(msgQueueHead, next[..], q);
        FreedStep(q, f);
        ChainTail(msgQueueHead, next[..], q);
        ApartStep(q, f);
        var msg := msgQueueHead;
        ChainFrame(next[msg], next[..], q[1..], msg, msgQueueFree);
        ChainPush(msgQueueFree, next[..], f, msg);
        msgQueueHead := next[msg];
        if msgQueueTail == msg { msgQueueTail := RT_NULL; }
        next[msg] := msgQueueFree;
        msgQueueFree := msg;
        q, f := q[1..], [msg] + f;
      }
      HeadOf(msgQueueHead, next[..], q);
      FreedStep(q, f);
      entry := 0;
      m := Next(m, Reset);
    }

    lemma QueueApart()
      requires Valid()
      ensures Apart(m.queue, m.free)
    {
      forall n | n in m.queue ensures n !in m.free { assert Places(m, n) <= 1; }
    }

    lemma InReceiver(n: Node)
      requires Valid() && n in m.receiving
      ensures n < next.Length && n !in m.queue && n !in m.free
    {
      assert Places(m, n) >= 1;
    }
  }

  lemma QueueDistinct(m: Mq)
    requires Inv(m)
    ensures Distinct(m.queue)
  {
  }

  ghost predicate Apart(q: seq<Node>, f: seq<Node>)
  {
    Distinct(q) && Distinct(f) && forall n :: n in q ==> n !in f
  }

  lemma ApartStep(q: seq<Node>, f: seq<Node>)
    requires Apart(q, f) && q != []
    ensures Apart(q[1..], [q[0]] + f) && q[0] !in q[1..] && q[0] !in f
    ensures At(q[1..], |q| - 2) == if |q| == 1 then RT_NULL else At(q, |q| - 1)
    ensures |q| > 1 ==> At(q, |q| - 1) != q[0]
  {
    assert q[0] in q;
    forall n | n in q[1..] ensures n in q && n != q[0] {
      var k :| 0 <= k < |q[1..]| && q[1..][k] == n;
      assert q[k + 1] == n;
    }
    forall j | 0 <= j < |f| ensures f[j] != q[0] { assert f[j] in f; }
  }

  lemma FreedStep(q: seq<Node>, f: seq<Node>)
    ensures Freed(q, f) == if q == [] then f else Freed(q[1..], [q[0]] + f)
  {
  }

  lemma HeadOf(first: int, next: seq<int>, q: seq<Node>)
    requires Chain(first, next, q)
    ensures first == RT_NULL <==> q == []
    ensures q == [] ==> At(q, |q| - 1) == RT_NULL
  {
  }
}
