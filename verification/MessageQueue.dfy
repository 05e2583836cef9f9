/** The message queue object (ipc.c): message nodes on two singly linked lists, with head, tail and
    free pointers.  A node is named by its number in the message pool. */
module MessageQueue {
  import opened WaitList
  import opened Blocking
  import opened Nodes
  import Spec = MessageQueueSpec

  const ENTRY_MAX := 0xFFFF   // RT_MQ_ENTRY_MAX
  const NULL := -1            // RT_NULL

  /** The list that starts at `first` and is linked through `next` consists of the nodes l. */
  ghost predicate Chain(next: seq<int>, first: int, l: seq<nat>) {
    && (forall i | 0 <= i < |l| :: l[i] < |next|)
    && first == (if l == [] then NULL else l[0])
    && (forall i, j | 0 <= i < j < |l| && j == i + 1 :: next[l[i]] == l[j])
    && (l != [] ==> next[l[|l| - 1]] == NULL)
  }

  function Last(l: seq<nat>): int {
    if l == [] then NULL else l[|l| - 1]
  }

  lemma {:induction false} ChainPop(next: seq<int>, first: int, l: seq<nat>)
    requires Chain(next, first, l) && l != []
    ensures l[0] < |next| && first == l[0] && Chain(next, next[l[0]], l[1..])
    ensures NoRepeats(l) ==> Last(l[1..]) == if Last(l) == first then NULL else Last(l)
  {
  }

  lemma {:induction false} ChainSkip(next: seq<int>, first: int, l: seq<nat>, n: nat, v: int)
    requires Chain(next, first, l) && n < |next| && n !in l
    ensures Chain(next[n := v], first, l)
  {
  }

  lemma {:induction false} ChainFront(next: seq<int>, first: int, l: seq<nat>, n: nat)
    requires Chain(next, first, l) && n < |next| && n !in l
    ensures Chain(next[n := first], n, [n] + l)
  {
    ChainSkip(next, first, l, n, first);
    var m := [n] + l;
    assert forall i | 0 < i < |m| :: m[i] == l[i - 1];
  }

  lemma {:induction false} ChainBack(next: seq<int>, first: int, l: seq<nat>, n: nat)
    requires Chain(next, first, l) && n < |next| && n !in l && NoRepeats(l)
    requires next[n] == NULL
    ensures Last(l) != NULL ==> 0 <= Last(l) < |next| && Chain(next[Last(l) := n], first, l + [n])
    ensures l == [] ==> Chain(next, n, l + [n])
    ensures Last(l) == NULL <==> l == []
  {
  }

  /** The stores that link node n behind the messages l leave the free list m alone. */
  lemma {:induction false} BackLinks(next: seq<int>, head: int, freeHead: int, l: seq<nat>, m: seq<nat>, n: nat)
    requires Chain(next, head, l) && Chain(next, freeHead, m) && n < |next| && n !in l && n !in m
    requires NoRepeats(l) && forall x | x in l :: x !in m
    ensures Last(l) != NULL ==> 0 <= Last(l) < |next|
    ensures Last(l) == NULL <==> head == NULL
    ensures var a := next[n := NULL]; var b := if Last(l) != NULL then a[Last(l) := n] else a;
      Chain(b, if head == NULL then n else head, l + [n]) && Chain(b, freeHead, m)
  {
    hide Chain;
    ChainSkip(next, head, l, n, NULL);
    ChainSkip(next, freeHead, m, n, NULL);
    var a := next[n := NULL];
    ChainBack(a, head, l, n);
    ChainHeads(next, head, l);
    if Last(l) != NULL {
      assert l[|l| - 1] in l;
      ChainSkip(a, freeHead, m, Last(l), n);
    }
  }

  function BufMap(bufs: seq<seq<int>>): map<nat, seq<int>> {
    map n: nat | 0 <= n < |bufs| :: bufs[n]
  }

  lemma {:induction false} BufStore(bufs: seq<seq<int>>, n: nat, b: seq<int>)
    requires n < |bufs|
    ensures BufMap(bufs[n := b]) == BufMap(bufs)[n := b]
  {
  }

  /** rt_mq_init aligns the message size and keeps it, and the number of messages, in 16 bits. */
  function MsgSize(size: nat): nat {
    (size + 3) / 4 * 4 % 0x10000
  }

  function MaxMsgs(poolSize: nat, msgSize: nat): (n: nat)
    ensures n <= ENTRY_MAX
  {
    poolSize / (msgSize + 4) % 0x10000
  }

  /** The aligned message size is the least multiple of 4 that holds a message, unless its 16 bits
      cannot hold it: then it is smaller than what was asked for. */
  lemma {:induction false} MsgSizeHolds(size: nat)
    ensures MsgSize(size) % 4 == 0 && MsgSize(size) < size + 4
    ensures MsgSize(size) >= size <==> size <= 0xFFFC
  {
    var k := (size + 3) / 4;
    assert 4 * k - 3 <= size <= 4 * k;
    Low16(k);
    assert MsgSize(size) == 4 * k % 0x10000;
  }

  lemma {:induction false} Low16(k: nat)
    ensures 4 * k % 0x10000 == 4 * (k % 0x4000)
  {
    var q := k / 0x4000;
    assert 4 * k == q * 0x10000 + 4 * (k % 0x4000);
  }

  /** The pool has room for the messages, header included, and for one more exactly when the 16 bits
      cannot count them. */
  lemma {:induction false} MaxMsgsFit(poolSize: nat, msgSize: nat)
    ensures var n := MaxMsgs(poolSize, msgSize);
      && n * (msgSize + 4) <= poolSize
      && ((n + 1) * (msgSize + 4) <= poolSize <==> 0x10000 * (msgSize + 4) <= poolSize)
  {
    var d := msgSize + 4;
    var q := poolSize / d;
    assert q * d <= poolSize < (q + 1) * d;
    MoreFit(q % 0x10000, q, d);
    if q < 0x10000 {
      MoreFit(q + 1, 0x10000, d);
    } else {
      MoreFit(q % 0x10000 + 1, q, d);
      MoreFit(0x10000, q, d);
    }
  }

  lemma {:induction false} MoreFit(a: nat, b: nat, d: nat)
    requires a <= b
    ensures a * d <= b * d
  {
  }

  lemma {:induction false} InitialBufs(bufs: seq<seq<int>>, size: nat)
    requires forall i | 0 <= i < |bufs| :: |bufs[i]| == size
    ensures forall n | 0 <= n < |bufs| :: n in BufMap(bufs) && |BufMap(bufs)[n]| == size
  {
  }

  class Queue {
    const flag: Flag
    const msgSize: nat
    const maxMsgs: nat
    const next: array<int>
    const bufs: array<seq<int>>     // the msg_size bytes behind each node's header
    var head: int                   // msg_queue_head
    var tail: int                   // msg_queue_tail
    var freeHead: int               // msg_queue_free
    var entry: nat
    var receivers: seq<Thread>      // parent.suspend_thread
    var senders: seq<Thread>        // suspend_sender_thread
    ghost var free: seq<nat>
    ghost var msgs: seq<nat>
    ghost var queue: seq<seq<int>>
    ghost var held: map<nat, Spec.Hold>
    ghost var retryRecv: set<nat>
    ghost var retrySend: set<nat>

    ghost function View(): Spec.State
      reads this, bufs
    {
      Spec.State(maxMsgs, msgSize, free, msgs, queue, BufMap(bufs[..]), held,
                 Side(receivers, retryRecv), Side(senders, retrySend))
    }

    ghost predicate Listed()
      reads `freeHead, `head, `tail, `entry, `free, `msgs, next
    {
      && next.Length == bufs.Length == maxMsgs <= ENTRY_MAX
      && Chain(next[..], freeHead, free) && Chain(next[..], head, msgs)
      && tail == Last(msgs) && entry == |msgs|
    }

    ghost predicate Valid()
      reads this, next, bufs
    {
      Listed() && Spec.Inv(View())
    }

    /** rt_mq_init: message sizes are aligned, and both sizes are kept in 16 bits. */
    constructor (messageSize: nat, poolSize: nat, flag: Flag)
      ensures Valid() && fresh(next) && fresh(bufs) && Spec.Initial(View())
      ensures msgSize == MsgSize(messageSize) && maxMsgs == MaxMsgs(poolSize, msgSize) && this.flag == flag
    {
      hide Chain, Spec.Inv, MsgSize, MaxMsgs, BufMap;
      var size := MsgSize(messageSize);
      var max := MaxMsgs(poolSize, size);
      this.flag, msgSize, maxMsgs := flag, size, max;
      next := new int[max];
      bufs := new seq<int>[max](_ => seq(size, _ => 0));
      head, tail, freeHead, entry := NULL, NULL, NULL, 0;
      receivers, senders, retryRecv, retrySend := [], [], {}, {};
      free, msgs, queue, held := [], [], [], map[];
      new;
      EmptyChain(next[..]);
      BuildFree();
      InitialBufs(bufs[..], msgSize);
      Spec.InitialInv(View());
    }

    /** The loop of rt_mq_init that links every node of the pool into the free list. */
    method BuildFree()
      requires next.Length == maxMsgs && Chain(next[..], freeHead, free) && free == []
      modifies next, `freeHead, `free
      ensures Chain(next[..], freeHead, free) && free == Spec.Down(maxMsgs) && Chain(next[..], NULL, [])
    {
      hide Chain;
      var temp := 0;
      while temp < maxMsgs
        invariant 0 <= temp <= maxMsgs && Chain(next[..], freeHead, free) && free == Spec.Down(temp)
      {
        Spec.DownIsPool(temp);
        ChainFront(next[..], freeHead, free, temp);
        next[temp] := freeHead;
        freeHead := temp;
        free := [temp] + free;
        temp := temp + 1;
      }
      EmptyChain(next[..]);
    }

    /** The message list is empty exactly when its head is, and exactly when its tail is. */
    lemma {:induction false} HeadAndTail()
      requires Valid()
      ensures head == NULL <==> tail == NULL
      ensures head == NULL <==> entry == 0
    {
      hide Spec.Inv;
    }

    method ResumeReceiver()
      modifies `receivers, `retryRecv
      ensures Side(receivers, retryRecv) == Wake(old(Side(receivers, retryRecv)))
    {
      if receivers != [] {
        retryRecv := retryRecv + {receivers[0].id};
        receivers := receivers[1..];
      }
    }

    method ResumeSender()
      modifies `senders, `retrySend
      ensures Side(senders, retrySend) == Wake(old(Side(senders, retrySend)))
    {
      if senders != [] {
        retrySend := retrySend + {senders[0].id};
        senders := senders[1..];
      }
    }

    /** The first critical region of rt_mq_send_wait and rt_mq_urgent. */
    method AcquireLook(t: Thread, data: seq<int>, urgent: bool, timeout: int) returns (r: Spec.Result)
      requires Listed()
      modifies `freeHead, `senders, `free, `held
      ensures Listed() && (View(), r) == Spec.Acquire(old(View()), flag, t, data, urgent, timeout != 0)
    {
      hide Chain, Enqueue, BufMap;
      ChainHeads(next[..], freeHead, free);
      if |data| > msgSize {
        return Spec.Error;
      }
      var msg := freeHead;
      if msg == NULL {
        if timeout == 0 || urgent {
          return Spec.Full;
        }
        senders := Suspend(senders, t, flag);
        return Spec.Suspended;
      }
      ChainPop(next[..], freeHead, free);
      freeHead := next[msg];
      free := free[1..];
      held := held[t.id := Spec.Sending(msg, data, urgent, 0)];
      return Spec.Acquired(msg);
    }

    method Send(t: Thread, data: seq<int>, timeout: int) returns (r: Spec.Result)
      requires Valid() && Spec.Enabled(View(), Spec.SendEvent(t, data, timeout != 0))
      modifies this
      ensures Valid() && (View(), r) == Spec.Acquire(old(View()), flag, t, data, false, timeout != 0)
    {
      hide Listed, Spec.Inv, Spec.Enabled, Spec.Acquire, Chain, BufMap;
      Spec.StepKeeps(View(), flag, Spec.SendEvent(t, data, timeout != 0));
      r := AcquireLook(t, data, false, timeout);
    }

    /** A resumed sender runs again. */
    method SendAgain(t: Thread, data: seq<int>, timeout: int) returns (r: Spec.Result)
      requires Valid() && Spec.Enabled(View(), Spec.SendRetry(t, data, timeout != 0))
      modifies this
      ensures Valid() && View() == Spec.Next(old(View()), flag, Spec.SendRetry(t, data, timeout != 0))
    {
      hide Listed, Spec.Inv, Spec.Enabled, Spec.Acquire, Chain, BufMap;
      Spec.StepKeeps(View(), flag, Spec.SendRetry(t, data, timeout != 0));
      retrySend := retrySend - {t.id};
      r := AcquireLook(t, data, false, timeout);
    }

    method Urgent(t: Thread, data: seq<int>) returns (r: Spec.Result)
      requires Valid() && Spec.Enabled(View(), Spec.UrgentEvent(t, data))
      modifies this
      ensures Valid() && (View(), r) == Spec.Acquire(old(View()), flag, t, data, true, false)
    {
      hide Listed, Spec.Inv, Spec.Enabled, Spec.Acquire, Chain, BufMap;
      Spec.StepKeeps(View(), flag, Spec.UrgentEvent(t, data));
      r := AcquireLook(t, data, true, 0);
    }

    /** One byte of rt_memcpy into the node, with interrupts enabled. */
    method CopyByteIn(msg: nat, k: nat, byte: int, ghost id: nat)
      requires id in held && held[id].Sending? && held[id].node == msg
      requires held[id].done == k < |held[id].data| && held[id].data[k] == byte
      requires Valid()
      modifies bufs, `held
      ensures Valid() && View() == Spec.Next(old(View()), flag, Spec.CopyInEvent(id))
    {
      hide Spec.Inv, Chain, BufMap;
      ghost var s := View();
      Spec.StepKeeps(s, flag, Spec.CopyInEvent(id));
      HolderOwns(s, id);
      BufRead(bufs[..], msg);
      BufStore(bufs[..], msg, bufs[msg][k := byte]);
      bufs[msg] := bufs[msg][k := byte];
      held := held[id := held[id].(done := k + 1)];
    }

    /** A node that is in neither list, with room for it in the message list. */
    ghost predicate Fresh(msg: nat)
      reads `free, `msgs
    {
      && msg < maxMsgs && msg !in free && msg !in msgs && |msgs| < maxMsgs
      && NoRepeats(msgs) && forall m | m in msgs :: m !in free
    }

    /** The pointer stores of rt_mq_send_wait.  The first one is its caller's store of RT_NULL in
        msg->next before it copies; the node is private from then on. */
    method AppendNode(msg: nat)
      requires Listed() && Fresh(msg)
      modifies next, `head, `tail, `entry, `msgs
      ensures Listed() && msgs == old(msgs) + [msg]
    {
      hide Chain;
      BackLinks(next[..], head, freeHead, msgs, free, msg);
      next[msg] := NULL;
      if tail != NULL {
        next[tail] := msg;
      }
      tail := msg;
      if head == NULL {
        head := msg;
      }
      if entry < ENTRY_MAX {
        entry := entry + 1;
      } else {
        assert false;   // the overflow branch: the linked node is not counted yet
      }
      msgs := msgs + [msg];
    }

    /** The pointer stores of rt_mq_urgent. */
    method PrependNode(msg: nat)
      requires Listed() && Fresh(msg)
      modifies next, `head, `tail, `entry, `msgs
      ensures Listed() && msgs == [msg] + old(msgs)
    {
      hide Chain;
      ChainSkip(next[..], freeHead, free, msg, head);
      ChainFront(next[..], head, msgs, msg);
      LastFront(msgs, msg);
      next[msg] := head;
      head := msg;
      if tail == NULL {
        tail := msg;
      }
      if entry < ENTRY_MAX {
        entry := entry + 1;
      } else {
        assert false;
      }
      msgs := [msg] + msgs;
    }

    /** The second critical region of rt_mq_send_wait. */
    method LinkBack(msg: nat, ghost id: nat)
      requires id in held && held[id].Sending? && held[id].node == msg && !held[id].urgent && held[id].done == |held[id].data|
      requires Valid()
      modifies this, next
      ensures Valid() && View() == Spec.Link(old(View()), id)
    {
      hide Listed, Spec.Inv, Wake, BufMap, Fresh;
      Spec.StepKeeps(View(), flag, Spec.LinkEvent(id));
      HeldIsFresh(msg, id);
      AppendNode(msg);
      queue, held := queue + [held[id].data], held - {id};
      ResumeReceiver();
    }

    /** The second critical region of rt_mq_urgent. */
    method LinkFront(msg: nat, ghost id: nat)
      requires id in held && held[id].Sending? && held[id].node == msg && held[id].urgent && held[id].done == |held[id].data|
      requires Valid()
      modifies this, next
      ensures Valid() && View() == Spec.Link(old(View()), id)
    {
      hide Listed, Spec.Inv, Wake, BufMap, Fresh;
      Spec.StepKeeps(View(), flag, Spec.LinkEvent(id));
      HeldIsFresh(msg, id);
      PrependNode(msg);
      queue, held := [held[id].data] + queue, held - {id};
      ResumeReceiver();
    }

    lemma {:induction false} HeldIsFresh(msg: nat, id: nat)
      requires id in held && held[id].node == msg && Spec.Inv(View())
      ensures Fresh(msg)
    {
      hide Spec.Inv, BufMap;
      HolderNode(View(), id);
      RoomForOne(View(), id);
    }

    /** The first critical region of rt_mq_recv. */
    method TakeLook(t: Thread, size: nat, timeout: int) returns (r: Spec.Result)
      requires Listed() && |queue| == |msgs| && NoRepeats(msgs)
      modifies `head, `tail, `entry, `receivers, `msgs, `queue, `held
      ensures Listed() && (View(), r) == Spec.Take(old(View()), flag, t, size, timeout != 0)
    {
      hide Chain, Enqueue, BufMap;
      if entry == 0 {
        if timeout == 0 {
          return Spec.TimedOut;
        }
        receivers := Suspend(receivers, t, flag);
        return Spec.Suspended;
      }
      ChainPop(next[..], head, msgs);
      var msg := head;
      head := next[msg];
      if tail == msg {
        tail := NULL;
      }
      entry := entry - 1;
      held := held[t.id := Spec.Receiving(msg, queue[0], [], if size > msgSize then msgSize else size)];
      msgs, queue := msgs[1..], queue[1..];
      return Spec.Acquired(msg);
    }

    method Recv(t: Thread, size: nat, timeout: int) returns (r: Spec.Result)
      requires Valid() && Spec.Enabled(View(), Spec.RecvEvent(t, size, timeout != 0))
      modifies this
      ensures Valid() && (View(), r) == Spec.Take(old(View()), flag, t, size, timeout != 0)
    {
      hide Listed, Spec.Inv, Spec.Enabled, Spec.Take, BufMap, Spec.Conserved, NoRepeats;
      Spec.StepKeeps(View(), flag, Spec.RecvEvent(t, size, timeout != 0));
      InvLists(View());
      r := TakeLook(t, size, timeout);
    }

    /** A resumed receiver runs again. */
    method RecvAgain(t: Thread, size: nat, timeout: int) returns (r: Spec.Result)
      requires Valid() && Spec.Enabled(View(), Spec.RecvRetry(t, size, timeout != 0))
      modifies this
      ensures Valid() && View() == Spec.Next(old(View()), flag, Spec.RecvRetry(t, size, timeout != 0))
    {
      hide Listed, Spec.Inv, Spec.Enabled, Spec.Take, BufMap, Spec.Conserved, NoRepeats;
      Spec.StepKeeps(View(), flag, Spec.RecvRetry(t, size, timeout != 0));
      InvLists(View());
      retryRecv := retryRecv - {t.id};
      r := TakeLook(t, size, timeout);
    }

    /** One byte of rt_memcpy out of the node, with interrupts enabled. */
    method CopyByteOut(msg: nat, k: nat, ghost id: nat) returns (byte: int)
      requires id in held && held[id].Receiving? && held[id].node == msg && |held[id].got| == k < held[id].want
      requires Valid()
      modifies `held
      ensures Valid() && View() == Spec.Next(old(View()), flag, Spec.CopyOutEvent(id))
      ensures id in held && old(id in held) && held[id] == old(held[id]).(got := old(held[id]).got + [byte])
    {
      hide Spec.Inv, Chain, BufMap;
      ghost var s := View();
      Spec.StepKeeps(s, flag, Spec.CopyOutEvent(id));
      HolderOwns(s, id);
      BufRead(bufs[..], msg);
      byte := bufs[msg][k];
      held := held[id := held[id].(got := held[id].got + [byte])];
    }

    /** The second critical region of rt_mq_recv. */
    method Release(msg: nat, ghost id: nat)
      requires id in held && held[id].Receiving? && held[id].node == msg && |held[id].got| == held[id].want
      requires Valid()
      modifies this, next
      ensures Valid() && View() == Spec.Release(old(View()), id)
    {
      hide Spec.Inv, Chain, Wake, BufMap;
      Spec.StepKeeps(View(), flag, Spec.ReleaseEvent(id));
      HolderNode(View(), id);
      ChainSkip(next[..], head, msgs, msg, freeHead);
      ChainFront(next[..], freeHead, free, msg);
      next[msg] := freeHead;
      freeHead := msg;
      free, held := [msg] + free, held - {id};
      ResumeSender();
    }

    method Timeout(id: nat)
      requires Valid()
      modifies `receivers, `senders
      ensures Valid() && View() == Spec.Next(old(View()), flag, Spec.TimeoutEvent(id))
    {
      hide Listed, Spec.Inv, Chain, BufMap;
      Spec.StepKeeps(View(), flag, Spec.TimeoutEvent(id));
      receivers, senders := Without(receivers, id), Without(senders, id);
    }

    /** rt_mq_control with RT_IPC_CMD_RESET. */
    method Reset()
      requires Valid()
      modifies this, next
      ensures Valid() && View() == Spec.Reset(old(View()))
    {
      hide Listed, Spec.Inv, BufMap, Spec.Conserved;
      Spec.StepKeeps(View(), flag, Spec.ResetEvent);
      InvLists(View());
      receivers, senders := [], [];   // rt_ipc_list_resume_all, twice
      FreeAll();
      queue := [];
    }

    /** The loop of the reset: queued nodes move to the free list one by one. */
    method FreeAll()
      requires Listed() && Spec.Conserved(maxMsgs, free, msgs, held)
      modifies next, `head, `tail, `freeHead, `entry, `free, `msgs
      ensures Listed() && msgs == [] && free == Spec.Reverse(old(msgs)) + old(free)
    {
      hide Chain, Spec.Conserved;
      ghost var goal := Spec.Reverse(msgs) + free;
      while head != NULL
        modifies next, `head, `tail, `freeHead, `free, `msgs
        invariant next.Length == maxMsgs && Chain(next[..], freeHead, free) && Chain(next[..], head, msgs) && tail == Last(msgs)
        invariant Spec.Conserved(maxMsgs, free, msgs, held)
        invariant Spec.Reverse(msgs) + free == goal
        decreases |msgs|
      {
        ChainHeads(next[..], head, msgs);
        ConservedLists(maxMsgs, free, msgs, held);
        Spec.FreeFirst(maxMsgs, free, msgs, held);
        FreeOne();
      }
      ChainHeads(next[..], head, msgs);
      assert Spec.Reverse(msgs) + free == free;
      entry := 0;
    }

    method FreeOne()
      requires next.Length == maxMsgs && Chain(next[..], freeHead, free) && Chain(next[..], head, msgs) && tail == Last(msgs)
      requires msgs != [] && NoRepeats(msgs) && msgs[0] !in free && msgs[0] !in msgs[1..]
      modifies next, `head, `tail, `freeHead, `free, `msgs
      ensures next.Length == maxMsgs && Chain(next[..], freeHead, free) && Chain(next[..], head, msgs) && tail == Last(msgs)
      ensures msgs == old(msgs)[1..] && free == [old(msgs)[0]] + old(free)
      ensures Spec.Reverse(msgs) + free == Spec.Reverse(old(msgs)) + old(free)
    {
      hide Chain, NoRepeats;
      var msg := head;
      ChainPop(next[..], head, msgs);
      head := next[msg];
      if tail == msg {
        tail := NULL;
      }
      ghost var rest := msgs[1..];
      ChainSkip(next[..], head, rest, msg, freeHead);
      ChainFront(next[..], freeHead, free, msg);
      next[msg] := freeHead;
      freeHead := msg;
      assert Spec.Reverse(rest) + ([msgs[0]] + free) == Spec.Reverse(msgs) + free;
      free, msgs := [msgs[0]] + free, rest;
    }
  }

  lemma {:induction false} EmptyChain(next: seq<int>)
    ensures Chain(next, NULL, [])
  {
  }

  lemma {:induction false} LastFront(l: seq<nat>, n: nat)
    ensures Last([n] + l) == if Last(l) == NULL then n else Last(l)
  {
  }

  lemma {:induction false} ChainHeads(next: seq<int>, first: int, l: seq<nat>)
    requires Chain(next, first, l)
    ensures first == NULL <==> l == []
    ensures first != NULL ==> first == l[0] && l[0] < |next|
  {
  }

  lemma {:induction false} InvLists(s: Spec.State)
    requires Spec.Inv(s)
    ensures |s.queue| == |s.msgs| && NoRepeats(s.msgs) && NoRepeats(s.free)
    ensures Spec.Conserved(s.max, s.free, s.msgs, s.held)
  {
    hide Spec.Buffers, Spec.Placed, NoRepeats;
  }

  lemma {:induction false} ConservedLists(max: nat, free: seq<nat>, msgs: seq<nat>, held: map<nat, Spec.Hold>)
    requires Spec.Conserved(max, free, msgs, held) && msgs != []
    ensures NoRepeats(msgs) && msgs[0] !in free && msgs[0] !in msgs[1..]
  {
    assert msgs[0] in NodesOf(msgs);
    NodesMean(free, msgs[0]);
  }

  lemma {:induction false} HolderNode(s: Spec.State, id: nat)
    requires Spec.Inv(s) && id in s.held
    ensures var n := s.held[id].node; n < s.max && n !in s.free && n !in s.msgs
    ensures NoRepeats(s.msgs) && forall m | m in s.msgs :: m !in s.free
  {
    hide Spec.Buffers, Spec.Placed, Spec.Conserved, NoRepeats;
    Spec.HeldApart(s.max, s.free, s.msgs, s.held, id);
    InvLists(s);
    forall m | m in s.msgs ensures m !in s.free {
      ListsApart(s.max, s.free, s.msgs, s.held, m);
    }
  }

  lemma {:induction false} ListsApart(max: nat, free: seq<nat>, msgs: seq<nat>, held: map<nat, Spec.Hold>, m: nat)
    requires Spec.Conserved(max, free, msgs, held) && m in msgs
    ensures m !in free
  {
    hide NoRepeats, Spec.HeldOnce, Spec.HeldNodes, Pool;
    NodesMean(free, m);
    NodesMean(msgs, m);
  }

  lemma {:induction false} HolderOwns(s: Spec.State, id: nat)
    requires Spec.Inv(s) && id in s.held
    ensures s.held[id].node in s.buf && |s.buf[s.held[id].node]| == s.msgSize
    ensures s.held[id].Sending? ==> |s.held[id].data| <= s.msgSize
    ensures s.held[id].Receiving? ==> s.held[id].want <= s.msgSize
  {
    hide Spec.Conserved, Spec.Placed;
    assert Spec.Private(s.buf, s.msgSize, s.held[id]);
  }

  lemma {:induction false} RoomForOne(s: Spec.State, id: nat)
    requires Spec.Inv(s) && id in s.held
    ensures |s.msgs| < s.max
  {
    hide Spec.Buffers, Spec.Placed, Spec.Conserved;
    Spec.NeverTooMany(s.max, s.free, s.msgs, s.held);
  }

  lemma {:induction false} BufRead(bufs: seq<seq<int>>, n: nat)
    ensures n in BufMap(bufs) <==> n < |bufs|
    ensures n < |bufs| ==> BufMap(bufs)[n] == bufs[n]
  {
  }
}
