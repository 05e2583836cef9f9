/** Message queues (ipc.c) as a state machine.  Send and receive open their critical region while
    they copy, so a node can be in flight: out of both lists and held by one thread.  The steps are
    the regions with interrupts disabled and the single bytes copied between them. */
module MessageQueueSpec {
  import opened WaitList
  import opened Blocking
  import opened Nodes
  import Deque

  /** What a thread holds while interrupts are enabled: a node it fills with `data`, of which `done`
      bytes are written, or a node it empties, of which it has read `got` and wants `want` bytes.
      `msg` is what the sender of that message wrote. */
  datatype Hold =
    | Sending(node: nat, data: seq<int>, urgent: bool, done: nat)
    | Receiving(node: nat, msg: seq<int>, got: seq<int>, want: nat)

  /** `free` and `msgs` are the node lists; `queue` is what the queued nodes carry. */
  datatype State = State(max: nat, msgSize: nat, free: seq<nat>, msgs: seq<nat>, queue: seq<seq<int>>,
                         buf: map<nat, seq<int>>, held: map<nat, Hold>, receivers: Side, senders: Side)

  datatype Result = Error | Full | TimedOut | Suspended | Acquired(node: nat)

  /* ---------- the steps ---------- */

  /** rt_mq_send_wait and rt_mq_urgent up to the first copied byte: pop a free node. */
  function Acquire(s: State, flag: Flag, t: Thread, data: seq<int>, urgent: bool, mayWait: bool): (State, Result) {
    if |data| > s.msgSize then (s, Error)
    else if s.free == [] then
      if !mayWait || urgent then (s, Full) else (s.(senders := Sleep(s.senders, t, flag)), Suspended)
    else (s.(free := s.free[1..], held := s.held[t.id := Sending(s.free[0], data, urgent, 0)]), Acquired(s.free[0]))
  }

  function CopyIn(s: State, id: nat): State {
    if id !in s.held || !s.held[id].Sending? then s else
    var h := s.held[id];
    if h.node in s.buf && h.done < |h.data| && h.done < |s.buf[h.node]| then
      s.(buf := s.buf[h.node := s.buf[h.node][h.done := h.data[h.done]]], held := s.held[id := h.(done := h.done + 1)])
    else s
  }

  /** The second region of a send: link the filled node and resume a receiver. */
  function Link(s: State, id: nat): State {
    if id !in s.held || !s.held[id].Sending? then s else
    var h := s.held[id];
    var r := if h.urgent then s.(msgs := [h.node] + s.msgs, queue := [h.data] + s.queue)
             else s.(msgs := s.msgs + [h.node], queue := s.queue + [h.data]);
    r.(held := s.held - {id}, receivers := Wake(s.receivers))
  }

  /** rt_mq_recv up to the first copied byte: pop the first message. */
  function Take(s: State, flag: Flag, t: Thread, size: nat, mayWait: bool): (State, Result) {
    if s.msgs == [] || s.queue == [] then
      if !mayWait then (s, TimedOut) else (s.(receivers := Sleep(s.receivers, t, flag)), Suspended)
    else
      var want := if size > s.msgSize then s.msgSize else size;
      (s.(msgs := s.msgs[1..], queue := s.queue[1..],
          held := s.held[t.id := Receiving(s.msgs[0], s.queue[0], [], want)]), Acquired(s.msgs[0]))
  }

  function CopyOut(s: State, id: nat): State {
    if id !in s.held || !s.held[id].Receiving? then s else
    var h := s.held[id];
    if h.node in s.buf && |h.got| < h.want && |h.got| < |s.buf[h.node]| then
      s.(held := s.held[id := h.(got := h.got + [s.buf[h.node][|h.got|]])])
    else s
  }

  /** The second region of a receive: free the node and resume a sender. */
  function Release(s: State, id: nat): State {
    if id !in s.held || !s.held[id].Receiving? then s else
    s.(free := [s.held[id].node] + s.free, held := s.held - {id}, senders := Wake(s.senders))
  }

  function Reverse(s: seq<nat>): seq<nat> {
    if s == [] then [] else Reverse(s[1..]) + [s[0]]
  }

  /** rt_mq_control with RT_IPC_CMD_RESET: queued nodes are freed one by one, held nodes stay held. */
  function Reset(s: State): State {
    s.(free := Reverse(s.msgs) + s.free, msgs := [], queue := [],
       receivers := Dismiss(s.receivers), senders := Dismiss(s.senders))
  }

  datatype Event =
    | SendEvent(t: Thread, data: seq<int>, mayWait: bool)
    | SendRetry(t: Thread, data: seq<int>, mayWait: bool)
    | UrgentEvent(t: Thread, data: seq<int>)
    | CopyInEvent(id: nat)
    | LinkEvent(id: nat)
    | RecvEvent(t: Thread, size: nat, mayWait: bool)
    | RecvRetry(t: Thread, size: nat, mayWait: bool)
    | CopyOutEvent(id: nat)
    | ReleaseEvent(id: nat)
    | TimeoutEvent(id: nat)
    | ResetEvent

  ghost function Busy(s: State): set<nat> {
    Members(s.receivers) + Members(s.senders) + s.held.Keys
  }

  ghost predicate Enabled(s: State, e: Event) {
    match e
    case SendEvent(t, _, _) => t.id !in Busy(s)
    case SendRetry(t, data, _) => t.id in s.senders.retry && |data| <= s.msgSize
    case UrgentEvent(t, _) => t.id !in Busy(s)
    case CopyInEvent(id) => id in s.held && s.held[id].Sending? && s.held[id].done < |s.held[id].data|
    case LinkEvent(id) => id in s.held && s.held[id].Sending? && s.held[id].done == |s.held[id].data|
    case RecvEvent(t, _, _) => t.id !in Busy(s)
    case RecvRetry(t, _, _) => t.id in s.receivers.retry
    case CopyOutEvent(id) => id in s.held && s.held[id].Receiving? && |s.held[id].got| < s.held[id].want
    case ReleaseEvent(id) => id in s.held && s.held[id].Receiving? && |s.held[id].got| == s.held[id].want
    case TimeoutEvent(id) => true
    case ResetEvent => true
  }

  function Next(s: State, flag: Flag, e: Event): State {
    match e
    case SendEvent(t, data, mayWait) => Acquire(s, flag, t, data, false, mayWait).0
    case SendRetry(t, data, mayWait) => Acquire(s.(senders := Return(s.senders, t.id)), flag, t, data, false, mayWait).0
    case UrgentEvent(t, data) => Acquire(s, flag, t, data, true, false).0
    case CopyInEvent(id) => CopyIn(s, id)
    case LinkEvent(id) => Link(s, id)
    case RecvEvent(t, size, mayWait) => Take(s, flag, t, size, mayWait).0
    case RecvRetry(t, size, mayWait) => Take(s.(receivers := Return(s.receivers, t.id)), flag, t, size, mayWait).0
    case CopyOutEvent(id) => CopyOut(s, id)
    case ReleaseEvent(id) => Release(s, id)
    case TimeoutEvent(id) => s.(receivers := Expire(s.receivers, id), senders := Expire(s.senders, id))
    case ResetEvent => Reset(s)
  }

  /* ---------- the invariant ---------- */

  ghost function HeldNodes(held: map<nat, Hold>): set<nat> {
    set id | id in held :: held[id].node
  }

  ghost predicate HeldOnce(held: map<nat, Hold>) {
    forall a, b | a in held && b in held && a != b :: held[a].node != held[b].node
  }

  /** Every node of the pool is in exactly one place: the free list, the message list, or the hands
      of one thread. */
  ghost predicate Conserved(max: nat, free: seq<nat>, msgs: seq<nat>, held: map<nat, Hold>) {
    && NoRepeats(free) && NoRepeats(msgs) && HeldOnce(held)
    && NodesOf(free) !! NodesOf(msgs) && NodesOf(free) !! HeldNodes(held) && NodesOf(msgs) !! HeldNodes(held)
    && NodesOf(free) + NodesOf(msgs) + HeldNodes(held) == Pool(max)
  }

  /** A queued node starts with the bytes its sender wrote. */
  ghost predicate Carries(s: State) {
    && |s.queue| == |s.msgs|
    && forall i | 0 <= i < |s.msgs| :: s.msgs[i] in s.buf && s.queue[i] <= s.buf[s.msgs[i]]
  }

  /** What a holder knows about its node: nobody else writes it. */
  ghost predicate Private(buf: map<nat, seq<int>>, msgSize: nat, h: Hold) {
    && h.node in buf && |buf[h.node]| == msgSize
    && match h
       case Sending(n, data, _, done) => done <= |data| <= msgSize && data[..done] <= buf[n]
       case Receiving(n, msg, got, want) => |got| <= want <= msgSize && msg <= buf[n] && got <= buf[n]
  }

  ghost predicate Buffers(s: State) {
    && (forall n | 0 <= n < s.max :: n in s.buf && |s.buf[n]| == s.msgSize)
    && (forall id | id in s.held :: Private(s.buf, s.msgSize, s.held[id]))
  }

  ghost predicate Placed(s: State) {
    && Sound(s.receivers) && Sound(s.senders) && Members(s.receivers) !! Members(s.senders)
    && Members(s.receivers) !! s.held.Keys && Members(s.senders) !! s.held.Keys
  }

  ghost predicate Inv(s: State) {
    && Conserved(s.max, s.free, s.msgs, s.held) && Carries(s) && Buffers(s) && Placed(s)
    && Awake(s.receivers, |s.msgs|) && Awake(s.senders, |s.free|)
  }

  /* ---------- moving one node ---------- */

  lemma {:induction false} HoldNode(held: map<nat, Hold>, id: nat, h: Hold)
    requires HeldOnce(held) && id !in held && h.node !in HeldNodes(held)
    ensures HeldOnce(held[id := h]) && HeldNodes(held[id := h]) == HeldNodes(held) + {h.node}
  {
    var r := held[id := h];
    assert forall a | a in held :: r[a] == held[a] && held[a].node in HeldNodes(held);
    assert id in r && r[id].node == h.node;
    forall n | n in HeldNodes(held) + {h.node} ensures n in HeldNodes(r) {
      if n != h.node {
        var a :| a in held && held[a].node == n;
        assert r[a].node == n;
      }
    }
  }

  lemma {:induction false} DropHold(held: map<nat, Hold>, id: nat)
    requires HeldOnce(held) && id in held
    ensures HeldOnce(held - {id}) && HeldNodes(held - {id}) == HeldNodes(held) - {held[id].node}
    ensures held[id].node in HeldNodes(held)
  {
    var r := held - {id};
    forall n | n in HeldNodes(held) && n != held[id].node ensures n in HeldNodes(r) {
      var a :| a in held && held[a].node == n;
      assert r[a].node == n;
    }
  }

  lemma {:induction false} RenewHold(held: map<nat, Hold>, id: nat, h: Hold)
    requires HeldOnce(held) && id in held && h.node == held[id].node
    ensures HeldOnce(held[id := h]) && HeldNodes(held[id := h]) == HeldNodes(held) && held[id := h].Keys == held.Keys
  {
    var r := held[id := h];
    forall n | n in HeldNodes(held) ensures n in HeldNodes(r) {
      var a :| a in held && held[a].node == n;
      assert r[a].node == n;
    }
  }

  lemma {:induction false} AcquireConserves(max: nat, free: seq<nat>, msgs: seq<nat>, held: map<nat, Hold>, id: nat, h: Hold)
    requires Conserved(max, free, msgs, held) && free != [] && id !in held && h.node == free[0]
    ensures Conserved(max, free[1..], msgs, held[id := h])
  {
    hide NoRepeats, HeldOnce, HeldNodes, NodesOf, Pool;
    PopNode(free);
    HoldNode(held, id, h);
  }

  lemma {:induction false} TakeConserves(max: nat, free: seq<nat>, msgs: seq<nat>, held: map<nat, Hold>, id: nat, h: Hold)
    requires Conserved(max, free, msgs, held) && msgs != [] && id !in held && h.node == msgs[0]
    ensures Conserved(max, free, msgs[1..], held[id := h])
  {
    hide NoRepeats, HeldOnce, HeldNodes, NodesOf, Pool;
    PopNode(msgs);
    HoldNode(held, id, h);
  }

  lemma {:induction false} LinkConserves(max: nat, free: seq<nat>, msgs: seq<nat>, held: map<nat, Hold>, id: nat, urgent: bool)
    requires Conserved(max, free, msgs, held) && id in held
    ensures Conserved(max, free, if urgent then [held[id].node] + msgs else msgs + [held[id].node], held - {id})
  {
    hide NoRepeats, HeldOnce, HeldNodes, NodesOf, Pool;
    DropHold(held, id);
    PushNode(msgs, held[id].node);
  }

  lemma {:induction false} ReleaseConserves(max: nat, free: seq<nat>, msgs: seq<nat>, held: map<nat, Hold>, id: nat)
    requires Conserved(max, free, msgs, held) && id in held
    ensures Conserved(max, [held[id].node] + free, msgs, held - {id})
  {
    hide NoRepeats, HeldOnce, HeldNodes, NodesOf, Pool;
    DropHold(held, id);
    PushNode(free, held[id].node);
  }

  /** A held node is in neither list. */
  lemma {:induction false} HeldApart(max: nat, free: seq<nat>, msgs: seq<nat>, held: map<nat, Hold>, id: nat)
    requires Conserved(max, free, msgs, held) && id in held
    ensures held[id].node !in msgs && held[id].node !in free && held[id].node < max
  {
    hide NoRepeats, HeldOnce;
    HeldIn(held, id);
    NodesMean(free, held[id].node);
    NodesMean(msgs, held[id].node);
  }

  lemma {:induction false} ListsInPool(max: nat, free: seq<nat>, msgs: seq<nat>, held: map<nat, Hold>)
    requires Conserved(max, free, msgs, held)
    ensures forall n | n in free || n in msgs :: n < max
  {
    hide NoRepeats, HeldOnce, HeldNodes;
    forall n | n in free || n in msgs ensures n < max {
      NodesMean(free, n);
      NodesMean(msgs, n);
    }
  }

  lemma {:induction false} ResetConserves(max: nat, free: seq<nat>, msgs: seq<nat>, held: map<nat, Hold>)
    requires Conserved(max, free, msgs, held)
    ensures Conserved(max, Reverse(msgs) + free, [], held)
    decreases |msgs|
  {
    hide Conserved;
    if msgs == [] {
      assert Reverse(msgs) + free == free;
    } else {
      FreeFirst(max, free, msgs, held);
      ResetConserves(max, [msgs[0]] + free, msgs[1..], held);
      assert Reverse(msgs) + free == Reverse(msgs[1..]) + ([msgs[0]] + free);
    }
  }

  lemma {:induction false} FreeFirst(max: nat, free: seq<nat>, msgs: seq<nat>, held: map<nat, Hold>)
    requires Conserved(max, free, msgs, held) && msgs != []
    ensures Conserved(max, [msgs[0]] + free, msgs[1..], held)
  {
    hide NoRepeats, HeldOnce, HeldNodes, NodesOf, Pool;
    PopNode(msgs);
    PushNode(free, msgs[0]);
  }

  /** The lists never hold more nodes than the pool has; while a node is held there is room for it. */
  lemma {:induction false} NeverTooMany(max: nat, free: seq<nat>, msgs: seq<nat>, held: map<nat, Hold>)
    requires Conserved(max, free, msgs, held)
    ensures |free| + |msgs| <= max
    ensures held != map[] ==> |free| + |msgs| < max
  {
    hide HeldOnce, HeldNodes, NodesOf;
    Sizes(free);
    Sizes(msgs);
    assert |NodesOf(free) + NodesOf(msgs)| == |free| + |msgs|;
    SubsetSize(NodesOf(free) + NodesOf(msgs), Pool(max));
    if held != map[] {
      var id :| id in held;
      HeldIn(held, id);
      SubsetSize(NodesOf(free) + NodesOf(msgs) + {held[id].node}, Pool(max));
    }
  }

  lemma {:induction false} HeldIn(held: map<nat, Hold>, id: nat)
    requires id in held
    ensures held[id].node in HeldNodes(held)
  {
  }

  /* ---------- every step keeps the invariant ---------- */

  lemma {:induction false} AcquireKeeps(s: State, flag: Flag, t: Thread, data: seq<int>, urgent: bool, mayWait: bool)
    requires Conserved(s.max, s.free, s.msgs, s.held) && Carries(s) && Buffers(s) && Placed(s)
    requires t.id !in Busy(s) && Awake(s.receivers, |s.msgs|) && Awake(s.senders, |s.free| - 1)
    requires |data| > s.msgSize ==> Awake(s.senders, |s.free|)
    ensures Inv(Acquire(s, flag, t, data, urgent, mayWait).0)
  {
    hide Conserved, Sound, Members, Sleep;
    if |data| <= s.msgSize {
      if s.free == [] {
        SleepSide(s.senders, t, flag);
      } else {
        AcquireConserves(s.max, s.free, s.msgs, s.held, t.id, Sending(s.free[0], data, urgent, 0));
        ListsInPool(s.max, s.free, s.msgs, s.held);
        assert data[..0] == [] && s.free[0] in s.free && s.free[0] in s.buf;
        assert Private(s.buf, s.msgSize, Sending(s.free[0], data, urgent, 0));
      }
    }
  }

  lemma {:induction false} TakeKeeps(s: State, flag: Flag, t: Thread, size: nat, mayWait: bool)
    requires Conserved(s.max, s.free, s.msgs, s.held) && Carries(s) && Buffers(s) && Placed(s)
    requires t.id !in Busy(s) && Awake(s.receivers, |s.msgs| - 1) && Awake(s.senders, |s.free|)
    ensures Inv(Take(s, flag, t, size, mayWait).0)
  {
    hide Conserved, Sound, Members, Sleep;
    if s.msgs == [] {
      SleepSide(s.receivers, t, flag);
    } else {
      var want := if size > s.msgSize then s.msgSize else size;
      TakeConserves(s.max, s.free, s.msgs, s.held, t.id, Receiving(s.msgs[0], s.queue[0], [], want));
      ListsInPool(s.max, s.free, s.msgs, s.held);
      assert s.msgs[0] in s.msgs && s.msgs[0] in s.buf && |s.buf[s.msgs[0]]| == s.msgSize;
    }
  }

  lemma {:induction false} CopyInKeeps(s: State, id: nat)
    requires Inv(s) && id in s.held && s.held[id].Sending? && s.held[id].done < |s.held[id].data|
    ensures Inv(CopyIn(s, id)) && CopyIn(s, id).held[id] == s.held[id].(done := s.held[id].done + 1)
  {
    hide Conserved, Sound, Members;
    var h := s.held[id];
    var h' := h.(done := h.done + 1);
    var r := CopyIn(s, id);
    assert Private(s.buf, s.msgSize, h);
    HeldApart(s.max, s.free, s.msgs, s.held, id);
    CopyConserves(s.max, s.free, s.msgs, s.held, id, h');
    assert r.buf[h.node][..h.done + 1] == r.buf[h.node][..h.done] + [h.data[h.done]] == h.data[..h.done + 1];
    assert Private(r.buf, s.msgSize, h');
    forall a | a in r.held ensures Private(r.buf, s.msgSize, r.held[a]) {
      assert a != id ==> Private(s.buf, s.msgSize, s.held[a]) && s.held[a].node != h.node;
    }
  }

  lemma {:induction false} CopyConserves(max: nat, free: seq<nat>, msgs: seq<nat>, held: map<nat, Hold>, id: nat, h: Hold)
    requires Conserved(max, free, msgs, held) && id in held && h.node == held[id].node
    ensures Conserved(max, free, msgs, held[id := h]) && held[id := h].Keys == held.Keys
    ensures forall a | a in held && a != id :: held[a].node != h.node
  {
    RenewHold(held, id, h);
    hide NoRepeats, HeldNodes, NodesOf, Pool;
  }

  lemma {:induction false} CopyOutKeeps(s: State, id: nat)
    requires Inv(s) && id in s.held && s.held[id].Receiving? && |s.held[id].got| < s.held[id].want
    ensures Inv(CopyOut(s, id)) && id in CopyOut(s, id).held && |CopyOut(s, id).held[id].got| == |s.held[id].got| + 1
  {
    hide Conserved, Sound, Members;
    var h := s.held[id];
    assert Private(s.buf, s.msgSize, h);
    var h' := h.(got := h.got + [s.buf[h.node][|h.got|]]);
    CopyConserves(s.max, s.free, s.msgs, s.held, id, h');
    assert Private(s.buf, s.msgSize, h');
  }

  lemma {:induction false} LinkKeeps(s: State, id: nat)
    requires Inv(s) && id in s.held && s.held[id].Sending? && s.held[id].done == |s.held[id].data|
    ensures Inv(Link(s, id))
  {
    hide Conserved, Sound, Members, Wake;
    var h := s.held[id];
    assert Private(s.buf, s.msgSize, h);
    assert h.data[..h.done] == h.data;
    LinkConserves(s.max, s.free, s.msgs, s.held, id, h.urgent);
    WakeSide(s.receivers, |s.msgs| + 1);
  }

  lemma {:induction false} ReleaseKeeps(s: State, id: nat)
    requires Inv(s) && id in s.held && s.held[id].Receiving?
    ensures Inv(Release(s, id))
  {
    hide Conserved, Sound, Members, Wake;
    ReleaseConserves(s.max, s.free, s.msgs, s.held, id);
    WakeSide(s.senders, |s.free| + 1);
  }

  lemma {:induction false} StepKeeps(s: State, flag: Flag, e: Event)
    requires Inv(s) && Enabled(s, e)
    ensures Inv(Next(s, flag, e))
  {
    hide Conserved, Carries, Buffers, Sound, Members, Wake, Sleep, Return, Expire, Dismiss,
         Acquire, Take, CopyIn, CopyOut, Link, Release, Reverse;
    match e
    case SendEvent(t, data, mayWait) => AcquireKeeps(s, flag, t, data, false, mayWait);
    case SendRetry(t, data, mayWait) =>
      InMembers(s.senders, t.id);
      ReturnSide(s.senders, t.id, |s.free|);
      SameBut(s, s.(senders := Return(s.senders, t.id)));
      AcquireKeeps(s.(senders := Return(s.senders, t.id)), flag, t, data, false, mayWait);
    case UrgentEvent(t, data) => AcquireKeeps(s, flag, t, data, true, false);
    case CopyInEvent(id) => CopyInKeeps(s, id);
    case LinkEvent(id) => LinkKeeps(s, id);
    case RecvEvent(t, size, mayWait) => TakeKeeps(s, flag, t, size, mayWait);
    case RecvRetry(t, size, mayWait) =>
      InMembers(s.receivers, t.id);
      ReturnSide(s.receivers, t.id, |s.msgs|);
      SameBut(s, s.(receivers := Return(s.receivers, t.id)));
      TakeKeeps(s.(receivers := Return(s.receivers, t.id)), flag, t, size, mayWait);
    case CopyOutEvent(id) => CopyOutKeeps(s, id);
    case ReleaseEvent(id) => ReleaseKeeps(s, id);
    case TimeoutEvent(id) =>
      ExpireSide(s.receivers, id, |s.msgs|);
      ExpireSide(s.senders, id, |s.free|);
      SameBut(s, Next(s, flag, e));
    case ResetEvent =>
      ResetConserves(s.max, s.free, s.msgs, s.held);
      DismissSide(s.receivers, 0);
      DismissSide(s.senders, |s.free| + |s.msgs|);
      ResetCarries(s);
      ReverseSize(s.msgs);
  }

  lemma {:induction false} SameBut(s: State, r: State)
    requires Carries(s) && Buffers(s) && r == s.(receivers := r.receivers, senders := r.senders)
    ensures Carries(r) && Buffers(r)
  {
  }

  lemma {:induction false} ResetCarries(s: State)
    requires Buffers(s)
    ensures Carries(Reset(s)) && Buffers(Reset(s))
  {
  }

  lemma {:induction false} ReverseSize(l: seq<nat>)
    ensures |Reverse(l)| == |l|
  {
    if l != [] { ReverseSize(l[1..]); }
  }

  /* ---------- every run ---------- */

  ghost predicate Run(s: State, flag: Flag, es: seq<Event>)
    decreases |es|
  {
    es == [] || (Enabled(s, es[0]) && Run(Next(s, flag, es[0]), flag, es[1..]))
  }

  function After(s: State, flag: Flag, es: seq<Event>): State
    decreases |es|
  {
    if es == [] then s else After(Next(s, flag, es[0]), flag, es[1..])
  }

  /** Over every interleaving of sends, urgent sends, receives, their copied bytes, timeouts and
      resets: nodes are conserved and private while in flight, no wake-up is lost, and no list
      outgrows the pool, so that the entry counter cannot overflow. */
  lemma {:induction false} RunKeeps(s: State, flag: Flag, es: seq<Event>)
    requires Inv(s) && Run(s, flag, es)
    ensures var r := After(s, flag, es);
      && Inv(r) && |r.free| + |r.msgs| <= r.max
      && (r.receivers.retry == {} && r.receivers.waiting != [] ==> r.msgs == [])
      && (r.senders.retry == {} && r.senders.waiting != [] ==> r.free == [])
    decreases |es|
  {
    hide Conserved, Carries, Buffers, Placed, Next, Enabled;
    if es != [] {
      StepKeeps(s, flag, es[0]);
      RunKeeps(Next(s, flag, es[0]), flag, es[1..]);
    } else {
      NeverTooMany(s.max, s.free, s.msgs, s.held);
    }
  }

  /** The receiver has read all it wanted, and as far as the message reaches these are its bytes. */
  ghost predicate Delivered(h: Hold) {
    && h.Receiving? && |h.got| == h.want
    && var n := if |h.msg| < h.want then |h.msg| else h.want;
       n <= |h.got| && h.got[..n] == h.msg[..n]
  }

  /** What a receiver has when it gives its node back: the first bytes the sender wrote, up to the
      smaller of the sent and the requested length. */
  lemma {:induction false} BytesArrive(s: State, id: nat)
    requires Buffers(s) && Enabled(s, ReleaseEvent(id))
    ensures id in s.held && Delivered(s.held[id])
  {
    var h := s.held[id];
    assert Private(s.buf, s.msgSize, h);
    PrefixesAgree(s.buf[h.node], h.msg, h.got);
  }

  lemma {:induction false} PrefixesAgree(a: seq<int>, b: seq<int>, c: seq<int>)
    requires b <= a && c <= a
    ensures |b| <= |c| ==> c[..|b|] == b
    ensures |c| <= |b| ==> b[..|c|] == c
  {
  }

  /* ---------- messages are taken in the order they were linked ---------- */

  function LinkedBy(s: State, e: Event): seq<seq<int>> {
    if e.LinkEvent? && e.id in s.held && s.held[e.id].Sending? then [s.held[e.id].data] else []
  }

  function TakenBy(s: State, flag: Flag, e: Event): seq<seq<int>> {
    var acquired := match e
      case RecvEvent(t, size, mayWait) => Take(s, flag, t, size, mayWait).1.Acquired?
      case RecvRetry(t, size, mayWait) => Take(s.(receivers := Return(s.receivers, t.id)), flag, t, size, mayWait).1.Acquired?
      case _ => false;
    if acquired && s.queue != [] then [s.queue[0]] else []
  }

  function AllLinked(s: State, flag: Flag, es: seq<Event>): seq<seq<int>>
    decreases |es|
  {
    if es == [] then [] else LinkedBy(s, es[0]) + AllLinked(Next(s, flag, es[0]), flag, es[1..])
  }

  function AllTaken(s: State, flag: Flag, es: seq<Event>): seq<seq<int>>
    decreases |es|
  {
    if es == [] then [] else TakenBy(s, flag, es[0]) + AllTaken(Next(s, flag, es[0]), flag, es[1..])
  }

  /** An urgent message is the one the next receive takes. */
  lemma {:induction false} UrgentJumps(s: State, flag: Flag, id: nat, t: Thread, size: nat)
    requires Inv(s) && Enabled(s, LinkEvent(id)) && s.held[id].urgent
    ensures var r := Take(Link(s, id), flag, t, size, false);
      r.1 == Acquired(s.held[id].node) && t.id in r.0.held && r.0.held[t.id].Receiving? && r.0.held[t.id].msg == s.held[id].data
      && r.0.queue == s.queue && r.0.msgs == s.msgs
  {
    hide Conserved, Placed, Wake, Buffers;
  }

  ghost predicate NoUrgentHeld(s: State) {
    forall id | id in s.held && s.held[id].Sending? :: !s.held[id].urgent
  }

  lemma {:induction false} OneStepOrder(s: State, flag: Flag, e: Event)
    requires Enabled(s, e) && !e.ResetEvent? && !e.UrgentEvent? && NoUrgentHeld(s)
    ensures s.queue + LinkedBy(s, e) == TakenBy(s, flag, e) + Next(s, flag, e).queue
    ensures NoUrgentHeld(Next(s, flag, e))
  {
    hide Wake, Sleep, Return, Expire, Members;
  }

  /** Without urgent messages and resets, messages are taken in the order in which they were linked. */
  lemma {:induction false} FirstLinkedFirstTaken(s: State, flag: Flag, es: seq<Event>)
    requires Run(s, flag, es) && NoUrgentHeld(s)
    requires forall i | 0 <= i < |es| :: !es[i].UrgentEvent? && !es[i].ResetEvent?
    ensures s.queue + AllLinked(s, flag, es) == AllTaken(s, flag, es) + After(s, flag, es).queue
    decreases |es|
  {
    if es != [] {
      hide Next, LinkedBy, TakenBy, Enabled, NoUrgentHeld;
      var r := Next(s, flag, es[0]);
      OneStepOrder(s, flag, es[0]);
      FirstLinkedFirstTaken(r, flag, es[1..]);
      Deque.Regroup(s.queue, LinkedBy(s, es[0]), AllLinked(r, flag, es[1..]));
      Deque.Regroup(TakenBy(s, flag, es[0]), r.queue, AllLinked(r, flag, es[1..]));
      Deque.Regroup(TakenBy(s, flag, es[0]), AllTaken(r, flag, es[1..]), After(r, flag, es[1..]).queue);
    }
  }

  /* ---------- what a thread holds is what it asked for ---------- */

  predicate Starts(e: Event) {
    e.SendEvent? || e.SendRetry? || e.UrgentEvent? || e.RecvEvent? || e.RecvRetry?
  }

  /** The last call of every thread, by the steps alone. */
  function Note(asked: map<nat, Event>, e: Event): map<nat, Event> {
    if Starts(e) then asked[e.t.id := e] else asked
  }

  function NoteAll(asked: map<nat, Event>, es: seq<Event>): map<nat, Event>
    decreases |es|
  {
    if es == [] then asked else NoteAll(Note(asked, es[0]), es[1..])
  }

  /** What thread id holds belongs to its last call: a sender's node gets the data of that call, and goes
      to the front exactly when the call was rt_mq_urgent; a receiver reads as many bytes as the call
      asked for, but at most a whole message. */
  ghost predicate AsAsked(h: Hold, e: Event, msgSize: nat) {
    match h
    case Sending(_, data, urgent, _) =>
      (e.SendEvent? || e.SendRetry? || e.UrgentEvent?) && data == e.data && (urgent <==> e.UrgentEvent?)
    case Receiving(_, _, _, want) =>
      (e.RecvEvent? || e.RecvRetry?) && want <= e.size && want <= msgSize && (want == e.size || want == msgSize)
  }

  ghost predicate Remembered(s: State, asked: map<nat, Event>) {
    forall id | id in s.held :: id in asked && AsAsked(s.held[id], asked[id], s.msgSize)
  }

  lemma {:induction false} StepRemembers(s: State, flag: Flag, e: Event, asked: map<nat, Event>)
    requires Placed(s) && Enabled(s, e) && Remembered(s, asked)
    ensures Remembered(Next(s, flag, e), Note(asked, e)) && Next(s, flag, e).msgSize == s.msgSize
  {
    hide Wake, Sleep, Return, Expire, Dismiss, Members, Sound, Reverse;
    if e.SendRetry? {
      InMembers(s.senders, e.t.id);
    }
    if e.RecvRetry? {
      InMembers(s.receivers, e.t.id);
    }
  }

  /** Over every run: whatever is in flight belongs to the last call of its thread. */
  lemma {:induction false} RunRemembers(s: State, flag: Flag, es: seq<Event>, asked: map<nat, Event>)
    requires Inv(s) && Run(s, flag, es) && Remembered(s, asked)
    ensures Remembered(After(s, flag, es), NoteAll(asked, es)) && After(s, flag, es).msgSize == s.msgSize
    decreases |es|
  {
    hide Conserved, Carries, Buffers, Awake, Next, Enabled, Remembered, Note;
    if es != [] {
      StepKeeps(s, flag, es[0]);
      StepRemembers(s, flag, es[0], asked);
      RunRemembers(Next(s, flag, es[0]), flag, es[1..], Note(asked, es[0]));
    }
  }

  /** Over every run that starts with nothing in flight, what a receiver has when it gives its node back
      is as long as its last call asked for, or a whole message if that is shorter, and begins with the
      bytes the sender wrote. */
  lemma {:induction false} RunDelivers(s: State, flag: Flag, es: seq<Event>, id: nat)
    requires Inv(s) && s.held == map[] && Run(s, flag, es) && Enabled(After(s, flag, es), ReleaseEvent(id))
    ensures var r, asked := After(s, flag, es), NoteAll(map[], es);
      && id in r.held && r.held[id].Receiving? && id in asked && (asked[id].RecvEvent? || asked[id].RecvRetry?)
      && var h, size := r.held[id], asked[id].size;
         && |h.got| == (if size < s.msgSize then size else s.msgSize)
         && |h.msg| <= s.msgSize
         && (forall k | 0 <= k < |h.msg| && k < size :: k < |h.got| && h.got[k] == h.msg[k])
  {
    hide Conserved, Carries, Awake, Placed, After;
    RunKeeps(s, flag, es);
    RunRemembers(s, flag, es, map[]);
    var r := After(s, flag, es);
    assert Private(r.buf, r.msgSize, r.held[id]);
    ShortEnough(r.buf[r.held[id].node], r.held[id].msg, r.held[id].got);
  }

  lemma {:induction false} ShortEnough(b: seq<int>, msg: seq<int>, got: seq<int>)
    requires msg <= b && got <= b
    ensures |msg| <= |b| && forall k | 0 <= k < |msg| && k < |got| :: got[k] == msg[k]
  {
  }

  /** The message a receiver reads is the first of the queue when its call succeeds, and stays that until
      the thread gives its node back. */
  lemma {:induction false} HoldStays(s: State, flag: Flag, es: seq<Event>, id: nat)
    requires Inv(s) && Run(s, flag, es) && id in s.held && s.held[id].Receiving?
    requires forall i | 0 <= i < |es| :: es[i] != ReleaseEvent(id)
    ensures var r := After(s, flag, es);
      && id in r.held && r.held[id].Receiving? && r.held[id].msg == s.held[id].msg && r.held[id].want == s.held[id].want
    decreases |es|
  {
    hide Conserved, Carries, Buffers, Awake, Next, Enabled;
    if es != [] {
      StepKeeps(s, flag, es[0]);
      HoldStep(s, flag, es[0], id);
      HoldStays(Next(s, flag, es[0]), flag, es[1..], id);
    }
  }

  lemma {:induction false} HoldStep(s: State, flag: Flag, e: Event, id: nat)
    requires Placed(s) && Enabled(s, e) && id in s.held && s.held[id].Receiving? && e != ReleaseEvent(id)
    ensures var r := Next(s, flag, e);
      && id in r.held && r.held[id].Receiving? && r.held[id].msg == s.held[id].msg && r.held[id].want == s.held[id].want
  {
    hide Wake, Sleep, Return, Expire, Dismiss, Members, Sound, Reverse;
    if e.SendRetry? {
      InMembers(s.senders, e.t.id);
    }
    if e.RecvRetry? {
      InMembers(s.receivers, e.t.id);
    }
  }

  /** From the call to the end: a receive of `size` bytes, made while a message is queued, ends with the
      first bytes of the message that was first in the queue, as many as were asked for. */
  lemma {:induction false} ReceivesFirst(s: State, flag: Flag, t: Thread, size: nat, mayWait: bool, es: seq<Event>)
    requires Inv(s) && s.queue != [] && Enabled(s, RecvEvent(t, size, mayWait))
    requires var a := Next(s, flag, RecvEvent(t, size, mayWait));
      Run(a, flag, es) && Enabled(After(a, flag, es), ReleaseEvent(t.id))
    requires forall i | 0 <= i < |es| :: es[i] != ReleaseEvent(t.id)
    ensures var r := After(Next(s, flag, RecvEvent(t, size, mayWait)), flag, es);
      && t.id in r.held && r.held[t.id].Receiving?
      && var got, m := r.held[t.id].got, s.queue[0];
         && |got| == (if size < s.msgSize then size else s.msgSize)
         && |m| <= s.msgSize
         && (forall k | 0 <= k < |m| && k < size :: k < |got| && got[k] == m[k])
  {
    hide Conserved, Awake, After, Sound, Members;
    var e := RecvEvent(t, size, mayWait);
    var a := Next(s, flag, e);
    StepKeeps(s, flag, e);
    assert s.msgs[0] in s.buf;
    HoldStays(a, flag, es, t.id);
    RunKeeps(a, flag, es);
    var r := After(a, flag, es);
    SizesStay(a, flag, es);
    assert Private(r.buf, r.msgSize, r.held[t.id]);
    ShortEnough(r.buf[r.held[t.id].node], r.held[t.id].msg, r.held[t.id].got);
  }

  lemma {:induction false} SizesStay(s: State, flag: Flag, es: seq<Event>)
    ensures After(s, flag, es).msgSize == s.msgSize && After(s, flag, es).max == s.max
    decreases |es|
  {
    if es != [] {
      SizesStep(s, flag, es[0]);
      hide Next;
      SizesStay(Next(s, flag, es[0]), flag, es[1..]);
    }
  }

  lemma {:induction false} SizesStep(s: State, flag: Flag, e: Event)
    ensures Next(s, flag, e).msgSize == s.msgSize && Next(s, flag, e).max == s.max
  {
    hide Wake, Sleep, Return, Expire, Dismiss, Reverse;
  }

  /* ---------- the queue is a deque of the calls ---------- */

  /** What one step does to the queued messages, by the calls alone: a message enters when its thread
      links it, at the front if the call was rt_mq_urgent, and leaves when it is taken. */
  function OpsOf(asked: map<nat, Event>, e: Event): seq<Deque.Op<seq<int>>> {
    match e
    case LinkEvent(id) =>
      if id !in asked then []
      else if asked[id].UrgentEvent? then [Deque.PushFront(asked[id].data)]
      else if asked[id].SendEvent? || asked[id].SendRetry? then [Deque.PushBack(asked[id].data)]
      else []
    case RecvEvent(_, _, _) => [Deque.PopFront]
    case RecvRetry(_, _, _) => [Deque.PopFront]
    case ResetEvent => [Deque.Clear]
    case _ => []
  }

  function AllOps(asked: map<nat, Event>, es: seq<Event>): seq<Deque.Op<seq<int>>>
    decreases |es|
  {
    if es == [] then [] else OpsOf(asked, es[0]) + AllOps(Note(asked, es[0]), es[1..])
  }

  lemma {:induction false} LinkPushes(s: State, flag: Flag, id: nat, asked: map<nat, Event>)
    requires Inv(s) && Enabled(s, LinkEvent(id)) && Remembered(s, asked)
    ensures |OpsOf(asked, LinkEvent(id))| == 1 && Link(s, id).queue == Deque.Do(s.queue, OpsOf(asked, LinkEvent(id))[0], s.max)
    ensures !OpsOf(asked, LinkEvent(id))[0].PopFront?
  {
    hide Wake, Members, Conserved, Buffers, Awake, Sound;
    NeverTooMany(s.max, s.free, s.msgs, s.held);
    assert id in asked && AsAsked(s.held[id], asked[id], s.msgSize);
  }

  lemma {:induction false} OthersPop(s: State, flag: Flag, e: Event, asked: map<nat, Event>)
    requires |s.queue| == |s.msgs| && !e.LinkEvent?
    ensures var ops := OpsOf(asked, e);
      if ops == [] then Next(s, flag, e).queue == s.queue && TakenBy(s, flag, e) == []
      else Next(s, flag, e).queue == Deque.Do(s.queue, ops[0], s.max) && TakenBy(s, flag, e) == Deque.Delivered(s.queue, ops[0])
  {
    hide Wake, Sleep, Return, Expire, Dismiss, Members;
  }

  lemma {:induction false} OneStepDeque(s: State, flag: Flag, e: Event, asked: map<nat, Event>)
    requires Inv(s) && Enabled(s, e) && Remembered(s, asked)
    ensures Next(s, flag, e).queue == Deque.Replay(s.queue, OpsOf(asked, e), s.max)
    ensures TakenBy(s, flag, e) == Deque.Popped(s.queue, OpsOf(asked, e), s.max)
  {
    hide Enabled, Conserved, Buffers, Awake, Placed, Remembered, Deque.Replay, Deque.Popped, Deque.Do, Link, Take, Acquire,
         CopyIn, CopyOut, Release, Reset;
    Deque.NoOp(s.queue, s.max);
    var ops := OpsOf(asked, e);
    if e.LinkEvent? {
      LinkPushes(s, flag, e.id, asked);
      Deque.OneOp(s.queue, ops[0], s.max);
    } else {
      OthersPop(s, flag, e, asked);
      if ops != [] {
        Deque.OneOp(s.queue, ops[0], s.max);
      }
    }
  }

  /** Over every run, urgent messages and resets included, the queue is a deque: the messages left, and
      the messages taken in order, follow from the calls and from the order in which they link and take. */
  lemma {:induction false} RunIsDeque(s: State, flag: Flag, es: seq<Event>, asked: map<nat, Event>)
    requires Inv(s) && Run(s, flag, es) && Remembered(s, asked)
    ensures After(s, flag, es).queue == Deque.Replay(s.queue, AllOps(asked, es), s.max)
    ensures AllTaken(s, flag, es) == Deque.Popped(s.queue, AllOps(asked, es), s.max)
    decreases |es|
  {
    hide Next, OpsOf, TakenBy, Enabled, Deque.Replay, Deque.Popped, Conserved, Carries, Buffers, Awake, Remembered, Note;
    if es == [] {
      Deque.NoOp(s.queue, s.max);
    } else {
      var r, noted := Next(s, flag, es[0]), Note(asked, es[0]);
      StepKeeps(s, flag, es[0]);
      StepRemembers(s, flag, es[0], asked);
      SizesStep(s, flag, es[0]);
      OneStepDeque(s, flag, es[0], asked);
      RunIsDeque(r, flag, es[1..], noted);
      Deque.InTwoParts(s.queue, OpsOf(asked, es[0]), AllOps(noted, es[1..]), s.max);
    }
  }

  /* ---------- when a call succeeds, fails and blocks ---------- */

  /** A send gets a node exactly when the message is not too long and a node is free.  Without a free
      node it fails at once exactly when it is urgent or may not wait, else its thread joins the
      senders. */
  lemma {:induction false} AcquireOutcome(s: State, flag: Flag, t: Thread, data: seq<int>, urgent: bool, mayWait: bool)
    ensures var (r, out) := Acquire(s, flag, t, data, urgent, mayWait);
      && (out.Error? <==> |data| > s.msgSize)
      && (out.Acquired? <==> |data| <= s.msgSize && |s.free| > 0)
      && (out.Full? <==> |data| <= s.msgSize && |s.free| == 0 && (urgent || !mayWait))
      && (out.Suspended? <==> |data| <= s.msgSize && |s.free| == 0 && !urgent && mayWait)
      && (out.Error? || out.Full? ==> r == s)
      && (out.Suspended? ==> r == s.(senders := r.senders) && Joined(s.senders, r.senders, t, flag))
      && (out.Acquired? ==>
        && s.free == [out.node] + r.free && r == s.(free := r.free, held := r.held)
        && r.held == s.held[t.id := Sending(out.node, data, urgent, 0)])
  {
    hide Enqueue;
    JoinedBy(s.senders, t, flag);
  }

  /** A receive gets a node exactly when a message is queued, and then the first one. */
  lemma {:induction false} TakeOutcome(s: State, flag: Flag, t: Thread, size: nat, mayWait: bool)
    requires |s.queue| == |s.msgs|
    ensures var (r, out) := Take(s, flag, t, size, mayWait);
      && (out.Acquired? <==> |s.msgs| > 0)
      && (out.TimedOut? <==> |s.msgs| == 0 && !mayWait)
      && (out.Suspended? <==> |s.msgs| == 0 && mayWait)
      && (out.TimedOut? ==> r == s)
      && (out.Suspended? ==> r == s.(receivers := r.receivers) && Joined(s.receivers, r.receivers, t, flag))
      && (out.Acquired? ==>
        && s.msgs == [out.node] + r.msgs && r == s.(msgs := r.msgs, queue := s.queue[1..], held := r.held)
        && t.id in r.held && r.held == s.held[t.id := r.held[t.id]]
        && r.held[t.id] == Receiving(out.node, s.queue[0], [], r.held[t.id].want))
  {
    hide Enqueue;
    JoinedBy(s.receivers, t, flag);
  }

  /** The second regions: a linked message resumes the receiver whose turn it is, a freed node the
      sender; a timeout takes only its thread out of the wait lists; a reset frees the queued nodes and
      lets all sleepers go, but leaves alone what is in flight and who is still to run. */
  lemma {:induction false} OtherOutcomes(s: State, flag: Flag, id: nat)
    ensures id in s.held && s.held[id].Sending? ==>
      var r := Link(s, id);
      && FirstResumed(s.receivers, r.receivers) && r.senders == s.senders && r.free == s.free && r.held == s.held - {id}
    ensures id in s.held && s.held[id].Receiving? ==>
      var r := Release(s, id);
      && FirstResumed(s.senders, r.senders) && r.receivers == s.receivers && r.msgs == s.msgs && r.held == s.held - {id}
    ensures var r := Next(s, flag, TimeoutEvent(id));
      && r == s.(senders := r.senders, receivers := r.receivers)
      && OnlyLeft(s.senders, r.senders, id) && OnlyLeft(s.receivers, r.receivers, id)
    ensures var r := Next(s, flag, ResetEvent);
      && r.held == s.held && r.buf == s.buf && r.msgs == [] && r.queue == []
      && r.receivers == Side([], s.receivers.retry) && r.senders == Side([], s.senders.retry)
  {
    hide Reverse;
    ResumedBy(s.receivers);
    ResumedBy(s.senders);
    LeftBy(s.senders, id);
    LeftBy(s.receivers, id);
  }

  /* ---------- the initial state ---------- */

  /** The free list rt_mq_init builds: the node linked last comes first. */
  function Down(n: nat): seq<nat> {
    if n == 0 then [] else [n - 1] + Down(n - 1)
  }

  lemma {:induction false} DownIsPool(n: nat)
    ensures NoRepeats(Down(n)) && NodesOf(Down(n)) == Pool(n)
    ensures forall m | m in Down(n) :: m < n
  {
    hide NoRepeats, NodesOf;
    if n > 0 {
      DownIsPool(n - 1);
      PushNode(Down(n - 1), n - 1);
    } else {
      NoNodes();
    }
  }

  ghost predicate Initial(s: State) {
    && s.free == Down(s.max) && s.msgs == [] && s.queue == [] && s.held == map[]
    && s.receivers == Side([], {}) && s.senders == Side([], {})
    && forall n | 0 <= n < s.max :: n in s.buf && |s.buf[n]| == s.msgSize
  }

  lemma {:induction false} InitialInv(s: State)
    requires Initial(s)
    ensures Inv(s)
  {
    DownIsPool(s.max);
    assert NodesOf([]) == {} && HeldNodes(map[]) == {};
  }
}
