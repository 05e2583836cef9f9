/** Mailboxes (ipc.c) as a state machine.  A step is one region the source runs with interrupts
    disabled; a blocked call leaves after its suspending step and comes back, once it is resumed
    without an error, with a retry step that looks at the mailbox again. */
module MailboxSpec {
  import opened WaitList
  import opened Blocking
  import Deque

  datatype State = State(size: nat, mails: seq<int>, receivers: Side, senders: Side)

  datatype SendResult = Sent | Full | SendSuspended
  datatype RecvResult = Received(mail: int) | TimedOut | RecvSuspended

  /** rt_mb_send_wait, one look at the mailbox; a stored mail resumes the first sleeping receiver. */
  function Send(s: State, flag: Flag, t: Thread, v: int, mayWait: bool): (State, SendResult) {
    if |s.mails| == s.size then
      if !mayWait then (s, Full) else (s.(senders := Sleep(s.senders, t, flag)), SendSuspended)
    else (s.(mails := s.mails + [v], receivers := Wake(s.receivers)), Sent)
  }

  /** rt_mb_urgent: the mail goes to the front. */
  function Urgent(s: State, v: int): (State, SendResult) {
    if |s.mails| == s.size then (s, Full)
    else (s.(mails := [v] + s.mails, receivers := Wake(s.receivers)), Sent)
  }

  /** rt_mb_recv, one look at the mailbox; a freed slot resumes the first sleeping sender. */
  function Recv(s: State, flag: Flag, t: Thread, mayWait: bool): (State, RecvResult) {
    if s.mails == [] then
      if !mayWait then (s, TimedOut) else (s.(receivers := Sleep(s.receivers, t, flag)), RecvSuspended)
    else (s.(mails := s.mails[1..], senders := Wake(s.senders)), Received(s.mails[0]))
  }

  /** rt_mb_control with RT_IPC_CMD_RESET. */
  function Reset(s: State): State {
    s.(mails := [], receivers := Dismiss(s.receivers), senders := Dismiss(s.senders))
  }

  datatype Event =
    | SendEvent(t: Thread, v: int, mayWait: bool)
    | SendRetry(t: Thread, v: int, mayWait: bool)
    | UrgentEvent(v: int)
    | RecvEvent(t: Thread, mayWait: bool)
    | RecvRetry(t: Thread, mayWait: bool)
    | TimeoutEvent(id: nat)
    | ResetEvent

  /** Which steps the threads of the system can make. */
  ghost predicate Enabled(s: State, e: Event) {
    match e
    case SendEvent(t, _, _) => t.id !in Members(s.senders) + Members(s.receivers)
    case SendRetry(t, _, _) => t.id in s.senders.retry
    case UrgentEvent(_) => true
    case RecvEvent(t, _) => t.id !in Members(s.senders) + Members(s.receivers)
    case RecvRetry(t, _) => t.id in s.receivers.retry
    case TimeoutEvent(id) => true
    case ResetEvent => true
  }

  function Next(s: State, flag: Flag, e: Event): State {
    match e
    case SendEvent(t, v, mayWait) => Send(s, flag, t, v, mayWait).0
    case SendRetry(t, v, mayWait) => Send(s.(senders := Return(s.senders, t.id)), flag, t, v, mayWait).0
    case UrgentEvent(v) => Urgent(s, v).0
    case RecvEvent(t, mayWait) => Recv(s, flag, t, mayWait).0
    case RecvRetry(t, mayWait) => Recv(s.(receivers := Return(s.receivers, t.id)), flag, t, mayWait).0
    case TimeoutEvent(id) => s.(receivers := Expire(s.receivers, id), senders := Expire(s.senders, id))
    case ResetEvent => Reset(s)
  }

  /** Every thread is in at most one place. */
  ghost predicate Placed(s: State) {
    Sound(s.receivers) && Sound(s.senders) && Members(s.receivers) !! Members(s.senders)
  }

  /** No lost wake-up: while a receiver sleeps, every stored mail has a resumed receiver on its way
      to it; while a sender sleeps, every free slot has a resumed sender on its way to it. */
  ghost predicate NoLostWakeup(s: State) {
    Awake(s.receivers, |s.mails|) && Awake(s.senders, s.size - |s.mails|)
  }

  ghost predicate Inv(s: State) {
    |s.mails| <= s.size && Placed(s) && NoLostWakeup(s)
  }

  /* ---------- every step keeps the invariant ---------- */

  lemma {:induction false} SendKeeps(s: State, flag: Flag, t: Thread, v: int, mayWait: bool)
    requires |s.mails| <= s.size && Placed(s) && t.id !in Members(s.senders) + Members(s.receivers)
    requires Awake(s.receivers, |s.mails|) && Awake(s.senders, s.size - |s.mails| - 1)
    ensures Inv(Send(s, flag, t, v, mayWait).0)
  {
    hide Sound, Members, Wake, Sleep;
    if |s.mails| == s.size {
      SleepSide(s.senders, t, flag);
    } else {
      WakeSide(s.receivers, |s.mails| + 1);
    }
  }

  lemma {:induction false} RecvKeeps(s: State, flag: Flag, t: Thread, mayWait: bool)
    requires |s.mails| <= s.size && Placed(s) && t.id !in Members(s.senders) + Members(s.receivers)
    requires Awake(s.receivers, |s.mails| - 1) && Awake(s.senders, s.size - |s.mails|)
    ensures Inv(Recv(s, flag, t, mayWait).0)
  {
    hide Sound, Members, Wake, Sleep;
    if s.mails == [] {
      SleepSide(s.receivers, t, flag);
    } else {
      WakeSide(s.senders, s.size - |s.mails| + 1);
    }
  }

  lemma {:induction false} StepKeeps(s: State, flag: Flag, e: Event)
    requires Inv(s) && Enabled(s, e)
    ensures Inv(Next(s, flag, e))
  {
    hide Sound, Members, Wake, Sleep, Return, Expire, Dismiss, Send, Recv;
    match e
    case SendEvent(t, v, mayWait) => SendKeeps(s, flag, t, v, mayWait);
    case SendRetry(t, v, mayWait) =>
      InMembers(s.senders, t.id);
      ReturnSide(s.senders, t.id, s.size - |s.mails|);
      SendKeeps(s.(senders := Return(s.senders, t.id)), flag, t, v, mayWait);
    case UrgentEvent(v) => WakeSide(s.receivers, |s.mails| + 1);
    case RecvEvent(t, mayWait) => RecvKeeps(s, flag, t, mayWait);
    case RecvRetry(t, mayWait) =>
      InMembers(s.receivers, t.id);
      ReturnSide(s.receivers, t.id, |s.mails|);
      RecvKeeps(s.(receivers := Return(s.receivers, t.id)), flag, t, mayWait);
    case TimeoutEvent(id) =>
      ExpireSide(s.receivers, id, |s.mails|);
      ExpireSide(s.senders, id, s.size - |s.mails|);
    case ResetEvent =>
      DismissSide(s.receivers, 0);
      DismissSide(s.senders, s.size);
  }

  ghost predicate Run(s: State, flag: Flag, es: seq<Event>)
    decreases |es|
  {
    es == [] || (Enabled(s, es[0]) && Run(Next(s, flag, es[0]), flag, es[1..]))
  }

  function After(s: State, flag: Flag, es: seq<Event>): State
    decreases |es|
  {
    if es == [] then s else After(Next(s, flag, es[0]), flag, es[1..])
  }

  /** Over all interleavings of sends, urgent sends, receives, timeouts and resets no wake-up is
      lost; so once no resumed thread is left to run, a sleeping receiver means an empty mailbox and
      a sleeping sender a full one. */
  lemma {:induction false} NoWakeupEverLost(s: State, flag: Flag, es: seq<Event>)
    requires Inv(s) && Run(s, flag, es)
    ensures var r := After(s, flag, es);
      && Inv(r)
      && (r.receivers.retry == {} && r.receivers.waiting != [] ==> r.mails == [])
      && (r.senders.retry == {} && r.senders.waiting != [] ==> |r.mails| == r.size)
    decreases |es|
  {
    hide Placed;
    if es != [] {
      StepKeeps(s, flag, es[0]);
      NoWakeupEverLost(Next(s, flag, es[0]), flag, es[1..]);
    }
  }

  /* ---------- mails come out in the order they went in ---------- */

  function SentBy(s: State, flag: Flag, e: Event): seq<int> {
    match e
    case SendEvent(t, v, mayWait) => if Send(s, flag, t, v, mayWait).1.Sent? then [v] else []
    case SendRetry(t, v, mayWait) =>
      if Send(s.(senders := Return(s.senders, t.id)), flag, t, v, mayWait).1.Sent? then [v] else []
    case _ => []
  }

  function ReceivedBy(s: State, flag: Flag, e: Event): seq<int> {
    var r := match e
      case RecvEvent(t, mayWait) => Recv(s, flag, t, mayWait).1
      case RecvRetry(t, mayWait) => Recv(s.(receivers := Return(s.receivers, t.id)), flag, t, mayWait).1
      case _ => TimedOut;
    if r.Received? then [r.mail] else []
  }

  function AllSent(s: State, flag: Flag, es: seq<Event>): seq<int>
    decreases |es|
  {
    if es == [] then [] else SentBy(s, flag, es[0]) + AllSent(Next(s, flag, es[0]), flag, es[1..])
  }

  function AllReceived(s: State, flag: Flag, es: seq<Event>): seq<int>
    decreases |es|
  {
    if es == [] then [] else ReceivedBy(s, flag, es[0]) + AllReceived(Next(s, flag, es[0]), flag, es[1..])
  }

  /** Without urgent sends and resets a mailbox is a queue: what was stored, then what was sent, is
      what was received, then what is still stored. */
  lemma {:induction false} FirstInFirstOut(s: State, flag: Flag, es: seq<Event>)
    requires Run(s, flag, es) && forall i | 0 <= i < |es| :: !es[i].UrgentEvent? && !es[i].ResetEvent?
    ensures s.mails + AllSent(s, flag, es) == AllReceived(s, flag, es) + After(s, flag, es).mails
    decreases |es|
  {
    if es != [] {
      hide Next, SentBy, ReceivedBy, Enabled;
      var r := Next(s, flag, es[0]);
      OneStepQueue(s, flag, es[0]);
      FirstInFirstOut(r, flag, es[1..]);
      Deque.Regroup(s.mails, SentBy(s, flag, es[0]), AllSent(r, flag, es[1..]));
      Deque.Regroup(ReceivedBy(s, flag, es[0]), r.mails, AllSent(r, flag, es[1..]));
      Deque.Regroup(ReceivedBy(s, flag, es[0]), AllReceived(r, flag, es[1..]), After(s, flag, es).mails);
    }
  }

  /** An urgent mail is the one the next receive returns, ahead of everything stored. */
  lemma {:induction false} UrgentIsNext(s: State, flag: Flag, v: int, t: Thread, mayWait: bool)
    requires |s.mails| <= s.size
    ensures var (r, out) := Urgent(s, v);
      && (out.Full? <==> |s.mails| == s.size) && (out.Full? ==> r == s)
      && (!out.Full? ==> out.Sent? && Recv(r, flag, t, mayWait).1 == Received(v) && Recv(r, flag, t, mayWait).0.mails == s.mails)
  {
    hide Wake;
    assert ([v] + s.mails)[1..] == s.mails;
  }

  lemma {:induction false} OneStepQueue(s: State, flag: Flag, e: Event)
    requires !e.UrgentEvent? && !e.ResetEvent?
    ensures s.mails + SentBy(s, flag, e) == ReceivedBy(s, flag, e) + Next(s, flag, e).mails
  {
  }

  /** What one call asks of the mailbox; a retry asks again. */
  function OpsOf(e: Event): seq<Deque.Op<int>> {
    match e
    case SendEvent(_, v, _) => [Deque.PushBack(v)]
    case SendRetry(_, v, _) => [Deque.PushBack(v)]
    case UrgentEvent(v) => [Deque.PushFront(v)]
    case RecvEvent(_, _) => [Deque.PopFront]
    case RecvRetry(_, _) => [Deque.PopFront]
    case TimeoutEvent(_) => []
    case ResetEvent => [Deque.Clear]
  }

  function AllOps(es: seq<Event>): seq<Deque.Op<int>> {
    if es == [] then [] else OpsOf(es[0]) + AllOps(es[1..])
  }

  lemma {:induction false} OneStepDeque(s: State, flag: Flag, e: Event)
    requires |s.mails| <= s.size
    ensures Next(s, flag, e).mails == Deque.Replay(s.mails, OpsOf(e), s.size)
    ensures ReceivedBy(s, flag, e) == Deque.Popped(s.mails, OpsOf(e), s.size)
    ensures Next(s, flag, e).size == s.size
  {
    Deque.NoOp(s.mails, s.size);
    if OpsOf(e) != [] {
      Deque.OneOp(s.mails, OpsOf(e)[0], s.size);
    }
  }

  /** Over every run, urgent mails and resets included, the mailbox is a deque bounded by its size: the
      mails left, and the mails received in order, follow from the calls alone. */
  lemma {:induction false} RunIsDeque(s: State, flag: Flag, es: seq<Event>)
    requires Inv(s) && Run(s, flag, es)
    ensures After(s, flag, es).mails == Deque.Replay(s.mails, AllOps(es), s.size)
    ensures AllReceived(s, flag, es) == Deque.Popped(s.mails, AllOps(es), s.size)
    decreases |es|
  {
    hide Next, OpsOf, ReceivedBy, Enabled, Placed, NoLostWakeup, Deque.Replay, Deque.Popped;
    if es == [] {
      Deque.NoOp(s.mails, s.size);
    } else {
      StepKeeps(s, flag, es[0]);
      OneStepDeque(s, flag, es[0]);
      RunIsDeque(Next(s, flag, es[0]), flag, es[1..]);
      Deque.InTwoParts(s.mails, OpsOf(es[0]), AllOps(es[1..]), s.size);
    }
  }

  /* ---------- when a call succeeds, fails and blocks ---------- */

  /** A send stores its mail exactly when there is room.  Without room it fails at once exactly when it
      may not wait; else its thread joins the senders.  A stored mail resumes the receiver whose turn
      it is, if one sleeps, and nothing else ever changes. */
  lemma {:induction false} SendOutcome(s: State, flag: Flag, t: Thread, v: int, mayWait: bool)
    requires Inv(s)
    ensures var (r, out) := Send(s, flag, t, v, mayWait);
      && (out.Sent? <==> |s.mails| < s.size)
      && (out.Full? <==> |s.mails| == s.size && !mayWait)
      && (out.SendSuspended? <==> |s.mails| == s.size && mayWait)
      && (out.Full? ==> r == s)
      && (out.SendSuspended? ==> r == s.(senders := r.senders) && Joined(s.senders, r.senders, t, flag))
      && (out.Sent? ==> r == s.(mails := s.mails + [v], receivers := r.receivers) && FirstResumed(s.receivers, r.receivers))
  {
    hide Enqueue, Sound, Members;
    JoinedBy(s.senders, t, flag);
    ResumedBy(s.receivers);
  }

  /** The same for a receive, which takes a mail exactly when there is one. */
  lemma {:induction false} RecvOutcome(s: State, flag: Flag, t: Thread, mayWait: bool)
    requires Inv(s)
    ensures var (r, out) := Recv(s, flag, t, mayWait);
      && (out.Received? <==> |s.mails| > 0)
      && (out.TimedOut? <==> |s.mails| == 0 && !mayWait)
      && (out.RecvSuspended? <==> |s.mails| == 0 && mayWait)
      && (out.TimedOut? ==> r == s)
      && (out.RecvSuspended? ==> r == s.(receivers := r.receivers) && Joined(s.receivers, r.receivers, t, flag))
      && (out.Received? ==>
        && s.mails == [out.mail] + r.mails
        && r == s.(mails := r.mails, senders := r.senders) && FirstResumed(s.senders, r.senders))
  {
    hide Enqueue, Sound, Members;
    JoinedBy(s.receivers, t, flag);
    ResumedBy(s.senders);
  }

  /** An urgent send never waits. */
  lemma {:induction false} UrgentOutcome(s: State, v: int)
    requires Inv(s)
    ensures var (r, out) := Urgent(s, v);
      && (out.Sent? <==> |s.mails| < s.size) && (out.Full? <==> |s.mails| == s.size)
      && (out.Full? ==> r == s)
      && (out.Sent? ==> r == s.(mails := [v] + s.mails, receivers := r.receivers) && FirstResumed(s.receivers, r.receivers))
  {
    hide Sound, Members;
    ResumedBy(s.receivers);
  }

  /** A retry does the same, its thread being back on its feet; a timeout takes only its thread out of
      the wait lists; a reset empties the mailbox and lets all sleepers go, but for the resumed threads
      that are still to run. */
  lemma {:induction false} OtherOutcomes(s: State, flag: Flag, t: Thread, v: int, mayWait: bool, id: nat)
    requires Inv(s)
    ensures var d := Side(s.senders.waiting, s.senders.retry - {t.id});
      Next(s, flag, SendRetry(t, v, mayWait)) == Send(s.(senders := d), flag, t, v, mayWait).0
    ensures var d := Side(s.receivers.waiting, s.receivers.retry - {t.id});
      Next(s, flag, RecvRetry(t, mayWait)) == Recv(s.(receivers := d), flag, t, mayWait).0
    ensures var r := Next(s, flag, TimeoutEvent(id));
      && r == s.(senders := r.senders, receivers := r.receivers)
      && OnlyLeft(s.senders, r.senders, id) && OnlyLeft(s.receivers, r.receivers, id)
    ensures Next(s, flag, ResetEvent) == State(s.size, [], Side([], s.receivers.retry), Side([], s.senders.retry))
  {
    hide Send, Recv, Members;
    LeftBy(s.senders, id);
    LeftBy(s.receivers, id);
  }
}
