/** One side of a blocking protocol: the threads that sleep on a wait list, and the threads that a
    partner has resumed and that have not yet looked at the object again.  Mailboxes, message queues
    and memory pools block and wake their callers in this same way. */
module Blocking {
  import opened WaitList

  datatype Side = Side(waiting: seq<Thread>, retry: set<nat>)

  function Members(d: Side): set<nat> {
    Ids(d.waiting) + d.retry
  }

  ghost predicate Sound(d: Side) {
    DistinctIds(d.waiting) && Ids(d.waiting) !! d.retry
  }

  /** No wake-up is lost: while a thread sleeps, each of the n things it could use already has a
      resumed thread on its way to it. */
  ghost predicate Awake(d: Side, n: int) {
    d.waiting != [] ==> n <= |d.retry|
  }

  /** Resume the first sleeping thread, if there is one. */
  function Wake(d: Side): Side {
    if d.waiting == [] then d else Side(d.waiting[1..], d.retry + {d.waiting[0].id})
  }

  function Sleep(d: Side, t: Thread, flag: Flag): Side {
    d.(waiting := Enqueue(d.waiting, t, flag))
  }

  /** A resumed thread runs again. */
  function Return(d: Side, id: nat): Side {
    d.(retry := d.retry - {id})
  }

  /** A sleeping thread's timer fires. */
  function Expire(d: Side, id: nat): Side {
    d.(waiting := Without(d.waiting, id))
  }

  /** rt_ipc_list_resume_all: every sleeping thread is resumed with an error and gives up. */
  function Dismiss(d: Side): Side {
    d.(waiting := [])
  }

  lemma {:induction false} WakeSide(d: Side, n: int)
    requires Sound(d) && Awake(d, n - 1)
    ensures Sound(Wake(d)) && Members(Wake(d)) == Members(d) && Awake(Wake(d), n)
  {
    hide DistinctIds, Ids;
    if d.waiting != [] {
      DropFirst(d.waiting);
    }
  }

  lemma {:induction false} SleepSide(d: Side, t: Thread, flag: Flag)
    requires Sound(d) && t.id !in Members(d)
    ensures Sound(Sleep(d, t, flag)) && Members(Sleep(d, t, flag)) == Members(d) + {t.id} && Awake(Sleep(d, t, flag), 0)
  {
    hide DistinctIds, Ids, Enqueue;
    EnqueueIds(d.waiting, t, flag);
  }

  lemma {:induction false} ReturnSide(d: Side, id: nat, n: int)
    requires Sound(d) && Awake(d, n) && id in d.retry
    ensures Sound(Return(d, id)) && Members(Return(d, id)) == Members(d) - {id} && Awake(Return(d, id), n - 1)
  {
    hide DistinctIds, Ids;
  }

  lemma {:induction false} ExpireSide(d: Side, id: nat, n: int)
    requires Sound(d) && Awake(d, n)
    ensures Sound(Expire(d, id)) && Members(Expire(d, id)) <= Members(d) && Awake(Expire(d, id), n)
  {
    hide DistinctIds, Ids;
    WithoutIds(d.waiting, id);
  }

  lemma {:induction false} DismissSide(d: Side, n: int)
    requires Sound(d)
    ensures Sound(Dismiss(d)) && Members(Dismiss(d)) <= Members(d) && Awake(Dismiss(d), n)
  {
  }

  lemma {:induction false} InMembers(d: Side, id: nat)
    requires id in d.retry
    ensures id in Members(d)
  {
  }

  /* ---------- whose turn it is ---------- */

  /** Thread t joined the sleeping threads: with Prio behind all that are at least as urgent up to the
      first one that is less urgent, with Fifo behind all. */
  ghost predicate Joined(d: Side, r: Side, t: Thread, flag: Flag) {
    && r.retry == d.retry
    && exists k :: JoinedAt(d.waiting, r.waiting, t, flag, k)
  }

  ghost predicate JoinedAt(s: seq<Thread>, r: seq<Thread>, t: Thread, flag: Flag, k: nat) {
    && k <= |s| && r == s[..k] + [t] + s[k..]
    && (flag.Fifo? ==> k == |s|)
    && (flag.Prio? ==> (forall i | 0 <= i < k :: s[i].priority <= t.priority) && (k < |s| ==> t.priority < s[k].priority))
  }

  lemma {:induction false} JoinedBy(d: Side, t: Thread, flag: Flag)
    ensures Joined(d, Sleep(d, t, flag), t, flag)
  {
    hide InsertByPriority;
    if flag.Fifo? {
      assert JoinedAt(d.waiting, Sleep(d, t, flag).waiting, t, flag, |d.waiting|);
    } else {
      var k := InsertPlace(d.waiting, t);
      assert JoinedAt(d.waiting, Sleep(d, t, flag).waiting, t, flag, k);
    }
  }

  /** The first sleeping thread, if there is one, is resumed and has yet to run. */
  ghost predicate FirstResumed(d: Side, r: Side) {
    if d.waiting == [] then r == d
    else d.waiting == [d.waiting[0]] + r.waiting && r.retry == d.retry + {d.waiting[0].id}
  }

  lemma {:induction false} ResumedBy(d: Side)
    ensures FirstResumed(d, Wake(d))
  {
  }

  /** Nobody but the thread with this id left the sleeping threads, and the others are in their order. */
  ghost predicate OnlyLeft(d: Side, r: Side, id: nat) {
    && r.retry == d.retry
    && exists k :: LeftAt(d.waiting, r.waiting, id, k)
  }

  ghost predicate LeftAt(s: seq<Thread>, r: seq<Thread>, id: nat, k: nat) {
    && k <= |s| && (forall i | 0 <= i < k :: s[i].id != id)
    && if k < |s| then s[k].id == id && r == s[..k] + s[k + 1..] else r == s
  }

  lemma {:induction false} LeftBy(d: Side, id: nat)
    ensures OnlyLeft(d, Expire(d, id), id)
  {
    hide Without;
    var k := WithoutPlace(d.waiting, id);
    assert LeftAt(d.waiting, Expire(d, id).waiting, id, k);
  }

  /** What happens to one side: a thread sleeps, the first one is resumed, a resumed one runs again, a
      sleeping one gives up, all are let go. */
  datatype Move = SleepMove(t: Thread) | WakeMove | ReturnMove(id: nat) | ExpireMove(id: nat) | DismissMove

  function Moved(d: Side, flag: Flag, m: Move): Side {
    match m
    case SleepMove(t) => Sleep(d, t, flag)
    case WakeMove => Wake(d)
    case ReturnMove(id) => Return(d, id)
    case ExpireMove(id) => Expire(d, id)
    case DismissMove => Dismiss(d)
  }

  function MovedAll(d: Side, flag: Flag, ms: seq<Move>): Side
    decreases |ms|
  {
    if ms == [] then d else MovedAll(Moved(d, flag, ms[0]), flag, ms[1..])
  }

  /** The threads that are resumed, in order. */
  function WokenIn(d: Side, flag: Flag, ms: seq<Move>): seq<Thread>
    decreases |ms|
  {
    if ms == [] then []
    else (if ms[0].WakeMove? && d.waiting != [] then [d.waiting[0]] else []) + WokenIn(Moved(d, flag, ms[0]), flag, ms[1..])
  }

  function SleptIn(ms: seq<Move>): seq<Thread> {
    if ms == [] then [] else (if ms[0].SleepMove? then [ms[0].t] else []) + SleptIn(ms[1..])
  }

  /** With Fifo threads are resumed in the order in which they began to wait. */
  lemma {:induction false} ResumedInOrder(d: Side, ms: seq<Move>)
    requires forall i | 0 <= i < |ms| :: !ms[i].ExpireMove? && !ms[i].DismissMove?
    ensures d.waiting + SleptIn(ms) == WokenIn(d, Fifo, ms) + MovedAll(d, Fifo, ms).waiting
    decreases |ms|
  {
    if ms == [] {
    } else {
      var r := Moved(d, Fifo, ms[0]);
      ResumedInOrder(r, ms[1..]);
      var first: seq<Thread> := if ms[0].WakeMove? && d.waiting != [] then [d.waiting[0]] else [];
      var slept: seq<Thread> := if ms[0].SleepMove? then [ms[0].t] else [];
      assert d.waiting + slept == first + r.waiting;
      assert d.waiting + (slept + SleptIn(ms[1..])) == (d.waiting + slept) + SleptIn(ms[1..]);
      assert first + (r.waiting + SleptIn(ms[1..])) == (first + r.waiting) + SleptIn(ms[1..]);
      assert first + (WokenIn(r, Fifo, ms[1..]) + MovedAll(r, Fifo, ms[1..]).waiting)
          == (first + WokenIn(r, Fifo, ms[1..])) + MovedAll(r, Fifo, ms[1..]).waiting;
    }
  }

  /** With Prio the sleeping threads stay sorted, whatever happens, so that the one that is resumed is
      at least as urgent as every other one. */
  lemma {:induction false} MostUrgentFirst(d: Side, ms: seq<Move>)
    requires Sorted(d.waiting) && DistinctIds(d.waiting) && FreshSleepers(d, ms)
    ensures var r := MovedAll(d, Prio, ms);
      && Sorted(r.waiting) && DistinctIds(r.waiting)
      && (r.waiting != [] ==> forall t | t in r.waiting :: r.waiting[0].priority <= t.priority)
    decreases |ms|
  {
    hide DistinctIds, InsertByPriority, Without;
    if ms != [] {
      match ms[0] {
        case SleepMove(t) =>
          var k := PlaceOf(d.waiting, t, Prio);
          EnqueueIds(d.waiting, t, Prio);
        case WakeMove => if d.waiting != [] { DropFirst(d.waiting); }
        case ReturnMove(_) =>
        case ExpireMove(id) => WithoutIds(d.waiting, id);
        case DismissMove => NoneWait();
      }
      MostUrgentFirst(Moved(d, Prio, ms[0]), ms[1..]);
    }
  }

  lemma {:induction false} NoneWait()
    ensures Sorted([]) && DistinctIds([])
  {
  }

  /** Nobody begins to wait who waits already. */
  ghost predicate FreshSleepers(d: Side, ms: seq<Move>)
    decreases |ms|
  {
    ms == [] || ((ms[0].SleepMove? ==> ms[0].t.id !in Ids(d.waiting)) && FreshSleepers(Moved(d, Prio, ms[0]), ms[1..]))
  }
}
