/** Semaphores (ipc.c).  Each step is one region the source runs with interrupts disabled. */
module SemaphoreSpec {
  import opened WaitList
  import opened Blocking

  const VALUE_MAX := 0xFFFF   // RT_SEM_VALUE_MAX

  datatype State = State(value: int, waiters: seq<Thread>)

  datatype TakeResult = Taken | TimedOut | Suspended
  datatype ReleaseResult = Raised | Resumed(id: nat) | Full

  function Take(s: State, flag: Flag, t: Thread, mayWait: bool): (State, TakeResult) {
    if s.value > 0 then (s.(value := s.value - 1), Taken)
    else if !mayWait then (s, TimedOut)
    else (s.(waiters := Enqueue(s.waiters, t, flag)), Suspended)
  }

  /** A waiting thread is given the permit directly; only without waiters does the value rise. */
  function Release(s: State): (State, ReleaseResult) {
    if s.waiters != [] then (s.(waiters := s.waiters[1..]), Resumed(s.waiters[0].id))
    else if s.value < VALUE_MAX then (s.(value := s.value + 1), Raised)
    else (s, Full)
  }

  ghost predicate Inv(s: State) {
    0 <= s.value <= VALUE_MAX && DistinctIds(s.waiters) && (s.waiters != [] ==> s.value == 0)
  }

  /* ---------- runs between two resets ---------- */

  datatype Event = TakeEvent(t: Thread, mayWait: bool) | ReleaseEvent | TimeoutEvent(id: nat)

  ghost predicate Enabled(s: State, e: Event) {
    match e
    case TakeEvent(t, _) => t.id !in Ids(s.waiters)
    case ReleaseEvent => true
    case TimeoutEvent(id) => id in Ids(s.waiters)
  }

  function Next(s: State, flag: Flag, e: Event): State {
    match e
    case TakeEvent(t, mayWait) => Take(s, flag, t, mayWait).0
    case ReleaseEvent => Release(s).0
    case TimeoutEvent(id) => s.(waiters := Without(s.waiters, id))
  }

  /** Successful takes of one step; handing the permit to a waiter is its take. */
  function Takes(s: State, flag: Flag, e: Event): int {
    match e
    case TakeEvent(t, mayWait) => if Take(s, flag, t, mayWait).1.Taken? then 1 else 0
    case ReleaseEvent => if Release(s).1.Resumed? then 1 else 0
    case TimeoutEvent(_) => 0
  }

  function Releases(s: State, e: Event): int {
    if e.ReleaseEvent? && !Release(s).1.Full? then 1 else 0
  }

  ghost predicate Run(s: State, flag: Flag, es: seq<Event>)
    decreases |es|
  {
    es == [] || (Enabled(s, es[0]) && Run(Next(s, flag, es[0]), flag, es[1..]))
  }

  function After(s: State, flag: Flag, es: seq<Event>): State
    decreases |es|
  {
    if es == [] then s else After(Next(s, flag, es[0]), flag, es[1..])
  }

  function AllTakes(s: State, flag: Flag, es: seq<Event>): int
    decreases |es|
  {
    if es == [] then 0 else Takes(s, flag, es[0]) + AllTakes(Next(s, flag, es[0]), flag, es[1..])
  }

  function AllReleases(s: State, flag: Flag, es: seq<Event>): int
    decreases |es|
  {
    if es == [] then 0 else Releases(s, es[0]) + AllReleases(Next(s, flag, es[0]), flag, es[1..])
  }

  lemma {:induction false} StepKeeps(s: State, flag: Flag, e: Event)
    requires Inv(s) && Enabled(s, e)
    ensures var r := Next(s, flag, e);
      Inv(r) && r.value + Takes(s, flag, e) == s.value + Releases(s, e)
  {
    match e
    case TakeEvent(t, mayWait) => EnqueueIds(s.waiters, t, flag);
    case ReleaseEvent => if s.waiters != [] { DropFirst(s.waiters); }
    case TimeoutEvent(id) => WithoutIds(s.waiters, id);
  }

  /** A take succeeds exactly when there is a permit, and takes one.  Without a permit it fails at once
      exactly when it may not wait; else its thread joins the waiting ones. */
  lemma {:induction false} TakeOutcome(s: State, flag: Flag, t: Thread, mayWait: bool)
    requires Inv(s)
    ensures var (r, out) := Take(s, flag, t, mayWait);
      && (out.Taken? <==> s.value >= 1)
      && (out.TimedOut? <==> s.value == 0 && !mayWait)
      && (out.Suspended? <==> s.value == 0 && mayWait)
      && (out.Taken? ==> r.value + 1 == s.value && r.waiters == s.waiters)
      && (out.TimedOut? ==> r == s)
      && (out.Suspended? ==> r.value == 0 && exists k :: JoinedAt(s.waiters, r.waiters, t, flag, k))
  {
    hide Enqueue, DistinctIds;
    JoinedBy(Side(s.waiters, {}), t, flag);
  }

  /** A release goes to the thread that waits first; only if none waits does the value rise, and only at
      65535 does the call fail. */
  lemma {:induction false} ReleaseOutcome(s: State)
    requires Inv(s)
    ensures var (r, out) := Release(s);
      && (out.Resumed? <==> |s.waiters| > 0)
      && (out.Raised? <==> |s.waiters| == 0 && s.value < 65535)
      && (out.Full? <==> |s.waiters| == 0 && s.value == 65535)
      && (out.Resumed? ==> s.waiters == [s.waiters[0]] + r.waiters && out.id == s.waiters[0].id && r.value == 0)
      && (out.Raised? ==> r == State(s.value + 1, []))
      && (out.Full? ==> r == s)
  {
  }

  /** A timeout takes only its thread out of the wait list. */
  lemma {:induction false} TimeoutOutcome(s: State, flag: Flag, id: nat)
    ensures var r := Next(s, flag, TimeoutEvent(id)); r.value == s.value && exists k :: LeftAt(s.waiters, r.waiters, id, k)
  {
    LeftBy(Side(s.waiters, {}), id);
  }

  /** With Prio the waiting threads stay sorted, so that the one that waits first is a most urgent one. */
  lemma {:induction false} RunSorted(s: State, es: seq<Event>)
    requires Inv(s) && Sorted(s.waiters) && Run(s, Prio, es)
    ensures var r := After(s, Prio, es);
      Sorted(r.waiters) && (r.waiters != [] ==> forall t | t in r.waiters :: r.waiters[0].priority <= t.priority)
    decreases |es|
  {
    hide DistinctIds, InsertByPriority, Without;
    if es != [] {
      StepKeeps(s, Prio, es[0]);
      match es[0] {
        case TakeEvent(t, _) => var k := PlaceOf(s.waiters, t, Prio);
        case ReleaseEvent => if s.waiters != [] { DropFirst(s.waiters); }
        case TimeoutEvent(id) => WithoutIds(s.waiters, id);
      }
      RunSorted(Next(s, Prio, es[0]), es[1..]);
    }
  }

  /** Permits are conserved over every run: what was there plus what was released is what is there
      plus what was taken; and threads wait only while there is no permit. */
  lemma {:induction false} PermitsConserved(s: State, flag: Flag, es: seq<Event>)
    requires Inv(s) && Run(s, flag, es)
    ensures var r := After(s, flag, es);
      Inv(r) && s.value + AllReleases(s, flag, es) == r.value + AllTakes(s, flag, es)
    decreases |es|
  {
    if es != [] {
      StepKeeps(s, flag, es[0]);
      PermitsConserved(Next(s, flag, es[0]), flag, es[1..]);
    }
  }
}

module Semaphore {
  import opened WaitList
  import Spec = SemaphoreSpec

  class Sem {
    const flag: Flag
    var value: int
    var waiters: seq<Thread>    // parent.suspend_thread

    ghost function View(): Spec.State
      reads this
    {
      Spec.State(value, waiters)
    }

    ghost predicate Valid()
      reads this
    {
      Spec.Inv(View())
    }

    /** rt_sem_init keeps the low 16 bits of the initial value. */
    constructor (value: nat, flag: Flag)
      ensures Valid() && View() == Spec.State(value % 0x10000, []) && this.flag == flag
    {
      this.value, this.flag, waiters := value % 0x10000, flag, [];
    }

    /** rt_sem_take up to the point where the calling thread is suspended or the call is over. */
    method Take(t: Thread, time: int) returns (r: Spec.TakeResult)
      requires Valid() && t.id !in Ids(waiters)
      modifies this
      ensures Valid() && (View(), r) == Spec.Take(old(View()), flag, t, time != 0)
    {
      Spec.StepKeeps(View(), flag, Spec.TakeEvent(t, time != 0));
      if value > 0 {
        value := value - 1;
        return Spec.Taken;
      }
      if time == 0 {
        return Spec.TimedOut;
      }
      waiters := Suspend(waiters, t, flag);
      return Spec.Suspended;
    }

    method Release() returns (r: Spec.ReleaseResult)
      requires Valid()
      modifies this
      ensures Valid() && (View(), r) == Spec.Release(old(View()))
    {
      Spec.StepKeeps(View(), flag, Spec.ReleaseEvent);
      if waiters != [] {
        var t := waiters[0];
        waiters := waiters[1..];
        return Spec.Resumed(t.id);
      }
      if value < Spec.VALUE_MAX {
        value := value + 1;
        return Spec.Raised;
      }
      return Spec.Full;
    }

    /** rt_thread_timeout of a waiting thread. */
    method Timeout(id: nat)
      requires Valid() && id in Ids(waiters)
      modifies `waiters
      ensures Valid() && waiters == Without(old(waiters), id)
    {
      Spec.StepKeeps(View(), flag, Spec.TimeoutEvent(id));
      waiters := Without(waiters, id);
    }

    /** rt_sem_control with RT_IPC_CMD_RESET: every waiter is resumed with an error. */
    method Reset(v: nat)
      requires Valid()
      modifies this
      ensures Valid() && View() == Spec.State(v % 0x10000, [])
    {
      while waiters != []
        decreases |waiters|
      {
        waiters := waiters[1..];
      }
      value := v % 0x10000;
    }
  }
}
