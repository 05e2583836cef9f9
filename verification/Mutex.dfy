/** Mutexes with priority inheritance (ipc.c), for threads that hold at most this mutex and whose
    priorities nothing else changes.  A smaller number is a more urgent priority. */
module MutexSpec {
  import opened WaitList
  import opened Blocking

  const HOLD_MAX := 0xFF        // RT_MUTEX_HOLD_MAX
  const VALUE_MAX := 0xFFFF     // RT_MUTEX_VALUE_MAX
  const NO_PRIORITY := 0xFF     // original_priority of a free mutex

  datatype Option<T> = None | Some(value: T)

  /** `prio` is every thread's current_priority. */
  datatype State = State(value: int, owner: Option<nat>, hold: int, original: nat, waiters: seq<Thread>, prio: map<nat, nat>)

  datatype TakeResult = Taken | TakeFull | TimedOut | Suspended
  datatype ReleaseResult = NotOwner | Kept | Freed | Handed(id: nat) | ReleaseFull

  function Prio(s: State, t: nat): nat {
    if t in s.prio then s.prio[t] else NO_PRIORITY
  }

  function Waiter(s: State, t: nat): Thread {
    Thread(t, Prio(s, t), 0, 0)
  }

  /** rt_mutex_take by thread t. */
  function Take(s: State, t: nat, mayWait: bool): (State, TakeResult) {
    if s.owner == Some(t) then
      if s.hold < HOLD_MAX then (s.(hold := s.hold + 1), Taken) else (s, TakeFull)
    else if s.value > 0 || s.owner.None? then
      (s.(value := s.value - 1, owner := Some(t), original := Prio(s, t), hold := s.hold + 1), Taken)
    else if !mayWait then (s, TimedOut)
    else
      var o := s.owner.value;
      var prio := if Prio(s, t) < Prio(s, o) then s.prio[o := Prio(s, t)] else s.prio;
      (s.(prio := prio, waiters := InsertByPriority(s.waiters, Waiter(s, t))), Suspended)
  }

  /** rt_mutex_release by thread t. */
  function Release(s: State, t: nat): (State, ReleaseResult) {
    if s.owner != Some(t) then (s, NotOwner)
    else if s.hold != 1 then (s.(hold := s.hold - 1), Kept)
    else
      var r := s.(prio := if s.original != Prio(s, t) then s.prio[t := s.original] else s.prio, hold := 0);
      if s.waiters != [] then
        var w := s.waiters[0];
        (r.(owner := Some(w.id), original := Prio(r, w.id), hold := 1, waiters := s.waiters[1..]), Handed(w.id))
      else
        (r.(value := s.value + 1, owner := None, original := NO_PRIORITY), Freed)
  }

  datatype Event = TakeEvent(t: nat, mayWait: bool) | ReleaseEvent(t: nat) | TimeoutEvent(t: nat)

  ghost predicate Enabled(s: State, e: Event) {
    match e
    case TakeEvent(t, _) => t in s.prio && t !in Ids(s.waiters)
    case ReleaseEvent(t) => t in s.prio && t !in Ids(s.waiters)
    case TimeoutEvent(t) => true
  }

  function Next(s: State, e: Event): State {
    match e
    case TakeEvent(t, mayWait) => Take(s, t, mayWait).0
    case ReleaseEvent(t) => Release(s, t).0
    case TimeoutEvent(t) => s.(waiters := Without(s.waiters, t))
  }

  /** Free, unowned and unheld are one and the same; somebody waits only for an owner. */
  ghost predicate OwnedOrFree(s: State) {
    && 0 <= s.hold <= HOLD_MAX
    && (s.value == 1 <==> s.owner.None?) && (s.value == 0 <==> s.owner.Some?)
    && (s.hold == 0 <==> s.owner.None?) && (s.waiters != [] ==> s.owner.Some?)
  }

  /** Outside the mutex every thread has its own priority `base`; waiters queue by it. */
  ghost predicate Priorities(s: State, base: map<nat, nat>) {
    && s.prio.Keys == base.Keys
    && (forall t | t in base && s.owner != Some(t) :: s.prio[t] == base[t])
    && (forall w | w in s.waiters :: w.id in base && w.priority == base[w.id])
    && Sorted(s.waiters) && DistinctIds(s.waiters)
  }

  /** The owner inherits: it is at least as urgent as every waiter, and what it will get back on its
      final release is its own priority. */
  ghost predicate Inherits(s: State, base: map<nat, nat>) {
    s.owner.Some? ==>
      var o := s.owner.value;
      && o in base && o in s.prio && o !in Ids(s.waiters)
      && s.original == base[o] && s.prio[o] <= base[o]
      && forall w | w in s.waiters :: s.prio[o] <= w.priority
  }

  ghost predicate Inv(s: State, base: map<nat, nat>) {
    OwnedOrFree(s) && Priorities(s, base) && Inherits(s, base)
  }

  lemma {:induction false} TakeKeeps(s: State, base: map<nat, nat>, t: nat, mayWait: bool)
    requires Inv(s, base) && Enabled(s, TakeEvent(t, mayWait))
    ensures Inv(Take(s, t, mayWait).0, base)
  {
    hide InsertByPriority, Sorted, DistinctIds, Ids;
    if s.owner != Some(t) && s.value == 0 && mayWait {
      var w := Waiter(s, t);
      EnqueueIds(s.waiters, w, Flag.Prio);
      var k := PlaceOf(s.waiters, w, Flag.Prio);
      assert Enqueue(s.waiters, w, Flag.Prio) == InsertByPriority(s.waiters, w);
    }
  }

  lemma {:induction false} ReleaseKeeps(s: State, base: map<nat, nat>, t: nat)
    requires Inv(s, base) && Enabled(s, ReleaseEvent(t))
    ensures Inv(Release(s, t).0, base)
    // the final release gives the thread its own priority back
    ensures Release(s, t).1.Freed? || Release(s, t).1.Handed? ==>
      t in Release(s, t).0.prio && Release(s, t).0.prio[t] == base[t]
    // a hand-over goes to the most urgent waiter
    ensures Release(s, t).1.Handed? ==> forall w | w in s.waiters :: base[Release(s, t).1.id] <= w.priority
  {
    if s.owner == Some(t) && s.hold == 1 && s.waiters != [] {
      DropFirst(s.waiters);
      FirstIsMostUrgent(s.waiters);
      assert s.waiters[0] in s.waiters;
      assert forall w | w in s.waiters[1..] :: w in s.waiters;
    }
  }

  /** The owner takes again up to 255 times, and is refused the next time.  Nobody else gets an owned
      mutex: the call fails at once exactly when it may not wait, else its thread queues by priority and
      the owner becomes at least as urgent. */
  lemma {:induction false} TakeOutcome(s: State, base: map<nat, nat>, t: nat, mayWait: bool)
    requires Inv(s, base) && Enabled(s, TakeEvent(t, mayWait))
    ensures var (r, out) := Take(s, t, mayWait);
      && (out.Taken? <==> s.owner.None? || (s.owner.value == t && s.hold < 255))
      && (out.TakeFull? <==> s.owner.Some? && s.owner.value == t && s.hold == 255)
      && (out.TimedOut? <==> s.owner.Some? && s.owner.value != t && !mayWait)
      && (out.Suspended? <==> s.owner.Some? && s.owner.value != t && mayWait)
      && (out.Taken? ==> r.owner == Some(t) && r.hold == s.hold + 1 && r.waiters == s.waiters && r.prio == s.prio)
      && (out.TakeFull? || out.TimedOut? ==> r == s)
      && (out.Suspended? ==>
        && r == s.(prio := r.prio, waiters := r.waiters)
        && (exists k :: JoinedAt(s.waiters, r.waiters, Thread(t, base[t], 0, 0), Flag.Prio, k))
        && var o := s.owner.value;
           && r.prio == s.prio[o := r.prio[o]] && o in s.prio
           && r.prio[o] == if base[t] < s.prio[o] then base[t] else s.prio[o])
  {
    hide InsertByPriority, Sorted, DistinctIds;
    if s.owner.Some? && s.owner.value != t {
      assert Waiter(s, t) == Thread(t, base[t], 0, 0);
      JoinedBy(Side(s.waiters, {}), Waiter(s, t), Flag.Prio);
      assert s.prio[s.owner.value := s.prio[s.owner.value]] == s.prio;
    }
  }

  /** Only the owner can release.  With takes left it stays the owner; the last release gives the mutex
      to the thread that waits first, and frees it if none does. */
  lemma {:induction false} ReleaseOutcome(s: State, base: map<nat, nat>, t: nat)
    requires Inv(s, base) && Enabled(s, ReleaseEvent(t))
    ensures var (r, out) := Release(s, t);
      && (out.NotOwner? <==> s.owner.None? || s.owner.value != t)
      && (out.Kept? <==> s.owner.Some? && s.owner.value == t && s.hold > 1)
      && (out.Handed? <==> s.owner.Some? && s.owner.value == t && s.hold == 1 && |s.waiters| > 0)
      && (out.Freed? <==> s.owner.Some? && s.owner.value == t && s.hold == 1 && |s.waiters| == 0)
      && (out.NotOwner? ==> r == s)
      && (out.Kept? ==> r == s.(hold := r.hold) && r.hold + 1 == s.hold)
      && (out.Handed? || out.Freed? ==> r.prio == s.prio[t := base[t]])
      && (out.Handed? ==>
        && s.waiters == [s.waiters[0]] + r.waiters && out.id == s.waiters[0].id && r.owner == Some(out.id) && r.hold == 1)
      && (out.Freed? ==> r.owner.None? && r.hold == 0 && r.waiters == [])
  {
    hide Sorted, DistinctIds, Ids;
    if s.owner == Some(t) {
      assert s.original == base[t];
      assert s.original == Prio(s, t) ==> s.prio[t := base[t]] == s.prio;
    }
  }

  /** A timeout takes only its thread out of the wait list; owner and priorities stay. */
  lemma {:induction false} TimeoutOutcome(s: State, t: nat)
    ensures var r := Next(s, TimeoutEvent(t)); r == s.(waiters := r.waiters) && exists k :: LeftAt(s.waiters, r.waiters, t, k)
  {
    LeftBy(Side(s.waiters, {}), t);
  }

  lemma {:induction false} FirstIsMostUrgent(s: seq<Thread>)
    requires Sorted(s) && s != []
    ensures forall w | w in s :: s[0].priority <= w.priority
  {
  }

  lemma {:induction false} StepKeeps(s: State, base: map<nat, nat>, e: Event)
    requires Inv(s, base) && Enabled(s, e)
    ensures Inv(Next(s, e), base)
  {
    hide Take, Release, Sorted, DistinctIds, Ids;
    match e
    case TakeEvent(t, mayWait) => TakeKeeps(s, base, t, mayWait);
    case ReleaseEvent(t) => ReleaseKeeps(s, base, t);
    case TimeoutEvent(t) => WithoutIds(s.waiters, t);
  }

  /* ---------- runs ---------- */

  ghost predicate Run(s: State, es: seq<Event>)
    decreases |es|
  {
    es == [] || (Enabled(s, es[0]) && Run(Next(s, es[0]), es[1..]))
  }

  function After(s: State, es: seq<Event>): State
    decreases |es|
  {
    if es == [] then s else After(Next(s, es[0]), es[1..])
  }

  /** Successful takes minus successful releases of thread t in one step; a hand-over is the new
      owner's take. */
  function Net(s: State, e: Event, t: nat): int {
    match e
    case TakeEvent(u, mayWait) => if u == t && Take(s, u, mayWait).1.Taken? then 1 else 0
    case ReleaseEvent(u) =>
      var r := Release(s, u).1;
      (if u == t && !r.NotOwner? then -1 else 0) + (if r.Handed? && r.id == t then 1 else 0)
    case TimeoutEvent(_) => 0
  }

  function AllNet(s: State, es: seq<Event>, t: nat): int
    decreases |es|
  {
    if es == [] then 0 else Net(s, es[0], t) + AllNet(Next(s, es[0]), es[1..], t)
  }

  function HoldOf(s: State, t: nat): int {
    if s.owner == Some(t) then s.hold else 0
  }

  lemma {:induction false} NetStep(s: State, base: map<nat, nat>, e: Event, t: nat)
    requires Inv(s, base) && Enabled(s, e)
    ensures HoldOf(Next(s, e), t) == HoldOf(s, t) + Net(s, e, t)
  {
    hide Priorities, InsertByPriority, Without;
    if e.ReleaseEvent? && s.waiters != [] {
      assert s.waiters[0].id in Ids(s.waiters);
    }
  }

  /** Over every run the mutex is safe, and `hold` is the owner's net number of takes: exactly one
      thread, the owner, has takes that it has not released. */
  lemma {:induction false} RunKeeps(s: State, base: map<nat, nat>, es: seq<Event>, t: nat)
    requires Inv(s, base) && Run(s, es)
    ensures Inv(After(s, es), base)
    ensures HoldOf(After(s, es), t) == HoldOf(s, t) + AllNet(s, es, t)
    decreases |es|
  {
    hide OwnedOrFree, Priorities, Inherits, Next, Net, HoldOf, Enabled;
    if es != [] {
      StepKeeps(s, base, es[0]);
      NetStep(s, base, es[0], t);
      RunKeeps(Next(s, es[0]), base, es[1..], t);
    }
  }

  /** The owner's priority is exactly the inherited one: its own or, if that is more urgent, that of the
      first waiter, who is the most urgent. */
  ghost predicate Exact(s: State, base: map<nat, nat>) {
    s.owner.Some? && s.owner.value in base && s.owner.value in s.prio ==>
      var own := base[s.owner.value];
      s.prio[s.owner.value] == if s.waiters != [] && s.waiters[0].priority < own then s.waiters[0].priority else own
  }

  lemma {:induction false} TakeExact(s: State, base: map<nat, nat>, t: nat, mayWait: bool)
    requires Inv(s, base) && Enabled(s, TakeEvent(t, mayWait)) && Exact(s, base)
    ensures Exact(Take(s, t, mayWait).0, base)
  {
    hide Sorted, DistinctIds, Ids;
  }

  lemma {:induction false} ReleaseExact(s: State, base: map<nat, nat>, t: nat)
    requires Inv(s, base) && Enabled(s, ReleaseEvent(t)) && Exact(s, base)
    ensures Exact(Release(s, t).0, base)
  {
    if s.owner == Some(t) && s.hold == 1 && s.waiters != [] {
      var w := s.waiters[0];
      assert w in s.waiters && w.id in Ids(s.waiters);
      FirstIsMostUrgent(s.waiters);
      assert forall u | u in s.waiters[1..] :: u in s.waiters;
    }
  }

  /** It is not the first waiter who gives up, or this one was not more urgent than the owner itself, or
      the next one is just as urgent. */
  ghost predicate TimeoutSpares(s: State, base: map<nat, nat>, t: nat) {
    || s.owner.None? || s.waiters == [] || s.waiters[0].id != t
    || (s.owner.value in base && base[s.owner.value] <= s.waiters[0].priority)
    || (|s.waiters| > 1 && s.waiters[1].priority == s.waiters[0].priority)
  }

  /** A timeout keeps the priority exact exactly when this holds. */
  lemma {:induction false} TimeoutExactIff(s: State, base: map<nat, nat>, t: nat)
    requires Inv(s, base) && Exact(s, base)
    ensures Exact(Next(s, TimeoutEvent(t)), base) <==> TimeoutSpares(s, base, t)
  {
    hide DistinctIds, Ids;
    if s.waiters != [] {
      assert |s.waiters| > 1 ==> s.waiters[1..][0] == s.waiters[1];
    }
  }

  lemma {:induction false} ExactStep(s: State, base: map<nat, nat>, e: Event)
    requires Inv(s, base) && Enabled(s, e) && Exact(s, base) && (e.TimeoutEvent? ==> TimeoutSpares(s, base, e.t))
    ensures Exact(Next(s, e), base)
  {
    hide Inv, Exact, Take, Release, Enabled, TimeoutSpares;
    match e
    case TakeEvent(t, mayWait) => TakeExact(s, base, t, mayWait);
    case ReleaseEvent(t) => ReleaseExact(s, base, t);
    case TimeoutEvent(t) => TimeoutExactIff(s, base, t);
  }

  /** Over every run in which every timeout meets that condition, and so over every run without
      timeouts, the owner's priority is exactly the inherited one. */
  lemma {:induction false} RunExact(s: State, base: map<nat, nat>, es: seq<Event>)
    requires Inv(s, base) && Run(s, es) && Exact(s, base)
    requires forall i | 0 <= i < |es| && es[i].TimeoutEvent? :: TimeoutSpares(After(s, es[..i]), base, es[i].t)
    ensures Exact(After(s, es), base)
    decreases |es|
  {
    hide Inv, Exact, TimeoutSpares, Take, Release, Enabled;
    if es != [] {
      var r := Next(s, es[0]);
      StepKeeps(s, base, es[0]);
      assert es[..0] == [];
      ExactStep(s, base, es[0]);
      forall i | 0 <= i < |es[1..]| && es[1..][i].TimeoutEvent? ensures TimeoutSpares(After(r, es[1..][..i]), base, es[1..][i].t) {
        assert es[..i + 1][0] == es[0] && es[..i + 1][1..] == es[1..][..i] && es[i + 1] == es[1..][i];
        assert After(s, es[..i + 1]) == After(r, es[1..][..i]);
      }
      RunExact(r, base, es[1..]);
    }
  }

  /** Inheritance is not undone when a waiter gives up: after these three steps from a free mutex the
      owner is more urgent than its own priority although nobody waits any more.  Its final release
      still restores it. */
  lemma {:induction false} BoostOutlivesTimeout(low: nat, high: nat)
    requires high < low
    ensures var base := map[0 := low, 1 := high];
      var start := State(1, None, 0, NO_PRIORITY, [], base);
      var es := [TakeEvent(0, false), TakeEvent(1, true), TimeoutEvent(1)];
      var s := After(start, es);
      && Run(start, es) && s.owner == Some(0) && s.waiters == []
      && 0 in s.prio && s.prio[0] == high < base[0]
      && var r := Release(s, 0).0; 0 in r.prio && r.prio[0] == base[0]
  {
    var base := map[0 := low, 1 := high];
    var start := State(1, None, 0, NO_PRIORITY, [], base);
    var es := [TakeEvent(0, false), TakeEvent(1, true), TimeoutEvent(1)];
    var s1 := Next(start, es[0]);
    var s2 := Next(s1, es[1]);
    var s3 := Next(s2, es[2]);
    assert s1 == State(0, Some(0), 1, low, [], base);
    assert s2 == State(0, Some(0), 1, low, [Thread(1, high, 0, 0)], base[0 := high]);
    assert s3 == State(0, Some(0), 1, low, [], base[0 := high]);
    assert es[1..] == [es[1], es[2]] && es[1..][1..] == [es[2]] && es[1..][1..][1..] == [];
    assert After(s2, es[1..][1..]) == After(s3, []) && Run(s2, es[1..][1..]);
    assert After(s1, es[1..]) == After(s2, es[1..][1..]) && Run(s1, es[1..]);
  }

  lemma {:induction false} InitialInv(base: map<nat, nat>)
    ensures Inv(State(1, None, 0, NO_PRIORITY, [], base), base)
  {
  }
}

module Mutex {
  import opened WaitList
  import Spec = MutexSpec

  class Mutex {
    var value: int
    var owner: Spec.Option<nat>
    var hold: int
    var original: nat                 // original_priority
    var waiters: seq<Thread>          // parent.suspend_thread
    var priority: map<nat, nat>       // current_priority of the threads
    ghost const base: map<nat, nat>

    ghost function View(): Spec.State
      reads this
    {
      Spec.State(value, owner, hold, original, waiters, priority)
    }

    ghost predicate Valid()
      reads this
    {
      Spec.Inv(View(), base)
    }

    constructor (priority: map<nat, nat>)
      ensures Valid() && base == priority && View() == Spec.State(1, Spec.None, 0, Spec.NO_PRIORITY, [], priority)
    {
      value, owner, hold, original, waiters := 1, Spec.None, 0, Spec.NO_PRIORITY, [];
      this.priority, base := priority, priority;
      Spec.InitialInv(priority);
    }

    /** rt_mutex_take up to the point where the calling thread is suspended or the call is over. */
    method Take(t: nat, time: int) returns (r: Spec.TakeResult)
      requires Valid() && Spec.Enabled(View(), Spec.TakeEvent(t, time != 0))
      modifies this
      ensures Valid() && (View(), r) == Spec.Take(old(View()), t, time != 0)
    {
      hide Spec.Priorities, InsertByPriority;
      Spec.StepKeeps(View(), base, Spec.TakeEvent(t, time != 0));
      if owner == Spec.Some(t) {
        if hold < Spec.HOLD_MAX {
          hold := hold + 1;
          return Spec.Taken;
        }
        return Spec.TakeFull;
      }
      var mine := Priority(t);
      if value > 0 {
        value := value - 1;
        owner, original := Spec.Some(t), mine;
        if hold < Spec.HOLD_MAX {
          hold := hold + 1;
        } else {
          assert false;   // a free mutex is not held
        }
        return Spec.Taken;
      }
      if time == 0 {
        return Spec.TimedOut;
      }
      if mine < Priority(owner.value) {
        priority := priority[owner.value := mine];
      }
      waiters := Suspend(waiters, Thread(t, mine, 0, 0), Flag.Prio);
      return Spec.Suspended;
    }

    function Priority(t: nat): nat
      reads this
    {
      if t in priority then priority[t] else Spec.NO_PRIORITY
    }

    method Release(t: nat) returns (r: Spec.ReleaseResult)
      requires Valid() && Spec.Enabled(View(), Spec.ReleaseEvent(t))
      modifies this
      ensures Valid() && (View(), r) == Spec.Release(old(View()), t)
    {
      hide Spec.Priorities;
      Spec.StepKeeps(View(), base, Spec.ReleaseEvent(t));
      if owner != Spec.Some(t) {
        return Spec.NotOwner;
      }
      hold := hold - 1;
      if hold != 0 {
        return Spec.Kept;
      }
      if original != Priority(t) {
        priority := priority[t := original];
      }
      if waiters != [] {
        var w := waiters[0];
        owner, original := Spec.Some(w.id), Priority(w.id);
        hold := hold + 1;
        waiters := waiters[1..];   // rt_ipc_list_resume
        return Spec.Handed(w.id);
      }
      if value < Spec.VALUE_MAX {
        value := value + 1;
      } else {
        assert false;   // an owned mutex has value 0
      }
      owner, original := Spec.None, Spec.NO_PRIORITY;
      return Spec.Freed;
    }

    /** rt_thread_timeout of a waiting thread. */
    method Timeout(t: nat)
      requires Valid()
      modifies `waiters
      ensures Valid() && View() == old(View()).(waiters := Without(old(waiters), t))
    {
      hide Spec.Inv;
      Spec.StepKeeps(View(), base, Spec.TimeoutEvent(t));
      waiters := Without(waiters, t);
    }
  }
}
