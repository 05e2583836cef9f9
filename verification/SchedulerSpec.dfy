/** The single-core scheduler (scheduler.c, with the parts of thread.c and clock.c that drive it): 32
    ready lists, one bit for each list that is not empty, and the running thread.  A smaller number is
    a more urgent priority.  A step is one region the source runs with interrupts disabled. */
module SchedulerSpec {
  import opened FirstSet
  import opened Nodes

  const PRIORITIES := 32            // RT_THREAD_PRIORITY_MAX
  const LOCK_MAX := 0x7FFF          // the lock count is an rt_int16_t
  const TICK_LIMIT := 0x1_0000_0000 // remaining_tick is an rt_ubase_t

  /* RT_THREAD_INIT, READY, SUSPEND, RUNNING and CLOSE */
  datatype Stat = Init | Ready | Suspend | Running | Closed

  /** The fields of a thread; `yielding` is RT_THREAD_STAT_YIELD. */
  datatype Tcb = Tcb(prio: nat, stat: Stat, yielding: bool, remaining: nat, slice: nat)

  datatype State = State(lists: seq<seq<nat>>, group: bv32, current: nat, lock: int, th: map<nat, Tcb>)

  /** Take thread t out of a list. */
  function Drop(l: seq<nat>, t: nat): seq<nat> {
    if l == [] then [] else if l[0] == t then l[1..] else [l[0]] + Drop(l[1..], t)
  }

  function Set(s: State, t: nat, b: Tcb): State {
    s.(th := s.th[t := b])
  }

  /** rt_schedule_insert_thread: to the end of the ready list; the current thread just runs. */
  function Insert(s: State, t: nat): State {
    if t !in s.th || s.th[t].prio >= |s.lists| then s
    else if t == s.current then Set(s, t, s.th[t].(stat := Running))
    else
      var p := s.th[t].prio;
      Set(s, t, s.th[t].(stat := Ready)).(lists := s.lists[p := s.lists[p] + [t]], group := SetMask(s.group, Mask(p)))
  }

  /** rt_schedule_remove_thread */
  function Remove(s: State, t: nat): State {
    if t !in s.th || s.th[t].prio >= |s.lists| then s
    else
      var p := s.th[t].prio;
      var l := Drop(s.lists[p], t);
      s.(lists := s.lists[p := l], group := if l == [] then ClearMask(s.group, Mask(p)) else s.group)
  }

  /** _get_highest_priority_thread */
  function Highest(s: State): nat {
    if s.group == 0 then 0 else Ffs(s.group) - 1
  }

  /** Does the current thread stay although the list of priority p is not empty? */
  predicate Stays(c: Tcb, p: nat) {
    c.stat == Running && (c.prio < p || (c.prio == p && !c.yielding))
  }

  /** rt_schedule with a ready thread `to` at the head of the most urgent list p. */
  function Switch(s: State, to: nat): State
    requires s.current in s.th
  {
    var from := s.current;
    var c := s.th[from];
    var s1 := if c.stat == Running then Set(s, from, c.(yielding := false)) else s;
    var s2 := s1.(current := to);
    var s3 := if c.stat == Running then Insert(s2, from) else s2;
    var s4 := Remove(s3, to);
    if to in s4.th then Set(s4, to, s4.th[to].(stat := Running)) else s4
  }

  /** rt_schedule */
  function Schedule(s: State): State {
    if s.lock != 0 || s.group == 0 || s.current !in s.th then s
    else
      var p := Highest(s);
      if p >= |s.lists| || s.lists[p] == [] then s
      else if Stays(s.th[s.current], p) then
        var r := Remove(Set(s, s.current, s.th[s.current].(yielding := false)), s.current);
        Set(r, s.current, s.th[s.current].(yielding := false, stat := Running))
      else Switch(s, s.lists[p][0])
  }

  /** The region of rt_tick_increase: the last tick of a slice renews it and marks the thread.  Only
      behind the region, with interrupts enabled again, does the last tick call rt_schedule. */
  function Tick(s: State): State {
    if s.current !in s.th then s
    else
      var c := s.th[s.current];
      var left := if c.remaining == 0 then TICK_LIMIT - 1 else c.remaining - 1;
      if left == 0 then Set(s, s.current, c.(remaining := c.slice, yielding := true))
      else Set(s, s.current, c.(remaining := left))
  }

  /** rt_thread_yield */
  function Yield(s: State): State {
    if s.current !in s.th then s
    else
      var c := s.th[s.current];
      Schedule(Set(s, s.current, c.(remaining := c.slice, yielding := true)))
  }

  /** rt_thread_suspend */
  function SuspendThread(s: State, t: nat): State {
    if t !in s.th || (s.th[t].stat != Ready && s.th[t].stat != Running) then s
    else Set(Remove(s, t), t, s.th[t].(stat := Suspend))
  }

  /** rt_thread_resume */
  function Resume(s: State, t: nat): State {
    if t !in s.th || s.th[t].stat != Suspend then s else Insert(s, t)
  }

  /** rt_thread_control with RT_THREAD_CTRL_CHANGE_PRIORITY */
  function ChangePriority(s: State, t: nat, p: nat): State {
    if t !in s.th then s
    else if s.th[t].stat == Ready then Insert(Set(Remove(s, t), t, s.th[t].(prio := p)), t)
    else Set(s, t, s.th[t].(prio := p))
  }

  /** The region of rt_exit_critical; behind it the last level calls rt_schedule. */
  function Exit(s: State): State {
    s.(lock := if s.lock - 1 <= 0 then 0 else s.lock - 1)
  }

  datatype Event =
    | ScheduleEvent | TickEvent | YieldEvent
    | SuspendEvent(t: nat) | ResumeEvent(t: nat) | ChangeEvent(t: nat, p: nat)
    | EnterEvent | ExitEvent

  predicate Enabled(s: State, e: Event) {
    match e
    case ChangeEvent(_, p) => p < PRIORITIES
    case EnterEvent => s.lock < LOCK_MAX
    case _ => true
  }

  function Next(s: State, e: Event): State {
    match e
    case ScheduleEvent => Schedule(s)
    case TickEvent => Tick(s)
    case YieldEvent => Yield(s)
    case SuspendEvent(t) => SuspendThread(s, t)
    case ResumeEvent(t) => Resume(s, t)
    case ChangeEvent(t, p) => ChangePriority(s, t, p)
    case EnterEvent => s.(lock := s.lock + 1)
    case ExitEvent => Exit(s)
  }

  /* ---------- the invariant ---------- */

  ghost predicate Shape(s: State) {
    && |s.lists| == PRIORITIES && s.current in s.th && 0 <= s.lock <= LOCK_MAX
    && forall t | t in s.th :: s.th[t].prio < PRIORITIES
  }

  /** Bit p of the ready group is set exactly when ready list p is not empty. */
  ghost predicate Bits(group: bv32, lists: seq<seq<nat>>) {
    forall p | 0 <= p < |lists| :: HasBit(group, p) <==> lists[p] != []
  }

  /** Every ready thread is in the list of its priority, once, and nothing else is in any list. */
  ghost predicate Queued(lists: seq<seq<nat>>, th: map<nat, Tcb>) {
    && (forall p | 0 <= p < |lists| :: NoRepeats(lists[p]))
    && (forall p, t | 0 <= p < |lists| :: t in lists[p] <==> t in th && th[t].stat == Ready && th[t].prio == p)
  }

  /** Only the current thread can be running, and it is in no list. */
  ghost predicate OneRuns(s: State) {
    && (s.current in s.th ==> s.th[s.current].stat != Ready)
    && forall t | t in s.th && t != s.current :: s.th[t].stat != Running
  }

  ghost predicate Inv(s: State) {
    Shape(s) && Bits(s.group, s.lists) && Queued(s.lists, s.th) && OneRuns(s)
  }

  /* ---------- the ready lists ---------- */

  lemma {:induction false} DropFacts(l: seq<nat>, t: nat)
    requires NoRepeats(l)
    ensures NoRepeats(Drop(l, t)) && forall u :: u in Drop(l, t) <==> u in l && u != t
    ensures t !in l ==> Drop(l, t) == l
  {
    if l != [] {
      assert forall u :: u in l <==> u == l[0] || u in l[1..] by { assert l == [l[0]] + l[1..]; }
      DropFacts(l[1..], t);
      if l[0] != t {
        ConsNoRepeats(l[0], Drop(l[1..], t));
      }
    }
  }

  lemma {:induction false} ConsNoRepeats(x: nat, l: seq<nat>)
    requires NoRepeats(l) && x !in l
    ensures NoRepeats([x] + l)
  {
  }

  lemma {:induction false} SnocNoRepeats(l: seq<nat>, x: nat)
    requires NoRepeats(l) && x !in l
    ensures NoRepeats(l + [x]) && forall u :: u in l + [x] <==> u in l || u == x
  {
  }

  lemma {:induction false} BitsInsert(group: bv32, lists: seq<seq<nat>>, p: nat, l: seq<nat>)
    requires Bits(group, lists) && |lists| == PRIORITIES && p < PRIORITIES && l != []
    ensures Bits(SetMask(group, Mask(p)), lists[p := l])
  {
    hide HasBit, SetMask, Mask;
    forall q | 0 <= q < PRIORITIES ensures HasBit(SetMask(group, Mask(p)), q) <==> lists[p := l][q] != [] {
      SetBit(group, p, q);
    }
  }

  lemma {:induction false} BitsRemove(group: bv32, lists: seq<seq<nat>>, p: nat, l: seq<nat>)
    requires Bits(group, lists) && |lists| == PRIORITIES && p < PRIORITIES && (l != [] ==> lists[p] != [])
    ensures Bits(if l == [] then ClearMask(group, Mask(p)) else group, lists[p := l])
  {
    hide HasBit, ClearMask, Mask;
    forall q | 0 <= q < PRIORITIES && l == []
      ensures HasBit(ClearMask(group, Mask(p)), q) <==> lists[p := l][q] != []
    {
      ClearBit(group, p, q);
    }
  }

  lemma {:induction false} QueuedInsert(lists: seq<seq<nat>>, th: map<nat, Tcb>, t: nat)
    requires Queued(lists, th) && t in th && th[t].stat != Ready && th[t].prio < |lists|
    ensures var p := th[t].prio; Queued(lists[p := lists[p] + [t]], th[t := th[t].(stat := Ready)])
  {
    hide NoRepeats;
    var p := th[t].prio;
    SnocNoRepeats(lists[p], t);
  }

  lemma {:induction false} QueuedRemove(lists: seq<seq<nat>>, th: map<nat, Tcb>, t: nat, b: Tcb)
    requires Queued(lists, th) && t in th && th[t].prio < |lists| && b.stat != Ready
    ensures var p := th[t].prio; Queued(lists[p := Drop(lists[p], t)], th[t := b])
  {
    hide NoRepeats, Drop;
    var p := th[t].prio;
    DropFacts(lists[p], t);
  }

  /* ---------- every step keeps the invariant ---------- */

  lemma {:induction false} InsertKeeps(s: State, t: nat)
    requires Shape(s) && Bits(s.group, s.lists) && Queued(s.lists, s.th)
    requires t in s.th && s.th[t].stat != Ready
    requires forall u | u in s.th && u != s.current && u != t :: s.th[u].stat != Running
    requires t != s.current ==> s.th[s.current].stat != Ready
    ensures Inv(Insert(s, t))
  {
    hide Bits, HasBit, SetMask, Mask, NoRepeats;
    if t == s.current {
      assert s.lists[s.th[t].prio := Drop(s.lists[s.th[t].prio], t)] == s.lists by { Absent(s.lists, s.th, t); }
      QueuedRemove(s.lists, s.th, t, s.th[t].(stat := Running));
    } else {
      QueuedInsert(s.lists, s.th, t);
      BitsInsert(s.group, s.lists, s.th[t].prio, s.lists[s.th[t].prio] + [t]);
    }
  }

  lemma {:induction false} Absent(lists: seq<seq<nat>>, th: map<nat, Tcb>, t: nat)
    requires Queued(lists, th) && t in th && th[t].stat != Ready && th[t].prio < |lists|
    ensures lists[th[t].prio := Drop(lists[th[t].prio], t)] == lists
  {
    hide NoRepeats, Drop;
    DropFacts(lists[th[t].prio], t);
  }

  /** Removing a thread that is in no list changes nothing. */
  lemma {:induction false} RemoveAbsent(s: State, t: nat)
    requires Shape(s) && Bits(s.group, s.lists) && Queued(s.lists, s.th) && t in s.th && s.th[t].stat != Ready
    ensures Remove(s, t) == s
  {
    hide Queued, ClearMask, Mask;
    Absent(s.lists, s.th, t);
    var p := s.th[t].prio;
    if s.lists[p] == [] {
      assert !HasBit(s.group, p);
      ClearAbsent(s.group, Mask(p));
    }
  }

  /** Take a thread out of its list and give it a state in which it is in none. */
  lemma {:induction false} RemoveKeeps(s: State, t: nat, b: Tcb)
    requires Shape(s) && Bits(s.group, s.lists) && Queued(s.lists, s.th) && t in s.th
    requires b.stat != Ready && b.prio < PRIORITIES
    requires s.th[s.current].stat != Ready || t == s.current
    requires forall u | u in s.th && u != s.current && u != t :: s.th[u].stat != Running
    requires b.stat == Running ==> t == s.current
    ensures Inv(Set(Remove(s, t), t, b))
  {
    hide Bits, HasBit, ClearMask, Mask, NoRepeats, Drop;
    var p := s.th[t].prio;
    assert NoRepeats(s.lists[p]);
    DropFacts(s.lists[p], t);
    QueuedRemove(s.lists, s.th, t, b);
    BitsRemove(s.group, s.lists, p, Drop(s.lists[p], t));
  }

  lemma {:induction false} SetKeeps(s: State, t: nat, b: Tcb)
    requires Inv(s) && t in s.th && b.stat == s.th[t].stat && b.prio < PRIORITIES
    requires b.stat == Ready ==> b.prio == s.th[t].prio
    ensures Inv(Set(s, t, b))
  {
    hide Bits, NoRepeats;
  }

  /** With some thread ready, the highest list is not empty and no more urgent thread is ready. */
  lemma {:induction false} HighestFacts(s: State)
    requires Inv(s) && s.group != 0
    ensures var p := Highest(s);
      && p < PRIORITIES && s.lists[p] != [] && (forall q | 0 <= q < p :: s.lists[q] == [])
      && s.lists[p][0] in s.th && s.th[s.lists[p][0]].stat == Ready && s.th[s.lists[p][0]].prio == p
      && forall t | t in s.th && s.th[t].stat == Ready :: p <= s.th[t].prio
  {
    hide Ffs, HasBit, NoRepeats;
    FfsIsLowest(s.group);
    var p := Highest(s);
    assert s.lists[p][0] in s.lists[p];
    forall t | t in s.th && s.th[t].stat == Ready ensures p <= s.th[t].prio {
      assert t in s.lists[s.th[t].prio];
    }
  }

  /** Without a set bit nothing is ready. */
  lemma {:induction false} NothingReady(s: State)
    requires Inv(s) && s.group == 0
    ensures forall t | t in s.th :: s.th[t].stat != Ready
  {
    hide HasBit, NoRepeats;
    forall t | t in s.th && s.th[t].stat == Ready ensures false {
      var p := s.th[t].prio;
      assert t in s.lists[p];
      BitNotZero(s.group, p);
    }
  }

  lemma {:induction false} SwitchKeeps(s: State, to: nat)
    requires Inv(s) && to in s.th && s.th[to].stat == Ready
    ensures Inv(Switch(s, to)) && Switch(s, to).current == to && Switch(s, to).th[to].stat == Running
    ensures Switch(s, to).th.Keys == s.th.Keys
  {
    hide Bits, NoRepeats, Mask, SetMask, ClearMask, Insert, Remove, Queued;
    var from := s.current;
    var c := s.th[from];
    var s1 := if c.stat == Running then Set(s, from, c.(yielding := false)) else s;
    SetKeeps(s, from, c.(yielding := false));
    var s2 := s1.(current := to);
    var s3 := if c.stat == Running then Insert(s2, from) else s2;
    if c.stat == Running {
      LeaveCurrent(s1, to);
    }
    assert s3.current == to && s3.th.Keys == s.th.Keys && s3.th[to] == s.th[to] by { InsertFrame(s2, from); }
    RemoveKeeps(s3, to, s3.th[to].(stat := Running));
    RemoveFrame(s3, to);
  }

  lemma {:induction false} InsertFrame(s: State, t: nat)
    requires t in s.th
    ensures var r := Insert(s, t);
      && r.current == s.current && r.lock == s.lock && r.th.Keys == s.th.Keys && |r.lists| == |s.lists|
      && (forall u | u in s.th && u != t :: r.th[u] == s.th[u])
      && r.th[t] == s.th[t].(stat := r.th[t].stat)
  {
    hide Mask, SetMask;
    SameKeys(s.th, t, s.th[t].(stat := Running));
    SameKeys(s.th, t, s.th[t].(stat := Ready));
  }

  lemma {:induction false} SameKeys(th: map<nat, Tcb>, t: nat, b: Tcb)
    requires t in th
    ensures th[t := b].Keys == th.Keys
  {
  }

  lemma {:induction false} RemoveFrame(s: State, t: nat)
    ensures var r := Remove(s, t);
      r.current == s.current && r.lock == s.lock && r.th == s.th && |r.lists| == |s.lists|
  {
    hide Mask, ClearMask, Drop;
  }

  /** The running thread goes to the end of its list and another one becomes current. */
  lemma {:induction false} LeaveCurrent(s: State, to: nat)
    requires Inv(s) && s.th[s.current].stat == Running && to in s.th && s.th[to].stat == Ready
    ensures var r := Insert(s.(current := to), s.current);
      && Shape(r) && Bits(r.group, r.lists) && Queued(r.lists, r.th) && r.th[s.current].stat == Ready
      && forall u | u in r.th :: r.th[u].stat != Running
  {
    hide Bits, HasBit, SetMask, Mask, NoRepeats;
    var t := s.current;
    QueuedInsert(s.lists, s.th, t);
    BitsInsert(s.group, s.lists, s.th[t].prio, s.lists[s.th[t].prio] + [t]);
  }

  /** What a switch to the first thread of a list does to the lists and to the threads. */
  lemma {:induction false} SwitchEffect(s: State, to: nat)
    requires Inv(s) && to in s.th && s.th[to].stat == Ready
    ensures var r := Switch(s, to);
      var back := s.th[s.current].stat == Running;
      && |r.lists| == |s.lists| && r.lock == s.lock && r.th.Keys == s.th.Keys
      && (forall q | 0 <= q < PRIORITIES :: r.lists[q]
            == if q == s.th[to].prio then Drop(Joined(s, q, back), to) else Joined(s, q, back))
      && r.th[to] == s.th[to].(stat := Running)
      && r.th[s.current] == (if back then s.th[s.current].(stat := Ready, yielding := false) else s.th[s.current])
      && forall u | u in s.th && u != to && u != s.current :: r.th[u] == s.th[u]
  {
    hide Bits, NoRepeats, Mask, SetMask, ClearMask, Queued, Drop, HasBit;
  }

  /** List q with the current thread at its end, if that goes back there. */
  function Joined(s: State, q: nat, back: bool): seq<nat>
    requires q < |s.lists| && s.current in s.th
  {
    if back && s.th[s.current].prio == q then s.lists[q] + [s.current] else s.lists[q]
  }

  /** What rt_schedule does, unlocked and with some thread ready. */
  lemma {:induction false} ScheduleEffect(s: State)
    requires Inv(s) && s.lock == 0 && s.group != 0
    ensures var p, c := Highest(s), s.th[s.current];
      && p < PRIORITIES && s.lists[p] != [] && s.lists[p][0] in s.th
      && s.th[s.lists[p][0]].stat == Ready && s.th[s.lists[p][0]].prio == p
      && Schedule(s) == if Stays(c, p) then Set(s, s.current, c.(yielding := false)) else Switch(s, s.lists[p][0])
  {
    hide Bits, NoRepeats, Mask, SetMask, ClearMask, Drop, HasBit, Ffs, Switch, Queued, Highest;
    HighestFacts(s);
    var p, c := Highest(s), s.th[s.current];
    if Stays(c, p) {
      var b := Set(s, s.current, c.(yielding := false));
      SetKeeps(s, s.current, c.(yielding := false));
      hide Remove;
      RemoveAbsent(b, s.current);
    }
  }

  lemma {:induction false} ScheduleKeeps(s: State)
    requires Inv(s)
    ensures Inv(Schedule(s)) && Schedule(s).th.Keys == s.th.Keys && Schedule(s).lock == s.lock
    ensures s.lock != 0 || s.group == 0 ==> Schedule(s) == s
  {
    hide Bits, Queued, OneRuns, Switch, Remove, Stays;
    if s.lock == 0 && s.group != 0 {
      ScheduleEffect(s);
      var p, c := Highest(s), s.th[s.current];
      if Stays(c, p) {
        SetKeepsInv(s, s.current, c.(yielding := false));
      } else {
        SwitchKeeps(s, s.lists[p][0]);
        SwitchEffect(s, s.lists[p][0]);
      }
    }
  }

  lemma {:induction false} SetKeepsInv(s: State, t: nat, b: Tcb)
    requires Inv(s) && t in s.th && b == s.th[t].(yielding := b.yielding, remaining := b.remaining)
    ensures Inv(Set(s, t, b))
  {
    hide Bits, Queued, OneRuns;
    SetKeeps(s, t, b);
  }

  ghost predicate KeepsProcessor(s: State)
    requires s.current in s.th
  {
    var c := s.th[s.current];
    && c.stat == Running
    && forall t | t in s.th && s.th[t].stat == Ready :: c.prio < s.th[t].prio || (c.prio == s.th[t].prio && !c.yielding)
  }

  /** After rt_schedule, unlocked and with a thread ready, the thread that runs is at least as urgent
      as every ready thread.  A running thread keeps the processor exactly when it is more urgent than
      all of them, or as urgent as the best and not yielding. */
  lemma {:induction false} ScheduleIsRight(s: State)
    requires Inv(s) && s.lock == 0 && s.group != 0
    ensures var r := Schedule(s);
      && r.current in r.th && r.th[r.current].stat == Running
      && (forall t | t in r.th && r.th[t].stat == Ready :: r.th[r.current].prio <= r.th[t].prio)
      && (r.current == s.current <==> KeepsProcessor(s))
  {
    hide Bits, Queued, Switch, Highest;
    ScheduleEffect(s);
    HighestFacts(s);
    var p := Highest(s);
    if !Stays(s.th[s.current], p) {
      SwitchEffect(s, s.lists[p][0]);
      SwitchKeeps(s, s.lists[p][0]);
    }
  }

  lemma {:induction false} StepKeeps(s: State, e: Event)
    requires Inv(s) && Enabled(s, e)
    ensures Inv(Next(s, e)) && Next(s, e).th.Keys == s.th.Keys
  {
    hide Bits, Queued, Schedule, Remove, Insert, OneRuns;
    match e
    case ScheduleEvent => ScheduleKeeps(s);
    case TickEvent => TickKeeps(s);
    case YieldEvent => YieldKeeps(s);
    case SuspendEvent(t) => SuspendKeeps(s, t);
    case ResumeEvent(t) => ResumeKeeps(s, t);
    case ChangeEvent(t, p) => ChangeKeeps(s, t, p);
    case EnterEvent => LockKeeps(s, s.lock + 1);
    case ExitEvent => LockKeeps(s, Exit(s).lock);
  }

  lemma {:induction false} LockKeeps(s: State, n: int)
    requires Inv(s) && 0 <= n <= LOCK_MAX
    ensures Inv(s.(lock := n))
  {
    hide Bits, Queued;
  }

  lemma {:induction false} TickKeeps(s: State)
    requires Inv(s)
    ensures Inv(Tick(s)) && Tick(s).th.Keys == s.th.Keys
  {
    hide Bits, Queued, OneRuns;
    var c := s.th[s.current];
    var left := if c.remaining == 0 then TICK_LIMIT - 1 else c.remaining - 1;
    SetKeepsInv(s, s.current, c.(remaining := c.slice, yielding := true));
    SetKeepsInv(s, s.current, c.(remaining := left));
  }

  lemma {:induction false} YieldKeeps(s: State)
    requires Inv(s)
    ensures Inv(Yield(s)) && Yield(s).th.Keys == s.th.Keys
  {
    hide Bits, Queued, Schedule, OneRuns;
    var c := s.th[s.current];
    SetKeepsInv(s, s.current, c.(remaining := c.slice, yielding := true));
    ScheduleKeeps(Set(s, s.current, c.(remaining := c.slice, yielding := true)));
  }

  lemma {:induction false} SuspendKeeps(s: State, t: nat)
    requires Inv(s)
    ensures Inv(SuspendThread(s, t)) && SuspendThread(s, t).th.Keys == s.th.Keys
  {
    hide Bits, Queued, Remove;
    if t in s.th && (s.th[t].stat == Ready || s.th[t].stat == Running) {
      RemoveKeeps(s, t, s.th[t].(stat := Suspend));
      RemoveFrame(s, t);
    }
  }

  lemma {:induction false} ResumeKeeps(s: State, t: nat)
    requires Inv(s)
    ensures Inv(Resume(s, t)) && Resume(s, t).th.Keys == s.th.Keys
  {
    hide Bits, Queued, Insert;
    if t in s.th && s.th[t].stat == Suspend {
      InsertKeeps(s, t);
      InsertFrame(s, t);
    }
  }

  lemma {:induction false} ChangeKeeps(s: State, t: nat, p: nat)
    requires Inv(s) && p < PRIORITIES
    ensures Inv(ChangePriority(s, t, p)) && ChangePriority(s, t, p).th.Keys == s.th.Keys
  {
    hide Bits, HasBit, NoRepeats, Mask, SetMask, ClearMask, Drop;
    if t in s.th {
      if s.th[t].stat == Ready {
        hide Remove, Insert, Queued;
        var b := Set(Remove(s, t), t, s.th[t].(prio := p));
        RemoveFrame(s, t);
        RequeueKeeps(s, t, p);
        InsertFrame(b, t);
      } else {
        SetKeeps(s, t, s.th[t].(prio := p));
      }
    }
  }

  /** Between the removal and the insertion the thread still says READY; the insertion says so again. */
  lemma {:induction false} RequeueKeeps(s: State, t: nat, p: nat)
    requires Inv(s) && t in s.th && s.th[t].stat == Ready && p < PRIORITIES
    ensures Inv(Insert(Set(Remove(s, t), t, s.th[t].(prio := p)), t))
  {
    hide Bits, Queued, Mask, SetMask, ClearMask, Drop;
    var a := Set(Remove(s, t), t, s.th[t].(prio := p, stat := Suspend));
    RemoveKeeps(s, t, s.th[t].(prio := p, stat := Suspend));
    InsertKeeps(a, t);
    assert Insert(a, t) == Insert(Set(Remove(s, t), t, s.th[t].(prio := p)), t);
  }

  /** Suspending a ready or running thread takes it out of every list and changes no other thread. */
  lemma {:induction false} SuspendEffect(s: State, t: nat)
    requires Inv(s) && t in s.th && (s.th[t].stat == Ready || s.th[t].stat == Running)
    ensures var r := SuspendThread(s, t);
      && r.th == s.th[t := s.th[t].(stat := Suspend)] && r.current == s.current && r.lock == s.lock
      && |r.lists| == |s.lists| && forall q | 0 <= q < PRIORITIES :: r.lists[q] == Drop(s.lists[q], t)
  {
    hide Bits, NoRepeats, Mask, ClearMask, Drop;
    NotElsewhere(s, t);
  }

  /** A thread can only be in the list of its own priority. */
  lemma {:induction false} NotElsewhere(s: State, t: nat)
    requires Inv(s) && t in s.th
    ensures forall q | 0 <= q < PRIORITIES && q != s.th[t].prio :: Drop(s.lists[q], t) == s.lists[q]
  {
    hide Bits, NoRepeats, Drop;
    forall q | 0 <= q < PRIORITIES && q != s.th[t].prio ensures Drop(s.lists[q], t) == s.lists[q] {
      DropFacts(s.lists[q], t);
    }
  }


  /** A ready thread goes to the end of its new list, also when its priority stays the same; for any
      other thread only the number changes. */
  lemma {:induction false} ChangeEffect(s: State, t: nat, p: nat)
    requires Inv(s) && t in s.th && p < PRIORITIES
    ensures var r := ChangePriority(s, t, p);
      && r.current == s.current && r.lock == s.lock && |r.lists| == |s.lists|
      && r.th == s.th[t := s.th[t].(prio := p)]
      && (s.th[t].stat != Ready ==> r.lists == s.lists)
      && (s.th[t].stat == Ready ==> forall q | 0 <= q < PRIORITIES ::
            r.lists[q] == Drop(s.lists[q], t) + if q == p then [t] else [])
  {
    hide Bits, NoRepeats, Mask, SetMask, ClearMask, Drop;
    NotElsewhere(s, t);
  }

  /* ---------- fairness among equals ---------- */

  /** The threads in front of t in a list. */
  function Before(l: seq<nat>, t: nat): seq<nat> {
    if l == [] || l[0] == t then [] else [l[0]] + Before(l[1..], t)
  }

  /** Thread t waits in the ready list of its priority. */
  ghost predicate Waits(s: State, t: nat) {
    t in s.th && s.th[t].stat == Ready && s.th[t].prio < |s.lists|
  }

  /** The threads that run before t does, unless they leave. */
  ghost function Ahead(s: State, t: nat): seq<nat>
    requires Waits(s, t)
  {
    Before(s.lists[s.th[t].prio], t)
  }

  lemma {:induction false} BeforeSnoc(l: seq<nat>, t: nat, x: nat)
    requires t in l
    ensures Before(l + [x], t) == Before(l, t)
  {
    if l[0] != t {
      assert (l + [x])[1..] == l[1..] + [x];
      BeforeSnoc(l[1..], t, x);
    }
  }

  lemma {:induction false} BeforeDrop(l: seq<nat>, t: nat, x: nat)
    requires t in l && t != x
    ensures Before(Drop(l, x), t) == Drop(Before(l, t), x)
  {
    if l[0] != t && l[0] != x {
      BeforeDrop(l[1..], t, x);
      var d := [l[0]] + Drop(l[1..], x);
      assert d[1..] == Drop(l[1..], x);
    } else if l[0] == x {
      var b := [x] + Before(l[1..], t);
      assert b[1..] == Before(l[1..], t);
    }
  }

  /** Dropping shortens a list by at most the one thread. */
  lemma {:induction false} DropShrinks(l: seq<nat>, x: nat)
    ensures |Drop(l, x)| <= |l| && (forall u | u in l && u != x :: u in Drop(l, x)) && forall u | u in Drop(l, x) :: u in l
  {
    if l != [] && l[0] != x {
      DropShrinks(l[1..], x);
    }
  }

  /** Is thread t the target of a call from outside? */
  predicate ActsOn(e: Event, t: nat) {
    match e
    case SuspendEvent(u) => u == t
    case ResumeEvent(u) => u == t
    case ChangeEvent(u, _) => u == t
    case _ => false
  }

  /** From `a` to `b` nobody came in front of a waiting thread, and who went is `gone`. */
  ghost predicate OnlyLost(a: seq<nat>, b: seq<nat>, gone: set<nat>) {
    && |b| <= |a| && (forall u | u in b :: u in a)
    && forall u | u in a && u !in b :: u in gone
  }

  lemma {:induction false} LostTrans(a: seq<nat>, b: seq<nat>, c: seq<nat>, x: set<nat>, y: set<nat>)
    requires OnlyLost(a, b, x) && OnlyLost(b, c, y)
    ensures OnlyLost(a, c, x + y)
  {
  }

  /** t keeps waiting, and nobody comes in front of it. */
  ghost predicate KeepsPlace(s: State, r: State, t: nat, gone: set<nat>) {
    Waits(s, t) && Waits(r, t) && r.th[t].prio == s.th[t].prio && OnlyLost(Ahead(s, t), Ahead(r, t), gone)
  }

  lemma {:induction false} InsertPlace(s: State, t: nat, u: nat)
    requires Inv(s) && Waits(s, t) && u != t && u in s.th && s.th[u].stat != Ready
    ensures KeepsPlace(s, Insert(s, u), t, {})
  {
    hide Bits, NoRepeats, SetMask, Mask, Before;
    var p := s.th[t].prio;
    assert t in s.lists[p];
    BeforeSnoc(s.lists[p], t, u);
  }

  lemma {:induction false} RemovePlace(s: State, t: nat, u: nat, b: Tcb)
    requires Inv(s) && Waits(s, t) && u != t && u in s.th
    ensures KeepsPlace(s, Set(Remove(s, u), u, b), t, {u})
  {
    hide Bits, NoRepeats, ClearMask, Mask, Before, Drop;
    var p := s.th[t].prio;
    assert t in s.lists[p];
    BeforeDrop(s.lists[p], t, u);
    DropShrinks(Before(s.lists[p], t), u);
  }

  lemma {:induction false} SetPlace(s: State, t: nat, u: nat, b: Tcb)
    requires Waits(s, t) && u != t
    ensures KeepsPlace(s, Set(s, u, b), t, {})
  {
    hide Before;
  }

  lemma {:induction false} SwitchPlace(s: State, t: nat, to: nat)
    requires Inv(s) && Waits(s, t) && to != t && to in s.th && s.th[to].stat == Ready
    ensures KeepsPlace(s, Switch(s, to), t, {to})
  {
    hide Bits, NoRepeats, Before, Drop, Switch;
    SwitchEffect(s, to);
    var p := s.th[t].prio;
    var back := s.th[s.current].stat == Running;
    assert t in s.lists[p] && t != s.current;
    BeforeSnoc(s.lists[p], t, s.current);
    assert Before(Joined(s, p, back), t) == Before(s.lists[p], t);
    if p == s.th[to].prio {
      BeforeDrop(Joined(s, p, back), t, to);
      DropShrinks(Before(s.lists[p], t), to);
    }
  }

  /** The thread that a call takes out of its list; a resume takes none out. */
  function Named(e: Event): set<nat> {
    match e
    case SuspendEvent(u) => {u}
    case ChangeEvent(u, _) => {u}
    case _ => {}
  }

  /** What happens to the place of thread t in one step. */
  ghost predicate PlaceKept(s: State, r: State, t: nat, gone: set<nat>) {
    Waits(s, t) && if r.current == t then Ahead(s, t) == [] else KeepsPlace(s, r, t, gone + {r.current})
  }

  /** A waiting thread is picked only from the head of its list. */
  lemma {:induction false} SchedulePlace(s: State, t: nat)
    requires Inv(s) && Waits(s, t)
    ensures PlaceKept(s, Schedule(s), t, {})
  {
    hide Bits, Queued, NoRepeats, Before, Switch, Schedule;
    ScheduleKeeps(s);
    assert t != s.current && {} + {Schedule(s).current} == {Schedule(s).current};
    if s.lock == 0 && s.group != 0 {
      ScheduleEffect(s);
      var p, c := Highest(s), s.th[s.current];
      if Stays(c, p) {
        SetPlace(s, t, s.current, c.(yielding := false));
      } else {
        SwitchEffect(s, s.lists[p][0]);
        SwitchKeeps(s, s.lists[p][0]);
        if s.lists[p][0] == t {
          HeadFirst(s.lists[p]);
        } else {
          SwitchPlace(s, t, s.lists[p][0]);
        }
      }
    }
  }

  lemma {:induction false} HeadFirst(l: seq<nat>)
    requires l != []
    ensures Before(l, l[0]) == []
  {
  }

  lemma {:induction false} NotCurrent(s: State, t: nat)
    requires Inv(s) && Waits(s, t)
    ensures t != s.current
  {
    hide Bits, Queued;
  }

  /** The lists, and the thread itself, are as before. */
  lemma {:induction false} SamePlace(s: State, r: State, t: nat, gone: set<nat>)
    requires Inv(s) && Waits(s, t) && r.lists == s.lists && t in r.th && r.th[t] == s.th[t] && r.current == s.current
    ensures PlaceKept(s, r, t, gone)
  {
    hide Bits, Queued, Before;
  }

  lemma {:induction false} TickPlace(s: State, t: nat)
    requires Inv(s) && Waits(s, t)
    ensures PlaceKept(s, Tick(s), t, {})
  {
    hide Bits, Queued, Before, OneRuns, PlaceKept, Ahead;
    NotCurrent(s, t);
    var c := s.th[s.current];
    var left := if c.remaining == 0 then TICK_LIMIT - 1 else c.remaining - 1;
    OtherTcb(s, t, c.(remaining := c.slice, yielding := true));
    OtherTcb(s, t, c.(remaining := left));
  }

  lemma {:induction false} YieldPlace(s: State, t: nat)
    requires Inv(s) && Waits(s, t)
    ensures PlaceKept(s, Yield(s), t, {})
  {
    hide Bits, Queued, Before, Schedule, OneRuns, PlaceKept, Ahead;
    NotCurrent(s, t);
    var c := s.th[s.current];
    var a := Set(s, s.current, c.(remaining := c.slice, yielding := true));
    SetKeepsInv(s, s.current, c.(remaining := c.slice, yielding := true));
    RenewedPlace(s, a, t);
    SchedulePlace(a, t);
  }

  /** Scheduling after a change that leaves the lists and thread t alone. */
  lemma {:induction false} RenewedPlace(s: State, a: State, t: nat)
    requires Inv(s) && Waits(s, t) && a.lists == s.lists && t in a.th && a.th[t] == s.th[t]
    ensures Waits(a, t) && Ahead(a, t) == Ahead(s, t)
    ensures forall r, gone: set<nat> | PlaceKept(a, r, t, gone) :: PlaceKept(s, r, t, gone)
  {
    hide Before, Bits, Queued;
  }

  lemma {:induction false} OtherTcb(s: State, t: nat, b: Tcb)
    requires Inv(s) && Waits(s, t) && t != s.current
    ensures PlaceKept(s, Set(s, s.current, b), t, {})
  {
    hide Before, Bits, Queued;
  }

  lemma {:induction false} SuspendPlace(s: State, t: nat, u: nat)
    requires Inv(s) && Waits(s, t) && u != t
    ensures PlaceKept(s, SuspendThread(s, u), t, {u})
  {
    hide Bits, Queued, Before, Remove, OnlyLost;
    NotCurrent(s, t);
    if u in s.th && (s.th[u].stat == Ready || s.th[u].stat == Running) {
      RemovePlace(s, t, u, s.th[u].(stat := Suspend));
      RemoveFrame(s, u);
      MoreGone(Ahead(s, t), Ahead(SuspendThread(s, u), t), {u}, {u} + {s.current});
    } else {
      SamePlace(s, s, t, {u});
    }
  }

  lemma {:induction false} MoreGone(a: seq<nat>, b: seq<nat>, x: set<nat>, y: set<nat>)
    requires OnlyLost(a, b, x) && x <= y
    ensures OnlyLost(a, b, y)
  {
  }

  lemma {:induction false} ResumePlace(s: State, t: nat, u: nat)
    requires Inv(s) && Waits(s, t) && u != t
    ensures PlaceKept(s, Resume(s, u), t, {})
  {
    hide Bits, Queued, Before, Insert, OnlyLost;
    NotCurrent(s, t);
    if u in s.th && s.th[u].stat == Suspend {
      InsertPlace(s, t, u);
      InsertFrame(s, u);
      MoreGone(Ahead(s, t), Ahead(Resume(s, u), t), {}, {} + {s.current});
    } else {
      SamePlace(s, s, t, {});
    }
  }

  lemma {:induction false} ChangePlace(s: State, t: nat, u: nat, p: nat)
    requires Inv(s) && Waits(s, t) && u != t && p < PRIORITIES
    ensures PlaceKept(s, ChangePriority(s, u, p), t, {u})
  {
    hide Bits, Queued, Before, Insert, Remove, OnlyLost;
    NotCurrent(s, t);
    if u in s.th && s.th[u].stat == Ready {
      var a := Set(Remove(s, u), u, s.th[u].(prio := p, stat := Suspend));
      RemovePlace(s, t, u, s.th[u].(prio := p, stat := Suspend));
      RemoveKeeps(s, u, s.th[u].(prio := p, stat := Suspend));
      RemoveFrame(s, u);
      InsertPlace(a, t, u);
      InsertFrame(a, u);
      SameInsert(s, u, p);
      LostTrans(Ahead(s, t), Ahead(a, t), Ahead(Insert(a, u), t), {u}, {});
      MoreGone(Ahead(s, t), Ahead(Insert(a, u), t), {u} + {}, {u} + {s.current});
    } else if u in s.th {
      var r := Set(s, u, s.th[u].(prio := p));
      SamePlace(s, r, t, {u});
    } else {
      SamePlace(s, s, t, {u});
    }
  }

  /** The insertion overwrites the READY that a removed thread still has. */
  lemma {:induction false} SameInsert(s: State, t: nat, p: nat)
    requires t in s.th && t != s.current && s.th[t].stat == Ready && p < |s.lists|
    ensures Insert(Set(Remove(s, t), t, s.th[t].(prio := p, stat := Suspend)), t)
      == Insert(Set(Remove(s, t), t, s.th[t].(prio := p)), t)
  {
    hide Drop, Mask, SetMask, ClearMask;
  }

  /** One step: a waiting thread that no call names either is picked, as the first of its list, or
      keeps its place.  In front of it only a thread that now runs, or that a call named, is gone. */
  lemma {:induction false} StepPlace(s: State, e: Event, t: nat)
    requires Inv(s) && Enabled(s, e) && Waits(s, t) && !ActsOn(e, t)
    ensures PlaceKept(s, Next(s, e), t, Named(e))
  {
    hide PlaceKept, Inv, Waits, Schedule, Insert, Remove;
    match e
    case ScheduleEvent => SchedulePlace(s, t);
    case TickEvent => TickPlace(s, t);
    case YieldEvent => YieldPlace(s, t);
    case SuspendEvent(u) => SuspendPlace(s, t, u);
    case ResumeEvent(u) => ResumePlace(s, t, u);
    case ChangeEvent(u, p) => ChangePlace(s, t, u, p);
    case EnterEvent => LockPlace(s, t, s.lock + 1);
    case ExitEvent => LockPlace(s, t, Exit(s).lock);
  }

  lemma {:induction false} LockPlace(s: State, t: nat, n: int)
    requires Inv(s) && Waits(s, t)
    ensures PlaceKept(s, s.(lock := n), t, {})
  {
    hide Bits, Queued, PlaceKept;
    SamePlace(s, s.(lock := n), t, {});
  }

  /** A resumed thread waits behind every thread that is ready with its priority, in their order, and
      overtakes nobody; the current thread just runs on. */
  lemma {:induction false} ResumeEffect(s: State, t: nat)
    requires Inv(s) && t in s.th && s.th[t].stat == Suspend
    ensures var r := Resume(s, t);
      && r.current == s.current && r.lock == s.lock
      && r.th == s.th[t := s.th[t].(stat := if t == s.current then Running else Ready)]
      && (t != s.current ==> Waits(r, t) && Ahead(r, t) == s.lists[s.th[t].prio])
      && forall u | Waits(s, u) :: Waits(r, u) && Ahead(r, u) == Ahead(s, u)
  {
    hide Bits, NoRepeats, Mask, SetMask, Before;
    var r, p := Resume(s, t), s.th[t].prio;
    assert t !in s.lists[p];
    LastBefore(s.lists[p], t);
    forall u | Waits(s, u) ensures Waits(r, u) && Ahead(r, u) == Ahead(s, u) {
      assert u in s.lists[s.th[u].prio] && u != t;
      BeforeSnoc(s.lists[s.th[u].prio], u, t);
    }
  }

  /* ---------- runs ---------- */

  ghost predicate Run(s: State, es: seq<Event>)
    decreases |es|
  {
    es == [] || (Enabled(s, es[0]) && Run(Next(s, es[0]), es[1..]))
  }

  function After(s: State, es: seq<Event>): State
    decreases |es|
  {
    if es == [] then s else After(Next(s, es[0]), es[1..])
  }

  lemma {:induction false} RunKeeps(s: State, es: seq<Event>)
    requires Inv(s) && Run(s, es)
    ensures Inv(After(s, es)) && After(s, es).th.Keys == s.th.Keys
    decreases |es|
  {
    hide Inv, Next, Enabled;
    if es != [] {
      StepKeeps(s, es[0]);
      RunKeeps(Next(s, es[0]), es[1..]);
    }
  }

  /** During the run thread u runs at some time, or some call suspends it or changes its priority. */
  ghost predicate RanOrNamed(s: State, es: seq<Event>, u: nat)
    decreases |es|
  {
    es != [] && (u in Named(es[0]) + {Next(s, es[0]).current} || RanOrNamed(Next(s, es[0]), es[1..], u))
  }

  /** Over every run: before a waiting thread that is left alone gets the processor, every thread in
      front of it has had it or was moved by a call. */
  lemma {:induction false} TurnComes(s: State, es: seq<Event>, t: nat)
    requires Inv(s) && Run(s, es) && Waits(s, t) && After(s, es).current == t
    requires forall i | 0 <= i < |es| :: !ActsOn(es[i], t)
    ensures forall u | u in Ahead(s, t) :: RanOrNamed(s, es, u)
    decreases |es|
  {
    hide Inv, Next, Enabled, Before, Named, ActsOn;
    if es == [] {
      NotCurrent(s, t);
    } else {
      var r := Next(s, es[0]);
      StepPlace(s, es[0], t);
      if r.current != t {
        StepKeeps(s, es[0]);
        TurnComes(r, es[1..], t);
      }
    }
  }

  /** While it waits and is left alone a thread is never moved back. */
  lemma {:induction false} NeverMovedBack(s: State, es: seq<Event>, t: nat)
    requires Inv(s) && Run(s, es) && Waits(s, t)
    requires forall i | 0 <= i < |es| :: !ActsOn(es[i], t)
    requires forall n | 0 <= n <= |es| :: After(s, es[..n]).current != t
    ensures var r := After(s, es);
      && Waits(r, t) && r.th[t].prio == s.th[t].prio
      && |Ahead(r, t)| <= |Ahead(s, t)| && forall u | u in Ahead(r, t) :: u in Ahead(s, t)
    decreases |es|
  {
    hide Inv, Next, Enabled, Before, Named, ActsOn;
    if es != [] {
      var r := Next(s, es[0]);
      StepPlace(s, es[0], t);
      StepKeeps(s, es[0]);
      assert es[..1] == [es[0]] && After(s, es[..1]) == r by { OneStep(s, es[..1]); }
      forall n | 0 <= n <= |es[1..]| ensures After(r, es[1..][..n]).current != t {
        assert es[..n + 1][1..] == es[1..][..n] && es[..n + 1][0] == es[0];
        assert After(s, es[..n + 1]) == After(r, es[1..][..n]);
      }
      NeverMovedBack(r, es[1..], t);
    }
  }

  lemma {:induction false} OneStep(s: State, es: seq<Event>)
    requires |es| == 1
    ensures After(s, es) == Next(s, es[0])
  {
    hide Next;
    assert es[1..] == [];
  }

  /* ---------- critical sections ---------- */

  /** How deep critical sections are nested, by the calls alone: each entry opens one, each exit closes
      the innermost, and an exit outside of all of them does nothing. */
  function Depth(d: nat, es: seq<Event>): nat
    decreases |es|
  {
    if es == [] then d
    else if es[0].EnterEvent? then Depth(d + 1, es[1..])
    else if es[0].ExitEvent? && d > 0 then Depth(d - 1, es[1..])
    else Depth(d, es[1..])
  }

  /** Over every run the lock count is the nesting depth, whatever else happens. */
  lemma {:induction false} LockIsDepth(s: State, es: seq<Event>)
    requires Inv(s) && Run(s, es)
    ensures After(s, es).lock == Depth(s.lock, es)
    decreases |es|
  {
    hide Inv, Enabled;
    if es != [] {
      StepKeeps(s, es[0]);
      LockStep(s, es[0]);
      LockIsDepth(Next(s, es[0]), es[1..]);
    }
  }

  lemma {:induction false} LockStep(s: State, e: Event)
    requires Inv(s) && Enabled(s, e)
    ensures s.lock >= 0
    ensures Next(s, e).lock == if e.EnterEvent? then s.lock + 1 else if e.ExitEvent? && s.lock > 0 then s.lock - 1 else s.lock
  {
    hide Bits, Queued, OneRuns, Schedule, Insert, Remove;
    match e
    case ScheduleEvent => ScheduleKeeps(s);
    case YieldEvent =>
      var c := s.th[s.current];
      SetKeepsInv(s, s.current, c.(remaining := c.slice, yielding := true));
      ScheduleKeeps(Set(s, s.current, c.(remaining := c.slice, yielding := true)));
    case SuspendEvent(t) => RemoveFrame(s, t);
    case ResumeEvent(t) => if t in s.th { InsertFrame(s, t); }
    case ChangeEvent(t, p) =>
      RemoveFrame(s, t);
      if t in s.th {
        InsertFrame(Set(Remove(s, t), t, s.th[t].(prio := p)), t);
      }
    case _ =>
  }

  function Repeated(e: Event, n: nat): seq<Event> {
    seq(n, _ => e)
  }

  /** n entries and k exits leave n - k sections open. */
  lemma {:induction false} NestedDepth(d: nat, n: nat, k: nat)
    requires k <= d + n
    ensures Depth(d, Repeated(EnterEvent, n) + Repeated(ExitEvent, k)) == d + n - k
    decreases n + k
  {
    var es := Repeated(EnterEvent, n) + Repeated(ExitEvent, k);
    if n > 0 {
      assert es[1..] == Repeated(EnterEvent, n - 1) + Repeated(ExitEvent, k);
      NestedDepth(d + 1, n - 1, k);
    } else if k > 0 {
      assert es[1..] == Repeated(EnterEvent, 0) + Repeated(ExitEvent, k - 1);
      NestedDepth(d - 1, 0, k - 1);
    }
  }

  /** Depth after a part of a run. */
  lemma {:induction false} DepthInParts(d: nat, a: seq<Event>, b: seq<Event>)
    ensures Depth(d, a + b) == Depth(Depth(d, a), b)
    decreases |a|
  {
    if a == [] {
      assert a + b == b;
    } else {
      assert (a + b)[0] == a[0] && (a + b)[1..] == a[1..] + b;
      DepthInParts(if a[0].EnterEvent? then d + 1 else if a[0].ExitEvent? && d > 0 then d - 1 else d, a[1..], b);
    }
  }

  /** A section and everything that is properly nested in it closes what it opened: a run that never
      goes below the depth it began with, and ends with it, leaves the depth as it was inside every
      other nesting too. */
  lemma {:induction false} SectionsNest(d: nat, es: seq<Event>, more: nat)
    requires forall i | 0 <= i <= |es| :: Depth(1, es[..i]) >= 1
    ensures Depth(1 + more, es) == Depth(1, es) + more
    decreases |es|
  {
    DepthShift(1, es, more);
  }

  lemma {:induction false} DepthShift(d: nat, es: seq<Event>, more: nat)
    requires d > 0 && forall i | 0 <= i <= |es| :: Depth(d, es[..i]) > 0
    ensures Depth(d + more, es) == Depth(d, es) + more
    decreases |es|
  {
    if es != [] {
      var d' := if es[0].EnterEvent? then d + 1 else if es[0].ExitEvent? then d - 1 else d;
      assert es[..1] == [es[0]] && es[..1][1..] == [] && Depth(d, es[..1]) == Depth(d', []);
      forall i | 0 <= i <= |es[1..]| ensures Depth(d', es[1..][..i]) > 0 {
        assert es[..i + 1][0] == es[0] && es[..i + 1][1..] == es[1..][..i];
        assert Depth(d, es[..i + 1]) == Depth(d', es[1..][..i]);
      }
      DepthShift(d', es[1..], more);
    }
  }

  /** While a section is open nothing takes the processor away from the current thread. */
  lemma {:induction false} LockedStays(s: State, es: seq<Event>)
    requires Inv(s) && Run(s, es) && forall i | 0 <= i <= |es| :: Depth(s.lock, es[..i]) > 0
    ensures After(s, es).current == s.current
    ensures (forall i | 0 <= i < |es| :: !es[i].SuspendEvent? && !es[i].ResumeEvent? && !es[i].ChangeEvent?) ==>
      After(s, es).lists == s.lists && After(s, es).group == s.group
    decreases |es|
  {
    hide Inv, Enabled, Next;
    if es != [] {
      assert es[..0] == [];
      StepKeeps(s, es[0]);
      LockStep(s, es[0]);
      LockedStep(s, es[0]);
      forall i | 0 <= i <= |es[1..]| ensures Depth(Next(s, es[0]).lock, es[1..][..i]) > 0 {
        assert es[..i + 1][0] == es[0] && es[..i + 1][1..] == es[1..][..i];
        assert Depth(s.lock, es[..i + 1]) == Depth(Next(s, es[0]).lock, es[1..][..i]);
      }
      LockedStays(Next(s, es[0]), es[1..]);
    }
  }

  lemma {:induction false} LockedStep(s: State, e: Event)
    requires Inv(s) && Enabled(s, e) && s.lock > 0
    ensures var r := Next(s, e);
      && r.current == s.current
      && (!e.SuspendEvent? && !e.ResumeEvent? && !e.ChangeEvent? ==> r.lists == s.lists && r.group == s.group)
  {
    hide Bits, Queued, OneRuns, Insert, Remove;
    match e
    case SuspendEvent(t) => RemoveFrame(s, t);
    case ResumeEvent(t) => if t in s.th { InsertFrame(s, t); }
    case ChangeEvent(t, p) =>
      RemoveFrame(s, t);
      if t in s.th {
        InsertFrame(Set(Remove(s, t), t, s.th[t].(prio := p)), t);
      }
    case _ =>
  }

  /** rt_exit_critical as a call: the region, and rt_schedule when no section is open any more. */
  function ExitCall(s: State): State {
    if Exit(s).lock == 0 then Schedule(Exit(s)) else Exit(s)
  }

  function ExitCalls(s: State, k: nat): State {
    if k == 0 then s else ExitCall(ExitCalls(s, k - 1))
  }

  /** With n sections open the first n - 1 calls of rt_exit_critical only count, and the n-th one, and
      no earlier one, reschedules. */
  lemma {:induction false} LastExitSchedules(s: State, k: nat)
    requires 0 < k <= s.lock
    ensures ExitCalls(s, k) == if k < s.lock then s.(lock := s.lock - k) else Schedule(s.(lock := 0))
  {
    hide Schedule;
    if k == 1 {
      assert ExitCalls(s, 0) == s;
    } else {
      LastExitSchedules(s, k - 1);
    }
  }

  /** The current thread runs, unlocked, with peers of its priority and nothing more urgent ready. */
  ghost predicate HasPeers(s: State) {
    && s.current in s.th && s.lock == 0 && s.th[s.current].stat == Running
    && s.th[s.current].prio < |s.lists| && s.lists[s.th[s.current].prio] != []
    && forall q | 0 <= q < s.th[s.current].prio :: s.lists[q] == []
  }

  /** After the current thread c gave way: the first peer runs, c is last in its list, its flag is
      cleared and `left` ticks are left to it. */
  ghost predicate Rotated(s: State, r: State, left: nat) {
    HasPeers(s) ==>
      var c, l := s.current, s.lists[s.th[s.current].prio];
      && r.current == l[0] && l[0] in r.th && r.th[l[0]].stat == Running
      && Waits(r, c) && r.th[c].prio == s.th[c].prio && r.th[c].remaining == left && !r.th[c].yielding
      && r.lists[s.th[c].prio] == l[1..] + [c] && Ahead(r, c) == l[1..]
  }

  /** A thread that is marked as yielding gives the processor to its first peer at the next
      rt_schedule, and goes behind all of them. */
  lemma {:induction false} MarkedGivesWay(s: State)
    requires Inv(s) && s.th[s.current].yielding
    ensures Rotated(s, Schedule(s), s.th[s.current].remaining)
  {
    hide Inv, Schedule;
    if HasPeers(s) {
      Rotates(s);
    }
  }

  /** rt_thread_yield does so at once, with a new slice. */
  lemma {:induction false} YieldRotates(s: State)
    requires Inv(s)
    ensures Rotated(s, Yield(s), s.th[s.current].slice)
  {
    hide Bits, Queued, Schedule, OneRuns, Before;
    var c := s.th[s.current];
    SetKeepsInv(s, s.current, c.(remaining := c.slice, yielding := true));
    MarkedGivesWay(Set(s, s.current, c.(remaining := c.slice, yielding := true)));
  }

  lemma {:induction false} Rotates(a: State)
    requires Inv(a) && HasPeers(a) && a.th[a.current].yielding
    ensures Rotated(a, Schedule(a), a.th[a.current].remaining)
  {
    hide Bits, NoRepeats, Mask, SetMask, ClearMask, Before, Switch, Schedule, Highest, Drop;
    var c := a.current;
    var p := a.th[c].prio;
    SomethingReady(a, p);
    ScheduleEffect(a);
    HighestFacts(a);
    var l := a.lists[p];
    assert Highest(a) == p && l[0] in l;
    SwitchEffect(a, l[0]);
    SwitchKeeps(a, l[0]);
    assert c !in l;
    DropHead(l + [c]);
    assert (l + [c])[1..] == l[1..] + [c];
    LastBefore(l[1..], c);
  }

  /** n ticks in a row. */
  function Ticks(s: State, n: nat): State
    decreases n
  {
    if n == 0 then s else Ticks(Tick(s), n - 1)
  }

  /** A slice lasts exactly as many ticks as are left of it: up to then nothing but the count changes,
      and the last tick renews the slice and marks the thread. */
  lemma {:induction false} SliceLasts(s: State, n: nat)
    requires s.current in s.th && n <= s.th[s.current].remaining
    ensures var c := s.th[s.current];
      Ticks(s, n) == if n > 0 && n == c.remaining then Set(s, s.current, c.(remaining := c.slice, yielding := true))
                     else Set(s, s.current, c.(remaining := c.remaining - n))
    decreases n
  {
    if n > 0 {
      var c, r := s.th[s.current], Tick(s);
      if c.remaining == 1 {
        assert Ticks(r, 0) == r;
      } else {
        SliceLasts(r, n - 1);
        assert r == Set(s, s.current, c.(remaining := c.remaining - 1));
        assert forall b: Tcb :: Set(r, s.current, b) == Set(s, s.current, b);
      }
    }
  }

  /** A slice of 0 ticks wraps and lasts 2^32 of them. */
  lemma {:induction false} EmptySliceLasts(s: State, n: nat)
    requires s.current in s.th && s.th[s.current].remaining == 0 && 0 < n <= TICK_LIMIT
    ensures var c := s.th[s.current];
      Ticks(s, n) == if n == TICK_LIMIT then Set(s, s.current, c.(remaining := c.slice, yielding := true))
                     else Set(s, s.current, c.(remaining := TICK_LIMIT - n))
  {
    var c, r := s.th[s.current], Tick(s);
    SliceLasts(r, n - 1);
    assert forall b: Tcb :: Set(r, s.current, b) == Set(s, s.current, b);
  }

  /** The current thread has run its slice out and not yet given way. */
  ghost predicate Marked(s: State, c: nat) {
    s.current == c && c in s.th && s.th[c].stat == Running && s.th[c].yielding
  }

  /** Nothing in the run reschedules, or names thread c. */
  ghost predicate Quiet(es: seq<Event>, c: nat) {
    forall i | 0 <= i < |es| :: !es[i].ScheduleEvent? && !es[i].YieldEvent? && !ActsOn(es[i], c)
  }

  /** Interrupts are open between the last tick of a slice and rt_schedule.  Whatever they do short of
      rescheduling, the thread is still there and still marked. */
  lemma {:induction false} GapKeeps(s: State, gap: seq<Event>)
    requires Inv(s) && Run(s, gap) && Quiet(gap, s.current) && Marked(s, s.current)
    ensures Inv(After(s, gap)) && Marked(After(s, gap), s.current)
    decreases |gap|
  {
    hide Inv, Next, Enabled, ActsOn;
    if gap != [] {
      StepKeeps(s, gap[0]);
      QuietStep(s, gap[0]);
      GapKeeps(Next(s, gap[0]), gap[1..]);
    }
  }

  lemma {:induction false} QuietStep(s: State, e: Event)
    requires Inv(s) && Marked(s, s.current) && !e.ScheduleEvent? && !e.YieldEvent? && !ActsOn(e, s.current)
    ensures Marked(Next(s, e), s.current)
  {
    hide Inv, Insert, Remove, Schedule;
    match e
    case SuspendEvent(t) => RemoveFrame(s, t);
    case ResumeEvent(t) => if t in s.th { InsertFrame(s, t); }
    case ChangeEvent(t, p) =>
      RemoveFrame(s, t);
      if t in s.th {
        InsertFrame(Set(Remove(s, t), t, s.th[t].(prio := p)), t);
      }
    case _ =>
  }

  /** The last tick of a slice, whatever interrupts do before its rt_schedule, lets the first peer run
      and puts the thread behind all of its peers. */
  lemma {:induction false} SliceExpires(s: State, gap: seq<Event>)
    requires Inv(s) && s.th[s.current].stat == Running && s.th[s.current].remaining == 1
    requires Run(Tick(s), gap) && Quiet(gap, s.current)
    ensures var a := After(Tick(s), gap);
      && Inv(a) && a.current == s.current
      && Rotated(a, Schedule(a), a.th[s.current].remaining)
      && (gap == [] ==> Rotated(s, Schedule(a), s.th[s.current].slice))
  {
    hide Bits, Queued, Schedule, OneRuns, Before, Next, ActsOn, Rotated, Quiet;
    TickKeeps(s);
    GapKeeps(Tick(s), gap);
    MarkedGivesWay(After(Tick(s), gap));
    if gap == [] {
      YieldRotates(s);
    }
  }

  lemma {:induction false} SomethingReady(s: State, p: nat)
    requires Inv(s) && p < PRIORITIES && s.lists[p] != []
    ensures s.group != 0
  {
    hide Queued, HasBit;
    BitNotZero(s.group, p);
  }

  lemma {:induction false} DropHead(l: seq<nat>)
    requires l != []
    ensures Drop(l, l[0]) == l[1..]
  {
  }

  lemma {:induction false} LastBefore(l: seq<nat>, c: nat)
    requires c !in l
    ensures Before(l + [c], c) == l
  {
    if l != [] {
      assert (l + [c])[1..] == l[1..] + [c];
      LastBefore(l[1..], c);
    }
  }

  /** Round robin: after its slice has run out, a thread that is left alone does not run again before
      every peer that is ready at the rt_schedule has run or was taken out of its list by a call. */
  lemma {:induction false} EveryPeerFirst(s: State, gap: seq<Event>, es: seq<Event>, u: nat)
    requires Inv(s) && s.th[s.current].stat == Running && s.th[s.current].remaining == 1
    requires Run(Tick(s), gap) && Quiet(gap, s.current)
    requires var a := After(Tick(s), gap);
      && HasPeers(a) && a.current == s.current && u in a.lists[a.th[a.current].prio]
      && Run(Schedule(a), es) && After(Schedule(a), es).current == s.current
    requires forall i | 0 <= i < |es| :: !ActsOn(es[i], s.current)
    ensures var r := Schedule(After(Tick(s), gap)); u == r.current || RanOrNamed(r, es, u)
  {
    hide Inv, Tick, Schedule, Next, Before, ActsOn, RanOrNamed, Run, Quiet;
    var a := After(Tick(s), gap);
    var l := a.lists[a.th[a.current].prio];
    SliceExpires(s, gap);
    ScheduleKeeps(a);
    TurnComes(Schedule(a), es, s.current);
    assert u == l[0] || u in l[1..];
  }

  lemma {:induction false} InitialInv(t: nat, b: Tcb)
    requires b.stat == Running && b.prio < PRIORITIES
    ensures Inv(State(seq(PRIORITIES, i => []), 0, t, 0, map[t := b]))
  {
    hide Mask;
    forall p: nat ensures !HasBit(0, p) {
      NoBits(Mask(p));
    }
  }

  lemma {:induction false} NoBits(m: bv32)
    ensures !Meets(0, m)
  {
  }
}
