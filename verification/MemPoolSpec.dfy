/** Memory pools (mempool.c) as a state machine.  A step is one region the source runs with
    interrupts disabled; an allocation that blocks comes back with a retry step. */
module MemPoolSpec {
  import opened WaitList
  import opened Blocking
  import opened Nodes

  /** Blocks are numbered from the start of the pool: `free` is the free list, `taken` the blocks that
      are handed out. */
  datatype State = State(total: nat, free: seq<nat>, taken: set<nat>, allocators: Side)

  datatype Result = Got(k: nat) | NoBlock | Suspended

  /** The pool links a sleeping thread in right behind the list head. */
  function SleepFirst(d: Side, t: Thread): Side {
    d.(waiting := [t] + d.waiting)
  }

  /** rt_mp_alloc, one look at the pool. */
  function Alloc(s: State, t: Thread, mayWait: bool): (State, Result) {
    if s.free == [] then
      if !mayWait then (s, NoBlock) else (s.(allocators := SleepFirst(s.allocators, t)), Suspended)
    else (s.(free := s.free[1..], taken := s.taken + {s.free[0]}), Got(s.free[0]))
  }

  /** rt_mp_free: the block goes to the front of the free list, the first sleeping thread is resumed. */
  function Free(s: State, k: nat): State {
    s.(free := [k] + s.free, taken := s.taken - {k}, allocators := Wake(s.allocators))
  }

  datatype Event =
    | AllocEvent(t: Thread, mayWait: bool)
    | AllocRetry(t: Thread, mayWait: bool)
    | FreeEvent(k: nat)
    | TimeoutEvent(id: nat)

  ghost predicate Enabled(s: State, e: Event) {
    match e
    case AllocEvent(t, _) => t.id !in Members(s.allocators)
    case AllocRetry(t, _) => t.id in s.allocators.retry
    case FreeEvent(k) => k in s.taken
    case TimeoutEvent(_) => true
  }

  function Next(s: State, e: Event): State {
    match e
    case AllocEvent(t, mayWait) => Alloc(s, t, mayWait).0
    case AllocRetry(t, mayWait) => Alloc(s.(allocators := Return(s.allocators, t.id)), t, mayWait).0
    case FreeEvent(k) => Free(s, k)
    case TimeoutEvent(id) => s.(allocators := Expire(s.allocators, id))
  }

  /** The blocks of the pool are those on the free list, each once, and those handed out. */
  ghost predicate Conserved(s: State) {
    NoRepeats(s.free) && NodesOf(s.free) !! s.taken && NodesOf(s.free) + s.taken == Pool(s.total)
  }

  ghost predicate Inv(s: State) {
    Conserved(s) && Sound(s.allocators) && Awake(s.allocators, |s.free|)
  }

  lemma {:induction false} SleepFirstSide(d: Side, t: Thread)
    requires Sound(d) && t.id !in Members(d)
    ensures Sound(SleepFirst(d, t)) && Members(SleepFirst(d, t)) == Members(d) + {t.id} && Awake(SleepFirst(d, t), 0)
  {
    InsertedIds(d.waiting, t, 0);
    assert d.waiting[..0] + [t] + d.waiting[0..] == [t] + d.waiting;
  }

  /** The thread that began to wait last is resumed first; a queue would have done the same exactly when
      nobody else was waiting. */
  lemma {:induction false} LastComesFirst(d: Side, t: Thread)
    requires Sound(d) && t.id !in Members(d)
    ensures Wake(SleepFirst(d, t)) == d.(retry := d.retry + {t.id})
    ensures Wake(SleepFirst(d, t)) == Wake(Sleep(d, t, Flag.Fifo)) <==> d.waiting == []
  {
    assert ([t] + d.waiting)[1..] == d.waiting;
    if d.waiting == [] {
      assert Enqueue(d.waiting, t, Flag.Fifo) == [t] && [t][1..] == [];
    } else {
      var q := Enqueue(d.waiting, t, Flag.Fifo);
      assert q[0] == d.waiting[0] && |q[1..]| == |d.waiting| && d.waiting[0].id in Ids(d.waiting);
      assert t.id in Wake(SleepFirst(d, t)).retry && t.id !in Wake(Sleep(d, t, Flag.Fifo)).retry;
    }
  }

  lemma {:induction false} AllocKeeps(s: State, t: Thread, mayWait: bool)
    requires Conserved(s) && Sound(s.allocators) && t.id !in Members(s.allocators)
    requires Awake(s.allocators, |s.free| - 1)
    ensures Inv(Alloc(s, t, mayWait).0)
  {
    hide NoRepeats, NodesOf, Pool, Sound, Members, SleepFirst;
    if s.free == [] {
      SleepFirstSide(s.allocators, t);
    } else {
      PopNode(s.free);
    }
  }

  lemma {:induction false} FreeKeeps(s: State, k: nat)
    requires Inv(s) && k in s.taken
    ensures Inv(Free(s, k))
  {
    hide NoRepeats, NodesOf, Pool, Sound, Members, Wake;
    PushNode(s.free, k);
    WakeSide(s.allocators, |s.free| + 1);
  }

  lemma {:induction false} StepKeeps(s: State, e: Event)
    requires Inv(s) && Enabled(s, e)
    ensures Inv(Next(s, e))
  {
    hide Conserved, Sound, Members, Return, Expire, Alloc, Free;
    match e
    case AllocEvent(t, mayWait) => AllocKeeps(s, t, mayWait);
    case AllocRetry(t, mayWait) =>
      InMembers(s.allocators, t.id);
      ReturnSide(s.allocators, t.id, |s.free|);
      SameBlocks(s, Return(s.allocators, t.id));
      AllocKeeps(s.(allocators := Return(s.allocators, t.id)), t, mayWait);
    case FreeEvent(k) => FreeKeeps(s, k);
    case TimeoutEvent(id) =>
      ExpireSide(s.allocators, id, |s.free|);
      SameBlocks(s, Expire(s.allocators, id));
  }

  lemma {:induction false} SameBlocks(s: State, d: Side)
    ensures Conserved(s.(allocators := d)) == Conserved(s)
  {
  }

  /** Free and handed-out blocks add up to the whole pool. */
  lemma {:induction false} BlocksAddUp(s: State)
    requires Conserved(s)
    ensures |s.free| + |s.taken| == s.total
  {
    Sizes(s.free);
    assert |NodesOf(s.free) + s.taken| == |NodesOf(s.free)| + |s.taken|;
  }

  /** An allocation hands out a block of the pool that nobody has; freeing it right away restores the
      free list. */
  lemma {:induction false} AllocThenFree(s: State, t: Thread, mayWait: bool)
    requires Inv(s)
    ensures var (r, out) := Alloc(s, t, mayWait);
      && (out.Got? <==> s.free != [])
      && (out.Got? ==>
        && out.k < s.total && out.k !in s.taken && r.taken == s.taken + {out.k}
        && Free(r, out.k) == s.(allocators := Wake(s.allocators)))
      && (!out.Got? ==> r.free == s.free && r.taken == s.taken)
  {
    hide NoRepeats, SleepFirst, Sound, Members;
    if s.free != [] {
      assert s.free[0] in NodesOf(s.free);
      assert [s.free[0]] + s.free[1..] == s.free;
      assert s.taken + {s.free[0]} - {s.free[0]} == s.taken;
    }
  }

  /** An allocation gets the first free block exactly when there is one; else it fails at once exactly
      when it may not wait, and otherwise its thread goes in front of those that wait already. */
  lemma {:induction false} AllocOutcome(s: State, t: Thread, mayWait: bool)
    ensures var (r, out) := Alloc(s, t, mayWait);
      && (out.Got? <==> |s.free| > 0)
      && (out.NoBlock? <==> |s.free| == 0 && !mayWait)
      && (out.Suspended? <==> |s.free| == 0 && mayWait)
      && (out.Got? ==> s.free == [out.k] + r.free && r == s.(free := r.free, taken := s.taken + {out.k}))
      && (out.NoBlock? ==> r == s)
      && (out.Suspended? ==> r == s.(allocators := Side([t] + s.allocators.waiting, s.allocators.retry)))
  {
  }

  /** A free gives its block back and resumes the thread in front; a timeout takes only its thread out
      of the wait list; a retry does what an allocation does, its thread being back on its feet. */
  lemma {:induction false} OtherOutcomes(s: State, k: nat, t: Thread, mayWait: bool, id: nat)
    ensures var r := Next(s, FreeEvent(k));
      && r.free == [k] + s.free && r.taken == s.taken - {k} && FirstResumed(s.allocators, r.allocators)
    ensures var d := Side(s.allocators.waiting, s.allocators.retry - {t.id});
      Next(s, AllocRetry(t, mayWait)) == Alloc(s.(allocators := d), t, mayWait).0
    ensures var r := Next(s, TimeoutEvent(id)); r == s.(allocators := r.allocators) && OnlyLeft(s.allocators, r.allocators, id)
  {
    hide Alloc;
    ResumedBy(s.allocators);
    LeftBy(s.allocators, id);
  }

  ghost predicate Run(s: State, es: seq<Event>)
    decreases |es|
  {
    es == [] || (Enabled(s, es[0]) && Run(Next(s, es[0]), es[1..]))
  }

  function After(s: State, es: seq<Event>): State
    decreases |es|
  {
    if es == [] then s else After(Next(s, es[0]), es[1..])
  }

  /** Over every run the pool keeps its blocks and loses no wake-up: once no resumed thread is left to
      run, a thread sleeps only when every block is handed out. */
  lemma {:induction false} RunKeeps(s: State, es: seq<Event>)
    requires Inv(s) && Run(s, es)
    ensures var r := After(s, es);
      && Inv(r) && r.total == s.total && |r.free| + |r.taken| == r.total
      && (r.allocators.retry == {} && r.allocators.waiting != [] ==> r.free == [] && |r.taken| == r.total)
    decreases |es|
  {
    hide Conserved, Sound, Enabled;
    if es == [] {
      BlocksAddUp(s);
    } else {
      StepKeeps(s, es[0]);
      RunKeeps(Next(s, es[0]), es[1..]);
    }
  }

  /** The free list that rt_mp_init builds. */
  function Up(n: nat): (l: seq<nat>)
    ensures |l| == n && forall i | 0 <= i < n :: l[i] == i
  {
    seq(n, i => i)
  }

  lemma {:induction false} InitialInv(total: nat)
    ensures Inv(State(total, Up(total), {}, Side([], {})))
  {
    var l := Up(total);
    forall n: nat ensures n in NodesOf(l) <==> n in Pool(total) {
      assert n < total ==> l[n] == n;
    }
  }
}
