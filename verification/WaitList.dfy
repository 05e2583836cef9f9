/** Suspending threads on an IPC object (the first functions of ipc.c).  A wait list is the sequence
    of its threads, as RtList proves of the intrusive list that holds it. */
module WaitList {
  /** A thread as a wait list sees it: its current priority (smaller is more urgent) and, for
      events, what it waits for. */
  datatype Thread = Thread(id: nat, priority: nat, eventSet: bv32, eventInfo: bv8)

  /* RT_IPC_FLAG_FIFO and RT_IPC_FLAG_PRIO */
  datatype Flag = Fifo | Prio

  function InsertByPriority(s: seq<Thread>, t: Thread): seq<Thread> {
    if s == [] then [t]
    else if t.priority < s[0].priority then [t] + s
    else [s[0]] + InsertByPriority(s[1..], t)
  }

  function Enqueue(s: seq<Thread>, t: Thread, flag: Flag): seq<Thread> {
    match flag
    case Fifo => s + [t]
    case Prio => InsertByPriority(s, t)
  }

  ghost predicate Sorted(s: seq<Thread>) {
    forall i, j | 0 <= i < j < |s| :: s[i].priority <= s[j].priority
  }

  function Ids(s: seq<Thread>): set<nat> {
    set t | t in s :: t.id
  }

  ghost predicate DistinctIds(s: seq<Thread>) {
    forall i, j | 0 <= i < j < |s| :: s[i].id != s[j].id
  }

  /** The place InsertByPriority picks: behind every thread that is at least as urgent up to the
      first one that is less urgent.  On a sorted list the order of equals is arrival order. */
  lemma {:induction false} InsertPlace(s: seq<Thread>, t: Thread) returns (k: nat)
    ensures k <= |s| && InsertByPriority(s, t) == s[..k] + [t] + s[k..]
    ensures forall i | 0 <= i < k :: s[i].priority <= t.priority
    ensures k < |s| ==> t.priority < s[k].priority
  {
    if s == [] || t.priority < s[0].priority {
      k := 0;
    } else {
      var l := InsertPlace(s[1..], t);
      k := l + 1;
      assert s[..k] == [s[0]] + s[1..][..l] && s[k..] == s[1..][l..];
      forall i | 0 <= i < k ensures s[i].priority <= t.priority {
        assert i > 0 ==> s[1..][i - 1] == s[i];
      }
    }
  }

  lemma {:induction false} PlaceOf(s: seq<Thread>, t: Thread, flag: Flag) returns (k: nat)
    ensures k <= |s| && Enqueue(s, t, flag) == s[..k] + [t] + s[k..]
    ensures flag.Fifo? ==> k == |s|
    ensures flag.Prio? && Sorted(s) ==> Sorted(Enqueue(s, t, flag))
  {
    if flag.Fifo? {
      k := |s|;
    } else {
      k := InsertPlace(s, t);
      if Sorted(s) {
        assert forall i | k <= i < |s| :: t.priority < s[i].priority;
      }
    }
  }

  lemma {:induction false} EnqueueIds(s: seq<Thread>, t: Thread, flag: Flag)
    ensures Ids(Enqueue(s, t, flag)) == Ids(s) + {t.id} && |Enqueue(s, t, flag)| == |s| + 1
    ensures forall u :: u in Enqueue(s, t, flag) <==> u == t || u in s
    ensures DistinctIds(s) && t.id !in Ids(s) ==> DistinctIds(Enqueue(s, t, flag))
  {
    hide Enqueue, DistinctIds;
    var k := PlaceOf(s, t, flag);
    InsertedIds(s, t, k);
  }

  lemma {:induction false} InsertedIds(s: seq<Thread>, t: Thread, k: nat)
    requires k <= |s|
    ensures var r := s[..k] + [t] + s[k..];
      && Ids(r) == Ids(s) + {t.id}
      && (forall u :: u in r <==> u == t || u in s)
      && (DistinctIds(s) && t.id !in Ids(s) ==> DistinctIds(r))
  {
    var r := s[..k] + [t] + s[k..];
    forall u ensures u in r <==> u == t || u in s {
      assert s == s[..k] + s[k..];
    }
    if DistinctIds(s) && t.id !in Ids(s) {
      forall i, j | 0 <= i < j < |r| ensures r[i].id != r[j].id {
        assert i != k ==> r[i] == s[if i < k then i else i - 1];
        assert j != k ==> r[j] == s[if j < k then j else j - 1];
      }
    }
  }

  /** The thread at the front leaves. */
  lemma {:induction false} DropFirst(s: seq<Thread>)
    requires s != [] && DistinctIds(s)
    ensures s[0].id in Ids(s)
    ensures DistinctIds(s[1..]) && Ids(s[1..]) == Ids(s) - {s[0].id} && (Sorted(s) ==> Sorted(s[1..]))
  {
    assert forall u :: u in s <==> u == s[0] || u in s[1..] by { assert s == [s[0]] + s[1..]; }
  }

  /** Take the thread with this id out, as rt_thread_timeout does through rt_list_remove. */
  function Without(s: seq<Thread>, id: nat): seq<Thread> {
    if s == [] then [] else if s[0].id == id then s[1..] else [s[0]] + Without(s[1..], id)
  }

  lemma {:induction false} WithoutPlace(s: seq<Thread>, id: nat) returns (k: nat)
    ensures k <= |s| && (k < |s| ==> s[k].id == id) && forall i | 0 <= i < k :: s[i].id != id
    ensures Without(s, id) == if k < |s| then s[..k] + s[k + 1..] else s
  {
    if s == [] || s[0].id == id {
      k := 0;
    } else {
      var l := WithoutPlace(s[1..], id);
      k := l + 1;
      forall i | 0 <= i < k ensures s[i].id != id {
        assert i > 0 ==> s[1..][i - 1] == s[i];
      }
    }
  }

  lemma {:induction false} WithoutIds(s: seq<Thread>, id: nat)
    requires DistinctIds(s)
    ensures DistinctIds(Without(s, id)) && Ids(Without(s, id)) == Ids(s) - {id}
    ensures forall u :: u in Without(s, id) <==> u in s && u.id != id
    ensures Sorted(s) ==> Sorted(Without(s, id))
  {
    hide Without;
    var k := WithoutPlace(s, id);
    var r := Without(s, id);
    assert forall i | 0 <= i < |r| :: r[i] == s[if i < k then i else i + 1];
    forall u ensures u in r <==> u in s && u.id != id {
      if u in s && u.id != id {
        var i :| 0 <= i < |s| && s[i] == u;
        assert r[if i < k then i else i - 1] == u;
      }
    }
  }

  /** One more thread of a list that is at least as urgent as the new one. */
  lemma {:induction false} PassOne(s: seq<Thread>, t: Thread, n: nat)
    requires n < |s| && t.priority >= s[n].priority
    requires InsertByPriority(s, t) == s[..n] + InsertByPriority(s[n..], t)
    ensures InsertByPriority(s, t) == s[..n + 1] + InsertByPriority(s[n + 1..], t)
  {
    var u := s[n..];
    assert u[0] == s[n] && u[1..] == s[n + 1..] && s[..n + 1] == s[..n] + [u[0]];
    assert InsertByPriority(u, t) == [u[0]] + InsertByPriority(u[1..], t);
    hide InsertByPriority;
    assert s[..n] + ([u[0]] + InsertByPriority(u[1..], t)) == (s[..n] + [u[0]]) + InsertByPriority(u[1..], t);
  }

  lemma {:induction false} StopHere(s: seq<Thread>, t: Thread, n: nat)
    requires n <= |s| && (n < |s| ==> t.priority < s[n].priority)
    ensures InsertByPriority(s[n..], t) == [t] + s[n..]
  {
    assert n < |s| ==> s[n..][0] == s[n];
  }

  /** rt_ipc_list_suspend: find the place with the loop of the source and link the thread there. */
  method Suspend(s: seq<Thread>, t: Thread, flag: Flag) returns (r: seq<Thread>)
    ensures r == Enqueue(s, t, flag)
  {
    hide InsertByPriority;
    if flag.Fifo? {
      return s + [t];
    }
    var n := 0;
    assert s[..0] + InsertByPriority(s[0..], t) == InsertByPriority(s, t) by { assert s[0..] == s; }
    while n < |s| && t.priority >= s[n].priority
      invariant 0 <= n <= |s|
      invariant InsertByPriority(s, t) == s[..n] + InsertByPriority(s[n..], t)
    {
      PassOne(s, t, n);
      n := n + 1;
    }
    StopHere(s, t, n);
    r := s[..n] + [t] + s[n..];
    assert s[..n] + ([t] + s[n..]) == r;
  }
}
