/** The event object (ipc.c): its flag word and the threads that wait on it. */
module Event {
  import opened WaitList
  import Spec = EventSpec

  /** What a scan yields when `kept` and `woken` come before the part that is still to do. */
  function After(kept: seq<Thread>, woken: seq<Thread>, rest: Spec.Scan): Spec.Scan {
    rest.(kept := kept + rest.kept, woken := woken + rest.woken)
  }

  lemma {:induction false} ScanKeep(kept: seq<Thread>, woken: seq<Thread>, flags: bv32, ws: seq<Thread>)
    requires ws != [] && Spec.ValidOption(ws[0].eventInfo) && !Spec.Satisfied(ws[0], flags)
    ensures After(kept, woken, Spec.ScanFrom(flags, ws)) == After(kept + [ws[0]], woken, Spec.ScanFrom(flags, ws[1..]))
  {
    hide Spec.Satisfied, Spec.ValidOption;
    assert kept + ([ws[0]] + Spec.ScanFrom(flags, ws[1..]).kept) == (kept + [ws[0]]) + Spec.ScanFrom(flags, ws[1..]).kept;
  }

  lemma {:induction false} ScanWake(kept: seq<Thread>, woken: seq<Thread>, flags: bv32, ws: seq<Thread>)
    requires ws != [] && Spec.ValidOption(ws[0].eventInfo) && Spec.Satisfied(ws[0], flags)
    ensures var d := Spec.Delivered(ws[0], flags);
      After(kept, woken, Spec.ScanFrom(flags, ws))
        == After(kept, woken + [d], Spec.ScanFrom(Spec.Consume(flags, d.eventInfo, d.eventSet), ws[1..]))
  {
    hide Spec.Satisfied, Spec.ValidOption, Spec.Delivered, Spec.Consume;
    var d := Spec.Delivered(ws[0], flags);
    var q := Spec.ScanFrom(Spec.Consume(flags, d.eventInfo, d.eventSet), ws[1..]).woken;
    assert woken + ([d] + q) == (woken + [d]) + q;
  }

  class Event {
    const flag: Flag
    var flags: bv32               // set
    var waiters: seq<Thread>      // parent.suspend_thread

    ghost function View(): Spec.State
      reads this
    {
      Spec.State(flags, waiters)
    }

    ghost predicate Valid()
      reads this
    {
      Spec.Inv(View(), flag)
    }

    constructor (flag: Flag)
      ensures Valid() && this.flag == flag && View() == Spec.State(0, [])
    {
      this.flag, flags, waiters := flag, 0, [];
    }

    /** The thread at place n leaves the wait list (rt_thread_resume). */
    method Resume(n: nat)
      requires n < |waiters|
      modifies `waiters
      ensures waiters == old(waiters)[..n] + old(waiters)[n + 1..]
    {
      waiters := waiters[..n] + waiters[n + 1..];
    }

    /** Is the condition of a waiting thread met?  An OR thread then keeps the flags it receives. */
    method Examine(t: Thread) returns (thread: Thread, status: bool)
      requires Spec.ValidOption(t.eventInfo)
      ensures status == Spec.Satisfied(t, flags) && thread == if status then Spec.Delivered(t, flags) else t
    {
      hide Spec.All, Spec.Any, Spec.Common, Spec.Within;
      thread, status := t, false;
      if Spec.All(t.eventInfo) {
        if Spec.Within(t.eventSet, flags) {
          status := true;
        }
      } else if Spec.Common(t.eventSet, flags) != 0 {
        thread := t.(eventSet := Spec.Common(t.eventSet, flags));
        status := true;
      }
    }

    /** One thread of the scan: if its condition is met it takes its flags and leaves the list. */
    method Serve(n: nat) returns (thread: Thread, status: bool)
      requires n < |waiters| && Spec.ValidOption(waiters[n].eventInfo)
      modifies `flags, `waiters
      ensures status == old(Spec.Satisfied(waiters[n], flags))
      ensures status ==>
        && thread == old(Spec.Delivered(waiters[n], flags))
        && flags == Spec.Consume(old(flags), thread.eventInfo, thread.eventSet)
        && waiters == old(waiters)[..n] + old(waiters)[n + 1..]
      ensures !status ==> flags == old(flags) && waiters == old(waiters)
    {
      hide Spec.Satisfied, Spec.Delivered, Spec.ValidOption, Spec.Clears, Spec.Minus;
      thread, status := Examine(waiters[n]);
      if status {
        if Spec.Clears(thread.eventInfo) {
          flags := Spec.Minus(flags, thread.eventSet);
        }
        Resume(n);
      }
    }

    /** rt_event_send, for any waiting threads.  The result also lists the resumed threads, each with
        the event_set it finds when it runs. */
    method SendAny(bits: bv32) returns (r: Spec.SendResult)
      modifies this
      ensures (View(), r) == Spec.Send(old(View()), bits)
    {
      hide Spec.ScanFrom, Spec.Satisfied, Spec.Delivered, Spec.Consume, Spec.All, Spec.Any, Spec.Join;
      if bits == 0 {
        return Spec.Refused;
      }
      flags := Spec.Join(flags, bits);
      ghost var start, all := flags, waiters;
      var woken: seq<Thread> := [];
      var n := 0;
      assert waiters[..0] == [] && waiters[0..] == waiters;
      while n < |waiters|
        invariant n <= |waiters|
        invariant After(waiters[..n], woken, Spec.ScanFrom(flags, waiters[n..])) == Spec.ScanFrom(start, all)
        decreases |waiters| - n
      {
        if !Spec.All(waiters[n].eventInfo) && !Spec.Any(waiters[n].eventInfo) {
          StopScan(flags, waiters[n..]);
          assert waiters[..n] + waiters[n..] == waiters && woken + [] == woken;
          return Spec.Invalid(woken);
        }
        ghost var now, done, rest := flags, waiters[..n], waiters[n..];
        assert rest[0] == waiters[n] && rest[1..] == waiters[n + 1..];
        var thread, status := Serve(n);
        if status {
          ScanWake(done, woken, now, rest);
          assert waiters[..n] == done && waiters[n..] == rest[1..];
          woken := woken + [thread];
        } else {
          ScanKeep(done, woken, now, rest);
          assert done + [rest[0]] == waiters[..n + 1];
          n := n + 1;
        }
      }
      EndScan(flags, waiters[n..]);
      assert waiters[..n] + [] == waiters && woken + [] == woken;
      return Spec.Sent(woken);
    }

    /** Under valid options the send always succeeds. */
    method Send(bits: bv32) returns (r: Spec.SendResult)
      requires Valid()
      modifies this
      ensures Valid() && (View(), r) == Spec.Send(old(View()), bits)
      ensures bits != 0 ==> r.Sent? && forall t | t in waiters :: !Spec.Satisfied(t, flags)
    {
      hide Spec.ScanFrom, Spec.Join, Spec.Satisfied, Spec.ValidOption, Sorted, DistinctIds;
      Spec.SendKeeps(View(), flag, bits);
      r := SendAny(bits);
    }

    /** rt_event_recv up to the point where thread t is suspended or the call is over. */
    method Recv(t: Thread, time: int) returns (r: Spec.RecvResult)
      requires Valid() && Spec.Enabled(View(), Spec.RecvEvent(t, time != 0))
      modifies this
      ensures Valid() && (View(), r) == Spec.Recv(old(View()), flag, t, time != 0)
    {
      hide Spec.Inv, Spec.ValidOption, Spec.Recv;
      Spec.RecvKeeps(View(), flag, t, time != 0);
      r := RecvAny(t, time);
    }

    /** The same for any option, which a build without assertions accepts. */
    method RecvAny(t: Thread, time: int) returns (r: Spec.RecvResult)
      modifies this
      ensures (View(), r) == Spec.Recv(old(View()), flag, t, time != 0)
    {
      hide Spec.All, Spec.Any, Spec.Clears, Spec.Minus, Spec.Common, Spec.Within;
      if t.eventSet == 0 {
        return Spec.Rejected;
      }
      var status := false;
      if Spec.All(t.eventInfo) {
        if Spec.Within(t.eventSet, flags) {
          status := true;
        }
      } else if Spec.Any(t.eventInfo) {
        if Spec.Common(t.eventSet, flags) != 0 {
          status := true;
        }
      }
      if status {
        var got := Spec.Common(flags, t.eventSet);
        if Spec.Clears(t.eventInfo) {
          flags := Spec.Minus(flags, t.eventSet);
        }
        return Spec.Received(got);
      }
      if time == 0 {
        return Spec.TimedOut;
      }
      waiters := Suspend(waiters, t, flag);
      return Spec.Suspended;
    }

    /** rt_thread_timeout of a waiting thread. */
    method Timeout(id: nat)
      requires Valid()
      modifies `waiters
      ensures Valid() && flags == old(flags) && waiters == Without(old(waiters), id)
    {
      hide Spec.Inv;
      Spec.StepKeeps(View(), flag, Spec.TimeoutEvent(id));
      waiters := Without(waiters, id);
    }

    /** rt_event_control with RT_IPC_CMD_RESET. */
    method Reset()
      requires Valid()
      modifies this
      ensures Valid() && flags == 0 && waiters == []
    {
      hide Spec.Inv;
      Spec.StepKeeps(View(), flag, Spec.ResetEvent);
      while waiters != []
        modifies `waiters
        decreases |waiters|
      {
        waiters := waiters[1..];
      }
      flags := 0;
    }
  }

  lemma {:induction false} StopScan(flags: bv32, ws: seq<Thread>)
    requires ws != [] && !Spec.ValidOption(ws[0].eventInfo)
    ensures Spec.ScanFrom(flags, ws) == Spec.Scan(flags, ws, [], false)
  {
  }

  lemma {:induction false} EndScan(flags: bv32, ws: seq<Thread>)
    requires ws == []
    ensures Spec.ScanFrom(flags, ws) == Spec.Scan(flags, [], [], true)
  {
  }
}
