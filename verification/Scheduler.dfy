/** The scheduler's globals (scheduler.c) and the calls that change them. */
module Scheduler {
  import opened FirstSet
  import Spec = SchedulerSpec

  class Scheduler {
    const table: array<seq<nat>>        // rt_thread_priority_table
    var group: bv32                     // rt_thread_ready_priority_group
    var current: nat                    // rt_current_thread
    var lockNest: int                   // rt_scheduler_lock_nest
    var threads: map<nat, Spec.Tcb>     // the threads' own fields

    ghost function View(): Spec.State
      reads this, table
    {
      Spec.State(table[..], group, current, lockNest, threads)
    }

    ghost predicate Valid()
      reads this, table
    {
      Spec.Inv(View())
    }

    /** rt_system_scheduler_init, and a first thread that runs. */
    constructor (first: nat, tcb: Spec.Tcb)
      requires tcb.stat == Spec.Running && tcb.prio < Spec.PRIORITIES
      ensures Valid() && fresh(table)
      ensures current == first && threads == map[first := tcb] && forall p | 0 <= p < table.Length :: table[p] == []
    {
      lockNest, group, current, threads := 0, 0, first, map[first := tcb];
      table := new seq<nat>[Spec.PRIORITIES];
      new;
      var offset := 0;
      while offset < Spec.PRIORITIES
        invariant 0 <= offset <= table.Length
        invariant forall i | 0 <= i < offset :: table[i] == []
        modifies table
      {
        table[offset] := [];
        offset := offset + 1;
      }
      hide Spec.Inv;
      Spec.InitialInv(first, tcb);
      assert table[..] == seq(Spec.PRIORITIES, i => []);
    }

    /** The thread and the table exist: what the list operations need. */
    ghost predicate Has(t: nat)
      reads `threads
    {
      t in threads && threads[t].prio < table.Length
    }

    method InsertThread(t: nat)
      requires Has(t)
      modifies `group, `threads, table
      ensures View() == Spec.Insert(old(View()), t)
    {
      hide SetMask, Mask;
      var b := threads[t];
      if t == current {
        threads := threads[t := b.(stat := Spec.Running)];
        return;
      }
      threads := threads[t := b.(stat := Spec.Ready)];
      table[b.prio] := table[b.prio] + [t];
      group := SetMask(group, Mask(b.prio));
    }

    method RemoveThread(t: nat)
      requires Has(t)
      modifies `group, table
      ensures View() == Spec.Remove(old(View()), t)
    {
      hide ClearMask, Mask, Spec.Drop;
      var p := threads[t].prio;
      table[p] := Spec.Drop(table[p], t);
      if table[p] == [] {
        group := ClearMask(group, Mask(p));
      }
    }

    /** Store the fields of thread t. */
    method Store(t: nat, b: Spec.Tcb)
      modifies `threads
      ensures View() == Spec.Set(old(View()), t, b)
    {
      threads := threads[t := b];
    }

    /** The switch inside rt_schedule. */
    method SwitchTo(to: nat)
      requires Valid() && to in threads && threads[to].stat == Spec.Ready
      modifies this, table
      ensures View() == Spec.Switch(old(View()), to)
    {
      hide Spec.Insert, Spec.Remove, Spec.Bits, Spec.Queued;
      var from := current;
      var needInsert := threads[from].stat == Spec.Running;
      ghost var s := View();
      if needInsert {
        Store(from, threads[from].(yielding := false));
      }
      current := to;
      ghost var s2 := View();
      if needInsert {
        InsertThread(from);
        Spec.InsertFrame(s2, from);
      }
      ghost var s3 := View();
      RemoveThread(to);
      Spec.RemoveFrame(s3, to);
      Store(to, threads[to].(stat := Spec.Running));
    }

    /** rt_schedule.  Unlocked and with a thread ready, the most urgent thread runs afterwards. */
    method Schedule()
      requires Valid()
      modifies this, table
      ensures Valid() && View() == Spec.Schedule(old(View())) && threads.Keys == old(threads.Keys)
      ensures old(lockNest == 0 && group != 0) ==>
        && current in threads && threads[current].stat == Spec.Running
        && forall t | t in threads && threads[t].stat == Spec.Ready :: threads[current].prio <= threads[t].prio
    {
      hide Spec.Switch, Spec.Bits, Spec.Queued, Spec.OneRuns, Ffs, Spec.Set, Spec.Remove;
      ghost var s := View();
      Spec.ScheduleKeeps(s);
      if lockNest == 0 {
        if group != 0 {
          Spec.ScheduleIsRight(s);
          Spec.ScheduleEffect(s);
          var highest := Ffs(group) - 1;
          var to := table[highest][0];
          var c := threads[current];
          if c.stat == Spec.Running && (c.prio < highest || (c.prio == highest && !c.yielding)) {
            Stay();
          } else {
            SwitchTo(to);
          }
        }
      }
    }

    /** The current thread goes on running: its flag is cleared, and it is taken out of the ready lists
        although it is in none. */
    method Stay()
      requires Valid() && threads[current].stat == Spec.Running
      modifies this, table
      ensures View() == Spec.Set(old(View()), old(current), old(threads[current]).(yielding := false))
    {
      hide Spec.Bits, Spec.Queued, Spec.Remove;
      ghost var s := View();
      var c := threads[current].(yielding := false);
      Spec.SetKeeps(s, current, c);
      Store(current, c);
      Spec.RemoveAbsent(View(), current);
      RemoveThread(current);
      Store(current, c.(stat := Spec.Running));
    }

    /** The region of rt_tick_increase: did the slice run out? */
    method CountTick() returns (expired: bool)
      requires Valid()
      modifies `threads
      ensures Valid() && View() == Spec.Tick(old(View())) && expired == old(threads[current].remaining == 1)
    {
      hide Spec.Bits, Spec.Queued;
      Spec.TickKeeps(View());
      var c := threads[current];
      var left := if c.remaining == 0 then Spec.TICK_LIMIT - 1 else c.remaining - 1;
      expired := left == 0;
      if expired {
        RenewSlice();
      } else {
        Store(current, c.(remaining := left));
      }
    }

    /** rt_tick_increase, without the timers and with nothing happening between its two regions. */
    method TickIncrease()
      requires Valid()
      modifies this, table
      ensures Valid()
      ensures var a := Spec.Tick(old(View()));
        View() == if old(threads[current].remaining == 1) then Spec.Schedule(a) else a
    {
      hide Spec.Inv, Spec.Tick, Spec.Schedule;
      var expired := CountTick();
      if expired {
        Schedule();
      }
    }

    method RenewSlice()
      requires Valid()
      modifies `threads
      ensures Valid()
      ensures View() == Spec.Set(old(View()), current, old(threads[current]).(remaining := old(threads[current].slice), yielding := true))
    {
      hide Spec.Bits, Spec.Queued;
      var c := threads[current];
      Spec.SetKeepsInv(View(), current, c.(remaining := c.slice, yielding := true));
      Store(current, c.(remaining := c.slice, yielding := true));
    }

    method Yield()
      requires Valid()
      modifies this, table
      ensures Valid() && View() == Spec.Yield(old(View()))
    {
      hide Spec.Bits, Spec.Queued, Spec.Schedule;
      RenewSlice();
      Schedule();
    }

    /** rt_thread_suspend; false stands for -RT_ERROR. */
    method Suspend(t: nat) returns (ok: bool)
      requires Valid() && t in threads
      modifies this, table
      ensures Valid() && View() == Spec.SuspendThread(old(View()), t)
      ensures ok <==> old(threads[t].stat) == Spec.Ready || old(threads[t].stat) == Spec.Running
    {
      hide Spec.Bits, Spec.Queued, Spec.Remove;
      Spec.SuspendKeeps(View(), t);
      var stat := threads[t].stat;
      if stat != Spec.Ready && stat != Spec.Running {
        return false;
      }
      RemoveThread(t);
      Store(t, threads[t].(stat := Spec.Suspend));
      return true;
    }

    /** rt_thread_resume; the wait list is the caller's. */
    method Resume(t: nat) returns (ok: bool)
      requires Valid() && t in threads
      modifies this, table
      ensures Valid() && View() == Spec.Resume(old(View()), t)
      ensures ok <==> old(threads[t].stat) == Spec.Suspend
    {
      hide Spec.Bits, Spec.Queued, Spec.Insert;
      Spec.ResumeKeeps(View(), t);
      if threads[t].stat != Spec.Suspend {
        return false;
      }
      InsertThread(t);
      return true;
    }

    method ChangePriority(t: nat, p: nat)
      requires Valid() && t in threads && p < Spec.PRIORITIES
      modifies this, table
      ensures Valid() && View() == Spec.ChangePriority(old(View()), t, p)
    {
      hide Spec.Bits, Spec.Queued, Spec.Insert, Spec.Remove;
      Spec.ChangeKeeps(View(), t, p);
      if threads[t].stat == Spec.Ready {
        RemoveThread(t);
        Store(t, threads[t].(prio := p));
        InsertThread(t);
      } else {
        Store(t, threads[t].(prio := p));
      }
    }

    method EnterCritical()
      requires Valid() && lockNest < Spec.LOCK_MAX
      modifies `lockNest
      ensures Valid() && View() == old(View()).(lock := old(lockNest) + 1)
    {
      hide Spec.Bits, Spec.Queued;
      Spec.LockKeeps(View(), lockNest + 1);
      lockNest := lockNest + 1;
    }

    /** The region of rt_exit_critical: is the scheduler unlocked? */
    method LeaveCritical() returns (unlocked: bool)
      requires Valid()
      modifies `lockNest
      ensures Valid() && View() == Spec.Exit(old(View())) && unlocked == (old(lockNest) <= 1)
      ensures lockNest == if old(lockNest) > 0 then old(lockNest) - 1 else 0
    {
      hide Spec.Bits, Spec.Queued;
      Spec.LockKeeps(View(), if lockNest - 1 <= 0 then 0 else lockNest - 1);
      lockNest := lockNest - 1;
      if lockNest <= 0 {
        lockNest := 0;
      }
      unlocked := lockNest == 0;
    }

    /** rt_exit_critical, with nothing happening between its two regions. */
    method ExitCritical()
      requires Valid()
      modifies this, table
      ensures Valid()
      ensures View() == Spec.ExitCall(old(View()))
      ensures old(lockNest) > 1 ==> View() == old(View()).(lock := old(lockNest) - 1)
    {
      hide Spec.Inv, Spec.Schedule;
      var unlocked := LeaveCritical();
      if unlocked {
        Schedule();
      }
    }
  }
}
