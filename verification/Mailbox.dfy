/** The mailbox object (ipc.c): a ring buffer of words with an input and an output offset. */
module Mailbox {
  import opened WaitList
  import opened Blocking
  import Spec = MailboxSpec

  const ENTRY_MAX := 0xFFFF   // RT_MB_ENTRY_MAX

  /** The slot of the i-th mail when the oldest one is in slot `out`. */
  function Slot(size: nat, out: nat, i: nat): nat {
    if out + i < size then out + i else out + i - size
  }

  function Items(buf: seq<int>, out: nat, n: nat): (r: seq<int>)
    requires n <= |buf| && (|buf| > 0 ==> out < |buf|)
    ensures |r| == n
  {
    seq(n, i requires 0 <= i < n => buf[Slot(|buf|, out, i)])
  }

  lemma {:induction false} PushBack(buf: seq<int>, out: nat, n: nat, v: int)
    requires n < |buf| && out < |buf|
    ensures Slot(|buf|, out, n) < |buf|
    ensures Items(buf[Slot(|buf|, out, n) := v], out, n + 1) == Items(buf, out, n) + [v]
  {
  }

  lemma {:induction false} PushFront(buf: seq<int>, out: nat, n: nat, v: int)
    requires n < |buf| && out < |buf|
    ensures var o := if out > 0 then out - 1 else |buf| - 1;
      Items(buf[o := v], o, n + 1) == [v] + Items(buf, out, n) && Slot(|buf|, o, n + 1) == Slot(|buf|, out, n)
  {
  }

  lemma {:induction false} PopFront(buf: seq<int>, out: nat, n: nat)
    requires 0 < n <= |buf| && out < |buf|
    ensures var o := if out + 1 >= |buf| then 0 else out + 1;
      && Items(buf, out, n)[0] == buf[out] && Items(buf, o, n - 1) == Items(buf, out, n)[1..]
      && Slot(|buf|, o, n - 1) == Slot(|buf|, out, n)
  {
  }

  class Mbox {
    const flag: Flag
    const size: nat
    const pool: array<int>        // msg_pool
    var entry: nat
    var inOffset: nat
    var outOffset: nat
    var receivers: seq<Thread>    // parent.suspend_thread
    var senders: seq<Thread>      // suspend_sender_thread
    ghost var retryRecv: set<nat>
    ghost var retrySend: set<nat>

    ghost predicate Buffered()
      reads this, pool
    {
      && pool.Length == size <= ENTRY_MAX && entry <= size
      && (size > 0 ==> inOffset < size && outOffset < size && inOffset == Slot(size, outOffset, entry))
    }

    ghost function View(): Spec.State
      requires Buffered()
      reads this, pool
    {
      Spec.State(size, Items(pool[..], outOffset, entry), Side(receivers, retryRecv), Side(senders, retrySend))
    }

    ghost predicate Valid()
      reads this, pool
    {
      Buffered() && Spec.Inv(View())
    }

    /** rt_mb_init; `mb->size` keeps 16 bits. */
    constructor (size: nat, flag: Flag)
      ensures Valid() && fresh(pool) && this.flag == flag
      ensures View() == Spec.State(size % 0x10000, [], Side([], {}), Side([], {}))
    {
      this.size, this.flag := size % 0x10000, flag;
      pool := new int[size % 0x10000];
      entry, inOffset, outOffset := 0, 0, 0;
      receivers, senders, retryRecv, retrySend := [], [], {}, {};
    }

    /** rt_ipc_list_resume on the receivers, when there are any. */
    method ResumeReceiver()
      modifies `receivers, `retryRecv
      ensures Side(receivers, retryRecv) == Wake(old(Side(receivers, retryRecv)))
    {
      if receivers != [] {
        retryRecv := retryRecv + {receivers[0].id};
        receivers := receivers[1..];
      }
    }

    method ResumeSender()
      modifies `senders, `retrySend
      ensures Side(senders, retrySend) == Wake(old(Side(senders, retrySend)))
    {
      if senders != [] {
        retrySend := retrySend + {senders[0].id};
        senders := senders[1..];
      }
    }

    /** The critical region of rt_mb_send_wait, entered first or after being resumed. */
    method SendLook(t: Thread, value: int, timeout: int) returns (r: Spec.SendResult)
      requires Buffered()
      modifies this, pool
      ensures Buffered() && (View(), r) == Spec.Send(old(View()), flag, t, value, timeout != 0)
    {
      hide Wake, Enqueue;
      if entry == size {
        if timeout == 0 {
          return Spec.Full;
        }
        senders := Suspend(senders, t, flag);
        return Spec.SendSuspended;
      }
      PushBack(pool[..], outOffset, entry, value);
      pool[inOffset] := value;
      inOffset := inOffset + 1;
      if inOffset >= size {
        inOffset := 0;
      }
      if entry < ENTRY_MAX {
        entry := entry + 1;
      } else {
        assert false;   // the overflow branch: entry < size <= RT_MB_ENTRY_MAX here
      }
      ResumeReceiver();
      return Spec.Sent;
    }

    method Send(t: Thread, value: int, timeout: int) returns (r: Spec.SendResult)
      requires Valid() && Spec.Enabled(View(), Spec.SendEvent(t, value, timeout != 0))
      modifies this, pool
      ensures Valid() && (View(), r) == Spec.Send(old(View()), flag, t, value, timeout != 0)
      ensures View() == Spec.Next(old(View()), flag, Spec.SendEvent(t, value, timeout != 0))
    {
      hide Spec.Inv, Spec.Enabled, Spec.Send, Items;
      Spec.StepKeeps(View(), flag, Spec.SendEvent(t, value, timeout != 0));
      r := SendLook(t, value, timeout);
    }

    /** A resumed sender runs again, its timeout recomputed. */
    method SendAgain(t: Thread, value: int, timeout: int) returns (r: Spec.SendResult)
      requires Valid() && Spec.Enabled(View(), Spec.SendRetry(t, value, timeout != 0))
      modifies this, pool
      ensures Valid() && View() == Spec.Next(old(View()), flag, Spec.SendRetry(t, value, timeout != 0))
    {
      hide Spec.Inv, Spec.Enabled, Spec.Send, Items;
      Spec.StepKeeps(View(), flag, Spec.SendRetry(t, value, timeout != 0));
      retrySend := retrySend - {t.id};
      r := SendLook(t, value, timeout);
    }

    method Urgent(value: int) returns (r: Spec.SendResult)
      requires Valid()
      modifies this, pool
      ensures Valid() && (View(), r) == Spec.Urgent(old(View()), value)
    {
      hide Spec.Inv, Wake;
      Spec.StepKeeps(View(), flag, Spec.UrgentEvent(value));
      if entry == size {
        return Spec.Full;
      }
      PushFront(pool[..], outOffset, entry, value);
      if outOffset > 0 {
        outOffset := outOffset - 1;
      } else {
        outOffset := size - 1;
      }
      pool[outOffset] := value;
      entry := entry + 1;
      ResumeReceiver();
      return Spec.Sent;
    }

    /** The critical region of rt_mb_recv. */
    method RecvLook(t: Thread, timeout: int) returns (r: Spec.RecvResult)
      requires Buffered()
      modifies this
      ensures Buffered() && (View(), r) == Spec.Recv(old(View()), flag, t, timeout != 0)
    {
      hide Wake, Enqueue;
      if entry == 0 {
        if timeout == 0 {
          return Spec.TimedOut;
        }
        receivers := Suspend(receivers, t, flag);
        return Spec.RecvSuspended;
      }
      PopFront(pool[..], outOffset, entry);
      var value := pool[outOffset];
      outOffset := outOffset + 1;
      if outOffset >= size {
        outOffset := 0;
      }
      entry := entry - 1;
      ResumeSender();
      return Spec.Received(value);
    }

    method Recv(t: Thread, timeout: int) returns (r: Spec.RecvResult)
      requires Valid() && Spec.Enabled(View(), Spec.RecvEvent(t, timeout != 0))
      modifies this
      ensures Valid() && (View(), r) == Spec.Recv(old(View()), flag, t, timeout != 0)
      ensures View() == Spec.Next(old(View()), flag, Spec.RecvEvent(t, timeout != 0))
    {
      hide Spec.Inv, Spec.Enabled, Spec.Recv, Items;
      Spec.StepKeeps(View(), flag, Spec.RecvEvent(t, timeout != 0));
      r := RecvLook(t, timeout);
    }

    method RecvAgain(t: Thread, timeout: int) returns (r: Spec.RecvResult)
      requires Valid() && Spec.Enabled(View(), Spec.RecvRetry(t, timeout != 0))
      modifies this
      ensures Valid() && View() == Spec.Next(old(View()), flag, Spec.RecvRetry(t, timeout != 0))
    {
      hide Spec.Inv, Spec.Enabled, Spec.Recv, Items;
      Spec.StepKeeps(View(), flag, Spec.RecvRetry(t, timeout != 0));
      retryRecv := retryRecv - {t.id};
      r := RecvLook(t, timeout);
    }

    method Timeout(id: nat)
      requires Valid()
      modifies this
      ensures Valid() && View() == Spec.Next(old(View()), flag, Spec.TimeoutEvent(id))
    {
      hide Spec.Inv, Items;
      Spec.StepKeeps(View(), flag, Spec.TimeoutEvent(id));
      receivers, senders := Without(receivers, id), Without(senders, id);
    }

    method Reset()
      requires Valid()
      modifies this
      ensures Valid() && View() == Spec.Reset(old(View()))
    {
      hide Spec.Inv;
      Spec.StepKeeps(View(), flag, Spec.ResetEvent);
      while receivers != []
        modifies `receivers
        decreases |receivers|
      {
        receivers := receivers[1..];
      }
      while senders != []
        modifies `senders
        decreases |senders|
      {
        senders := senders[1..];
      }
      entry, inOffset, outOffset := 0, 0, 0;
      assert Items(pool[..], 0, 0) == [];
    }
  }
}
