/** A double-ended queue of bounded length, the yardstick for mailboxes and message queues. */
module Deque {
  datatype Op<T> = PushBack(v: T) | PushFront(v: T) | PopFront | Clear

  /** A full queue takes nothing more, an empty one gives nothing. */
  function Do<T>(d: seq<T>, op: Op<T>, cap: nat): seq<T> {
    match op
    case PushBack(v) => if |d| < cap then d + [v] else d
    case PushFront(v) => if |d| < cap then [v] + d else d
    case PopFront => if d == [] then [] else d[1..]
    case Clear => []
  }

  function Replay<T>(d: seq<T>, ops: seq<Op<T>>, cap: nat): seq<T>
    decreases |ops|
  {
    if ops == [] then d else Replay(Do(d, ops[0], cap), ops[1..], cap)
  }

  function Delivered<T>(d: seq<T>, op: Op<T>): seq<T> {
    if op.PopFront? && d != [] then [d[0]] else []
  }

  /** What the pops deliver, in order. */
  function Popped<T>(d: seq<T>, ops: seq<Op<T>>, cap: nat): seq<T>
    decreases |ops|
  {
    if ops == [] then [] else Delivered(d, ops[0]) + Popped(Do(d, ops[0], cap), ops[1..], cap)
  }

  lemma {:induction false} InTwoParts<T>(d: seq<T>, a: seq<Op<T>>, b: seq<Op<T>>, cap: nat)
    ensures Replay(d, a + b, cap) == Replay(Replay(d, a, cap), b, cap)
    ensures Popped(d, a + b, cap) == Popped(d, a, cap) + Popped(Replay(d, a, cap), b, cap)
    decreases |a|
  {
    hide Do, Delivered;
    if a == [] {
      assert a + b == b && [] + Popped(d, b, cap) == Popped(d, b, cap);
    } else {
      var r := Do(d, a[0], cap);
      assert (a + b)[0] == a[0] && (a + b)[1..] == a[1..] + b;
      InTwoParts(r, a[1..], b, cap);
      Regroup(Delivered(d, a[0]), Popped(r, a[1..], cap), Popped(Replay(d, a, cap), b, cap));
    }
  }

  lemma {:induction false} Regroup<T>(a: seq<T>, b: seq<T>, c: seq<T>)
    ensures a + (b + c) == (a + b) + c
  {
  }

  lemma {:induction false} NoOp<T>(d: seq<T>, cap: nat)
    ensures Replay(d, [], cap) == d && Popped(d, [], cap) == []
  {
  }

  lemma {:induction false} OneOp<T>(d: seq<T>, op: Op<T>, cap: nat)
    ensures Replay(d, [op], cap) == Do(d, op, cap) && Popped(d, [op], cap) == Delivered(d, op)
  {
    assert [op][1..] == [];
  }
}
