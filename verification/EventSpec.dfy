/** Event sets (ipc.c): 32 flags, and threads that wait for all or for any of the flags they name. */
module EventSpec {
  import opened WaitList
  import opened Blocking

  /* RT_EVENT_FLAG_AND, RT_EVENT_FLAG_OR and RT_EVENT_FLAG_CLEAR */
  const AND: bv8 := 1
  const OR: bv8 := 2
  const CLEAR: bv8 := 4

  datatype State = State(flags: bv32, waiters: seq<Thread>)

  predicate All(option: bv8) { option & AND != 0 }

  predicate Any(option: bv8) { option & OR != 0 }

  predicate Clears(option: bv8) { option & CLEAR != 0 }

  predicate ValidOption(option: bv8) {
    All(option) || Any(option)
  }

  function Common(a: bv32, b: bv32): bv32 { a & b }

  function Minus(a: bv32, b: bv32): bv32 { a & !b }

  function Join(a: bv32, b: bv32): bv32 { a | b }

  predicate Within(a: bv32, b: bv32) { a & b == a }

  /** Is the thread's condition met by these flags?  AND goes before OR. */
  predicate Satisfied(t: Thread, flags: bv32) {
    if All(t.eventInfo) then Within(t.eventSet, flags)
    else Any(t.eventInfo) && Common(t.eventSet, flags) != 0
  }

  /** What a resumed thread finds in its event_set. */
  function Delivered(t: Thread, flags: bv32): Thread {
    if All(t.eventInfo) then t else t.(eventSet := Common(t.eventSet, flags))
  }

  /** The flags after delivering `got` to a thread with this option. */
  function Consume(flags: bv32, option: bv8, got: bv32): bv32 {
    if Clears(option) then Minus(flags, got) else flags
  }

  /* ---------- rt_event_send: the scan over the waiting threads ---------- */

  datatype Scan = Scan(flags: bv32, kept: seq<Thread>, woken: seq<Thread>, ok: bool)

  /** One pass in list order.  A thread with neither option ends the scan there. */
  function ScanFrom(flags: bv32, ws: seq<Thread>): Scan {
    if ws == [] then Scan(flags, [], [], true)
    else if !ValidOption(ws[0].eventInfo) then Scan(flags, ws, [], false)
    else if Satisfied(ws[0], flags) then
      var d := Delivered(ws[0], flags);
      var r := ScanFrom(Consume(flags, d.eventInfo, d.eventSet), ws[1..]);
      r.(woken := [d] + r.woken)
    else
      var r := ScanFrom(flags, ws[1..]);
      r.(kept := [ws[0]] + r.kept)
  }

  datatype SendResult = Refused | Invalid(early: seq<Thread>) | Sent(resumed: seq<Thread>)

  function Send(s: State, flags: bv32): (State, SendResult) {
    if flags == 0 then (s, Refused)
    else
      var r := ScanFrom(Join(s.flags, flags), s.waiters);
      (State(r.flags, r.kept), if r.ok then Sent(r.woken) else Invalid(r.woken))
  }

  /* ---------- rt_event_recv ---------- */

  datatype RecvResult = Rejected | Received(got: bv32) | TimedOut | Suspended

  /** Thread t asks for t.eventSet with option t.eventInfo. */
  function Recv(s: State, flag: Flag, t: Thread, mayWait: bool): (State, RecvResult) {
    if t.eventSet == 0 then (s, Rejected)
    else if Satisfied(t, s.flags) then
      (s.(flags := Consume(s.flags, t.eventInfo, t.eventSet)), Received(Common(s.flags, t.eventSet)))
    else if !mayWait then (s, TimedOut)
    else (s.(waiters := Enqueue(s.waiters, t, flag)), Suspended)
  }

  /* ---------- flags as sets ---------- */

  predicate Odd(w: bv32) { w & 1 == 1 }

  function Half(w: bv32): bv32 { w >> 1 }

  function Halves(w: bv32, n: nat): bv32
    decreases n
  {
    if n == 0 then w else Halves(Half(w), n - 1)
  }

  /** Flag p of a set. */
  predicate Bit(w: bv32, p: nat) { Odd(Halves(w, p)) }

  lemma {:induction false} CommonLow(a: bv32, b: bv32)
    ensures Odd(Common(a, b)) <==> Odd(a) && Odd(b)
    ensures Half(Common(a, b)) == Common(Half(a), Half(b))
  {
  }

  lemma {:induction false} MinusLow(a: bv32, b: bv32)
    ensures Odd(Minus(a, b)) <==> Odd(a) && !Odd(b)
  {
  }

  lemma {:induction false} MinusHalf(a: bv32, b: bv32)
    ensures Half(Minus(a, b)) == Minus(Half(a), Half(b))
  {
  }

  lemma {:induction false} JoinLow(a: bv32, b: bv32)
    ensures Odd(Join(a, b)) <==> Odd(a) || Odd(b)
    ensures Half(Join(a, b)) == Join(Half(a), Half(b))
  {
  }

  lemma {:induction false} CommonBit(a: bv32, b: bv32, p: nat)
    ensures Bit(Common(a, b), p) <==> Bit(a, p) && Bit(b, p)
    decreases p
  {
    hide Odd, Half, Common;
    CommonLow(a, b);
    if p > 0 {
      CommonBit(Half(a), Half(b), p - 1);
    }
  }

  lemma {:induction false} MinusBit(a: bv32, b: bv32, p: nat)
    ensures Bit(Minus(a, b), p) <==> Bit(a, p) && !Bit(b, p)
    decreases p
  {
    hide Odd, Half, Minus;
    MinusLow(a, b);
    MinusHalf(a, b);
    if p > 0 {
      MinusBit(Half(a), Half(b), p - 1);
    }
  }

  lemma {:induction false} JoinBit(a: bv32, b: bv32, p: nat)
    ensures Bit(Join(a, b), p) <==> Bit(a, p) || Bit(b, p)
    decreases p
  {
    hide Odd, Half, Join;
    JoinLow(a, b);
    if p > 0 {
      JoinBit(Half(a), Half(b), p - 1);
    }
  }

  lemma {:induction false} ZeroLow(w: bv32)
    ensures w == 0 <==> !Odd(w) && Half(w) == 0
  {
  }

  lemma {:induction false} ZeroBit(p: nat)
    ensures !Bit(0, p)
    decreases p
  {
    hide Odd, Half;
    ZeroLow(0);
    if p > 0 {
      ZeroBit(p - 1);
    }
  }

  function Quarter(w: bv32): bv32 { Half(Half(Half(Half(Half(Half(Half(Half(w)))))))) }

  lemma {:induction false} EightHalves(w: bv32, n: nat)
    ensures Halves(w, n + 8) == Halves(Quarter(w), n)
  {
    hide Half;
    var a := Half(Half(w));
    assert Halves(w, n + 8) == Halves(a, n + 6);
    var b := Half(Half(a));
    assert Halves(a, n + 6) == Halves(b, n + 4);
    var c := Half(Half(b));
    assert Halves(b, n + 4) == Halves(c, n + 2);
    assert Halves(c, n + 2) == Halves(Half(Half(c)), n);
  }

  lemma {:induction false} FourQuarters(w: bv32)
    ensures Quarter(Quarter(Quarter(Quarter(w)))) == 0
  {
  }

  lemma {:induction false} AllOut(w: bv32)
    ensures Halves(w, 32) == 0
  {
    hide Half, Quarter;
    EightHalves(w, 24);
    EightHalves(Quarter(w), 16);
    EightHalves(Quarter(Quarter(w)), 8);
    EightHalves(Quarter(Quarter(Quarter(w))), 0);
    FourQuarters(w);
  }

  lemma {:induction false} NoBits(w: bv32, n: nat)
    requires Halves(w, n) == 0 && forall p | 0 <= p < n :: !Bit(w, p)
    ensures w == 0
    decreases n
  {
    hide Odd, Half;
    if n > 0 {
      forall p | 0 <= p < n - 1 ensures !Bit(Half(w), p) {
        assert !Bit(w, p + 1);
      }
      assert !Bit(w, 0);
      NoBits(Half(w), n - 1);
      ZeroLow(w);
    }
  }

  /** A set is empty exactly when no flag of it is on. */
  lemma {:induction false} EmptyIff(w: bv32)
    ensures w == 0 <==> forall p | 0 <= p < 32 :: !Bit(w, p)
  {
    hide Bit, Halves;
    if w == 0 {
      forall p | 0 <= p < 32 ensures !Bit(w, p) {
        ZeroBit(p);
      }
    } else if forall p | 0 <= p < 32 :: !Bit(w, p) {
      AllOut(w);
      NoBits(w, 32);
    }
  }

  /** Two sets have a flag in common exactly when some flag is in both. */
  lemma {:induction false} CommonIff(a: bv32, b: bv32)
    ensures Common(a, b) != 0 <==> exists p :: 0 <= p < 32 && Bit(a, p) && Bit(b, p)
  {
    hide Bit, Common;
    EmptyIff(Common(a, b));
    forall p | 0 <= p < 32 ensures Bit(Common(a, b), p) <==> Bit(a, p) && Bit(b, p) {
      CommonBit(a, b, p);
    }
  }

  lemma {:induction false} WithinNothing(a: bv32, b: bv32)
    ensures Within(a, b) <==> Minus(a, b) == 0
  {
  }

  lemma {:induction false} WithinIff(a: bv32, b: bv32)
    ensures Within(a, b) <==> forall p | 0 <= p < 32 && Bit(a, p) :: Bit(b, p)
  {
    hide Bit, Within, Minus;
    WithinNothing(a, b);
    EmptyIff(Minus(a, b));
    forall p | 0 <= p < 32 ensures Bit(Minus(a, b), p) <==> Bit(a, p) && !Bit(b, p) {
      MinusBit(a, b, p);
    }
  }

  lemma {:induction false} WithinTrans(a: bv32, b: bv32, c: bv32)
    requires Within(a, b) && Within(b, c)
    ensures Within(a, c)
  {
  }

  lemma {:induction false} WithinSelf(a: bv32)
    ensures Within(a, a)
  {
  }

  lemma {:induction false} CommonWithin(a: bv32, b: bv32)
    ensures Within(Common(a, b), a)
    ensures Within(Common(a, b), b)
    ensures Common(a, b) == Common(b, a)
  {
  }

  lemma {:induction false} WithinIsCommon(a: bv32, b: bv32)
    ensures Within(a, b) <==> Common(a, b) == a
  {
  }

  lemma {:induction false} CommonMonotone(r: bv32, a: bv32, b: bv32)
    requires Within(a, b) && Common(r, a) != 0
    ensures Common(r, b) != 0
  {
  }

  lemma {:induction false} MinusFacts(a: bv32, b: bv32)
    ensures Within(Minus(a, b), a)
    ensures Common(Minus(a, b), b) == 0
    ensures Minus(a, 0) == a
  {
  }

  lemma {:induction false} MinusTwice(a: bv32, b: bv32, c: bv32)
    ensures Minus(Minus(a, b), c) == Minus(a, Join(b, c))
  {
  }

  lemma {:induction false} JoinZero(a: bv32)
    ensures Join(0, a) == a
  {
  }

  lemma {:induction false} Apart(a: bv32, b: bv32, c: bv32)
    requires Within(a, b) && Common(b, c) == 0
    ensures Common(a, c) == 0
  {
  }

  /** Fewer flags never satisfy a thread that more flags do not. */
  lemma {:induction false} MoreFlags(t: Thread, a: bv32, b: bv32)
    requires Within(a, b) && Satisfied(t, a)
    ensures Satisfied(t, b)
  {
    hide All, Any, Within, Common;
    if All(t.eventInfo) {
      WithinTrans(t.eventSet, a, b);
    } else {
      CommonMonotone(t.eventSet, a, b);
    }
  }

  lemma {:induction false} ConsumeFacts(flags: bv32, option: bv8, got: bv32)
    ensures Within(Consume(flags, option, got), flags)
    ensures Clears(option) ==> Common(Consume(flags, option, got), got) == 0
  {
    hide Clears, Within, Common, Minus;
    MinusFacts(flags, got);
    WithinSelf(flags);
  }

  /* ---------- what the scan guarantees ---------- */

  /** The waiting threads, in order, are shared out between kept and woken; a woken thread has its
      whole request (AND) or a non-empty part of it (OR). */
  ghost predicate SharedOut(ws: seq<Thread>, kept: seq<Thread>, woken: seq<Thread>)
    decreases |ws|
  {
    if ws == [] then kept == [] && woken == []
    else
      || (kept != [] && kept[0] == ws[0] && SharedOut(ws[1..], kept[1..], woken))
      || (woken != [] && Served(ws[0], woken[0]) && SharedOut(ws[1..], kept, woken[1..]))
  }

  ghost predicate Served(asked: Thread, got: Thread) {
    && got == asked.(eventSet := got.eventSet)
    && Within(got.eventSet, asked.eventSet)
    && (All(asked.eventInfo) ==> got.eventSet == asked.eventSet)
    && (!All(asked.eventInfo) ==> got.eventSet != 0)
  }

  function TakenBy(t: Thread): bv32 {
    if Clears(t.eventInfo) then t.eventSet else 0
  }

  /** The flags that the woken threads took away. */
  function Taken(woken: seq<Thread>): bv32 {
    if woken == [] then 0 else Join(TakenBy(woken[0]), Taken(woken[1..]))
  }

  /** No flag goes to a second thread after a thread took it away. */
  ghost predicate Exclusive(woken: seq<Thread>)
    decreases |woken|
  {
    woken != [] ==>
      && (Clears(woken[0].eventInfo) ==> forall t | t in woken[1..] :: Common(t.eventSet, woken[0].eventSet) == 0)
      && Exclusive(woken[1..])
  }

  lemma {:induction false} DeliveredServed(t: Thread, flags: bv32)
    requires ValidOption(t.eventInfo) && Satisfied(t, flags)
    ensures Served(t, Delivered(t, flags)) && Within(Delivered(t, flags).eventSet, flags)
  {
    hide All, Any, Within, Common;
    CommonWithin(t.eventSet, flags);
    WithinSelf(t.eventSet);
  }

  lemma {:induction false} ScanShares(flags: bv32, ws: seq<Thread>)
    ensures var r := ScanFrom(flags, ws); SharedOut(ws, r.kept, r.woken)
    decreases |ws|
  {
    hide Satisfied, Delivered, Consume, Served, ValidOption;
    if ws != [] {
      var r := ScanFrom(flags, ws);
      if !ValidOption(ws[0].eventInfo) {
        KeepAll(ws);
      } else if Satisfied(ws[0], flags) {
        var d := Delivered(ws[0], flags);
        DeliveredServed(ws[0], flags);
        ScanShares(Consume(flags, d.eventInfo, d.eventSet), ws[1..]);
        assert r.woken[1..] == ScanFrom(Consume(flags, d.eventInfo, d.eventSet), ws[1..]).woken;
      } else {
        ScanShares(flags, ws[1..]);
        assert r.kept[1..] == ScanFrom(flags, ws[1..]).kept;
      }
    }
  }

  lemma {:induction false} KeepAll(ws: seq<Thread>)
    ensures SharedOut(ws, ws, [])
  {
    if ws != [] {
      KeepAll(ws[1..]);
    }
  }

  lemma {:induction false} ConsumeTwice(flags: bv32, d: Thread, later: bv32)
    ensures Minus(Consume(flags, d.eventInfo, d.eventSet), later) == Minus(flags, Join(TakenBy(d), later))
  {
    hide Clears, Minus, Join;
    MinusTwice(flags, d.eventSet, later);
    JoinZero(later);
  }

  /** One more thread in front of what the rest of the scan took. */
  lemma {:induction false} TakesFirst(flags: bv32, d: Thread, rest: bv32, q: seq<Thread>)
    requires Within(d.eventSet, flags) && rest == Consume(flags, d.eventInfo, d.eventSet)
    requires Exclusive(q) && forall t | t in q :: Within(t.eventSet, rest)
    ensures Exclusive([d] + q) && forall t | t in [d] + q :: Within(t.eventSet, flags)
    ensures Minus(rest, Taken(q)) == Minus(flags, Taken([d] + q))
  {
    hide Clears, Within, Common, Minus, Join, TakenBy, Consume;
    var w := [d] + q;
    assert w[0] == d && w[1..] == q;
    ConsumeFacts(flags, d.eventInfo, d.eventSet);
    ConsumeTwice(flags, d, Taken(q));
    forall t | t in q
      ensures Within(t.eventSet, flags) && (Clears(d.eventInfo) ==> Common(t.eventSet, d.eventSet) == 0)
    {
      WithinTrans(t.eventSet, rest, flags);
      if Clears(d.eventInfo) {
        Apart(t.eventSet, rest, d.eventSet);
      }
    }
  }

  /** The scan only takes flags away: those its woken threads took, each from flags still there. */
  lemma {:induction false} ScanTakes(flags: bv32, ws: seq<Thread>)
    ensures var r := ScanFrom(flags, ws);
      && r.flags == Minus(flags, Taken(r.woken)) && Exclusive(r.woken)
      && forall t | t in r.woken :: Within(t.eventSet, flags)
    decreases |ws|
  {
    hide Satisfied, Delivered, ValidOption, Within, Minus, Consume;
    if ws == [] || !ValidOption(ws[0].eventInfo) {
      MinusFacts(flags, 0);
    } else if Satisfied(ws[0], flags) {
      var d := Delivered(ws[0], flags);
      var rest := Consume(flags, d.eventInfo, d.eventSet);
      DeliveredServed(ws[0], flags);
      ScanTakes(rest, ws[1..]);
      TakesFirst(flags, d, rest, ScanFrom(rest, ws[1..]).woken);
    } else {
      ScanTakes(flags, ws[1..]);
    }
  }

  /** A scan that reaches the end leaves no thread asleep whose condition holds of the flags that are
      left, although it takes flags away while it runs. */
  lemma {:induction false} ScanLeavesNobody(flags: bv32, ws: seq<Thread>)
    requires ScanFrom(flags, ws).ok
    ensures var r := ScanFrom(flags, ws);
      Within(r.flags, flags) && forall t | t in r.kept :: t in ws && !Satisfied(t, r.flags)
    decreases |ws|
  {
    hide Satisfied, Delivered, ValidOption, Within, Consume;
    if ws == [] {
      WithinSelf(flags);
    } else if Satisfied(ws[0], flags) {
      var d := Delivered(ws[0], flags);
      var rest := Consume(flags, d.eventInfo, d.eventSet);
      ConsumeFacts(flags, d.eventInfo, d.eventSet);
      ScanLeavesNobody(rest, ws[1..]);
      WithinTrans(ScanFrom(flags, ws).flags, rest, flags);
    } else {
      ScanLeavesNobody(flags, ws[1..]);
      if Satisfied(ws[0], ScanFrom(flags, ws).flags) {
        MoreFlags(ws[0], ScanFrom(flags, ws).flags, flags);
      }
    }
  }

  /** The scan fails exactly when some waiting thread has neither option. */
  lemma {:induction false} ScanOkIff(flags: bv32, ws: seq<Thread>)
    ensures ScanFrom(flags, ws).ok <==> forall t | t in ws :: ValidOption(t.eventInfo)
    decreases |ws|
  {
    hide Satisfied, Delivered, ValidOption, Consume;
    if ws != [] {
      if ValidOption(ws[0].eventInfo) {
        if Satisfied(ws[0], flags) {
          var d := Delivered(ws[0], flags);
          ScanOkIff(Consume(flags, d.eventInfo, d.eventSet), ws[1..]);
        } else {
          ScanOkIff(flags, ws[1..]);
        }
      }
      assert forall t :: t in ws <==> t == ws[0] || t in ws[1..] by { assert ws == [ws[0]] + ws[1..]; }
    }
  }

  /** Sharing out keeps the order and the threads of the list. */
  lemma {:induction false} SharedIds(ws: seq<Thread>, kept: seq<Thread>, woken: seq<Thread>)
    requires SharedOut(ws, kept, woken)
    ensures |kept| + |woken| == |ws| && (forall t | t in kept :: t in ws) && Ids(kept) + Ids(woken) == Ids(ws)
    ensures DistinctIds(ws) ==> DistinctIds(kept) && Ids(kept) !! Ids(woken)
    ensures Sorted(ws) ==> Sorted(kept)
    decreases |ws|
  {
    hide Served, Sorted, DistinctIds, Ids, Within;
    if ws == [] {
      NoThreads();
    } else if kept != [] && kept[0] == ws[0] && SharedOut(ws[1..], kept[1..], woken) {
      SharedIds(ws[1..], kept[1..], woken);
      ConsFacts(ws);
      ConsFacts(kept);
      forall t | t in kept ensures t in ws {
        assert t == kept[0] || t in kept[1..];
      }
    } else {
      assert Served(ws[0], woken[0]);
      assert ws[0].id == woken[0].id by { ServedId(ws[0], woken[0]); }
      SharedIds(ws[1..], kept, woken[1..]);
      ConsFacts(ws);
      ConsFacts(woken);
    }
  }

  lemma {:induction false} NoThreads()
    ensures Ids([]) == {} && DistinctIds([]) && Sorted([])
  {
  }

  lemma {:induction false} ServedId(a: Thread, b: Thread)
    requires Served(a, b)
    ensures a.id == b.id
  {
  }

  lemma {:induction false} ConsFacts(s: seq<Thread>)
    requires s != []
    ensures Ids(s) == {s[0].id} + Ids(s[1..])
    ensures DistinctIds(s) <==> s[0].id !in Ids(s[1..]) && DistinctIds(s[1..])
    ensures Sorted(s) <==> (forall t | t in s[1..] :: s[0].priority <= t.priority) && Sorted(s[1..])
  {
    hide Sorted, DistinctIds;
    assert forall u :: u in s <==> u == s[0] || u in s[1..] by { assert s == [s[0]] + s[1..]; }
    ConsDistinct(s);
    ConsSorted(s);
  }

  lemma {:induction false} ConsDistinct(s: seq<Thread>)
    requires s != []
    ensures DistinctIds(s) <==> s[0].id !in Ids(s[1..]) && DistinctIds(s[1..])
  {
    if s[0].id !in Ids(s[1..]) && DistinctIds(s[1..]) {
      forall i, j | 0 <= i < j < |s| ensures s[i].id != s[j].id {
        assert s[j] == s[1..][j - 1] && (i > 0 ==> s[i] == s[1..][i - 1]);
      }
    }
  }

  lemma {:induction false} ConsSorted(s: seq<Thread>)
    requires s != []
    ensures Sorted(s) <==> (forall t | t in s[1..] :: s[0].priority <= t.priority) && Sorted(s[1..])
  {
    if (forall t | t in s[1..] :: s[0].priority <= t.priority) && Sorted(s[1..]) {
      forall i, j | 0 <= i < j < |s| ensures s[i].priority <= s[j].priority {
        assert s[j] == s[1..][j - 1] && s[1..][j - 1] in s[1..] && (i > 0 ==> s[i] == s[1..][i - 1]);
      }
    }
  }

  /* ---------- runs ---------- */

  datatype Event = SendEvent(flags: bv32) | RecvEvent(t: Thread, mayWait: bool) | TimeoutEvent(id: nat) | ResetEvent

  /** Callers name AND or OR, and a thread that waits does nothing else. */
  ghost predicate Enabled(s: State, e: Event) {
    match e
    case SendEvent(_) => true
    case RecvEvent(t, _) => ValidOption(t.eventInfo) && t.id !in Ids(s.waiters)
    case TimeoutEvent(_) => true
    case ResetEvent => true
  }

  function Next(s: State, flag: Flag, e: Event): State {
    match e
    case SendEvent(flags) => Send(s, flags).0
    case RecvEvent(t, mayWait) => Recv(s, flag, t, mayWait).0
    case TimeoutEvent(id) => s.(waiters := Without(s.waiters, id))
    case ResetEvent => State(0, [])
  }

  /** Every thread that sleeps has a condition, and the current flags do not meet it. */
  ghost predicate Inv(s: State, flag: Flag) {
    && DistinctIds(s.waiters) && (flag.Prio? ==> Sorted(s.waiters))
    && forall t | t in s.waiters :: ValidOption(t.eventInfo) && !Satisfied(t, s.flags)
  }

  lemma {:induction false} SendKeeps(s: State, flag: Flag, flags: bv32)
    requires Inv(s, flag)
    ensures Inv(Send(s, flags).0, flag) && !Send(s, flags).1.Invalid?
  {
    hide ScanFrom, Satisfied, ValidOption, Sorted, DistinctIds, SharedOut, Join, Within;
    if flags != 0 {
      ScanOkIff(Join(s.flags, flags), s.waiters);
      ScanShares(Join(s.flags, flags), s.waiters);
      var r := ScanFrom(Join(s.flags, flags), s.waiters);
      SharedIds(s.waiters, r.kept, r.woken);
      ScanLeavesNobody(Join(s.flags, flags), s.waiters);
    }
  }

  lemma {:induction false} RecvKeeps(s: State, flag: Flag, t: Thread, mayWait: bool)
    requires Inv(s, flag) && Enabled(s, RecvEvent(t, mayWait))
    ensures Inv(Recv(s, flag, t, mayWait).0, flag)
  {
    hide Satisfied, ValidOption, Sorted, DistinctIds, Consume, Enqueue, Ids, Within, Clears, Common;
    ConsumeFacts(s.flags, t.eventInfo, t.eventSet);
    var flags := Consume(s.flags, t.eventInfo, t.eventSet);
    forall u | u in s.waiters ensures !Satisfied(u, flags) {
      if Satisfied(u, flags) {
        MoreFlags(u, flags, s.flags);
      }
    }
    EnqueueIds(s.waiters, t, flag);
    var k := PlaceOf(s.waiters, t, flag);
  }

  lemma {:induction false} StepKeeps(s: State, flag: Flag, e: Event)
    requires Inv(s, flag) && Enabled(s, e)
    ensures Inv(Next(s, flag, e), flag)
  {
    hide Satisfied, ValidOption, Sorted, DistinctIds, Send, Recv, Without;
    match e
    case SendEvent(flags) => SendKeeps(s, flag, flags);
    case RecvEvent(t, mayWait) => RecvKeeps(s, flag, t, mayWait);
    case TimeoutEvent(id) => WithoutIds(s.waiters, id);
    case ResetEvent => NoThreads();
  }

  /** A timeout takes only its thread out of the wait list and touches no flag; a reset switches all
      flags off and lets everybody go. */
  lemma {:induction false} OtherOutcomes(s: State, flag: Flag, id: nat)
    ensures var r := Next(s, flag, TimeoutEvent(id)); r.flags == s.flags && exists k :: LeftAt(s.waiters, r.waiters, id, k)
    ensures Next(s, flag, ResetEvent) == State(0, [])
  {
    LeftBy(Side(s.waiters, {}), id);
  }

  ghost predicate Run(s: State, flag: Flag, es: seq<Event>)
    decreases |es|
  {
    es == [] || (Enabled(s, es[0]) && Run(Next(s, flag, es[0]), flag, es[1..]))
  }

  function After(s: State, flag: Flag, es: seq<Event>): State
    decreases |es|
  {
    if es == [] then s else After(Next(s, flag, es[0]), flag, es[1..])
  }

  /** No wake-up is missed: over every run of valid calls, no thread sleeps while the flags it waits
      for are there. */
  lemma {:induction false} NobodySleepsSatisfied(s: State, flag: Flag, es: seq<Event>)
    requires Inv(s, flag) && Run(s, flag, es)
    ensures var r := After(s, flag, es);
      Inv(r, flag) && forall t | t in r.waiters :: !Satisfied(t, r.flags)
    decreases |es|
  {
    hide Satisfied, ValidOption, Sorted, DistinctIds, Next, Enabled;
    if es != [] {
      StepKeeps(s, flag, es[0]);
      NobodySleepsSatisfied(Next(s, flag, es[0]), flag, es[1..]);
    }
  }

  /** The condition of a thread, flag by flag: all it names are on (AND), or some are (OR). */
  ghost predicate Met(t: Thread, flags: bv32) {
    if t.eventInfo & 1 != 0 then forall p | 0 <= p < 32 && Bit(t.eventSet, p) :: Bit(flags, p)
    else t.eventInfo & 2 != 0 && exists p :: 0 <= p < 32 && Bit(t.eventSet, p) && Bit(flags, p)
  }

  lemma {:induction false} SatisfiedIff(t: Thread, flags: bv32)
    ensures Satisfied(t, flags) <==> Met(t, flags)
  {
    hide Bit, Common, Within;
    WithinIff(t.eventSet, flags);
    CommonIff(t.eventSet, flags);
  }

  /** Flag by flag, what rt_event_recv returns and leaves.  It succeeds at once exactly when its
      condition is met; it returns exactly the flags that were asked for and on, and CLEAR switches off
      exactly those asked for.  Else nothing changes, but for the thread that waits if it may. */
  lemma {:induction false} RecvGives(s: State, flag: Flag, t: Thread, mayWait: bool)
    ensures var (r, out) := Recv(s, flag, t, mayWait);
      && (out.Rejected? <==> t.eventSet == 0)
      && (out.Received? <==> t.eventSet != 0 && Met(t, s.flags))
      && (out.TimedOut? <==> t.eventSet != 0 && !Met(t, s.flags) && !mayWait)
      && (out.Suspended? <==> t.eventSet != 0 && !Met(t, s.flags) && mayWait)
      && (out.Received? ==>
        && r.waiters == s.waiters
        && (forall p | 0 <= p < 32 :: Bit(out.got, p) <==> Bit(s.flags, p) && Bit(t.eventSet, p))
        && (forall p | 0 <= p < 32 :: Bit(r.flags, p) <==> Bit(s.flags, p) && !(t.eventInfo & 4 != 0 && Bit(t.eventSet, p))))
      && (out.Suspended? ==> r == State(s.flags, Enqueue(s.waiters, t, flag)))
      && (out.Rejected? || out.TimedOut? ==> r == s)
  {
    hide Enqueue, All, Any, Met, Within, Common, Minus, Bit, Satisfied;
    SatisfiedIff(t, s.flags);
    forall p | 0 <= p < 32
      ensures Bit(Common(s.flags, t.eventSet), p) <==> Bit(s.flags, p) && Bit(t.eventSet, p)
      ensures Bit(Minus(s.flags, t.eventSet), p) <==> Bit(s.flags, p) && !Bit(t.eventSet, p)
    {
      CommonBit(s.flags, t.eventSet, p);
      MinusBit(s.flags, t.eventSet, p);
    }
  }

  /** A thread with neither option waits for nothing: it can only time out, or wait. */
  lemma {:induction false} NeitherNeverReceives(s: State, flag: Flag, t: Thread, mayWait: bool)
    requires t.eventInfo & 3 == 0
    ensures !Recv(s, flag, t, mayWait).1.Received?
  {
    hide Bit;
    RecvGives(s, flag, t, mayWait);
    NeitherOption(t.eventInfo);
  }

  lemma {:induction false} NeitherOption(o: bv8)
    ensures o & 3 == 0 <==> o & 1 == 0 && o & 2 == 0
  {
  }

  lemma {:induction false} TakenBit(woken: seq<Thread>, p: nat)
    requires p < 32
    ensures Bit(Taken(woken), p) <==> exists t :: t in woken && t.eventInfo & 4 != 0 && Bit(t.eventSet, p)
  {
    hide Bit, Join;
    if woken == [] {
      ZeroBit(p);
    } else {
      TakenBit(woken[1..], p);
      ZeroBit(p);
      JoinBit(TakenBy(woken[0]), Taken(woken[1..]), p);
      assert forall t :: t in woken <==> t == woken[0] || t in woken[1..] by { assert woken == [woken[0]] + woken[1..]; }
    }
  }

  /** Flag by flag, what rt_event_send leaves: the flags that were on or are sent, but for those that a
      resumed CLEAR thread took. */
  lemma {:induction false} SendLeaves(s: State, flags: bv32, p: nat)
    requires p < 32
    ensures var (r, out) := Send(s, flags);
      && (out.Refused? <==> flags == 0) && (out.Refused? ==> r == s)
      && (out.Sent? ==> (Bit(r.flags, p) <==>
            (Bit(s.flags, p) || Bit(flags, p)) && !exists t :: t in out.resumed && t.eventInfo & 4 != 0 && Bit(t.eventSet, p)))
  {
    hide Bit, Join, ScanFrom, Minus, Taken;
    if flags != 0 {
      var r := ScanFrom(Join(s.flags, flags), s.waiters);
      ScanTakes(Join(s.flags, flags), s.waiters);
      JoinBit(s.flags, flags, p);
      MinusBit(Join(s.flags, flags), Taken(r.woken), p);
      TakenBit(r.woken, p);
    }
  }

  /** The flags that are left when the threads `woken` have been resumed. */
  function Left(flags: bv32, woken: seq<Thread>): bv32 { Minus(flags, Taken(woken)) }

  lemma {:induction false} LeftNext(flags: bv32, d: Thread, q: seq<Thread>)
    ensures Left(flags, [d] + q) == Left(Consume(flags, d.eventInfo, d.eventSet), q)
    ensures Left(flags, []) == flags
  {
    hide Clears, Minus, Join, TakenBy, Consume;
    ConsumeTwice(flags, d, Taken(q));
    assert ([d] + q)[0] == d && ([d] + q)[1..] == q;
    MinusFacts(flags, 0);
  }

  /** What the resumed threads get: each one's condition was met by the flags left before it, and it
      gets its whole set (AND) or exactly those of its flags that were left (OR). */
  lemma {:induction false} ScanDelivers(flags: bv32, ws: seq<Thread>, i: nat) returns (j: nat)
    requires i < |ScanFrom(flags, ws).woken|
    ensures var r := ScanFrom(flags, ws); var now := Left(flags, r.woken[..i]);
      && j < |ws| && Satisfied(ws[j], now)
      && r.woken[i] == ws[j].(eventSet := if ws[j].eventInfo & 1 != 0 then ws[j].eventSet else Common(ws[j].eventSet, now))
    decreases |ws|
  {
    hide Satisfied, Consume, ValidOption, Left, Common;
    var r := ScanFrom(flags, ws);
    if Satisfied(ws[0], flags) {
      var d := Delivered(ws[0], flags);
      var rest := Consume(flags, d.eventInfo, d.eventSet);
      if i == 0 {
        j := 0;
        LeftNext(flags, d, []);
        assert r.woken[..0] == [];
      } else {
        j := ScanDelivers(rest, ws[1..], i - 1);
        LeftNext(flags, d, ScanFrom(rest, ws[1..]).woken[..i - 1]);
        assert r.woken[..i] == [d] + ScanFrom(rest, ws[1..]).woken[..i - 1];
        j := j + 1;
      }
    } else {
      j := ScanDelivers(flags, ws[1..], i);
      j := j + 1;
    }
  }

  /** Who is passed over: the flags that were left when the scan came to a thread did not meet its
      condition. */
  lemma {:induction false} ScanPasses(flags: bv32, ws: seq<Thread>, k: nat) returns (j: nat, i: nat)
    requires ScanFrom(flags, ws).ok && k < |ScanFrom(flags, ws).kept|
    ensures var r := ScanFrom(flags, ws);
      j < |ws| && r.kept[k] == ws[j] && i <= |r.woken| && i + k == j && !Satisfied(ws[j], Left(flags, r.woken[..i]))
    decreases |ws|
  {
    hide Satisfied, Delivered, Consume, ValidOption, Left;
    var r := ScanFrom(flags, ws);
    if Satisfied(ws[0], flags) {
      var d := Delivered(ws[0], flags);
      var rest := Consume(flags, d.eventInfo, d.eventSet);
      j, i := ScanPasses(rest, ws[1..], k);
      LeftNext(flags, d, ScanFrom(rest, ws[1..]).woken[..i]);
      assert r.woken[..i + 1] == [d] + ScanFrom(rest, ws[1..]).woken[..i];
      j, i := j + 1, i + 1;
    } else if k == 0 {
      j, i := 0, 0;
      LeftNext(flags, ws[0], []);
      assert r.woken[..0] == [];
    } else {
      j, i := ScanPasses(flags, ws[1..], k - 1);
      j := j + 1;
    }
  }

  /** Sends reach everyone they can: rt_event_send succeeds exactly when its set is not empty and
      every waiting thread names AND or OR, and then nobody it leaves asleep is satisfied. */
  lemma {:induction false} SendWakesAll(s: State, flags: bv32)
    ensures var (r, out) := Send(s, flags);
      && (out.Sent? <==> flags != 0 && forall t | t in s.waiters :: ValidOption(t.eventInfo))
      && (out.Sent? ==>
        && SharedOut(s.waiters, r.waiters, out.resumed) && Exclusive(out.resumed)
        && r.flags == Minus(Join(s.flags, flags), Taken(out.resumed))
        && forall t | t in r.waiters :: !Satisfied(t, r.flags))
  {
    hide ScanFrom, Satisfied, ValidOption, SharedOut, Exclusive, Taken, Join, Minus, Within;
    ScanOkIff(Join(s.flags, flags), s.waiters);
    ScanShares(Join(s.flags, flags), s.waiters);
    ScanTakes(Join(s.flags, flags), s.waiters);
    if ScanFrom(Join(s.flags, flags), s.waiters).ok {
      ScanLeavesNobody(Join(s.flags, flags), s.waiters);
    }
  }

  /** Behind a thread with neither option (rt_event_recv does not stop it from waiting) a satisfied
      thread is missed, and a thread resumed before it gets no scheduling: the call ends early. */
  lemma {:induction false} InvalidWaiterHidesOthers(a: Thread, bad: Thread, b: Thread)
    requires a.eventInfo == OR && a.eventSet == 1 && b.eventInfo == OR && b.eventSet == 1 && bad.eventInfo == CLEAR
    ensures var (r, out) := Send(State(0, [a, bad, b]), 1);
      out == Invalid([a]) && r.waiters == [bad, b] && Satisfied(b, r.flags)
  {
    assert !ValidOption(bad.eventInfo) && ValidOption(a.eventInfo);
    assert Satisfied(a, 1) && Delivered(a, 1) == a && Consume(1, a.eventInfo, 1) == 1;
    var ws := [a, bad, b];
    assert ws[1..] == [bad, b];
    assert ScanFrom(1, [bad, b]) == Scan(1, [bad, b], [], false);
    assert ScanFrom(1, ws) == Scan(1, [bad, b], [a], false);
    assert Join(0, 1) == 1;
  }
}
