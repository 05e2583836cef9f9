/** The memheap allocator (memheap.c) as a value: its blocks in address order, ending with the used
    tail block, the free ring in its LIFO order, and the byte accounting. */
module MemHeapLayout {
  import opened Rings

  const ITEM := 24          // RT_MEMHEAP_SIZE on a 32-bit target: six words
  const MINIALLOC := 12     // RT_MEMHEAP_MINIALLOC
  const WORD_LIMIT := 0x1_0000_0000

  /** RT_ALIGN and the RT_MEMHEAP_MINIALLOC floor of rt_memheap_alloc and rt_memheap_realloc. */
  function Request(size: int): (r: int)
    requires 0 <= size < WORD_LIMIT
    ensures r >= MINIALLOC && r % 4 == 0
    ensures r >= size <==> size <= WORD_LIMIT - 4
  {
    var aligned := (size + 3) % WORD_LIMIT / 4 * 4;
    if aligned < MINIALLOC then MINIALLOC else aligned
  }

  /** The adjusted size is the least multiple of 4 that is at least 12 and holds the size; a size in the
      last three bytes below 2^32 wraps and is taken for 12. */
  lemma {:induction false} RequestIsLeast(size: int)
    requires 0 <= size < WORD_LIMIT
    ensures var n := Request(size);
      && n % 4 == 0 && n >= 12
      && (size <= WORD_LIMIT - 4 ==> n >= size && (n == 12 || n < size + 4))
      && (size > WORD_LIMIT - 4 ==> n == 12)
  {
  }

  /** A block: its header's address and its payload size (MEMITEM_SIZE). */
  datatype Cell = Cell(addr: int, size: int, used: bool) {
    function End(): int { addr + ITEM + size }
  }

  datatype State = State(cells: seq<Cell>, free: seq<int>, available: int, maxUsed: int)

  ghost predicate Tiled(cs: seq<Cell>) {
    && (forall i | 0 <= i < |cs| :: cs[i].size >= 0)
    && (forall i, j | 0 <= i < j < |cs| :: cs[i].End() <= cs[j].addr && (j == i + 1 ==> cs[i].End() == cs[j].addr))
  }

  /** The tail: used, empty, and ending where the pool ends. */
  ghost predicate Spans(cs: seq<Cell>, start: int, pool: int) {
    && |cs| >= 2 && cs[0].addr == start
    && cs[|cs| - 1] == Cell(start + pool - ITEM, 0, true)
    && Tiled(cs)
  }

  ghost predicate NoTwoFree(cs: seq<Cell>) {
    forall i, j | 0 <= i < j < |cs| && j == i + 1 :: cs[i].used || cs[j].used
  }

  ghost predicate BigEnough(cs: seq<Cell>) {
    forall i | 0 <= i < |cs| - 1 :: cs[i].size >= MINIALLOC
  }

  ghost function FreeAddrs(cs: seq<Cell>): set<int> {
    set c | c in cs && !c.used :: c.addr
  }

  /** The free ring holds every free block once and nothing else. */
  ghost predicate RingMatches(cs: seq<Cell>, free: seq<int>) {
    && (forall i, j | 0 <= i < j < |free| :: free[i] != free[j])
    && (set a | a in free) == FreeAddrs(cs)
  }

  function FreeBytes(cs: seq<Cell>): int {
    if cs == [] then 0 else (if cs[0].used then 0 else cs[0].size) + FreeBytes(cs[1..])
  }

  /** The pool is a range of 32-bit addresses, not at 0. */
  predicate InMemory(start: int, pool: int) {
    0 < start && start + pool <= WORD_LIMIT
  }

  /** The invariant of a memheap whose pool occupies [start, start + pool). */
  ghost predicate Inv(s: State, start: int, pool: int) {
    && InMemory(start, pool)
    && Spans(s.cells, start, pool) && NoTwoFree(s.cells) && BigEnough(s.cells)
    && RingMatches(s.cells, s.free)
    && s.available == FreeBytes(s.cells)
    && s.maxUsed >= pool - s.available
  }

  function Find(cs: seq<Cell>, addr: int): (i: nat)
    ensures i <= |cs| && (i < |cs| ==> cs[i].addr == addr) && forall j | 0 <= j < i :: cs[j].addr != addr
  {
    if cs == [] || cs[0].addr == addr then 0 else Find(cs[1..], addr) + 1
  }

  function FindAddr(free: seq<int>, addr: int): (k: nat)
    ensures k <= |free| && (k < |free| ==> free[k] == addr) && forall j | 0 <= j < k :: free[j] != addr
  {
    if free == [] || free[0] == addr then 0 else FindAddr(free[1..], addr) + 1
  }

  function SizeAt(cs: seq<Cell>, addr: int): int {
    var i := Find(cs, addr);
    if i < |cs| then cs[i].size else 0
  }

  /** The search of rt_memheap_alloc: the first block in free-ring order that is large enough. */
  function FirstFit(cs: seq<Cell>, free: seq<int>, size: int): (k: nat)
    ensures k <= |free| && (k < |free| ==> SizeAt(cs, free[k]) >= size)
    ensures forall j | 0 <= j < k :: SizeAt(cs, free[j]) < size
  {
    if free == [] || SizeAt(cs, free[0]) >= size then 0 else FirstFit(cs, free[1..], size) + 1
  }

  function Swap(cs: seq<Cell>, i: nat, n: nat, mid: seq<Cell>): seq<Cell>
    requires i + n <= |cs|
  {
    cs[..i] + mid + cs[i + n..]
  }

  function Peak(maxUsed: int, pool: int, available: int): int {
    if pool - available > maxUsed then pool - available else maxUsed
  }

  /* ---------- the operations ---------- */

  /** Hand out the k-th block of the free ring, which is block i. */
  function Take(s: State, pool: int, i: nat, k: nat, size: int): State
    requires i < |s.cells| && k < |s.free|
  {
    var c := s.cells[i];
    if c.size >= size + ITEM + MINIALLOC then
      var rest := c.addr + ITEM + size;
      var available := s.available - size - ITEM;
      State(Swap(s.cells, i, 1, [Cell(c.addr, size, true), Cell(rest, c.size - size - ITEM, false)]),
            [rest] + RemoveAt(s.free, k), available, Peak(s.maxUsed, pool, available))
    else
      var available := s.available - c.size;
      State(Swap(s.cells, i, 1, [c.(used := true)]), RemoveAt(s.free, k), available, Peak(s.maxUsed, pool, available))
  }

  /** The place in the free ring of the block rt_memheap_alloc(size) takes, or |free| for RT_NULL. */
  function AllocFit(s: State, size: int): nat
    requires 0 <= size < WORD_LIMIT
  {
    if Request(size) < s.available then FirstFit(s.cells, s.free, Request(size)) else |s.free|
  }

  function Alloc(s: State, pool: int, size: int): State
    requires 0 <= size < WORD_LIMIT
  {
    var k := AllocFit(s, size);
    if k < |s.free| && Find(s.cells, s.free[k]) < |s.cells| then
      Take(s, pool, Find(s.cells, s.free[k]), k, Request(size))
    else s
  }

  /** Merge block i with its successor; the header of the successor becomes payload. */
  function Absorb(cs: seq<Cell>, i: nat): seq<Cell>
    requires i + 1 < |cs|
  {
    Swap(cs, i, 2, [cs[i].(size := cs[i].size + ITEM + cs[i + 1].size)])
  }

  /** The right merge of rt_memheap_free: free block i swallows a free successor, which leaves the
      free ring. */
  function MergeRight(s: State, i: nat): State
    requires i < |s.cells|
  {
    if i + 1 < |s.cells| && !s.cells[i + 1].used then
      var k := FindAddr(s.free, s.cells[i + 1].addr);
      s.(cells := Absorb(s.cells, i), free := if k < |s.free| then RemoveAt(s.free, k) else s.free,
         available := s.available + ITEM)
    else s
  }

  function MarkFree(s: State, i: nat): State
    requires i < |s.cells|
  {
    s.(cells := Swap(s.cells, i, 1, [s.cells[i].(used := false)]), available := s.available + s.cells[i].size)
  }

  /** rt_memheap_free of used block i. */
  function Free(s: State, i: nat): State
    requires i < |s.cells|
  {
    var m := MarkFree(s, i);
    if i > 0 && !s.cells[i - 1].used then
      MergeRight(m.(cells := Absorb(m.cells, i - 1), available := m.available + ITEM), i - 1)
    else
      var r := MergeRight(m, i);
      r.(free := [s.cells[i].addr] + r.free)
  }

  /** Where the in-place growth builds the header behind block c, in 32 bits. */
  function RestAddr(c: Cell, newsize: int): int {
    (c.addr + ITEM + newsize) % WORD_LIMIT
  }

  /** The two blocks that the new header makes of c and its successor n: sizes are distances of headers. */
  function Regrown(c: Cell, n: Cell, newsize: int): seq<Cell> {
    var rest := RestAddr(c, newsize);
    [Cell(c.addr, rest - c.addr - ITEM, true), Cell(rest, n.End() - rest - ITEM, false)]
  }

  /** The in-place growth of rt_memheap_realloc: block i takes bytes from its free successor. */
  function Grow(s: State, pool: int, i: nat, newsize: int): State
    requires i + 1 < |s.cells|
  {
    var c, n := s.cells[i], s.cells[i + 1];
    var rest := RestAddr(c, newsize);
    var k := FindAddr(s.free, n.addr);
    var available := (s.available - (newsize - c.size)) % WORD_LIMIT;
    State(Swap(s.cells, i, 2, Regrown(c, n, newsize)),
          [rest] + (if k < |s.free| then RemoveAt(s.free, k) else s.free), available, Peak(s.maxUsed, pool, available))
  }

  /** The in-place shrinking of rt_memheap_realloc: the cut-off part joins a free successor. */
  function Shrink(s: State, i: nat, newsize: int): State
    requires i < |s.cells|
  {
    var c := s.cells[i];
    var rest := c.addr + ITEM + newsize;
    if i + 1 < |s.cells| && !s.cells[i + 1].used then
      var n := s.cells[i + 1];
      var k := FindAddr(s.free, n.addr);
      var size := c.size - newsize + n.size;
      State(Swap(s.cells, i, 2, [Cell(c.addr, newsize, true), Cell(rest, size, false)]),
            [rest] + (if k < |s.free| then RemoveAt(s.free, k) else s.free), s.available - n.size + size, s.maxUsed)
    else
      var size := c.size - newsize - ITEM;
      State(Swap(s.cells, i, 1, [Cell(c.addr, newsize, true), Cell(rest, size, false)]),
            [rest] + s.free, s.available + size, s.maxUsed)
  }

  /* ---------- seq surgery: tiling, accounting and the free set ---------- */

  lemma {:induction false} SwapSpans(cs: seq<Cell>, i: nat, n: nat, mid: seq<Cell>, start: int, pool: int)
    requires Spans(cs, start, pool) && BigEnough(cs) && 0 < n && i + n < |cs| && 0 < |mid| <= 2
    requires mid[0].addr == cs[i].addr && mid[|mid| - 1].End() == cs[i + n - 1].End()
    requires forall k | 0 <= k < |mid| :: mid[k].size >= MINIALLOC
    requires |mid| == 2 ==> mid[0].End() == mid[1].addr
    ensures Spans(Swap(cs, i, n, mid), start, pool) && BigEnough(Swap(cs, i, n, mid))
  {
    hide Tiled;
    var r := Swap(cs, i, n, mid);
    assert r[|r| - 1] == cs[|cs| - 1];
    assert r[0] == if i == 0 then mid[0] else cs[0];
    SwapBig(cs, i, n, mid);
    SwapTiled(cs, i, n, mid);
  }

  lemma {:induction false} SwapBig(cs: seq<Cell>, i: nat, n: nat, mid: seq<Cell>)
    requires BigEnough(cs) && i + n < |cs| && forall k | 0 <= k < |mid| :: mid[k].size >= MINIALLOC
    ensures BigEnough(Swap(cs, i, n, mid))
  {
    var r := Swap(cs, i, n, mid);
    forall k | 0 <= k < |r| - 1 ensures r[k].size >= MINIALLOC {
      assert r[k] == if k < i then cs[k] else if k < i + |mid| then mid[k - i] else cs[k - |mid| + n];
    }
  }

  lemma {:induction false} SwapTiled(cs: seq<Cell>, i: nat, n: nat, mid: seq<Cell>)
    requires Tiled(cs) && 0 < n && i + n <= |cs| && 0 < |mid| <= 2
    requires mid[0].addr == cs[i].addr && mid[|mid| - 1].End() == cs[i + n - 1].End()
    requires forall k | 0 <= k < |mid| :: mid[k].size >= 0
    requires |mid| == 2 ==> mid[0].End() == mid[1].addr
    ensures Tiled(Swap(cs, i, n, mid))
  {
    var r := Swap(cs, i, n, mid);
    forall k | 0 <= k < |r| ensures r[k].size >= 0 {
      assert r[k] == if k < i then cs[k] else if k < i + |mid| then mid[k - i] else cs[k - |mid| + n];
    }
    forall k, l | 0 <= k < l < |r|
      ensures r[k].End() <= r[l].addr && (l == k + 1 ==> r[k].End() == r[l].addr)
    {
      SwapOrder(cs, i, n, mid, k, l);
    }
  }

  lemma {:induction false} SwapOrder(cs: seq<Cell>, i: nat, n: nat, mid: seq<Cell>, k: nat, l: nat)
    requires Tiled(cs) && 0 < n && i + n <= |cs| && 0 < |mid| <= 2
    requires mid[0].addr == cs[i].addr && mid[|mid| - 1].End() == cs[i + n - 1].End()
    requires forall k | 0 <= k < |mid| :: mid[k].size >= 0
    requires |mid| == 2 ==> mid[0].End() == mid[1].addr
    requires k < l < |Swap(cs, i, n, mid)|
    ensures var r := Swap(cs, i, n, mid); r[k].End() <= r[l].addr && (l == k + 1 ==> r[k].End() == r[l].addr)
  {
    var r := Swap(cs, i, n, mid);
    var k' := if k < i then k else if k < i + |mid| then i + n - 1 else k - |mid| + n;
    var l' := if l < i then l else if l < i + |mid| then i else l - |mid| + n;
    assert r[k] == if k < i then cs[k] else if k < i + |mid| then mid[k - i] else cs[k'];
    assert r[l] == if l < i then cs[l] else if l < i + |mid| then mid[l - i] else cs[l'];
    if k' < l' {
      assert cs[k'].End() <= cs[l'].addr;
    }
  }

  lemma {:induction false} FreeBytesConcat(a: seq<Cell>, b: seq<Cell>)
    ensures FreeBytes(a + b) == FreeBytes(a) + FreeBytes(b)
  {
    if a == [] {
      assert a + b == b;
    } else {
      assert (a + b)[1..] == a[1..] + b;
      FreeBytesConcat(a[1..], b);
    }
  }

  lemma {:induction false} SwapBytes(cs: seq<Cell>, i: nat, n: nat, mid: seq<Cell>)
    requires i + n <= |cs|
    ensures FreeBytes(Swap(cs, i, n, mid)) == FreeBytes(cs) - FreeBytes(cs[i..i + n]) + FreeBytes(mid)
  {
    hide FreeBytes;
    assert cs == cs[..i] + (cs[i..i + n] + cs[i + n..]);
    assert Swap(cs, i, n, mid) == cs[..i] + (mid + cs[i + n..]);
    FreeBytesConcat(cs[..i], cs[i..i + n] + cs[i + n..]);
    FreeBytesConcat(cs[i..i + n], cs[i + n..]);
    FreeBytesConcat(cs[..i], mid + cs[i + n..]);
    FreeBytesConcat(mid, cs[i + n..]);
  }

  lemma {:induction false} Ascending(cs: seq<Cell>)
    requires Tiled(cs)
    ensures forall i, j | 0 <= i < j < |cs| :: cs[i].addr < cs[j].addr
  {
  }

  lemma {:induction false} SwapFreeSet(cs: seq<Cell>, i: nat, n: nat, mid: seq<Cell>)
    requires i + n <= |cs| && Tiled(cs)
    ensures FreeAddrs(Swap(cs, i, n, mid)) == FreeAddrs(cs) - FreeAddrs(cs[i..i + n]) + FreeAddrs(mid)
  {
    var r := Swap(cs, i, n, mid);
    Ascending(cs);
    assert forall c :: c in r <==> c in cs[..i] || c in mid || c in cs[i + n..];
    forall a ensures a in FreeAddrs(cs) && a !in FreeAddrs(cs[i..i + n]) <==> a in FreeAddrs(cs[..i]) || a in FreeAddrs(cs[i + n..]) {
      hide Tiled;
      SplitFree(cs, i, n, a);
    }
  }

  lemma {:induction false} SplitFree(cs: seq<Cell>, i: nat, n: nat, a: int)
    requires i + n <= |cs| && forall i, j | 0 <= i < j < |cs| :: cs[i].addr < cs[j].addr
    ensures a in FreeAddrs(cs) && a !in FreeAddrs(cs[i..i + n]) <==> a in FreeAddrs(cs[..i]) || a in FreeAddrs(cs[i + n..])
  {
    if a in FreeAddrs(cs) {
      var k :| 0 <= k < |cs| && !cs[k].used && cs[k].addr == a;
      if k < i {
        assert cs[..i][k] == cs[k];
      } else if k < i + n {
        assert cs[i..i + n][k - i] == cs[k];
      } else {
        assert cs[i + n..][k - i - n] == cs[k];
      }
    }
  }

  lemma {:induction false} One(c: Cell)
    ensures FreeBytes([c]) == if c.used then 0 else c.size
    ensures FreeAddrs([c]) == if c.used then {} else {c.addr}
  {
    assert FreeBytes([c][1..]) == 0;
    assert c in [c];
  }

  lemma {:induction false} Two(c: Cell, d: Cell)
    ensures FreeBytes([c, d]) == FreeBytes([c]) + FreeBytes([d])
    ensures FreeAddrs([c, d]) == FreeAddrs([c]) + FreeAddrs([d])
  {
    assert [c, d] == [c] + [d];
    FreeBytesConcat([c], [d]);
    assert forall e :: e in [c, d] <==> e in [c] || e in [d];
  }

  /* ---------- the free ring ---------- */

  lemma {:induction false} RingRemove(cs: seq<Cell>, free: seq<int>, cs': seq<Cell>, k: nat)
    requires RingMatches(cs, free) && k < |free| && FreeAddrs(cs') == FreeAddrs(cs) - {free[k]}
    ensures RingMatches(cs', RemoveAt(free, k))
  {
    hide FreeAddrs;
    var r := RemoveAt(free, k);
    assert forall a :: a in r <==> a in free && a != free[k] by {
      forall a | a in free && a != free[k] ensures a in r {
        var j :| 0 <= j < |free| && free[j] == a;
        assert r[if j < k then j else j - 1] == a;
      }
    }
  }

  lemma {:induction false} RingPush(cs: seq<Cell>, free: seq<int>, cs': seq<Cell>, x: int)
    requires RingMatches(cs, free) && x !in FreeAddrs(cs) && FreeAddrs(cs') == FreeAddrs(cs) + {x}
    ensures RingMatches(cs', [x] + free)
  {
    hide FreeAddrs;
    assert x !in free;
    assert forall a :: a in [x] + free <==> a == x || a in free;
  }

  /** Every free block is found in the ring, and every ring entry names a free block. */
  lemma {:induction false} RingFinds(cs: seq<Cell>, free: seq<int>, i: nat)
    requires RingMatches(cs, free) && i < |cs| && !cs[i].used
    ensures FindAddr(free, cs[i].addr) < |free| && free[FindAddr(free, cs[i].addr)] == cs[i].addr
  {
    assert cs[i].addr in FreeAddrs(cs);
    assert cs[i].addr in free;
  }

  lemma {:induction false} CellFinds(cs: seq<Cell>, free: seq<int>, k: nat)
    requires RingMatches(cs, free) && Tiled(cs) && k < |free|
    ensures var i := Find(cs, free[k]); i < |cs| && cs[i].addr == free[k] && !cs[i].used
  {
    Ascending(cs);
    assert free[k] in FreeAddrs(cs);
    var c :| c in cs && !c.used && c.addr == free[k];
    var j :| 0 <= j < |cs| && cs[j] == c;
    assert Find(cs, free[k]) == j;
  }

  /* ---------- every operation keeps the invariant ---------- */

  lemma {:induction false} SwapPairs(cs: seq<Cell>, i: nat, n: nat, mid: seq<Cell>)
    requires NoTwoFree(cs) && 0 < n && i + n <= |cs| && 0 < |mid| <= 2
    requires |mid| == 2 ==> mid[0].used || mid[1].used
    requires i > 0 ==> cs[i - 1].used || mid[0].used
    requires i + n < |cs| ==> mid[|mid| - 1].used || cs[i + n].used
    ensures NoTwoFree(Swap(cs, i, n, mid))
  {
    var r := Swap(cs, i, n, mid);
    assert forall k | 0 <= k < i :: r[k] == cs[k];
    assert forall k | 0 <= k < |mid| :: r[i + k] == mid[k];
    assert forall k | i + |mid| <= k < |r| :: r[k] == cs[k - |mid| + n];
  }

  /** Replacing n blocks by `mid` inside a sound layout, the tail left alone. */
  ghost predicate EditOk(cs: seq<Cell>, i: nat, n: nat, mid: seq<Cell>) {
    && 0 < n && i + n < |cs| && 0 < |mid| <= 2
    && mid[0].addr == cs[i].addr && mid[|mid| - 1].End() == cs[i + n - 1].End()
    && (forall k | 0 <= k < |mid| :: mid[k].size >= MINIALLOC)
    && (|mid| == 2 ==> mid[0].End() == mid[1].addr && (mid[0].used || mid[1].used))
    && (i > 0 ==> cs[i - 1].used || mid[0].used)
    && (mid[|mid| - 1].used || cs[i + n].used)
  }

  lemma {:induction false} Edit(s: State, i: nat, n: nat, mid: seq<Cell>, start: int, pool: int)
    requires Inv(s, start, pool) && EditOk(s.cells, i, n, mid)
    ensures var r := Swap(s.cells, i, n, mid);
      && Spans(r, start, pool) && NoTwoFree(r) && BigEnough(r)
      && FreeBytes(r) == s.available - FreeBytes(s.cells[i..i + n]) + FreeBytes(mid)
      && FreeAddrs(r) == FreeAddrs(s.cells) - FreeAddrs(s.cells[i..i + n]) + FreeAddrs(mid)
  {
    hide Tiled, NoTwoFree, BigEnough, RingMatches, FreeBytes, FreeAddrs, Swap;
    SpansTiled(s.cells, start, pool);
    SwapSpans(s.cells, i, n, mid, start, pool);
    SwapPairs(s.cells, i, n, mid);
    SwapBytes(s.cells, i, n, mid);
    SwapFreeSet(s.cells, i, n, mid);
  }

  lemma {:induction false} SpansTiled(cs: seq<Cell>, start: int, pool: int)
    requires Spans(cs, start, pool)
    ensures Tiled(cs)
  {
  }

  /** The address of a block that is cut off inside block i is new. */
  lemma {:induction false} FreshAddr(cs: seq<Cell>, i: nat, n: nat, x: int)
    requires Tiled(cs) && 0 < n <= 2 && i + n <= |cs| && cs[i].addr < x < cs[i + n - 1].End()
    requires n == 2 ==> x != cs[i + 1].addr
    ensures x !in FreeAddrs(cs) && forall c | c in cs :: c.addr != x
  {
    forall c | c in cs ensures c.addr != x {
      var k :| 0 <= k < |cs| && cs[k] == c;
      assert k < i ==> cs[k].End() <= cs[i].addr;
      assert i + n <= k ==> cs[i + n - 1].End() <= cs[k].addr;
    }
  }

  lemma {:induction false} NotTail(cs: seq<Cell>, start: int, pool: int, i: nat)
    requires Spans(cs, start, pool) && BigEnough(cs) && i < |cs| && (!cs[i].used || cs[i].size > 0)
    ensures i + 1 < |cs| && cs[i].End() == cs[i + 1].addr && cs[i].size >= MINIALLOC
  {
  }

  lemma {:induction false} Neighbours(cs: seq<Cell>, i: nat)
    requires NoTwoFree(cs) && i < |cs| && !cs[i].used
    ensures (i > 0 ==> cs[i - 1].used) && (i + 1 < |cs| ==> cs[i + 1].used)
  {
  }

  lemma {:induction false} TakeKeeps(s: State, start: int, pool: int, i: nat, k: nat, size: int)
    requires Inv(s, start, pool) && i < |s.cells| && k < |s.free|
    requires !s.cells[i].used && s.cells[i].addr == s.free[k] && s.cells[i].size >= size >= MINIALLOC
    ensures Inv(Take(s, pool, i, k, size), start, pool)
  {
    hide Spans, Tiled, NoTwoFree, BigEnough, RingMatches, FreeBytes, FreeAddrs, Swap, RemoveAt;
    var c := s.cells[i];
    NotTail(s.cells, start, pool, i);
    Neighbours(s.cells, i);
    SpansTiled(s.cells, start, pool);
    assert s.cells[i..i + 1] == [c];
    One(c);
    if c.size >= size + ITEM + MINIALLOC {
      var rest := c.addr + ITEM + size;
      var mid := [Cell(c.addr, size, true), Cell(rest, c.size - size - ITEM, false)];
      Edit(s, i, 1, mid, start, pool);
      One(mid[0]);
      One(mid[1]);
      Two(mid[0], mid[1]);
      FreshAddr(s.cells, i, 1, rest);
      OnlyUsed(s, i, start, pool);
      RingRemove(s.cells, s.free, Swap(s.cells, i, 1, [c.(used := true)]), k);
      RingPush(Swap(s.cells, i, 1, [c.(used := true)]), RemoveAt(s.free, k), Swap(s.cells, i, 1, mid), rest);
    } else {
      OnlyUsed(s, i, start, pool);
      RingRemove(s.cells, s.free, Swap(s.cells, i, 1, [c.(used := true)]), k);
    }
  }

  /** Marking free block i used takes its address out of the free set and its size out of the sum. */
  lemma {:induction false} OnlyUsed(s: State, i: nat, start: int, pool: int)
    requires Inv(s, start, pool) && i < |s.cells| && !s.cells[i].used
    ensures var r := Swap(s.cells, i, 1, [s.cells[i].(used := true)]);
      && Spans(r, start, pool) && NoTwoFree(r) && BigEnough(r)
      && FreeBytes(r) == s.available - s.cells[i].size
      && FreeAddrs(r) == FreeAddrs(s.cells) - {s.cells[i].addr}
  {
    hide Spans, Tiled, NoTwoFree, BigEnough, RingMatches, FreeBytes, FreeAddrs, Swap;
    var c := s.cells[i];
    NotTail(s.cells, start, pool, i);
    Neighbours(s.cells, i);
    assert s.cells[i..i + 1] == [c];
    One(c);
    One(c.(used := true));
    Edit(s, i, 1, [c.(used := true)], start, pool);
  }

  lemma {:induction false} AllocKeeps(s: State, start: int, pool: int, size: int)
    requires Inv(s, start, pool) && 0 <= size < WORD_LIMIT
    ensures Inv(Alloc(s, pool, size), start, pool)
    ensures var k := AllocFit(s, size); k < |s.free| ==>
      var i := Find(s.cells, s.free[k]);
      && i < |s.cells| && s.cells[i].addr == s.free[k] && !s.cells[i].used && s.cells[i].size >= Request(size)
      && Alloc(s, pool, size) == Take(s, pool, i, k, Request(size))
  {
    hide Spans, Tiled, NoTwoFree, BigEnough, RingMatches, FreeBytes, FreeAddrs, Take, Find, FirstFit;
    var k := AllocFit(s, size);
    if k < |s.free| {
      SpansTiled(s.cells, start, pool);
      CellFinds(s.cells, s.free, k);
      TakeKeeps(s, start, pool, Find(s.cells, s.free[k]), k, Request(size));
    }
  }

  /** rt_memheap_alloc delivers a block exactly when the request is strictly below the summed free
      bytes and some free block can hold it; the strict comparison refuses a request for all of the
      only free block. */
  lemma {:induction false} AllocComplete(s: State, start: int, pool: int, size: int)
    requires Inv(s, start, pool) && 0 <= size < WORD_LIMIT
    ensures AllocFit(s, size) < |s.free| <==>
            Request(size) < FreeBytes(s.cells) && exists c :: c in s.cells && !c.used && c.size >= Request(size)
  {
    hide Spans, Tiled, NoTwoFree, BigEnough, FreeBytes, Find, FirstFit;
    SpansTiled(s.cells, start, pool);
    var n := Request(size);
    var k := FirstFit(s.cells, s.free, n);
    if k < |s.free| {
      CellFinds(s.cells, s.free, k);
      assert s.cells[Find(s.cells, s.free[k])] in s.cells;
    }
    if exists c :: c in s.cells && !c.used && c.size >= n {
      var c :| c in s.cells && !c.used && c.size >= n;
      var i :| 0 <= i < |s.cells| && s.cells[i] == c;
      RingFinds(s.cells, s.free, i);
      FindIs(s.cells, i);
      assert SizeAt(s.cells, s.free[FindAddr(s.free, c.addr)]) >= n;
    }
  }

  lemma {:induction false} FindIs(cs: seq<Cell>, i: nat)
    requires Tiled(cs) && i < |cs|
    ensures Find(cs, cs[i].addr) == i
  {
    Ascending(cs);
  }

  lemma {:induction false} FreeBytesBound(cs: seq<Cell>)
    requires Tiled(cs) && cs != []
    ensures 0 <= FreeBytes(cs) <= cs[|cs| - 1].End() - cs[0].addr - ITEM
  {
    if |cs| == 1 {
      assert cs[1..] == [];
    } else {
      assert forall i | 0 <= i < |cs| - 1 :: cs[1..][i] == cs[i + 1];
      FreeBytesBound(cs[1..]);
    }
  }

  /** While the sum of the comparison does not wrap nothing else does. */
  lemma {:induction false} GrowPlain(s: State, start: int, pool: int, i: nat, newsize: int)
    requires Inv(s, start, pool) && i + 1 < |s.cells| && !s.cells[i + 1].used
    requires newsize > s.cells[i].size && s.cells[i + 1].size + s.cells[i].size > newsize + MINIALLOC
    ensures var c, n := s.cells[i], s.cells[i + 1];
      && RestAddr(c, newsize) == c.addr + ITEM + newsize
      && Regrown(c, n, newsize)
         == [Cell(c.addr, newsize, true), Cell(c.addr + ITEM + newsize, n.size + c.size - newsize, false)]
      && (s.available - (newsize - c.size)) % WORD_LIMIT == s.available - (newsize - c.size)
  {
    hide NoTwoFree, RingMatches, FreeBytes, BigEnough;
    InThePool(s, start, pool, i);
    InThePool(s, start, pool, i + 1);
    FreeBytesBound(s.cells);
    FreeBytesAtLeast(s.cells, i + 1);
  }

  lemma {:induction false} FreeBytesAtLeast(cs: seq<Cell>, i: nat)
    requires Tiled(cs) && i < |cs| && !cs[i].used
    ensures FreeBytes(cs) >= cs[i].size
  {
    if |cs| > 1 {
      assert forall k | 0 <= k < |cs| - 1 :: cs[1..][k] == cs[k + 1];
      FreeBytesBound(cs[1..]);
      if i > 0 {
        FreeBytesAtLeast(cs[1..], i - 1);
      }
    } else {
      assert cs[1..] == [];
    }
  }

  lemma {:induction false} GrowKeeps(s: State, start: int, pool: int, i: nat, newsize: int)
    requires Inv(s, start, pool) && i + 1 < |s.cells| && s.cells[i].used && !s.cells[i + 1].used
    requires newsize > s.cells[i].size && s.cells[i + 1].size + s.cells[i].size > newsize + MINIALLOC
    ensures Inv(Grow(s, pool, i, newsize), start, pool)
  {
    hide Spans, Tiled, NoTwoFree, BigEnough, RingMatches, FreeBytes, FreeAddrs, Swap, RemoveAt, RestAddr, Regrown;
    var c, n := s.cells[i], s.cells[i + 1];
    var rest := c.addr + ITEM + newsize;
    var mid := [Cell(c.addr, newsize, true), Cell(rest, n.size + c.size - newsize, false)];
    GrowPlain(s, start, pool, i, newsize);
    NotTail(s.cells, start, pool, i + 1);
    Neighbours(s.cells, i + 1);
    UsedBeforeEnd(s.cells, start, pool, i);
    SpansTiled(s.cells, start, pool);
    assert s.cells[i..i + 2] == [c, n];
    One(c);
    One(n);
    Two(c, n);
    One(mid[0]);
    One(mid[1]);
    Two(mid[0], mid[1]);
    Edit(s, i, 2, mid, start, pool);
    OnlyUsed(s, i + 1, start, pool);
    FreshAddr(s.cells, i, 2, rest);
    RingFinds(s.cells, s.free, i + 1);
    var k := FindAddr(s.free, n.addr);
    var without := Swap(s.cells, i + 1, 1, [n.(used := true)]);
    RingRemove(s.cells, s.free, without, k);
    RingPush(without, RemoveAt(s.free, k), Swap(s.cells, i, 2, mid), rest);
  }

  /** The sum newsize + RT_MEMHEAP_MINIALLOC of the comparison wraps. */
  predicate SumWraps(n: int) {
    n + MINIALLOC >= WORD_LIMIT
  }

  /** With a wrapped sum every free successor looks large enough.  The growth then builds its header
      inside the header of the block itself, and the invariant is gone. */
  lemma {:induction false} WrappedGrowBreaks(s: State, start: int, pool: int, i: nat, n: int)
    requires Inv(s, start, pool) && i + 1 < |s.cells| && s.cells[i].used && !s.cells[i + 1].used
    requires n < WORD_LIMIT && SumWraps(n)
    ensures CanGrow(s, i, n) && s.cells[i].addr < RestAddr(s.cells[i], n) < s.cells[i].addr + ITEM
    ensures !Inv(Grow(s, pool, i, n), start, pool)
  {
    hide NoTwoFree, RingMatches, FreeBytes, Swap, RestAddr;
    InThePool(s, start, pool, i);
    NotTail(s.cells, start, pool, i + 1);
    UsedBeforeEnd(s.cells, start, pool, i);
    RestWraps(s.cells[i], n);
    NegativeSize(s.cells, i, Regrown(s.cells[i], s.cells[i + 1], n));
  }

  lemma {:induction false} InThePool(s: State, start: int, pool: int, i: nat)
    requires Inv(s, start, pool) && i < |s.cells|
    ensures start <= s.cells[i].addr && s.cells[i].End() <= start + pool
  {
    hide NoTwoFree, RingMatches, FreeBytes, BigEnough;
    var c, last := s.cells[i], |s.cells| - 1;
    assert i < last ==> c.End() <= s.cells[last].addr;
    assert i > 0 ==> s.cells[0].End() <= c.addr;
  }

  lemma {:induction false} RestWraps(c: Cell, n: int)
    requires n < WORD_LIMIT && SumWraps(n) && 0 < c.addr && c.End() <= WORD_LIMIT && c.size >= 0
    ensures n > c.size && (n + MINIALLOC) % WORD_LIMIT < MINIALLOC
    ensures c.addr < RestAddr(c, n) == c.addr + ITEM + n - WORD_LIMIT < c.addr + ITEM
  {
  }

  lemma {:induction false} NegativeSize(cs: seq<Cell>, i: nat, mid: seq<Cell>)
    requires i + 2 <= |cs| && |mid| == 2 && mid[0].size < 0
    ensures !Tiled(Swap(cs, i, 2, mid))
  {
    assert Swap(cs, i, 2, mid)[i] == mid[0];
  }

  lemma {:induction false} UsedBeforeEnd(cs: seq<Cell>, start: int, pool: int, i: nat)
    requires Spans(cs, start, pool) && BigEnough(cs) && i + 1 < |cs|
    ensures cs[i].End() == cs[i + 1].addr && cs[i].size >= MINIALLOC
  {
  }

  lemma {:induction false} ShrinkKeeps(s: State, start: int, pool: int, i: nat, newsize: int)
    requires Inv(s, start, pool) && i + 1 < |s.cells| && s.cells[i].used
    requires newsize >= MINIALLOC && newsize + ITEM + MINIALLOC < s.cells[i].size
    ensures Inv(Shrink(s, i, newsize), start, pool)
  {
    hide Spans, Tiled, NoTwoFree, BigEnough, RingMatches, FreeBytes, FreeAddrs, Swap, RemoveAt;
    var c, n := s.cells[i], s.cells[i + 1];
    var rest := c.addr + ITEM + newsize;
    UsedBeforeEnd(s.cells, start, pool, i);
    SpansTiled(s.cells, start, pool);
    FreshAddr(s.cells, i, 1, rest);
    One(c);
    if !n.used {
      var mid := [Cell(c.addr, newsize, true), Cell(rest, c.size - newsize + n.size, false)];
      NotTail(s.cells, start, pool, i + 1);
      Neighbours(s.cells, i + 1);
      assert s.cells[i..i + 2] == [c, n];
      One(n);
      Two(c, n);
      One(mid[0]);
      One(mid[1]);
      Two(mid[0], mid[1]);
      Edit(s, i, 2, mid, start, pool);
      OnlyUsed(s, i + 1, start, pool);
      RingFinds(s.cells, s.free, i + 1);
      var k := FindAddr(s.free, n.addr);
      var without := Swap(s.cells, i + 1, 1, [n.(used := true)]);
      RingRemove(s.cells, s.free, without, k);
      RingPush(without, RemoveAt(s.free, k), Swap(s.cells, i, 2, mid), rest);
    } else {
      var mid := [Cell(c.addr, newsize, true), Cell(rest, c.size - newsize - ITEM, false)];
      assert s.cells[i..i + 1] == [c];
      One(mid[0]);
      One(mid[1]);
      Two(mid[0], mid[1]);
      Edit(s, i, 1, mid, start, pool);
      RingPush(s.cells, s.free, Swap(s.cells, i, 1, mid), rest);
    }
  }

  /* ---------- rt_memheap_free: four ways the neighbours can look ---------- */

  /** The blocks that a freed block i merges into one: from lo on, n of them. */
  function MergeLo(cs: seq<Cell>, i: nat): nat
    requires i < |cs|
  {
    if i > 0 && !cs[i - 1].used then i - 1 else i
  }

  function MergeHi(cs: seq<Cell>, i: nat): nat
    requires i < |cs|
  {
    if i + 1 < |cs| && !cs[i + 1].used then i + 1 else i
  }

  function Merged(cs: seq<Cell>, i: nat): Cell
    requires i < |cs|
  {
    var lo, hi := MergeLo(cs, i), MergeHi(cs, i);
    Cell(cs[lo].addr, cs[hi].End() - cs[lo].addr - ITEM, false)
  }

  lemma {:induction false} SwapOne(cs: seq<Cell>, i: nat, n: nat, x: Cell)
    requires 0 < n && i + n <= |cs|
    ensures var r := Swap(cs, i, n, [x]);
      && |r| == |cs| - n + 1 && r[i] == x
      && (i > 0 ==> r[i - 1] == cs[i - 1]) && (i + n < |cs| ==> r[i + 1] == cs[i + n])
  {
  }

  lemma {:induction false} AbsorbNext(cs: seq<Cell>, i: nat, n: nat, x: Cell)
    requires 0 < n && i + n < |cs|
    ensures |Swap(cs, i, n, [x])| > i + 1
    ensures Absorb(Swap(cs, i, n, [x]), i) == Swap(cs, i, n + 1, [x.(size := x.size + ITEM + cs[i + n].size)])
  {
    var r := Swap(cs, i, n, [x]);
    assert r[..i] == cs[..i] && r[i + 2..] == cs[i + n + 1..];
  }

  lemma {:induction false} AbsorbPrevious(cs: seq<Cell>, i: nat, n: nat, x: Cell)
    requires 0 < n && 0 < i && i + n <= |cs|
    ensures |Swap(cs, i, n, [x])| > i
    ensures Absorb(Swap(cs, i, n, [x]), i - 1) == Swap(cs, i - 1, n + 1, [cs[i - 1].(size := cs[i - 1].size + ITEM + x.size)])
  {
    var r := Swap(cs, i, n, [x]);
    assert r[..i - 1] == cs[..i - 1] && r[i + 1..] == cs[i + n..];
  }

  /** rt_memheap_free in one step: the freed block and its free neighbours become one free block;
      only a block without a free predecessor enters the ring, and a free successor leaves it. */
  lemma {:induction false} FreeOnce(s: State, i: nat)
    requires i < |s.cells| && Tiled(s.cells)
    ensures var cs := s.cells; var lo, hi := MergeLo(cs, i), MergeHi(cs, i); var r := Free(s, i);
      var k := if hi > i then FindAddr(s.free, cs[hi].addr) else |s.free|;
      var rest := if k < |s.free| then RemoveAt(s.free, k) else s.free;
      && r.cells == Swap(cs, lo, hi + 1 - lo, [Merged(cs, i)])
      && r.free == (if lo < i then rest else [cs[i].addr] + rest)
      && r.available == s.available + cs[i].size + (i - lo) * ITEM + (hi - i) * ITEM
      && r.maxUsed == s.maxUsed
  {
    hide FindAddr, Swap, RemoveAt, Absorb;
    var cs := s.cells;
    var lo, hi := MergeLo(cs, i), MergeHi(cs, i);
    var x := cs[i].(used := false);
    SwapOne(cs, i, 1, x);
    if lo < i {
      var y := cs[lo].(size := cs[lo].size + ITEM + cs[i].size);
      AbsorbPrevious(cs, i, 1, x);
      SwapOne(cs, lo, 2, y);
      if hi > i {
        AbsorbNext(cs, lo, 2, y);
      }
    } else if hi > i {
      AbsorbNext(cs, i, 1, x);
    }
  }

  lemma {:induction false} FreeEdit(s: State, start: int, pool: int, i: nat)
    requires Inv(s, start, pool) && i + 1 < |s.cells| && s.cells[i].used
    ensures var lo, hi := MergeLo(s.cells, i), MergeHi(s.cells, i);
      && EditOk(s.cells, lo, hi + 1 - lo, [Merged(s.cells, i)])
      && Merged(s.cells, i).size == s.cells[i].size
         + (if lo < i then s.cells[lo].size + ITEM else 0) + (if hi > i then s.cells[hi].size + ITEM else 0)
  {
    hide FreeBytes, FreeAddrs, RingMatches;
    assert s.cells[i].End() == s.cells[i + 1].addr;
    assert i > 0 ==> s.cells[i - 1].End() == s.cells[i].addr;
  }

  /** What the merged blocks were worth. */
  lemma {:induction false} MergedWorth(cs: seq<Cell>, i: nat)
    requires i < |cs| && cs[i].used
    ensures var lo, hi := MergeLo(cs, i), MergeHi(cs, i); var was := cs[lo..hi + 1];
      && FreeBytes(was) == (if lo < i then cs[lo].size else 0) + (if hi > i then cs[hi].size else 0)
      && FreeAddrs(was) == (if lo < i then {cs[lo].addr} else {}) + (if hi > i then {cs[hi].addr} else {})
  {
    hide FreeBytes, FreeAddrs;
    var lo, hi := MergeLo(cs, i), MergeHi(cs, i);
    One(cs[i]);
    One(cs[lo]);
    One(cs[hi]);
    if lo < i && hi > i {
      assert cs[lo..hi + 1] == [cs[lo]] + [cs[i], cs[hi]];
      Two(cs[i], cs[hi]);
      FreeBytesConcat([cs[lo]], [cs[i], cs[hi]]);
      FreeAddrsConcat([cs[lo]], [cs[i], cs[hi]]);
    } else if lo < i {
      assert cs[lo..hi + 1] == [cs[lo], cs[i]];
      Two(cs[lo], cs[i]);
    } else if hi > i {
      assert cs[lo..hi + 1] == [cs[i], cs[hi]];
      Two(cs[i], cs[hi]);
    } else {
      assert cs[lo..hi + 1] == [cs[i]];
    }
  }

  lemma {:induction false} FreeAddrsConcat(a: seq<Cell>, b: seq<Cell>)
    ensures FreeAddrs(a + b) == FreeAddrs(a) + FreeAddrs(b)
  {
    assert forall c :: c in a + b <==> c in a || c in b;
  }

  lemma {:induction false} FreeKeeps(s: State, start: int, pool: int, i: nat)
    requires Inv(s, start, pool) && i + 1 < |s.cells| && s.cells[i].used
    ensures Inv(Free(s, i), start, pool)
    ensures Free(s, i).available >= s.available
  {
    hide Spans, Tiled, NoTwoFree, BigEnough, RingMatches, FreeBytes, FreeAddrs, Swap, RemoveAt, EditOk, MergeLo, MergeHi, Merged;
    var cs := s.cells;
    var lo, hi := MergeLo(cs, i), MergeHi(cs, i);
    var m := [Merged(cs, i)];
    SpansTiled(cs, start, pool);
    FreeOnce(s, i);
    FreeEdit(s, start, pool, i);
    MergedWorth(cs, i);
    Edit(s, lo, hi + 1 - lo, m, start, pool);
    One(m[0]);
    LoHi(cs, i);
    FreeRing(s, start, pool, i);
  }

  lemma {:induction false} LoHi(cs: seq<Cell>, i: nat)
    requires i < |cs|
    ensures var lo, hi := MergeLo(cs, i), MergeHi(cs, i);
      && lo <= i <= hi < |cs| && i - lo <= 1 && hi - i <= 1
      && Merged(cs, i).addr == cs[lo].addr && !Merged(cs, i).used
      && (lo < i ==> !cs[lo].used) && (hi > i ==> !cs[hi].used)
  {
  }

  lemma {:induction false} FreeRing(s: State, start: int, pool: int, i: nat)
    requires Inv(s, start, pool) && i + 1 < |s.cells| && s.cells[i].used
    ensures RingMatches(Free(s, i).cells, Free(s, i).free)
  {
    hide Spans, Tiled, NoTwoFree, BigEnough, RingMatches, FreeBytes, FreeAddrs, Swap, RemoveAt, EditOk, MergeLo, MergeHi, Merged, Free;
    var cs := s.cells;
    var lo, hi := MergeLo(cs, i), MergeHi(cs, i);
    LoHi(cs, i);
    SpansTiled(cs, start, pool);
    FreeOnce(s, i);
    FreeEdit(s, start, pool, i);
    MergedWorth(cs, i);
    Edit(s, lo, hi + 1 - lo, [Merged(cs, i)], start, pool);
    One(Merged(cs, i));
    Ascending(cs);
    NotFreeAddr(cs, i);
    var r := Free(s, i);
    if hi > i {
      RingFinds(cs, s.free, hi);
      var without := Swap(cs, hi, 1, [cs[hi].(used := true)]);
      OnlyUsed(s, hi, start, pool);
      var k := FindAddr(s.free, cs[hi].addr);
      if lo < i {
        FreeAddrOf(cs, lo);
        RingRemove(cs, s.free, r.cells, k);
      } else {
        RingRemove(cs, s.free, without, k);
        RingPush(without, RemoveAt(s.free, k), r.cells, cs[i].addr);
      }
    } else if lo < i {
      FreeAddrOf(cs, lo);
      RingSame(cs, s.free, r.cells);
    } else {
      RingPush(cs, s.free, r.cells, cs[i].addr);
    }
  }

  lemma {:induction false} RingSame(cs: seq<Cell>, free: seq<int>, cs': seq<Cell>)
    requires RingMatches(cs, free) && FreeAddrs(cs') == FreeAddrs(cs)
    ensures RingMatches(cs', free)
  {
  }

  lemma {:induction false} FreeAddrOf(cs: seq<Cell>, i: nat)
    requires i < |cs| && !cs[i].used
    ensures cs[i].addr in FreeAddrs(cs)
  {
  }

  lemma {:induction false} NotFreeAddr(cs: seq<Cell>, i: nat)
    requires Tiled(cs) && i < |cs| && cs[i].used
    ensures cs[i].addr !in FreeAddrs(cs)
  {
    Ascending(cs);
  }

  /* ---------- laws ---------- */

  /** The high-water mark rises to what is in use after a block is handed out or grown, and never else. */
  lemma {:induction false} HighWater(s: State, pool: int, i: nat, k: nat, size: int)
    requires i + 1 < |s.cells| && k < |s.free|
    ensures var r := Take(s, pool, i, k, size); r.maxUsed == if pool - r.available > s.maxUsed then pool - r.available else s.maxUsed
    ensures var r := Grow(s, pool, i, size); r.maxUsed == if pool - r.available > s.maxUsed then pool - r.available else s.maxUsed
    ensures Free(s, i).maxUsed == s.maxUsed && Shrink(s, i, size).maxUsed == s.maxUsed
  {
    hide Swap, RemoveAt, FindAddr, Absorb, Regrown, RestAddr;
  }

  /** A free block that an operation makes is the first one the next search looks at; the others keep
      their order. */
  lemma {:induction false} NewestFirst(s: State, pool: int, i: nat, k: nat, size: int)
    requires i + 1 < |s.cells| && k < |s.free|
    ensures var r := Take(s, pool, i, k, size);
      r.free == (if |r.cells| > |s.cells| then [s.cells[i].addr + ITEM + size] else []) + RemoveAt(s.free, k)
    ensures s.cells[i + 1].used ==> Shrink(s, i, size).free == [s.cells[i].addr + ITEM + size] + s.free
  {
    hide RemoveAt, FindAddr, Regrown, RestAddr;
    assert [] + RemoveAt(s.free, k) == RemoveAt(s.free, k);
  }

  /** Freeing what was just allocated restores the blocks and the available bytes; in the free ring
      the block has moved to the front. */
  lemma {:induction false} FreeUndoesTake(s: State, start: int, pool: int, i: nat, k: nat, size: int)
    requires Inv(s, start, pool) && i < |s.cells| && k < |s.free|
    requires !s.cells[i].used && s.cells[i].addr == s.free[k] && s.cells[i].size >= size >= MINIALLOC
    ensures var r := Free(Take(s, pool, i, k, size), i);
      r.cells == s.cells && r.available == s.available && r.free == [s.free[k]] + RemoveAt(s.free, k)
  {
    hide Spans, NoTwoFree, BigEnough, RingMatches, FreeBytes, FreeAddrs, Swap, RemoveAt, Free, Inv;
    var c := s.cells[i];
    NextToFree(s, start, pool, i);
    TakeKeeps(s, start, pool, i, k, size);
    var t := Take(s, pool, i, k, size);
    InvTiled(t, start, pool);
    if c.size >= size + ITEM + MINIALLOC {
      var rest := Cell(c.addr + ITEM + size, c.size - size - ITEM, false);
      CutAndMerge(s.cells, i, Cell(c.addr, size, true), rest);
      FreeOnce(t, i);
      PushThenRemove(rest.addr, RemoveAt(s.free, k));
    } else {
      MarkAndUnmark(s.cells, i);
      FreeOnce(t, i);
    }
  }

  lemma {:induction false} NextToFree(s: State, start: int, pool: int, i: nat)
    requires Inv(s, start, pool) && i < |s.cells| && !s.cells[i].used
    ensures i + 1 < |s.cells| && s.cells[i + 1].used && (i > 0 ==> s.cells[i - 1].used)
  {
    hide Tiled, BigEnough, RingMatches, FreeBytes;
  }

  lemma {:induction false} InvTiled(s: State, start: int, pool: int)
    requires Inv(s, start, pool)
    ensures Tiled(s.cells)
  {
  }

  lemma {:induction false} PushThenRemove(x: int, free: seq<int>)
    ensures FindAddr([x] + free, x) == 0 && RemoveAt([x] + free, 0) == free
  {
  }

  lemma {:induction false} CutAndMerge(cs: seq<Cell>, i: nat, a: Cell, b: Cell)
    requires i + 1 < |cs| && !cs[i].used && (i > 0 ==> cs[i - 1].used) && cs[i + 1].used
    requires a.used && !b.used && a.addr == cs[i].addr && b.End() == cs[i].End()
    ensures var t := Swap(cs, i, 1, [a, b]);
      && |t| == |cs| + 1 && t[i] == a && t[i + 1] == b && MergeLo(t, i) == i && MergeHi(t, i) == i + 1
      && Swap(t, i, 2, [Merged(t, i)]) == cs
  {
    var t := Swap(cs, i, 1, [a, b]);
    assert i > 0 ==> t[i - 1] == cs[i - 1];
    assert t[..i] == cs[..i] && t[i + 2..] == cs[i + 1..];
    assert Merged(t, i) == cs[i];
  }

  lemma {:induction false} MarkAndUnmark(cs: seq<Cell>, i: nat)
    requires i + 1 < |cs| && !cs[i].used && (i > 0 ==> cs[i - 1].used) && cs[i + 1].used
    ensures var t := Swap(cs, i, 1, [cs[i].(used := true)]);
      && |t| == |cs| && t[i] == cs[i].(used := true) && MergeLo(t, i) == i && MergeHi(t, i) == i
      && Swap(t, i, 1, [Merged(t, i)]) == cs
  {
    var t := Swap(cs, i, 1, [cs[i].(used := true)]);
    assert t == cs[i := cs[i].(used := true)];
    assert Merged(t, i) == cs[i];
  }

  /* ---------- rt_memheap_realloc and runs ---------- */

  /** The three ways rt_memheap_realloc treats an allocated block, for an adjusted size n.  The
      comparison of the growth is made in 32 bits. */
  predicate CanGrow(s: State, i: nat, n: int)
    requires i + 1 < |s.cells|
  {
    && n > s.cells[i].size && !s.cells[i + 1].used
    && s.cells[i + 1].size + s.cells[i].size > (n + MINIALLOC) % WORD_LIMIT
  }

  predicate CutsOff(s: State, i: nat, n: int)
    requires i < |s.cells|
  {
    n + ITEM + MINIALLOC < s.cells[i].size
  }

  /** The state after rt_memheap_realloc of block i, for a non-zero size. */
  function Realloc(s: State, pool: int, i: nat, size: int): State
    requires i + 1 < |s.cells| && 0 <= size < WORD_LIMIT
  {
    var n := Request(size);
    if n > s.cells[i].size then
      if CanGrow(s, i, n) then Grow(s, pool, i, n)
      else
        var t := Alloc(s, pool, n);
        var j := Find(t.cells, s.cells[i].addr);
        if AllocFit(s, n) < |s.free| && j < |t.cells| then Free(t, j) else t
    else if CutsOff(s, i, n) then Shrink(s, i, n)
    else s
  }

  /** The requests that rt_memheap_realloc survives. */
  predicate Harmless(s: State, i: nat, size: int)
    requires i + 1 < |s.cells| && 0 <= size < WORD_LIMIT
  {
    size == 0 || !SumWraps(Request(size)) || s.cells[i + 1].used
  }

  datatype Call = AllocCall(size: int) | FreeCall(i: nat) | ReallocCall(i: nat, size: int)

  ghost predicate Allowed(s: State, c: Call) {
    match c
    case AllocCall(size) => 0 <= size < WORD_LIMIT
    case FreeCall(i) => i + 1 < |s.cells| && s.cells[i].used
    case ReallocCall(i, size) => i + 1 < |s.cells| && s.cells[i].used && 0 <= size < WORD_LIMIT && Harmless(s, i, size)
  }

  ghost function Apply(s: State, pool: int, c: Call): State
    requires Allowed(s, c)
  {
    match c
    case AllocCall(size) => Alloc(s, pool, size)
    case FreeCall(i) => Free(s, i)
    case ReallocCall(i, size) => if size == 0 then Free(s, i) else Realloc(s, pool, i, size)
  }

  /** A used block survives an allocation: it is found again at its address. */
  lemma {:induction false} TakeLeaves(s: State, start: int, pool: int, i: nat, k: nat, size: int, j: nat)
    requires Inv(s, start, pool) && i < |s.cells| && k < |s.free| && j + 1 < |s.cells| && s.cells[j].used
    requires !s.cells[i].used && s.cells[i].addr == s.free[k] && s.cells[i].size >= size >= MINIALLOC
    ensures var t := Take(s, pool, i, k, size); var l := Find(t.cells, s.cells[j].addr);
      l + 1 < |t.cells| && t.cells[l] == s.cells[j]
  {
    hide Spans, NoTwoFree, BigEnough, RingMatches, FreeBytes, FreeAddrs, Inv, RemoveAt;
    var t := Take(s, pool, i, k, size);
    TakeKeeps(s, start, pool, i, k, size);
    InvTiled(t, start, pool);
    var l := if j < i then j else j + |t.cells| - |s.cells|;
    assert t.cells[l] == s.cells[j];
    FindIs(t.cells, l);
  }

  /** rt_memheap_realloc keeps the invariant exactly when the sum of its comparison does not wrap or
      the block has no free successor. */
  lemma {:induction false} ReallocKeeps(s: State, start: int, pool: int, i: nat, size: int)
    requires Inv(s, start, pool) && i + 1 < |s.cells| && s.cells[i].used && 0 < size < WORD_LIMIT
    ensures Inv(Realloc(s, pool, i, size), start, pool) <==> Harmless(s, i, size)
  {
    hide Inv, Take, Alloc, Find, Free, Grow, Shrink, FirstFit;
    var n := Request(size);
    RequestOfRequest(size);
    if SumWraps(n) && !s.cells[i + 1].used {
      WrappedGrowBreaks(s, start, pool, i, n);
    } else if n > s.cells[i].size {
      if CanGrow(s, i, n) {
        GrowKeeps(s, start, pool, i, n);
      } else {
        AllocKeeps(s, start, pool, n);
        var k := AllocFit(s, n);
        var t := Alloc(s, pool, n);
        if k < |s.free| {
          TakeLeaves(s, start, pool, Find(s.cells, s.free[k]), k, n, i);
          FreeKeeps(t, start, pool, Find(t.cells, s.cells[i].addr));
        }
      }
    } else if CutsOff(s, i, n) {
      ShrinkKeeps(s, start, pool, i, n);
    }
  }

  lemma {:induction false} RequestOfRequest(size: int)
    requires 0 <= size < WORD_LIMIT
    ensures Request(size) < WORD_LIMIT && Request(Request(size)) == Request(size)
  {
  }

  ghost predicate AllowedRun(s: State, pool: int, calls: seq<Call>)
    decreases |calls|
  {
    calls == [] || (Allowed(s, calls[0]) && AllowedRun(Apply(s, pool, calls[0]), pool, calls[1..]))
  }

  ghost function Run(s: State, pool: int, calls: seq<Call>): State
    requires AllowedRun(s, pool, calls)
    decreases |calls|
  {
    if calls == [] then s else Run(Apply(s, pool, calls[0]), pool, calls[1..])
  }

  /** Every run of alloc, free and realloc keeps the address ring, the free ring and the accounting. */
  lemma {:induction false} RunKeeps(s: State, start: int, pool: int, calls: seq<Call>)
    requires Inv(s, start, pool) && AllowedRun(s, pool, calls)
    ensures Inv(Run(s, pool, calls), start, pool)
    decreases |calls|
  {
    hide Inv, Alloc, Free, Realloc;
    if calls != [] {
      match calls[0] {
        case AllocCall(size) => AllocKeeps(s, start, pool, size);
        case FreeCall(i) => FreeKeeps(s, start, pool, i);
        case ReallocCall(i, size) =>
          FreeKeeps(s, start, pool, i);
          if size > 0 {
            ReallocKeeps(s, start, pool, i, size);
          }
      }
      RunKeeps(Apply(s, pool, calls[0]), start, pool, calls[1..]);
    }
  }

  function Initial(start: int, pool: int): State {
    State([Cell(start, pool - 2 * ITEM, false), Cell(start + pool - ITEM, 0, true)], [start],
          pool - 2 * ITEM, 2 * ITEM)
  }

  /** The initial pool satisfies the invariant exactly when its first block is not too small. */
  lemma {:induction false} InitialInv(start: int, pool: int)
    requires InMemory(start, pool)
    ensures Inv(Initial(start, pool), start, pool) <==> pool >= 2 * ITEM + MINIALLOC
  {
    var s := Initial(start, pool);
    assert s.cells == [s.cells[0]] + [s.cells[1]];
    One(s.cells[0]);
    One(s.cells[1]);
    Two(s.cells[0], s.cells[1]);
  }

  lemma {:induction false} FirstFitIs(cs: seq<Cell>, free: seq<int>, size: int, k: nat)
    requires k <= |free| && (k < |free| ==> SizeAt(cs, free[k]) >= size)
    requires forall j | 0 <= j < k :: SizeAt(cs, free[j]) < size
    ensures FirstFit(cs, free, size) == k
  {
    hide SizeAt;
  }
}
