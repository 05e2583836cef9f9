/** The memheap allocator of memheap.c: blocks linked in a ring by address, free blocks in a second
    ring through the same headers.  A header member is a map from header addresses to its value. */
module MemHeap {
  import opened Rings
  import opened MemHeapLayout
  import opened MemHeapLive

  ghost function Addrs(cs: seq<Cell>): seq<int> {
    seq(|cs|, i requires 0 <= i < |cs| => cs[i].addr)
  }

  ghost function AddrCycle(cs: seq<Cell>): seq<int>
    requires |cs| > 0
  {
    Addrs(cs) + [cs[0].addr]
  }

  ghost function FreeCycle(head: int, free: seq<int>): seq<int> {
    [head] + free + [head]
  }

  ghost predicate Marked(used: map<int, bool>, cs: seq<Cell>) {
    forall i | 0 <= i < |cs| :: cs[i].addr in used && used[cs[i].addr] == cs[i].used
  }

  ghost predicate BlocksOk(next: Links, prev: Links, used: map<int, bool>, cs: seq<Cell>) {
    |cs| >= 2 && Ring(next, prev, AddrCycle(cs)) && Marked(used, cs)
  }

  /* ---------- what the two rings look like from a block ---------- */

  lemma {:induction false} BlockLinks(next: Links, prev: Links, used: map<int, bool>, cs: seq<Cell>, i: nat)
    requires BlocksOk(next, prev, used, cs) && i < |cs|
    ensures var a := cs[i].addr;
      && a in next && a in prev && a in used && used[a] == cs[i].used
      && next[a] == (if i + 1 < |cs| then cs[i + 1].addr else cs[0].addr)
      && prev[a] == (if i > 0 then cs[i - 1].addr else cs[|cs| - 1].addr)
  {
    var c := AddrCycle(cs);
    assert Linked(next, prev, c[i], c[i + 1]);
    var p := if i > 0 then i - 1 else |cs| - 1;
    assert Linked(next, prev, c[p], c[p + 1]);
  }

  /** Linking a new header after block i cuts block i in two. */
  lemma {:induction false} CutLinks(next: Links, prev: Links, used: map<int, bool>, cs: seq<Cell>, i: nat, a: Cell, b: Cell)
    requires BlocksOk(next, prev, used, cs) && i < |cs|
    requires a.addr == cs[i].addr && a.used == cs[i].used && forall c | c in cs :: c.addr != b.addr
    ensures cs[i].addr in next
    ensures BlocksOk(InsertNext(next, cs[i].addr, b.addr), InsertPrev(next, prev, cs[i].addr, b.addr),
                     used[b.addr := b.used], Swap(cs, i, 1, [a, b]))
  {
    hide Ring, InsertNext, InsertPrev;
    var r := Swap(cs, i, 1, [a, b]);
    var c := AddrCycle(cs);
    assert b.addr !in c;
    RingInsert(next, prev, c, i, b.addr);
    CutCycle(cs, i, a, b);
    forall k | 0 <= k < |r| ensures r[k].addr in used[b.addr := b.used] && used[b.addr := b.used][r[k].addr] == r[k].used {
      assert k < i ==> r[k] == cs[k] && cs[k] in cs;
      assert k > i + 1 ==> r[k] == cs[k - 1] && cs[k - 1] in cs;
    }
  }

  lemma {:induction false} CutCycle(cs: seq<Cell>, i: nat, a: Cell, b: Cell)
    requires i < |cs| && a.addr == cs[i].addr
    ensures AddrCycle(Swap(cs, i, 1, [a, b])) == InsertAt(AddrCycle(cs), i + 1, b.addr)
  {
    var r := Swap(cs, i, 1, [a, b]);
    var c, d := AddrCycle(r), InsertAt(AddrCycle(cs), i + 1, b.addr);
    assert |c| == |d| == |cs| + 2 && r[0].addr == cs[0].addr;
    forall k | 0 <= k < |c| ensures c[k] == d[k] {
      assert k < |r| ==> r[k] == if k < i then cs[k] else if k == i then a else if k == i + 1 then b else cs[k - 1];
    }
  }

  /** Unlinking the header of block i + 1 merges it into block i. */
  lemma {:induction false} MergeLinks(next: Links, prev: Links, used: map<int, bool>, cs: seq<Cell>, i: nat)
    requires BlocksOk(next, prev, used, cs) && i + 1 < |cs| && |cs| >= 3
    ensures var x := cs[i + 1].addr;
      && x in next && x in prev
      && BlocksOk(UnlinkNext(next, prev, x), UnlinkPrev(next, prev, x), used, Absorb(cs, i))
  {
    hide Ring, UnlinkNext, UnlinkPrev;
    RingUnlink(next, prev, AddrCycle(cs), i + 1);
    MergeCycle(cs, i);
    var r := Absorb(cs, i);
    forall k | 0 <= k < |r| ensures r[k].addr in used && used[r[k].addr] == r[k].used {
      assert r[k].addr == cs[if k <= i then k else k + 1].addr && r[k].used == cs[if k <= i then k else k + 1].used;
    }
  }

  lemma {:induction false} MergeCycle(cs: seq<Cell>, i: nat)
    requires i + 1 < |cs| && |cs| >= 3
    ensures AddrCycle(Absorb(cs, i)) == RemoveAt(AddrCycle(cs), i + 1)
  {
    var r := Absorb(cs, i);
    assert forall k | 0 <= k < |r| :: r[k].addr == cs[if k <= i then k else k + 1].addr;
  }

  lemma {:induction false} MarkLinks(next: Links, prev: Links, used: map<int, bool>, cs: seq<Cell>, i: nat, u: bool)
    requires BlocksOk(next, prev, used, cs) && i < |cs|
    ensures BlocksOk(next, prev, used[cs[i].addr := u], Swap(cs, i, 1, [cs[i].(used := u)]))
  {
    var r := Swap(cs, i, 1, [cs[i].(used := u)]);
    assert r == cs[i := cs[i].(used := u)];
    assert AddrCycle(r) == AddrCycle(cs);
    var c := AddrCycle(cs);
    forall k | 0 <= k < |cs| && k != i ensures cs[k].addr != cs[i].addr {
      assert c[k] != c[i];
    }
  }

  lemma {:induction false} FreeLinks(nextFree: Links, prevFree: Links, head: int, free: seq<int>, k: nat)
    requires Ring(nextFree, prevFree, FreeCycle(head, free)) && k <= |free|
    ensures var x := if k == 0 then head else free[k - 1];
      x in nextFree && nextFree[x] == if k < |free| then free[k] else head
  {
    var c := FreeCycle(head, free);
    assert Linked(nextFree, prevFree, c[k], c[k + 1]);
  }

  lemma {:induction false} PushLinks(nextFree: Links, prevFree: Links, head: int, free: seq<int>, x: int)
    requires Ring(nextFree, prevFree, FreeCycle(head, free)) && x != head && x !in free
    ensures head in nextFree
    ensures Ring(InsertNext(nextFree, head, x), InsertPrev(nextFree, prevFree, head, x), FreeCycle(head, [x] + free))
  {
    hide Ring, InsertNext, InsertPrev;
    RingInsert(nextFree, prevFree, FreeCycle(head, free), 0, x);
    assert InsertAt(FreeCycle(head, free), 1, x) == FreeCycle(head, [x] + free);
  }

  lemma {:induction false} PopLinks(nextFree: Links, prevFree: Links, head: int, free: seq<int>, k: nat)
    requires Ring(nextFree, prevFree, FreeCycle(head, free)) && k < |free|
    ensures var x := free[k];
      && x in nextFree && x in prevFree
      && Ring(UnlinkNext(nextFree, prevFree, x), UnlinkPrev(nextFree, prevFree, x), FreeCycle(head, RemoveAt(free, k)))
  {
    hide Ring, UnlinkNext, UnlinkPrev;
    RingUnlink(nextFree, prevFree, FreeCycle(head, free), k + 1);
    assert RemoveAt(FreeCycle(head, free), k + 1) == FreeCycle(head, RemoveAt(free, k));
  }

  lemma {:induction false} HeadNotFree(nextFree: Links, prevFree: Links, head: int, free: seq<int>)
    requires Ring(nextFree, prevFree, FreeCycle(head, free))
    ensures head !in free
  {
    var c := FreeCycle(head, free);
    forall k | 0 <= k < |free| ensures free[k] != head {
      assert c[0] != c[k + 1];
    }
  }

  /** Cutting a free block and marking its first part used is the first half of Take. */
  lemma {:induction false} CutAndMark(cs: seq<Cell>, i: nat, size: int, restSize: int)
    requires i < |cs|
    ensures var c := cs[i]; var rest := Cell(c.addr + ITEM + size, restSize, false);
      var t := Swap(cs, i, 1, [c.(size := size), rest]);
      && |t| == |cs| + 1 && t[i] == c.(size := size) && t[i + 1] == rest
      && Swap(t, i, 1, [t[i].(used := true)]) == Swap(cs, i, 1, [Cell(c.addr, size, true), rest])
  {
    var c := cs[i];
    var rest := Cell(c.addr + ITEM + size, restSize, false);
    var t := Swap(cs, i, 1, [c.(size := size), rest]);
    assert t[..i] == cs[..i] && t[i + 1..] == [rest] + cs[i + 1..];
  }

  lemma {:induction false} NewInRing(cs: seq<Cell>, free: seq<int>, x: int, k: nat)
    requires RingMatches(cs, free) && k < |free| && x !in FreeAddrs(cs)
    ensures x !in free && x !in RemoveAt(free, k)
  {
  }

  /** Everything inside a block of the pool lies inside the pool. */
  lemma {:induction false} PoolAddr(cs: seq<Cell>, start: int, pool: int, i: nat)
    requires Spans(cs, start, pool) && i < |cs|
    ensures start <= cs[i].addr && cs[i].End() <= start + pool
  {
    assert i > 0 ==> cs[0].End() <= cs[i].addr;
    assert i < |cs| - 1 ==> cs[i].End() <= cs[|cs| - 1].addr;
  }

  lemma {:induction false} FindAddrIs(free: seq<int>, x: int)
    ensures FindAddr(free, x) < |free| ==> free[FindAddr(free, x)] == x
  {
  }

  lemma {:induction false} AbsorbAt(cs: seq<Cell>, i: nat)
    requires i + 1 < |cs|
    ensures var r := Absorb(cs, i);
      && |r| == |cs| - 1 && r[i].addr == cs[i].addr && (i + 2 < |cs| ==> r[i + 1] == cs[i + 2])
  {
  }

  /** Where rt_memheap_free stands before it looks at the neighbours of block i. */
  lemma {:induction false} FreePre(s: State, start: int, pool: int, i: nat)
    requires Inv(s, start, pool) && i + 1 < |s.cells| && s.cells[i].used
    ensures var m := MarkFree(s, i);
      && m.cells == s.cells[i := s.cells[i].(used := false)] && |s.cells| >= 2
      && (!s.cells[i + 1].used ==> FindAddr(s.free, s.cells[i + 1].addr) < |s.free| && |s.cells| >= 3)
      && (i > 0 && !s.cells[i - 1].used ==> |s.cells| >= 3 && (!s.cells[i + 1].used ==> |s.cells| >= 4))
      && s.cells[|s.cells| - 1].used && s.cells[i].addr !in s.free
  {
    hide Tiled, NoTwoFree, BigEnough, FreeBytes;
    SpansTiled(s.cells, start, pool);
    if !s.cells[i + 1].used { RingFinds(s.cells, s.free, i + 1); }
    NotFreeAddr(s.cells, i);
  }

  lemma {:induction false} RemoveSub(free: seq<int>, k: nat)
    requires k < |free|
    ensures forall a | a in RemoveAt(free, k) :: a in free
  {
  }

  /** Where the in-place growth stands: the successor is in the ring and the new header is fresh. */
  lemma {:induction false} GrowPre(s: State, start: int, pool: int, i: nat, newsize: int)
    requires Inv(s, start, pool) && i + 1 < |s.cells| && s.cells[i].used && CanGrow(s, i, newsize) && newsize < WORD_LIMIT
    ensures var c, n := s.cells[i], s.cells[i + 1]; var y := RestAddr(c, newsize); var k := FindAddr(s.free, n.addr);
      var mid := Regrown(c, n, newsize);
      && |s.cells| >= 3 && k < |s.free| && s.free[k] == n.addr && y !in RemoveAt(s.free, k)
      && start <= y < start + pool
      && (forall d | d in Absorb(s.cells, i) :: d.addr != y)
      && i < |Absorb(s.cells, i)| && Absorb(s.cells, i)[i] == c.(size := c.size + ITEM + n.size)
      && mid == [c.(size := y - c.addr - ITEM), Cell(y, n.End() - y - ITEM, false)]
      && Swap(Absorb(s.cells, i), i, 1, mid) == Swap(s.cells, i, 2, mid)
  {
    hide NoTwoFree, FreeBytes, FreeAddrs, FindAddr, RestAddr;
    var c, n := s.cells[i], s.cells[i + 1];
    var y := RestAddr(c, newsize);
    NotTail(s.cells, start, pool, i + 1);
    UsedBeforeEnd(s.cells, start, pool, i);
    RestInside(s, start, pool, i, newsize);
    FreshAddr(s.cells, i, 2, y);
    PoolAddr(s.cells, start, pool, i);
    PoolAddr(s.cells, start, pool, i + 1);
    RingFinds(s.cells, s.free, i + 1);
    FindAddrIs(s.free, n.addr);
    NewInRing(s.cells, s.free, y, FindAddr(s.free, n.addr));
    AbsorbThenCut(s.cells, i, c.(size := y - c.addr - ITEM), Cell(y, n.End() - y - ITEM, false));
    AbsorbAddrs(s.cells, i, y);
  }

  lemma {:induction false} GrowVerdict(s: State, start: int, pool: int, i: nat, newsize: int)
    requires Inv(s, start, pool) && i + 1 < |s.cells| && s.cells[i].used && CanGrow(s, i, newsize) && newsize < WORD_LIMIT
    ensures Inv(Grow(s, pool, i, newsize), start, pool) <==> !SumWraps(newsize)
  {
    hide Inv, Grow;
    if SumWraps(newsize) {
      WrappedGrowBreaks(s, start, pool, i, newsize);
    } else {
      GrowKeeps(s, start, pool, i, newsize);
    }
  }

  /** No payload is so large that adding two headers to its size wraps. */
  lemma {:induction false} SizeBound(s: State, start: int, pool: int, i: nat)
    requires Inv(s, start, pool) && i + 1 < |s.cells|
    ensures s.cells[i].size + 2 * ITEM < WORD_LIMIT
  {
    hide NoTwoFree, RingMatches, FreeBytes, BigEnough;
    InThePool(s, start, pool, i);
    assert s.cells[i].End() <= s.cells[|s.cells| - 1].addr;
  }

  /** A request that does not go to the growth is harmless. */
  lemma {:induction false} NotGrowing(s: State, start: int, pool: int, i: nat, n: int)
    requires Inv(s, start, pool) && i + 1 < |s.cells| && s.cells[i].used && n < WORD_LIMIT
    requires n > s.cells[i].size && !CanGrow(s, i, n)
    ensures !SumWraps(n) || s.cells[i + 1].used
  {
    hide Inv, Grow;
    if SumWraps(n) && !s.cells[i + 1].used {
      WrappedGrowBreaks(s, start, pool, i, n);
    }
  }

  /** Wrapped or not, the new header starts somewhere inside the two blocks. */
  lemma {:induction false} RestInside(s: State, start: int, pool: int, i: nat, newsize: int)
    requires Inv(s, start, pool) && i + 1 < |s.cells| && s.cells[i].used && CanGrow(s, i, newsize) && newsize < WORD_LIMIT
    ensures var y := RestAddr(s.cells[i], newsize);
      && s.cells[i].addr < y < s.cells[i + 1].End() - MINIALLOC - ITEM && y != s.cells[i + 1].addr
  {
    hide Inv, Tiled;
    InThePool(s, start, pool, i);
    UsedInPool(s, start, pool, i);
    if SumWraps(newsize) {
      RestWraps(s.cells[i], newsize);
    } else {
      GrowPlain(s, start, pool, i, newsize);
    }
  }

  lemma {:induction false} UsedInPool(s: State, start: int, pool: int, i: nat)
    requires Inv(s, start, pool) && i + 1 < |s.cells|
    ensures 0 < s.cells[i].addr && s.cells[i].End() == s.cells[i + 1].addr && s.cells[i].size >= MINIALLOC
    ensures start + pool <= WORD_LIMIT && (!s.cells[i + 1].used ==> s.cells[i + 1].size >= MINIALLOC)
  {
    hide NoTwoFree, RingMatches, FreeBytes;
    InThePool(s, start, pool, i);
    UsedBeforeEnd(s.cells, start, pool, i);
    if !s.cells[i + 1].used {
      NotTail(s.cells, start, pool, i + 1);
    }
  }

  lemma {:induction false} AbsorbThenCut(cs: seq<Cell>, i: nat, a: Cell, b: Cell)
    requires i + 1 < |cs|
    ensures |Absorb(cs, i)| > i && Absorb(cs, i)[i] == cs[i].(size := cs[i].size + ITEM + cs[i + 1].size)
    ensures Swap(Absorb(cs, i), i, 1, [a, b]) == Swap(cs, i, 2, [a, b])
  {
    var r := Absorb(cs, i);
    assert r[..i] == cs[..i] && r[i + 1..] == cs[i + 2..];
  }

  lemma {:induction false} AbsorbAddrs(cs: seq<Cell>, i: nat, x: int)
    requires i + 1 < |cs| && forall c | c in cs :: c.addr != x
    ensures forall c | c in Absorb(cs, i) :: c.addr != x
  {
    assert cs[i] in cs;
  }

  lemma {:induction false} NotInRing(cs: seq<Cell>, free: seq<int>, x: int)
    requires RingMatches(cs, free) && x !in FreeAddrs(cs)
    ensures x !in free
  {
    assert forall a :: a in free ==> a in (set a | a in free);
  }

  lemma {:induction false} ShrinkPre(s: State, start: int, pool: int, i: nat, newsize: int)
    requires Inv(s, start, pool) && i + 1 < |s.cells| && s.cells[i].used && newsize >= MINIALLOC && CutsOff(s, i, newsize)
    ensures var c, n := s.cells[i], s.cells[i + 1]; var y := c.addr + ITEM + newsize; var k := FindAddr(s.free, n.addr);
      var b := Cell(y, c.size - newsize - ITEM, false); var t := Swap(s.cells, i, 1, [c.(size := newsize), b]);
      && y !in s.free && start <= y < start + pool && (forall d | d in s.cells :: d.addr != y)
      && c.End() == n.addr
      && |t| == |s.cells| + 1 && t[i + 1] == b && t[i + 2] == n && (i + 3 < |t| ==> t[i + 3] == s.cells[i + 2])
      && (!n.used ==>
            && |Absorb(t, i + 1)| > i + 2 && Absorb(t, i + 1)[i + 1] == Cell(y, c.size - newsize + n.size, false)
            && Absorb(t, i + 1)[i + 1].End() == Absorb(t, i + 1)[i + 2].addr
            && k < |s.free| && s.free[k] == n.addr && i + 2 < |s.cells| && n.End() == s.cells[i + 2].addr
            && Absorb(t, i + 1) == Swap(s.cells, i, 2, [Cell(c.addr, newsize, true), Cell(y, c.size - newsize + n.size, false)]))
  {
    hide NoTwoFree, FreeBytes, FreeAddrs, FindAddr, RingMatches, Tiled, Absorb;
    var c, n := s.cells[i], s.cells[i + 1];
    var y := c.addr + ITEM + newsize;
    var b := Cell(y, c.size - newsize - ITEM, false);
    var t := Swap(s.cells, i, 1, [c.(size := newsize), b]);
    UsedBeforeEnd(s.cells, start, pool, i);
    FreshAddr(s.cells, i, 1, y);
    PoolAddr(s.cells, start, pool, i);
    NotInRing(s.cells, s.free, y);
    assert t[..i] == s.cells[..i] && t[i + 2..] == s.cells[i + 1..];
    if !n.used {
      NotTail(s.cells, start, pool, i + 1);
      RingFinds(s.cells, s.free, i + 1);
      CutThenAbsorb(s.cells, i, c.(size := newsize), b);
    }
  }

  lemma {:induction false} CutThenAbsorb(cs: seq<Cell>, i: nat, a: Cell, b: Cell)
    requires i + 1 < |cs|
    ensures var t := Swap(cs, i, 1, [a, b]);
      |t| > i + 2 && Absorb(t, i + 1) == Swap(cs, i, 2, [a, b.(size := b.size + ITEM + cs[i + 1].size)])
  {
    var t := Swap(cs, i, 1, [a, b]);
    assert t[..i + 1] == cs[..i] + [a] && t[i + 3..] == cs[i + 2..];
  }

  lemma {:induction false} InitialLinks(item: int, tail: int, head: int, size: int)
    requires item != tail && head != item
    ensures BlocksOk(map[item := tail, tail := item], map[item := tail, tail := item], map[item := false, tail := true],
                     [Cell(item, size, false), Cell(tail, 0, true)])
    ensures Ring(map[head := item, item := head], map[head := item, item := head], FreeCycle(head, [item]))
  {
    assert AddrCycle([Cell(item, size, false), Cell(tail, 0, true)]) == [item, tail, item];
    assert FreeCycle(head, [item]) == [head, item, head];
  }

  class Heap {
    const startAddr: int
    const poolSize: int
    const freeList: int                  // address of free_header
    var used: map<int, bool>             // RT_MEMHEAP_IS_USED of each header's magic
    var next: Links
    var prev: Links
    var nextFree: Links
    var prevFree: Links
    var availableSize: int
    var maxUsedSize: int
    var mem: Memory                      // the bytes of the payloads
    ghost var cells: seq<Cell>
    ghost var free: seq<int>

    ghost function View(): State
      reads `cells, `free, `availableSize, `maxUsedSize
    {
      State(cells, free, availableSize, maxUsedSize)
    }

    ghost predicate Linked2()
      reads `used, `next, `prev, `nextFree, `prevFree, `cells, `free
    {
      && BlocksOk(next, prev, used, cells)
      && Ring(nextFree, prevFree, FreeCycle(freeList, free))
    }

    ghost predicate Valid()
      reads `used, `next, `prev, `nextFree, `prevFree, `availableSize, `maxUsedSize, `cells, `free
    {
      && startAddr > 0 && !(startAddr <= freeList < startAddr + poolSize)
      && Linked2() && Inv(View(), startAddr, poolSize)
    }

    /* ---------- link surgery ---------- */

    method PushFree(x: int)
      requires Ring(nextFree, prevFree, FreeCycle(freeList, free)) && x != freeList && x !in free
      modifies `nextFree, `prevFree, `free
      ensures Ring(nextFree, prevFree, FreeCycle(freeList, free)) && free == [x] + old(free)
    {
      hide Ring;
      PushLinks(nextFree, prevFree, freeList, free, x);
      var first := nextFree[freeList];
      prevFree := prevFree[first := x][x := freeList];
      nextFree := nextFree[x := first][freeList := x];
      free := [x] + free;
    }

    method UnlinkFree(x: int, ghost k: nat)
      requires Ring(nextFree, prevFree, FreeCycle(freeList, free)) && k < |free| && free[k] == x
      modifies `nextFree, `prevFree, `free
      ensures Ring(nextFree, prevFree, FreeCycle(freeList, free)) && free == RemoveAt(old(free), k)
    {
      hide Ring, RemoveAt;
      PopLinks(nextFree, prevFree, freeList, free, k);
      var after, before := nextFree[x], prevFree[x];
      prevFree := prevFree[after := before];
      nextFree := nextFree[before := after];
      free := RemoveAt(free, k);
    }

    /** The stores of a new header at x. */
    method BuildHeader(x: int)
      modifies `mem
      ensures mem == Wipe(old(mem), x)
    {
      mem := Wipe(mem, x);
    }

    /** Link the header at x, inside block i at h, after h. */
    method LinkNew(h: int, x: int, ghost i: nat)
      requires BlocksOk(next, prev, used, cells) && i < |cells| && cells[i].addr == h
      requires forall c | c in cells :: c.addr != x
      modifies `next, `prev, `used, `cells
      ensures BlocksOk(next, prev, used, cells)
      ensures var c := old(cells)[i];
        cells == Swap(old(cells), i, 1, [c.(size := x - h - ITEM), Cell(x, c.End() - x - ITEM, false)])
    {
      hide BlocksOk, Swap;
      ghost var a, b := cells[i].(size := x - h - ITEM), Cell(x, cells[i].End() - x - ITEM, false);
      CutLinks(next, prev, used, cells, i, a, b);
      used := used[x := false];
      var after := next[h];
      prev := prev[after := x][x := h];
      next := next[x := after][h := x];
      cells := Swap(cells, i, 1, [a, b]);
    }

    /** Unlink the header of block i + 1, at x. */
    method UnlinkBlock(x: int, ghost i: nat)
      requires BlocksOk(next, prev, used, cells) && i + 1 < |cells| && |cells| >= 3 && cells[i + 1].addr == x
      modifies `next, `prev, `cells
      ensures BlocksOk(next, prev, used, cells) && cells == Absorb(old(cells), i)
    {
      hide BlocksOk, Absorb;
      MergeLinks(next, prev, used, cells, i);
      var after, before := next[x], prev[x];
      prev := prev[after := before];
      next := next[before := after];
      cells := Absorb(cells, i);
    }

    method Mark(h: int, u: bool, ghost i: nat)
      requires BlocksOk(next, prev, used, cells) && i < |cells| && cells[i].addr == h
      modifies `used, `cells
      ensures BlocksOk(next, prev, used, cells) && cells == Swap(old(cells), i, 1, [old(cells)[i].(used := u)])
    {
      hide BlocksOk, Swap;
      MarkLinks(next, prev, used, cells, i, u);
      used := used[h := u];
      cells := Swap(cells, i, 1, [cells[i].(used := u)]);
    }

    /* ---------- the operations ---------- */

    /** rt_memheap_init, for a pool that holds at least one block. */
    constructor (start: int, size: int, header: int, mem: Memory)
      requires 0 <= size && InMemory(start, size) && size / 4 * 4 >= 2 * ITEM
      requires !(start <= header < start + size)
      ensures startAddr == start && poolSize == size / 4 * 4 && View() == Initial(start, poolSize) && Linked2()
      ensures Valid() <==> poolSize >= 2 * ITEM + MINIALLOC
    {
      hide Ring, BlocksOk, Inv;
      var pool := size / 4 * 4;
      var item, tail := start, start + pool - ITEM;
      startAddr, poolSize, freeList := start, pool, header;
      availableSize, maxUsedSize := pool - 2 * ITEM, pool - (pool - 2 * ITEM);
      used := map[item := false, tail := true];
      next := map[item := tail, tail := item];
      prev := map[item := tail, tail := item];
      nextFree := map[header := item, item := header];
      prevFree := map[header := item, item := header];
      cells := Initial(start, pool).cells;
      free := [start];
      this.mem := Wipe(Wipe(mem, item), tail);
      InitialInv(start, pool);
      InitialLinks(start, start + pool - ITEM, header, pool - 2 * ITEM);
    }

    /** What a block's header reads as. */
    lemma {:induction false} At(i: nat)
      requires Valid() && i < |cells|
      ensures |cells| >= 2
      ensures var a := cells[i].addr;
        && a > 0 && a in next && a in prev && a in used && used[a] == cells[i].used
        && (i + 1 < |cells| ==> next[a] == cells[i + 1].addr == cells[i].End() && cells[i].size >= MINIALLOC)
        && (if i > 0 then prev[a] == cells[i - 1].addr else prev[a] in used && used[prev[a]])
        && (i + 1 == |cells| ==> cells[i].used && cells[i].size == 0)
    {
      hide Ring, NoTwoFree, RingMatches, FreeBytes;
      BlockLinks(next, prev, used, cells, i);
      BlockLinks(next, prev, used, cells, |cells| - 1);
      assert i > 0 ==> cells[0].End() <= cells[i].addr;
    }

    lemma {:induction false} Shape()
      requires Valid()
      ensures Inv(View(), startAddr, poolSize) && Spans(cells, startAddr, poolSize) && Tiled(cells) && |cells| >= 2 && RingMatches(cells, free)
      ensures Ring(nextFree, prevFree, FreeCycle(freeList, free)) && BlocksOk(next, prev, used, cells) && freeList !in free
      ensures startAddr > 0 && !(startAddr <= freeList < startAddr + poolSize)
      ensures forall c | c in cells :: c.addr != freeList
    {
      hide Ring, NoTwoFree, RingMatches, FreeBytes, FreeAddrs, BlocksOk, BigEnough;
      HeadNotFree(nextFree, prevFree, freeList, free);
      forall c | c in cells ensures c.addr != freeList {
        var k :| 0 <= k < |cells| && cells[k] == c;
        assert k > 0 ==> cells[0].End() <= cells[k].addr;
        assert k < |cells| - 1 ==> cells[k].End() <= cells[|cells| - 1].addr;
      }
    }

    /** The search loop of rt_memheap_alloc. */
    method Search(size: int) returns (h: int, freeSize: int, ghost k: nat)
      requires Valid() && size > 0
      ensures freeSize >= size <==> FirstFit(cells, free, size) < |free|
      ensures FirstFit(cells, free, size) < |free| ==> h == free[FirstFit(cells, free, size)]
      ensures k == FirstFit(cells, free, size)
      ensures k < |free| ==>
        var i := Find(cells, h); i < |cells| && cells[i].addr == h && !cells[i].used && cells[i].size == freeSize
    {
      hide Valid, Tiled, Ring, RingMatches, BlocksOk, Inv, FirstFit, Find;
      Shape();
      FreeLinks(nextFree, prevFree, freeList, free, 0);
      h, freeSize, k := nextFree[freeList], 0, 0;
      while h != freeList && freeSize < size
        invariant k <= |free| && h == (if k < |free| then free[k] else freeList)
        invariant forall j | 0 <= j < k :: SizeAt(cells, free[j]) < size
        invariant freeSize >= size ==> k < |free| && freeSize == SizeAt(cells, free[k])
        decreases |free| - k, if freeSize < size then 1 else 0
      {
        CellFinds(cells, free, k);
        At(Find(cells, h));
        freeSize := next[h] - h - ITEM;
        if freeSize < size {
          FreeLinks(nextFree, prevFree, freeList, free, k + 1);
          h := nextFree[h];
          k := k + 1;
        }
      }
      FirstFitIs(cells, free, size, k);
      if k < |free| {
        CellFinds(cells, free, k);
      }
    }

    /** What rt_memheap_alloc does with the block it found, links and statistics. */
    method TakeLinks(h: int, freeSize: int, size: int, ghost i: nat, ghost k: nat)
      requires Valid() && i < |cells| && k < |free| && cells[i].addr == h == free[k] && !cells[i].used
      requires cells[i].size == freeSize >= size >= MINIALLOC
      modifies `used, `next, `prev, `nextFree, `prevFree, `availableSize, `maxUsedSize, `cells, `free
      ensures Valid() && View() == Take(old(View()), poolSize, i, k, size)
    {
      hide Spans, Tiled, Ring, RingMatches, BlocksOk, Inv, Swap, RemoveAt;
      Shape();
      TakeKeeps(View(), startAddr, poolSize, i, k, size);
      if freeSize >= size + ITEM + MINIALLOC {
        var x := h + size + ITEM;
        FreshAddr(cells, i, 1, x);
        CutAndMark(cells, i, size, cells[i].End() - x - ITEM);
        NewInRing(cells, free, x, k);
        PoolAddr(cells, startAddr, poolSize, i);
        LinkNew(h, x, i);
        UnlinkFree(h, k);
        PushFree(x);
        availableSize := availableSize - size - ITEM;
      } else {
        availableSize := availableSize - freeSize;
        UnlinkFree(h, k);
      }
      if poolSize - availableSize > maxUsedSize {
        maxUsedSize := poolSize - availableSize;
      }
      Mark(h, true, i);
    }

    /** The same with the header of the rest, when the block is split. */
    method TakeFound(h: int, freeSize: int, size: int, ghost i: nat, ghost k: nat)
      requires Valid() && i < |cells| && k < |free| && cells[i].addr == h == free[k] && !cells[i].used
      requires cells[i].size == freeSize >= size >= MINIALLOC
      modifies this
      ensures Valid() && View() == Take(old(View()), poolSize, i, k, size)
      ensures mem == if freeSize >= size + ITEM + MINIALLOC then Wipe(old(mem), h + size + ITEM) else old(mem)
    {
      hide Valid, Take, Wipe;
      if freeSize >= size + ITEM + MINIALLOC {
        BuildHeader(h + size + ITEM);
      }
      TakeLinks(h, freeSize, size, i, k);
    }

    /** rt_memheap_alloc: the payload address, or 0 for RT_NULL. */
    method Alloc(size: int) returns (p: int)
      requires Valid() && 0 <= size < WORD_LIMIT
      modifies this
      ensures Valid() && View() == MemHeapLayout.Alloc(old(View()), poolSize, size)
      ensures var k := AllocFit(old(View()), size); p == if k < |old(free)| then old(free)[k] + ITEM else 0
      ensures p == 0 <==> AllocFit(old(View()), size) >= |old(free)|
      ensures Kept(old(mem), mem, Live(old(cells))) && (p == 0 ==> mem == old(mem))
    {
      hide Valid, Tiled, Ring, RingMatches, BlocksOk, Inv, Take, Find, FirstFit, Kept, Live;
      ghost var m0, cs := mem, cells;
      KeptSame(m0, Live(cs));
      var n := Request(size);
      Shape();
      AllocKeeps(View(), startAddr, poolSize, size);
      if n < availableSize {
        var h, freeSize, k := Search(n);
        if freeSize >= n {
          At(Find(cells, h));
          TakeFound(h, freeSize, n, Find(cells, h), k);
          TakeBytes(m0, cs, Find(cs, h), n);
          return h + ITEM;
        }
      }
      return 0;
    }

    /** The right merge of rt_memheap_free: block i, at h, is free. */
    method MergeNext(h: int, ghost i: nat)
      requires Linked2() && i + 1 < |cells| && cells[i].addr == h
      requires !cells[i + 1].used ==> FindAddr(free, cells[i + 1].addr) < |free| && |cells| >= 3
      modifies `next, `prev, `nextFree, `prevFree, `availableSize, `cells, `free
      ensures Linked2() && View() == MergeRight(old(View()), i)
      ensures forall a | a in free :: a in old(free)
    {
      hide Ring, BlocksOk, Absorb, FindAddr, RemoveAt;
      BlockLinks(next, prev, used, cells, i);
      BlockLinks(next, prev, used, cells, i + 1);
      var x := next[h];
      if !used[x] {
        availableSize := availableSize + ITEM;
        FindAddrIs(free, x);
        UnlinkBlock(x, i);
        RemoveSub(free, FindAddr(free, x));
        UnlinkFree(x, FindAddr(free, x));
      }
    }

    method FreeBlock(h: int, ghost i: nat)
      requires Valid() && i + 1 < |cells| && cells[i].addr == h && cells[i].used
      modifies `used, `next, `prev, `nextFree, `prevFree, `availableSize, `cells, `free
      ensures Valid() && View() == MemHeapLayout.Free(old(View()), i)
    {
      hide Ring, BlocksOk, Absorb, FindAddr, RemoveAt, Inv, Tiled, Spans, RingMatches, Swap;
      Shape();
      FreeKeeps(View(), startAddr, poolSize, i);
      ghost var s := View();
      ghost var m := MarkFree(s, i);
      FreePre(s, startAddr, poolSize, i);
      At(i);
      var size := next[h] - h - ITEM;
      Mark(h, false, i);
      availableSize := availableSize + size;
      BlockLinks(next, prev, used, cells, i);
      BlockLinks(next, prev, used, cells, if i > 0 then i - 1 else |cells| - 1);
      var before := prev[h];
      if !used[before] {
        availableSize := availableSize + ITEM;
        AbsorbAt(cells, i - 1);
        UnlinkBlock(h, i - 1);
        MergeNext(before, i - 1);
      } else {
        MergeNext(h, i);
        PushFree(h);
      }
    }

    /** The in-place growth of rt_memheap_realloc: the free successor at x gives up its first bytes.  The
        heap stays sound exactly when the sum of the comparison did not wrap. */
    method GrowLinks(h: int, newsize: int, ghost i: nat)
      requires Valid() && i + 1 < |cells| && cells[i].addr == h && cells[i].used
      requires newsize < WORD_LIMIT && CanGrow(View(), i, newsize)
      modifies `used, `next, `prev, `nextFree, `prevFree, `availableSize, `maxUsedSize, `cells, `free
      ensures View() == Grow(old(View()), poolSize, i, newsize) && Linked2()
      ensures Valid() <==> !SumWraps(newsize)
    {
      hide Ring, BlocksOk, Absorb, FindAddr, RemoveAt, Inv, Tiled, Spans, RingMatches, Swap, Regrown;
      Shape();
      At(i);
      At(i + 1);
      GrowVerdict(View(), startAddr, poolSize, i, newsize);
      GrowPre(View(), startAddr, poolSize, i, newsize);
      var oldsize := next[h] - h - ITEM;
      var x := next[h];
      availableSize := (availableSize - (newsize - oldsize)) % WORD_LIMIT;
      if poolSize - availableSize > maxUsedSize {
        maxUsedSize := poolSize - availableSize;
      }
      UnlinkFree(x, FindAddr(free, x));
      UnlinkBlock(x, i);
      var y := (h + ITEM + newsize) % WORD_LIMIT;
      LinkNew(h, y, i);
      PushFree(y);
    }

    /** The same with the new header. */
    method GrowBlock(h: int, newsize: int, ghost i: nat)
      requires Valid() && i + 1 < |cells| && cells[i].addr == h && cells[i].used
      requires newsize < WORD_LIMIT && CanGrow(View(), i, newsize)
      modifies this
      ensures View() == Grow(old(View()), poolSize, i, newsize) && Linked2()
      ensures Valid() <==> !SumWraps(newsize)
      ensures mem == Wipe(old(mem), RestAddr(old(cells)[i], newsize))
    {
      hide Valid, Linked2, Grow, CanGrow, Wipe;
      BuildHeader((h + ITEM + newsize) % WORD_LIMIT);
      GrowLinks(h, newsize, i);
    }

    /** The merge in rt_memheap_realloc: block j, at y, takes over a free successor. */
    method JoinNext(y: int, ghost j: nat)
      requires Linked2() && j + 1 < |cells| && cells[j].addr == y
      requires !cells[j + 1].used ==> FindAddr(free, cells[j + 1].addr) < |free| && j + 2 < |cells| && cells[j + 1].End() == cells[j + 2].addr
      modifies `next, `prev, `nextFree, `prevFree, `availableSize, `cells, `free
      ensures Linked2() && forall a | a in free :: a in old(free)
      ensures var n := old(cells)[j + 1];
        if n.used then
          cells == old(cells) && free == old(free) && availableSize == old(availableSize)
        else
          && FindAddr(old(free), n.addr) < |old(free)|
          && cells == Absorb(old(cells), j) && free == RemoveAt(old(free), FindAddr(old(free), n.addr))
          && availableSize == old(availableSize) - n.size
    {
      hide Ring, BlocksOk, Absorb, FindAddr, RemoveAt;
      BlockLinks(next, prev, used, cells, j);
      BlockLinks(next, prev, used, cells, j + 1);
      var x := next[y];
      if !used[x] {
        BlockLinks(next, prev, used, cells, j + 2);
        availableSize := availableSize - (next[x] - x - ITEM);
        FindAddrIs(free, x);
        RemoveSub(free, FindAddr(free, x));
        UnlinkBlock(x, j);
        UnlinkFree(x, FindAddr(free, x));
      }
    }

    /** The end of the in-place shrinking: block j, at y, enters the free ring and is counted. */
    method InsertRest(y: int, ghost j: nat)
      requires Linked2() && j + 1 < |cells| && cells[j].addr == y && cells[j].End() == cells[j + 1].addr
      requires y != freeList && y !in free
      modifies `nextFree, `prevFree, `availableSize, `free
      ensures Linked2() && free == [y] + old(free) && availableSize == old(availableSize) + cells[j].size
    {
      hide Ring, BlocksOk;
      PushFree(y);
      BlockLinks(next, prev, used, cells, j);
      availableSize := availableSize + (next[y] - y - ITEM);
    }

    /** The in-place shrinking of rt_memheap_realloc. */
    method ShrinkLinks(h: int, newsize: int, ghost i: nat)
      requires Valid() && i + 1 < |cells| && cells[i].addr == h && cells[i].used
      requires newsize >= MINIALLOC && CutsOff(View(), i, newsize)
      modifies `used, `next, `prev, `nextFree, `prevFree, `availableSize, `maxUsedSize, `cells, `free
      ensures Valid() && View() == Shrink(old(View()), i, newsize)
    {
      hide Ring, BlocksOk, Absorb, FindAddr, RemoveAt, Inv, Tiled, Spans, RingMatches, Swap;
      Shape();
      At(i);
      At(i + 1);
      ShrinkKeeps(View(), startAddr, poolSize, i, newsize);
      ShrinkPre(View(), startAddr, poolSize, i, newsize);
      var y := h + newsize + ITEM;
      LinkNew(h, y, i);
      JoinNext(y, i + 1);
      InsertRest(y, i + 1);
    }

    /** The same with the new header. */
    method ShrinkBlock(h: int, newsize: int, ghost i: nat)
      requires Valid() && i + 1 < |cells| && cells[i].addr == h && cells[i].used
      requires newsize >= MINIALLOC && CutsOff(View(), i, newsize)
      modifies this
      ensures Valid() && View() == Shrink(old(View()), i, newsize)
      ensures mem == Wipe(old(mem), h + newsize + ITEM)
    {
      hide Valid, Shrink, Wipe;
      BuildHeader(h + newsize + ITEM);
      ShrinkLinks(h, newsize, i);
    }

    /** A caller's address belongs to a block that is in use. */
    ghost predicate Owned(ptr: int)
      reads this
    {
      ptr != 0 ==> Find(cells, ptr - ITEM) + 1 < |cells| && cells[Find(cells, ptr - ITEM)].used
    }

    method Free(ptr: int)
      requires Valid() && Owned(ptr)
      modifies `used, `next, `prev, `nextFree, `prevFree, `availableSize, `cells, `free
      ensures Valid()
      ensures View() == if ptr == 0 then old(View()) else MemHeapLayout.Free(old(View()), Find(old(cells), ptr - ITEM))
    {
      if ptr == 0 {
        return;
      }
      FreeBlock(ptr - ITEM, Find(cells, ptr - ITEM));
    }

    /** rt_memcpy from one payload to another. */
    method CopyBytes(dst: int, src: int, n: int)
      requires 0 <= n && (dst + n <= src || src + n <= dst)
      modifies `mem
      ensures SameBytes(old(mem), src, mem, dst, n)
      ensures forall k | k in old(mem) && !(dst <= k < dst + n) :: k in mem && mem[k] == old(mem)[k]
    {
      ghost var m0 := mem;
      for k := 0 to n
        invariant SameBytes(m0, src, mem, dst, k)
        invariant forall j | !(dst <= j < dst + k) :: (j in mem <==> j in m0) && (j in m0 ==> mem[j] == m0[j])
      {
        mem := if src + k in mem then mem[dst + k := mem[src + k]] else mem - {dst + k};
      }
    }

    /** What rt_memheap_realloc leaves of block c for a new size n, returning p: the other live blocks hold
        their bytes, and the result holds the first min(old, new) bytes of c. */
    twostate predicate Moved(c: Cell, n: int, p: int)
      reads this
    {
      if p == 0 then mem == old(mem)
      else
        && Kept(old(mem), mem, Live(old(cells)) - {c})
        && SameBytes(old(mem), c.addr + ITEM, mem, p, if c.size < n then c.size else n)
    }

    /** The moving way of rt_memheap_realloc, for a request that does not go to the growth. */
    method MoveBlock(h: int, n: int, ghost i: nat) returns (p: int)
      requires Valid() && i + 1 < |cells| && cells[i].addr == h && cells[i].used
      requires cells[i].size < n < WORD_LIMIT && Request(n) == n && !CanGrow(View(), i, n)
      modifies this
      ensures Valid() && View() == MemHeapLayout.Realloc(old(View()), poolSize, i, n)
      ensures p == if AllocFit(old(View()), n) < |old(free)| then old(free)[AllocFit(old(View()), n)] + ITEM else 0
      ensures Moved(old(cells)[i], n, p)
    {
      hide Valid, Ring, BlocksOk, Absorb, FindAddr, RemoveAt, Inv, Tiled, Spans, RingMatches, Swap, FirstFit, Find, Live, Kept, SameBytes;
      Shape();
      At(i);
      ghost var s, m0, c := View(), mem, cells[i];
      var oldsize := next[h] - h - ITEM;
      AllocKeeps(s, startAddr, poolSize, n);
      p := Alloc(n);
      if p != 0 {
        ghost var m1, t := mem, View();
        TakeLeaves(s, startAddr, poolSize, Find(s.cells, s.free[AllocFit(s, n)]), AllocFit(s, n), n, i);
        ghost var b := AllocLive(s, startAddr, poolSize, n);
        Shape();
        MovePlaces(s, t, startAddr, poolSize, i, b);
        CopyBytes(p, h + ITEM, oldsize);
        FreeBlock(h, Find(cells, h));
        MovedBytes(m0, m1, mem, s.cells, t.cells, c, b, oldsize);
      }
    }

    /** rt_memheap_realloc. */
    method Realloc(ptr: int, size: int) returns (p: int)
      requires Valid() && Owned(ptr) && 0 <= size < WORD_LIMIT
      modifies this
      ensures Valid() <==> ptr == 0 || Harmless(old(View()), Find(old(cells), ptr - ITEM), size)
      ensures size == 0 && ptr == 0 ==> p == 0 && View() == old(View())
      ensures size == 0 && ptr != 0 ==>
        p == 0 && View() == MemHeapLayout.Free(old(View()), Find(old(cells), ptr - ITEM))
      ensures size == 0 ==> mem == old(mem)
      ensures size != 0 && ptr == 0 ==>
        View() == MemHeapLayout.Alloc(old(View()), poolSize, Request(size)) && Kept(old(mem), mem, Live(old(cells)))
      ensures size != 0 && ptr != 0 ==>
        var i := Find(old(cells), ptr - ITEM); var s := old(View()); var n := Request(size);
        && View() == MemHeapLayout.Realloc(s, poolSize, i, size)
        && p == (if n <= s.cells[i].size || CanGrow(s, i, n) then ptr
                 else if AllocFit(s, n) < |s.free| then s.free[AllocFit(s, n)] + ITEM else 0)
        && (Harmless(s, i, size) ==> Moved(s.cells[i], n, p))
    {
      hide Valid, Ring, BlocksOk, Inv, Tiled, Spans, RingMatches, Find, Kept, Live, Moved, MemHeapLayout.Realloc, CanGrow;
      if size == 0 {
        Free(ptr);
        return 0;
      }
      var n := Request(size);
      RequestOfRequest(size);
      if ptr == 0 {
        p := Alloc(n);
        return;
      }
      ReallocSame(View(), poolSize, Find(cells, ptr - ITEM), size);
      p := Resize(ptr - ITEM, n, Find(cells, ptr - ITEM));
    }

    /** rt_memheap_realloc of a block in use, for an adjusted size. */
    method Resize(h: int, n: int, ghost i: nat) returns (p: int)
      requires Valid() && i + 1 < |cells| && cells[i].addr == h && cells[i].used && 0 < n < WORD_LIMIT && Request(n) == n
      modifies this
      ensures Valid() <==> Harmless(old(View()), i, n)
      ensures var s := old(View());
        && View() == MemHeapLayout.Realloc(s, poolSize, i, n)
        && p == (if n <= s.cells[i].size || CanGrow(s, i, n) then h + ITEM
                 else if AllocFit(s, n) < |s.free| then s.free[AllocFit(s, n)] + ITEM else 0)
        && (Harmless(s, i, n) ==> Moved(s.cells[i], n, p))
    {
      hide Valid, Ring, BlocksOk, Absorb, FindAddr, RemoveAt, Inv, Tiled, Spans, RingMatches, Swap, FirstFit, Find, Live, Kept, SameBytes, Grow, Shrink;
      Shape();
      At(i);
      At(i + 1);
      ghost var s, m0, c := View(), mem, cells[i];
      InPlaceBytes(m0, s, startAddr, poolSize, i, n);
      var oldsize := next[h] - h - ITEM;
      if n > oldsize {
        var x := next[h];
        if !used[x] {
          At(i + 2);
          var nextsize := next[x] - x - ITEM;
          if nextsize + oldsize > (n + MINIALLOC) % WORD_LIMIT {
            GrowBlock(h, n, i);
            return h + ITEM;
          }
        }
        NotGrowing(s, startAddr, poolSize, i, n);
        p := MoveBlock(h, n, i);
        return;
      }
      SizeBound(s, startAddr, poolSize, i);
      if n + ITEM + MINIALLOC >= oldsize {
        return h + ITEM;
      }
      ShrinkBlock(h, n, i);
      return h + ITEM;
    }
  }

  /** Only the adjusted size matters. */
  lemma {:induction false} ReallocSame(s: State, pool: int, i: nat, size: int)
    requires i + 1 < |s.cells| && 0 < size < WORD_LIMIT
    ensures Request(size) < WORD_LIMIT && Request(Request(size)) == Request(size)
    ensures MemHeapLayout.Realloc(s, pool, i, Request(size)) == MemHeapLayout.Realloc(s, pool, i, size)
    ensures Harmless(s, i, Request(size)) == Harmless(s, i, size)
  {
    RequestOfRequest(size);
  }

  lemma {:induction false} KeptSame(m: Memory, live: set<Cell>)
    ensures Kept(m, m, live)
  {
  }

  lemma {:induction false} TakeBytes(m: Memory, cs: seq<Cell>, i: nat, n: int)
    requires Tiled(cs) && i < |cs| && !cs[i].used && n >= 0
    ensures cs[i].size >= n + ITEM + MINIALLOC ==> Kept(m, Wipe(m, cs[i].addr + n + ITEM), Live(cs))
  {
    hide Tiled, Kept, Wipe;
    if cs[i].size >= n + ITEM + MINIALLOC {
      WipeKept(m, cs, i, cs[i].addr + n + ITEM);
      assert Live(cs) - {cs[i]} == Live(cs);
    }
  }

  /** The bytes after the ways of rt_memheap_realloc that keep the block where it is. */
  lemma {:induction false} InPlaceBytes(m: Memory, s: State, start: int, pool: int, i: nat, n: int)
    requires Inv(s, start, pool) && i + 1 < |s.cells| && s.cells[i].used && 0 < n < WORD_LIMIT
    ensures var c := s.cells[i]; var p := c.addr + ITEM; var others := Live(s.cells) - {c};
      && Kept(m, m, others) && SameBytes(m, p, m, p, if c.size < n then c.size else n)
      && (CanGrow(s, i, n) && !SumWraps(n) ==>
        var r := Wipe(m, RestAddr(c, n)); Kept(m, r, others) && SameBytes(m, p, r, p, if c.size < n then c.size else n))
      && (CutsOff(s, i, n) ==>
        var r := Wipe(m, c.addr + n + ITEM); Kept(m, r, others) && SameBytes(m, p, r, p, if c.size < n then c.size else n))
  {
    hide Inv, Tiled, Kept, SameBytes, Wipe, RestAddr, Live;
    InvTiled(s, start, pool);
    var c := s.cells[i];
    var p := c.addr + ITEM;
    KeptSame(m, Live(s.cells) - {c});
    SameSelf(m, p, if c.size < n then c.size else n);
    if CanGrow(s, i, n) && !SumWraps(n) {
      GrowPlain(s, start, pool, i, n);
      UsedInPool(s, start, pool, i);
      var y := RestAddr(c, n);
      WipeKept(m, s.cells, i + 1, y);
      OnlyLiveElse(s.cells, i);
      KeptSub(m, Wipe(m, y), Live(s.cells) - {c}, Live(s.cells) - {s.cells[i + 1]});
      WipeBehind(m, y, p, c.size);
    }
    if CutsOff(s, i, n) {
      var y := c.addr + n + ITEM;
      WipeKept(m, s.cells, i, y);
      WipeBehind(m, y, p, n);
    }
  }

  lemma {:induction false} SameSelf(m: Memory, p: int, n: int)
    ensures SameBytes(m, p, m, p, n)
  {
  }

  lemma {:induction false} OnlyLiveElse(cs: seq<Cell>, i: nat)
    requires i + 1 < |cs| && !cs[i + 1].used
    ensures Live(cs) - {cs[i]} <= Live(cs) - {cs[i + 1]}
  {
  }

  /** Where a moving reallocation copies from and to. */
  lemma {:induction false} MovePlaces(s: State, t: State, start: int, pool: int, i: nat, b: Cell)
    requires Inv(t, start, pool) && i < |s.cells| && s.cells[i].used
    requires Live(t.cells) == Live(s.cells) + {b} && b !in Live(s.cells) && s.cells[i].size < b.size
    ensures var c := s.cells[i];
      && c in Live(s.cells) && b in t.cells && Tiled(t.cells)
      && (b.addr + ITEM + c.size <= c.addr + ITEM || c.addr + ITEM + c.size <= b.addr + ITEM)
  {
    hide Inv, Tiled;
    InvTiled(t, start, pool);
    InLive(s.cells, i);
    LiveApart(t, start, pool, s.cells[i], b);
    assert b in Live(t.cells);
  }

  /** What allocating, copying and freeing add up to for the bytes. */
  lemma {:induction false} MovedBytes(m0: Memory, m1: Memory, m2: Memory, cs: seq<Cell>, ts: seq<Cell>, c: Cell, b: Cell, n: int)
    requires Kept(m0, m1, Live(cs)) && Tiled(ts) && Live(ts) == Live(cs) + {b} && b !in Live(cs) && b in ts
    requires c in Live(cs) && n == c.size && n <= b.size
    requires SameBytes(m1, c.addr + ITEM, m2, b.addr + ITEM, n)
    requires forall k | k in m1 && !(b.addr + ITEM <= k < b.addr + ITEM + n) :: k in m2 && m2[k] == m1[k]
    ensures Kept(m0, m2, Live(cs) - {c}) && SameBytes(m0, c.addr + ITEM, m2, b.addr + ITEM, n)
  {
    hide Kept, SameBytes, Tiled, Live;
    CopyKept(m1, m2, ts, b, n);
    KeptSub(m0, m1, Live(cs) - {c}, Live(cs));
    KeptSub(m1, m2, Live(cs) - {c}, Live(ts) - {b});
    KeptTrans(m0, m1, m2, Live(cs) - {c});
    KeptAt(m0, m1, Live(cs), c);
    SameTrans(m0, c.addr + ITEM, m1, c.addr + ITEM, m2, b.addr + ITEM, n);
  }
}
