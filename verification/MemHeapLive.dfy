/** The live allocations of a memheap: what each call does to the blocks that are in use. */
module MemHeapLive {
  import opened MemHeapLayout

  ghost function Live(cs: seq<Cell>): set<Cell> {
    set c | c in cs && c.used
  }

  lemma {:induction false} SwapLive(cs: seq<Cell>, i: nat, n: nat, mid: seq<Cell>)
    requires i + n <= |cs| && Tiled(cs)
    ensures Live(Swap(cs, i, n, mid)) == Live(cs) - Live(cs[i..i + n]) + Live(mid)
  {
    var r := Swap(cs, i, n, mid);
    Ascending(cs);
    hide Tiled;
    assert forall c :: c in r <==> c in cs[..i] || c in mid || c in cs[i + n..];
    forall c ensures c in cs && c !in cs[i..i + n] <==> c in cs[..i] || c in cs[i + n..] {
      Elsewhere(cs, i, n, c);
    }
  }

  lemma {:induction false} Elsewhere(cs: seq<Cell>, i: nat, n: nat, c: Cell)
    requires i + n <= |cs| && forall i, j | 0 <= i < j < |cs| :: cs[i].addr < cs[j].addr
    ensures c in cs && c !in cs[i..i + n] <==> c in cs[..i] || c in cs[i + n..]
  {
    if c in cs {
      var k :| 0 <= k < |cs| && cs[k] == c;
      if k < i {
        assert cs[..i][k] == c;
      } else if k < i + n {
        assert cs[i..i + n][k - i] == c;
      } else {
        assert cs[i + n..][k - i - n] == c;
      }
    }
  }

  lemma {:induction false} LiveOne(c: Cell)
    ensures Live([c]) == if c.used then {c} else {}
  {
    assert c in [c];
  }

  lemma {:induction false} LiveTwo(c: Cell, d: Cell)
    ensures Live([c, d]) == Live([c]) + Live([d])
  {
    assert forall e :: e in [c, d] <==> e in [c] || e in [d];
  }

  /** Live blocks never overlap, and all of them lie in the pool. */
  lemma {:induction false} LiveApart(s: State, start: int, pool: int, a: Cell, b: Cell)
    requires Inv(s, start, pool) && a in Live(s.cells) && b in Live(s.cells) && a != b
    ensures a.End() <= b.addr || b.End() <= a.addr
    ensures start <= a.addr && a.End() <= start + pool
  {
    hide NoTwoFree, BigEnough, RingMatches, FreeBytes;
    var i :| 0 <= i < |s.cells| && s.cells[i] == a;
    var j :| 0 <= j < |s.cells| && s.cells[j] == b;
    var last := |s.cells| - 1;
    assert i < last ==> a.End() <= s.cells[last].addr;
    assert i > 0 ==> s.cells[0].End() <= a.addr;
  }

  /** Handing out a block adds one live block, at the address of the free block, that holds what was
      asked for and less than another block more. */
  lemma {:induction false} TakeLive(s: State, start: int, pool: int, i: nat, k: nat, size: int) returns (b: Cell)
    requires Inv(s, start, pool) && i < |s.cells| && k < |s.free|
    requires !s.cells[i].used && s.cells[i].addr == s.free[k] && s.cells[i].size >= size >= MINIALLOC
    ensures Live(Take(s, pool, i, k, size).cells) == Live(s.cells) + {b} && b !in Live(s.cells)
    ensures b.addr == s.free[k] && b.used && size <= b.size < size + ITEM + MINIALLOC
    ensures b.size == if s.cells[i].size >= size + ITEM + MINIALLOC then size else s.cells[i].size
  {
    hide Tiled, Inv, Live, Swap, RingMatches;
    InvTiled(s, start, pool);
    var c := s.cells[i];
    assert s.cells[i..i + 1] == [c];
    LiveOne(c);
    if c.size >= size + ITEM + MINIALLOC {
      b := Cell(c.addr, size, true);
      var rest := Cell(c.addr + ITEM + size, c.size - size - ITEM, false);
      SwapLive(s.cells, i, 1, [b, rest]);
      LiveTwo(b, rest);
      LiveOne(b);
      LiveOne(rest);
    } else {
      b := c.(used := true);
      SwapLive(s.cells, i, 1, [b]);
      LiveOne(b);
    }
    NewAddress(s.cells, i, b);
  }

  lemma {:induction false} NewAddress(cs: seq<Cell>, i: nat, b: Cell)
    requires Tiled(cs) && i < |cs| && !cs[i].used && b.addr == cs[i].addr
    ensures b !in Live(cs)
  {
    Ascending(cs);
  }

  /** rt_memheap_alloc: one new live block of at least the requested size, or nothing changed. */
  lemma {:induction false} AllocLive(s: State, start: int, pool: int, size: int) returns (b: Cell)
    requires Inv(s, start, pool) && 0 <= size < WORD_LIMIT
    ensures var r, k := Alloc(s, pool, size), AllocFit(s, size);
      if k < |s.free| then
        && Live(r.cells) == Live(s.cells) + {b} && b !in Live(s.cells) && b.addr == s.free[k]
        && Request(size) <= b.size < Request(size) + ITEM + MINIALLOC
        && (exists c :: c in s.cells && !c.used && c.addr == b.addr && CutFrom(c, b, Request(size)))
      else r == s
  {
    hide Inv, Take, Live, FirstFit, Find;
    AllocKeeps(s, start, pool, size);
    b := Cell(0, 0, true);
    var k := AllocFit(s, size);
    if k < |s.free| {
      b := TakeLive(s, start, pool, Find(s.cells, s.free[k]), k, Request(size));
      assert CutFrom(s.cells[Find(s.cells, s.free[k])], b, Request(size));
    }
  }

  /** Block b is the front of free block c, of exactly n bytes when the rest can hold a block, else all
      of it. */
  predicate CutFrom(c: Cell, b: Cell, n: int) {
    b.size == if c.size >= n + ITEM + MINIALLOC then n else c.size
  }

  /** rt_memheap_free ends the life of exactly its block, whatever it merges with. */
  lemma {:induction false} FreeLive(s: State, start: int, pool: int, i: nat)
    requires Inv(s, start, pool) && i + 1 < |s.cells| && s.cells[i].used
    ensures Live(Free(s, i).cells) == Live(s.cells) - {s.cells[i]}
  {
    hide Tiled, Inv, Live, Swap, Free, MergeLo, MergeHi, Merged;
    InvTiled(s, start, pool);
    FreeOnce(s, i);
    LoHi(s.cells, i);
    var cs, lo, hi := s.cells, MergeLo(s.cells, i), MergeHi(s.cells, i);
    SwapLive(cs, lo, hi + 1 - lo, [Merged(cs, i)]);
    LiveOne(Merged(cs, i));
    OnlyLive(cs, lo, hi, i);
  }

  /** Of the blocks that merge only the freed one was live. */
  lemma {:induction false} OnlyLive(cs: seq<Cell>, lo: nat, hi: nat, i: nat)
    requires lo <= i <= hi < |cs| && i - lo <= 1 && hi - i <= 1 && cs[i].used
    requires (lo < i ==> !cs[lo].used) && (hi > i ==> !cs[hi].used)
    ensures Live(cs[lo..hi + 1]) == {cs[i]}
  {
    var m := cs[lo..hi + 1];
    assert m[i - lo] == cs[i];
    assert forall k | 0 <= k < |m| :: m[k] == cs[lo + k];
  }

  /** The in-place ways of rt_memheap_realloc: the block keeps its address and has the new size. */
  lemma {:induction false} ResizeLive(s: State, start: int, pool: int, i: nat, n: int)
    requires Inv(s, start, pool) && i + 1 < |s.cells| && s.cells[i].used
    ensures var b := s.cells[i].(size := n); var rest := Live(s.cells) - {s.cells[i]};
      && (CanGrow(s, i, n) && !SumWraps(n) ==> Live(Grow(s, pool, i, n).cells) == rest + {b})
      && (CutsOff(s, i, n) ==> Live(Shrink(s, i, n).cells) == rest + {b})
  {
    hide Tiled, Inv, Live, Swap, RestAddr, Regrown;
    InvTiled(s, start, pool);
    if CanGrow(s, i, n) && !SumWraps(n) {
      GrowPlain(s, start, pool, i, n);
    }
    var c, d, b := s.cells[i], s.cells[i + 1], s.cells[i].(size := n);
    assert s.cells[i..i + 1] == [c] && s.cells[i..i + 2] == [c, d];
    LiveOne(c);
    LiveOne(d);
    LiveTwo(c, d);
    LiveOne(b);
    var grown := Cell(c.addr + ITEM + n, d.size + c.size - n, false);
    LiveTwo(b, grown);
    LiveOne(grown);
    SwapLive(s.cells, i, 2, [b, grown]);
    var joined := Cell(c.addr + ITEM + n, c.size - n + d.size, false);
    SwapLive(s.cells, i, 2, [b, joined]);
    LiveTwo(b, joined);
    LiveOne(joined);
    var cut := Cell(c.addr + ITEM + n, c.size - n - ITEM, false);
    SwapLive(s.cells, i, 1, [b, cut]);
    LiveTwo(b, cut);
    LiveOne(cut);
  }

  /** rt_memheap_realloc: nothing changes, or the block is replaced by one live block `b` that holds the
      request, at the same address or, when it had to move, at the one rt_memheap_alloc delivers. */
  lemma {:induction false} ReallocLive(s: State, start: int, pool: int, i: nat, size: int) returns (b: Cell)
    requires Inv(s, start, pool) && i + 1 < |s.cells| && s.cells[i].used && 0 < size < WORD_LIMIT
    requires Harmless(s, i, size)
    ensures var r, c, n := Realloc(s, pool, i, size), s.cells[i], Request(size);
      || (r == s && (c.size >= n || AllocFit(s, n) == |s.free|))
      || (Live(r.cells) == Live(s.cells) - {c} + {b} && b.size >= n
          && if CanGrow(s, i, n) || c.size >= n then b.addr == c.addr
             else AllocFit(s, n) < |s.free| && b.addr == s.free[AllocFit(s, n)])
  {
    hide Inv, Take, Alloc, Find, Free, Grow, Shrink, FirstFit, Live;
    var c, n := s.cells[i], Request(size);
    b := c.(size := n);
    ResizeLive(s, start, pool, i, n);
    if n > c.size && !CanGrow(s, i, n) {
      b := MoveLive(s, start, pool, i, size);
    }
  }

  /** The moving way: allocate, then free the old block, which is found again at its address. */
  lemma {:induction false} MoveLive(s: State, start: int, pool: int, i: nat, size: int) returns (b: Cell)
    requires Inv(s, start, pool) && i + 1 < |s.cells| && s.cells[i].used && 0 <= size < WORD_LIMIT
    requires Request(size) > s.cells[i].size && !CanGrow(s, i, Request(size))
    ensures var r, c, n := Realloc(s, pool, i, size), s.cells[i], Request(size);
      if AllocFit(s, n) == |s.free| then r == s
      else
        && Live(r.cells) == Live(s.cells) - {c} + {b} && b !in Live(s.cells) && b.size >= n
        && AllocFit(s, n) < |s.free| && b.addr == s.free[AllocFit(s, n)]
  {
    hide Inv, Take, Alloc, Find, Free, Grow, Shrink, FirstFit, Live;
    var c, n := s.cells[i], Request(size);
    RequestOfRequest(size);
    AllocKeeps(s, start, pool, n);
    b := AllocLive(s, start, pool, n);
    var k, t := AllocFit(s, n), Alloc(s, pool, n);
    if k < |s.free| {
      TakeLeaves(s, start, pool, Find(s.cells, s.free[k]), k, n, i);
      FreeLive(t, start, pool, Find(t.cells, c.addr));
      InLive(s.cells, i);
    } else {
      FitBound(s, n);
    }
  }

  lemma {:induction false} FitBound(s: State, n: int)
    requires 0 <= n < WORD_LIMIT
    ensures AllocFit(s, n) <= |s.free|
  {
  }

  lemma {:induction false} InLive(cs: seq<Cell>, i: nat)
    requires i < |cs| && cs[i].used
    ensures cs[i] in Live(cs)
  {
  }

  /** Which way rt_memheap_realloc takes, for the adjusted size n: a block that is less than 37 bytes too
      large stays as it is, a larger one is cut; a block that is too small grows into a free successor
      when more than 12 bytes of that are left, and moves else, if rt_memheap_alloc finds a place. */
  lemma {:induction false} ReallocGives(s: State, start: int, pool: int, i: nat, size: int) returns (b: Cell)
    requires Inv(s, start, pool) && i + 1 < |s.cells| && s.cells[i].used && 0 < size < WORD_LIMIT
    requires Harmless(s, i, size)
    ensures var r, c, d, n := Realloc(s, pool, i, size), s.cells[i], s.cells[i + 1], Request(size);
      if n <= c.size < n + 37 then r == s
      else if n + 37 <= c.size || (!d.used && c.size + d.size > n + 12) then
        Live(r.cells) == Live(s.cells) - {c} + {b} && b == Cell(c.addr, n, true)
      else if n < FreeBytes(s.cells) && exists x :: x in s.cells && !x.used && x.size >= n then
        Live(r.cells) == Live(s.cells) - {c} + {b} && b !in Live(s.cells) && b.size >= n
      else r == s
  {
    hide Inv, Take, Alloc, Find, Free, Grow, Shrink, FirstFit, Live, FreeBytes, Request;
    var c, d, n := s.cells[i], s.cells[i + 1], Request(size);
    b := c.(size := n);
    RequestOfRequest(size);
    ResizeLive(s, start, pool, i, n);
    SizesKnown(s, start, pool, i);
    if n > c.size && !CanGrow(s, i, n) {
      b := MoveLive(s, start, pool, i, size);
      AllocComplete(s, start, pool, n);
      FitBound(s, n);
    }
  }

  lemma {:induction false} SizesKnown(s: State, start: int, pool: int, i: nat)
    requires Inv(s, start, pool) && i + 1 < |s.cells| && s.cells[i].used
    ensures s.cells[i].size >= 0 && s.cells[i + 1].size >= 0
  {
    hide NoTwoFree, BigEnough, RingMatches, FreeBytes;
  }

  /** No call touches a live block that it was not given. */
  lemma {:induction false} ApplyLive(s: State, start: int, pool: int, c: Call, b: Cell)
    requires Inv(s, start, pool) && Allowed(s, c) && b in Live(s.cells)
    requires c.AllocCall? || b != s.cells[c.i]
    ensures b in Live(Apply(s, pool, c).cells) && Inv(Apply(s, pool, c), start, pool)
  {
    hide Inv, Alloc, Free, Realloc, Live, AllocFit;
    match c
    case AllocCall(size) =>
      AllocKeeps(s, start, pool, size);
      var d := AllocLive(s, start, pool, size);
    case FreeCall(i) =>
      FreeKeeps(s, start, pool, i);
      FreeLive(s, start, pool, i);
    case ReallocCall(i, size) =>
      FreeKeeps(s, start, pool, i);
      FreeLive(s, start, pool, i);
      if size > 0 {
        ReallocKeeps(s, start, pool, i, size);
        var d := ReallocLive(s, start, pool, i, size);
      }
  }

  /** No call of the run frees or resizes block b. */
  ghost predicate Spares(s: State, pool: int, calls: seq<Call>, b: Cell)
    requires AllowedRun(s, pool, calls)
    decreases |calls|
  {
    calls != [] ==>
      && (calls[0].AllocCall? || b != s.cells[calls[0].i])
      && Spares(Apply(s, pool, calls[0]), pool, calls[1..], b)
  }

  /** Over every run a live block that no call frees or resizes stays live, address and size unchanged. */
  lemma {:induction false} RunSpares(s: State, start: int, pool: int, calls: seq<Call>, b: Cell)
    requires Inv(s, start, pool) && AllowedRun(s, pool, calls) && b in Live(s.cells) && Spares(s, pool, calls, b)
    ensures b in Live(Run(s, pool, calls).cells)
    decreases |calls|
  {
    hide Inv, Apply, Live, Allowed;
    if calls != [] {
      ApplyLive(s, start, pool, calls[0], b);
      RunSpares(Apply(s, pool, calls[0]), start, pool, calls[1..], b);
    }
  }

  /* ---------- payload bytes ---------- */

  /** Memory as a map from addresses to bytes; an address that is missing holds nothing we know. */
  type Memory = map<int, int>

  /** Building a header at x overwrites the bytes there. */
  function Wipe(m: Memory, x: int): Memory {
    map k | k in m && !(x <= k < x + ITEM) :: m[k]
  }

  /** The n bytes at q in m' are those at p in m. */
  ghost predicate SameBytes(m: Memory, p: int, m': Memory, q: int, n: int) {
    forall k | k in m && p <= k < p + n :: k + (q - p) in m' && m'[k + (q - p)] == m[k]
  }

  /** The payloads of these blocks hold the same bytes. */
  ghost predicate Kept(m: Memory, m': Memory, live: set<Cell>) {
    forall b | b in live :: SameBytes(m, b.addr + ITEM, m', b.addr + ITEM, b.size)
  }

  lemma {:induction false} KeptTrans(m0: Memory, m1: Memory, m2: Memory, live: set<Cell>)
    requires Kept(m0, m1, live) && Kept(m1, m2, live)
    ensures Kept(m0, m2, live)
  {
    forall b | b in live ensures SameBytes(m0, b.addr + ITEM, m2, b.addr + ITEM, b.size) {
      SameTrans(m0, b.addr + ITEM, m1, b.addr + ITEM, m2, b.addr + ITEM, b.size);
    }
  }

  lemma {:induction false} SameTrans(m0: Memory, p: int, m1: Memory, q: int, m2: Memory, r: int, n: int)
    requires SameBytes(m0, p, m1, q, n) && SameBytes(m1, q, m2, r, n)
    ensures SameBytes(m0, p, m2, r, n)
  {
    forall k | k in m0 && p <= k < p + n ensures k + (r - p) in m2 && m2[k + (r - p)] == m0[k] {
      assert k + (q - p) in m1;
    }
  }

  lemma {:induction false} SamePrefix(m: Memory, p: int, m': Memory, q: int, n: int, few: int)
    requires SameBytes(m, p, m', q, n) && few <= n
    ensures SameBytes(m, p, m', q, few)
  {
  }

  /** A header built in the region of block k of the layout touches no payload but that block's. */
  lemma {:induction false} WipeKept(m: Memory, cs: seq<Cell>, k: nat, x: int)
    requires Tiled(cs) && k < |cs| && cs[k].addr <= x && x + ITEM <= cs[k].End()
    ensures Kept(m, Wipe(m, x), Live(cs) - {cs[k]})
  {
    forall b | b in Live(cs) - {cs[k]} ensures SameBytes(m, b.addr + ITEM, Wipe(m, x), b.addr + ITEM, b.size) {
      var j :| 0 <= j < |cs| && cs[j] == b;
      assert j < k ==> b.End() <= cs[k].addr;
      assert j > k ==> cs[k].End() <= b.addr;
    }
  }

  /** Bytes in front of the new header stay. */
  lemma {:induction false} WipeBehind(m: Memory, x: int, p: int, n: int)
    requires p + n <= x
    ensures SameBytes(m, p, Wipe(m, x), p, n)
  {
  }

  /** A copy into the payload of block b keeps the payloads of the other live blocks. */
  lemma {:induction false} CopyKept(m: Memory, m': Memory, cs: seq<Cell>, b: Cell, n: int)
    requires Tiled(cs) && b in cs && n <= b.size
    requires forall k | k in m && !(b.addr + ITEM <= k < b.addr + ITEM + n) :: k in m' && m'[k] == m[k]
    ensures Kept(m, m', Live(cs) - {b})
  {
    var i :| 0 <= i < |cs| && cs[i] == b;
    forall c | c in Live(cs) - {b} ensures SameBytes(m, c.addr + ITEM, m', c.addr + ITEM, c.size) {
      var j :| 0 <= j < |cs| && cs[j] == c;
      assert j < i ==> c.End() <= b.addr;
      assert j > i ==> b.End() <= c.addr;
    }
  }

  lemma {:induction false} KeptSub(m: Memory, m': Memory, live: set<Cell>, more: set<Cell>)
    requires Kept(m, m', more) && live <= more
    ensures Kept(m, m', live)
  {
  }

  lemma {:induction false} KeptAt(m: Memory, m': Memory, live: set<Cell>, b: Cell)
    requires Kept(m, m', live) && b in live
    ensures SameBytes(m, b.addr + ITEM, m', b.addr + ITEM, b.size)
  {
  }
}
