/** The small-memory heap of mem.c: a first-fit allocator over one arena. */
module SmallMem {
  import opened HeapLayout
  import opened HeapStore

  /** The size rt_malloc searches for: aligned, and at least MIN_SIZE_ALIGNED. */
  function Request(size: int): int
    requires 0 <= size < WORD_LIMIT
  {
    if AlignUp(size) < MIN_PAYLOAD then MIN_PAYLOAD else AlignUp(size)
  }

  /** The block rt_malloc(size) takes from layout bs, or |bs| when it returns RT_NULL. */
  function MallocFit(bs: seq<Block>, memSize: int, size: int): nat
    requires 0 <= size < WORD_LIMIT
  {
    if size == 0 || AlignUp(size) > memSize then |bs| else FirstFit(bs, memSize, Request(size))
  }

  /** The bound of the search, mem_size_aligned - size in 32 bits, is the difference for the requests
      that reach it exactly when the heap has room for one minimal payload: in a smaller heap it wraps,
      and the search would not stop at the end. */
  lemma {:induction false} BoundWraps(memSize: int, size: int)
    requires 0 <= memSize < WORD_LIMIT && memSize % ALIGN_SIZE == 0 && 0 < size < WORD_LIMIT && 0 < AlignUp(size) <= memSize
    ensures (memSize - Request(size)) % WORD_LIMIT == memSize - Request(size) <==> memSize >= MIN_PAYLOAD
  {
  }

  /* ---------- what a request gets, in terms of the size asked for ---------- */

  /** Sizes in the last three bytes below 2^32 wrap to 0 when they are aligned. */
  predicate Wraps(size: int) { size > WORD_LIMIT - ALIGN_SIZE }

  /** A payload size that does for a request. */
  predicate Enough(n: int, size: int) {
    n % ALIGN_SIZE == 0 && n >= MIN_PAYLOAD && (Wraps(size) || n >= size)
  }

  /** The least such size. */
  ghost predicate LeastPayload(n: int, size: int) {
    Enough(n, size) && forall m | Enough(m, size) :: n <= m
  }

  lemma {:induction false} RequestIsLeast(size: int)
    requires 0 <= size < WORD_LIMIT
    ensures LeastPayload(Request(size), size)
  {
  }

  lemma {:induction false} OneLeast(n: int, m: int, size: int)
    requires LeastPayload(n, size) && LeastPayload(m, size)
    ensures n == m
  {
  }

  /** A block rt_malloc takes for this size: free and large enough, and not an exact fit at the end of
      the heap. */
  predicate Serves(b: Block, memSize: int, size: int) {
    && !b.used && b.Payload() >= MIN_PAYLOAD && (Wraps(size) || b.Payload() >= size)
    && !(b.next == EndOff(memSize) && (b.Payload() == MIN_PAYLOAD || (!Wraps(size) && b.Payload() < size + ALIGN_SIZE)))
  }

  lemma {:induction false} ServesIff(bs: seq<Block>, memSize: int, size: int, b: Block)
    requires Tiles(bs, EndOff(memSize)) && b in bs && 0 < size < WORD_LIMIT
    ensures Serves(b, memSize, size) <==> AlignUp(size) <= memSize && Eligible(b, memSize, Request(size))
  {
    var k :| 0 <= k < |bs| && bs[k] == b;
    assert k < |bs| - 1 ==> bs[k].next <= bs[|bs| - 1].off && bs[k].next == bs[k + 1].off;
    assert k > 0 ==> bs[0].next <= bs[k].off;
    assert b.next <= EndOff(memSize) && b.next % ALIGN_SIZE == 0 && 0 <= b.off && b.Sound();
    ServesFit(b, memSize, size);
  }

  lemma {:induction false} ServesFit(b: Block, memSize: int, size: int)
    requires b.Sound() && 0 <= b.off && b.next <= EndOff(memSize) && b.next % ALIGN_SIZE == 0
    requires 0 < size < WORD_LIMIT && memSize % ALIGN_SIZE == 0
    ensures Serves(b, memSize, size) <==> AlignUp(size) <= memSize && Eligible(b, memSize, Request(size))
  {
    hide AlignUp;
    var n, p := Request(size), b.Payload();
    assert p % ALIGN_SIZE == 0;
    if Wraps(size) {
      assert n == MIN_PAYLOAD;
    } else {
      Multiples(p, AlignUp(size), size);
      assert p >= n <==> p >= MIN_PAYLOAD && p >= size;
    }
  }

  /** Between multiples of 4 a size and the next multiple make the same cut. */
  lemma {:induction false} Multiples(p: int, n: int, size: int)
    requires p % ALIGN_SIZE == 0 && n % ALIGN_SIZE == 0 && size <= n < size + ALIGN_SIZE
    ensures p >= n <==> p >= size
    ensures p == n <==> size <= p < size + ALIGN_SIZE
  {
  }

  /** rt_malloc finds a block exactly when the size is not 0 and some block serves it, and it takes the
      first one in address order. */
  lemma {:induction false} MallocFinds(bs: seq<Block>, memSize: int, size: int)
    requires WellFormed(bs, memSize) && memSize % ALIGN_SIZE == 0 && 0 <= size < WORD_LIMIT
    ensures var f := MallocFit(bs, memSize, size);
      && (f < |bs| <==> size != 0 && exists b :: b in bs && Serves(b, memSize, size))
      && (f < |bs| ==> Serves(bs[f], memSize, size) && forall j | 0 <= j < f :: !Serves(bs[j], memSize, size))
  {
    hide Serves, Eligible, Tiles, NoTwoFree, AlignUp;
    if size != 0 {
      forall b | b in bs
        ensures Serves(b, memSize, size) <==> AlignUp(size) <= memSize && Eligible(b, memSize, Request(size))
      {
        ServesIff(bs, memSize, size, b);
      }
      FirstFitFacts(bs, memSize, Request(size));
      var f := FirstFit(bs, memSize, Request(size));
      assert f < |bs| ==> bs[f] in bs;
    }
  }

  lemma {:induction false} FirstUnused(bs: seq<Block>, memSize: int, size: int)
    requires 0 <= size < WORD_LIMIT && MallocFit(bs, memSize, size) < |bs|
    ensures !bs[MallocFit(bs, memSize, size)].used
  {
  }

  /** What rt_malloc hands out: a block where free block f was, with at least as many bytes as were
      asked for, unless the size wraps.  The block is cut to the least possible payload when the rest
      can hold a block, and is handed out whole when it cannot. */
  lemma {:induction false} MallocGives(bs: seq<Block>, memSize: int, size: int)
    requires WellFormed(bs, memSize) && 0 <= memSize < WORD_LIMIT - 2 * HEADER && 0 <= size < WORD_LIMIT
    requires MallocFit(bs, memSize, size) < |bs|
    ensures var f := MallocFit(bs, memSize, size);
      var r := Carve(bs, f, Request(size));
      && f < |r| && r[f].off == bs[f].off && r[f].used && Live(r) == Live(bs) + {r[f]}
      && (r[f].Payload() >= size <==> !Wraps(size))
      && (forall n | LeastPayload(n, size) ::
            if bs[f].Payload() >= n + HEADER + MIN_PAYLOAD then r[f].Payload() == n else r[f] == bs[f].(used := true))
  {
    hide Tiles, NoTwoFree, UsedExtent, LeastPayload, MallocFit, Request, Live;
    var f := MallocFit(bs, memSize, size);
    MallocFitFacts(bs, memSize, size);
    CarveFacts(bs, memSize, f, Request(size));
    RequestIsLeast(size);
    forall n | LeastPayload(n, size) ensures n == Request(size) {
      OneLeast(n, Request(size), size);
    }
    BlockInside(bs, memSize, f);
    EnoughIff(Request(size), size);
  }

  lemma {:induction false} EnoughIff(n: int, size: int)
    requires LeastPayload(n, size) && 0 <= size
    ensures n >= size || Wraps(size)
    ensures n >= MIN_PAYLOAD
  {
    hide Wraps;
  }

  lemma {:induction false} BlockInside(bs: seq<Block>, memSize: int, i: nat)
    requires Tiles(bs, EndOff(memSize)) && i < |bs|
    ensures 0 <= bs[i].off && bs[i].next <= EndOff(memSize) && bs[i].Payload() <= memSize
  {
    assert i < |bs| - 1 ==> bs[i].next <= bs[|bs| - 1].off;
    assert i > 0 ==> bs[0].next <= bs[i].off;
  }

  /** The layout after rt_realloc moved the block at offset `off` into block f. */
  ghost function Moved(bs: seq<Block>, f: nat, size: int, off: int): seq<Block>
    requires f < |bs|
  {
    var c := Carve(bs, f, size);
    var j := IndexOf(c, off);
    if j < |c| then Release(c, j) else c
  }

  function Min(a: int, b: int): int { if a < b then a else b }

  function Copied(h: seq<int>, dst: int, src: int, n: int): (r: seq<int>)
    requires 0 <= n && 0 <= dst && dst + n <= |h| && 0 <= src && src + n <= |h|
    ensures |r| == |h|
    ensures forall k | dst <= k < dst + n :: r[k] == h[src + (k - dst)]
    ensures OnlyAt(h, r, dst, n)
  {
    seq(|h|, k requires 0 <= k < |h| => if dst <= k < dst + n then h[src + (k - dst)] else h[k])
  }

  lemma {:induction false} CopiedStep(h: seq<int>, dst: int, src: int, n: int)
    requires 0 <= n && 0 <= dst && dst + n < |h| && 0 <= src && src + n < |h| && !(dst <= src + n < dst + n)
    ensures var c := Copied(h, dst, src, n); c[dst + n := c[src + n]] == Copied(h, dst, src, n + 1)
  {
  }

  /** The moving branch of rt_realloc on layouts: block i of bs survives the allocation of block f,
      is found again at j, and once it is released the live blocks are those of bs with block i
      replaced by the new block. */
  lemma {:induction false} MoveFacts(bs: seq<Block>, memSize: int, f: nat, size: int, i: nat)
    requires WellFormed(bs, memSize) && f < |bs| && i < |bs| && bs[i].used && !bs[f].used
    requires size >= 0 && size % ALIGN_SIZE == 0 && bs[f].Payload() >= size
    ensures var c := Carve(bs, f, size); var j := IndexOf(c, bs[i].off);
      && bs[i] in Live(bs) && f < |c| && c[f].used && c[f].off == bs[f].off && c[f].Payload() >= size
      && j < |c| && c[j] == bs[i] && j != f
      && Moved(bs, f, size, bs[i].off) == Release(c, j)
      && Live(Release(c, j)) == Live(bs) - {bs[i]} + {c[f]} && c[f] !in Live(bs)
  {
    hide Tiles, NoTwoFree, Carve, Release, UsedExtent, IndexOf;
    var c := Carve(bs, f, size);
    CarveFacts(bs, memSize, f, size);
    CarvedNotLive(bs, EndOff(memSize), f, c[f]);
    IndexOfLive(c, EndOff(memSize), bs[i]);
    ReleaseFacts(c, memSize, IndexOf(c, bs[i].off));
  }

  lemma {:induction false} CarvedNotLive(bs: seq<Block>, end: int, f: nat, b: Block)
    requires Tiles(bs, end) && f < |bs| && !bs[f].used && b.off == bs[f].off
    ensures b !in Live(bs)
  {
    Ascending(bs, end);
  }

  /** Reading a copied payload back through a relation that kept it. */
  lemma {:induction false} CopyArrives(h: seq<int>, h': seq<int>, b: Block, src: int, n: int, live: set<Block>)
    requires 0 <= n <= b.Payload() && 0 <= b.off && b.next <= |h| && 0 <= src && src + n <= |h|
    requires b in live && Kept(Copied(h, b.off + HEADER, src, n), h', live)
    ensures h'[b.off + HEADER..b.off + HEADER + n] == h[src..src + n]
  {
    assert forall k | b.off + HEADER <= k < b.off + HEADER + n :: b.Holds(k);
  }

  lemma {:induction false} AlignedRequest(n: int)
    requires 0 < n < WORD_LIMIT && n % ALIGN_SIZE == 0
    ensures AlignUp(n) == n && Request(n) >= n && Request(n) % ALIGN_SIZE == 0
  {
  }

  lemma {:induction false} MallocFitFacts(bs: seq<Block>, memSize: int, size: int)
    requires 0 <= size < WORD_LIMIT
    ensures var f := MallocFit(bs, memSize, size);
      && f <= |bs|
      && (f < |bs| ==> !bs[f].used && bs[f].Payload() >= Request(size) && Request(size) >= 0 && Request(size) % ALIGN_SIZE == 0)
  {
  }

  lemma {:induction false} KeptAt(h: seq<int>, h': seq<int>, live: set<Block>, b: Block)
    requires Kept(h, h', live) && b in live && 0 <= b.off && b.off + HEADER <= b.next <= |h|
    ensures |h| == |h'| && h'[b.off + HEADER..b.next] == h[b.off + HEADER..b.next]
  {
    assert forall k | b.off + HEADER <= k < b.next :: b.Holds(k);
  }

  lemma {:induction false} SamePrefix(h: seq<int>, h': seq<int>, lo: int, hi: int, n: int)
    requires 0 <= lo && 0 <= n && lo + n <= hi <= |h| && |h| == |h'| && h'[lo..hi] == h[lo..hi]
    ensures h'[lo..lo + n] == h[lo..lo + n]
  {
    assert h[lo..hi][..n] == h[lo..lo + n] && h'[lo..hi][..n] == h'[lo..lo + n];
  }

  /** What the three steps of the moving branch add up to for the bytes. */
  lemma {:induction false} MovedBytes(h0: seq<int>, h1: seq<int>, h2: seq<int>, bs: seq<Block>, live2: set<Block>,
                                      b: Block, c: Block, n: int)
    requires |h0| == |h1| && 0 <= n <= b.Payload() && n <= c.Payload()
    requires 0 <= b.off && b.next <= |h0| && 0 <= c.off && c.next <= |h0|
    requires b in Live(bs) && Kept(h0, h1, Live(bs)) && live2 == Live(bs) - {b} + {c} && c !in Live(bs)
    requires Kept(h1, h2, live2 - {c})
    requires Kept(Copied(h1, c.off + HEADER, b.off + HEADER, n), h2, live2)
    ensures Kept(h0, h2, Live(bs) - {b})
    ensures |h2| == |h0| && Bytes(h2, c.off + HEADER, n) == Bytes(h0, b.off + HEADER, n)
  {
    hide Kept, Live, Copied;
    assert live2 - {c} == Live(bs) - {b};
    CopyArrives(h1, h2, c, b.off + HEADER, n, live2);
    KeptSub(h0, h1, Live(bs) - {b}, Live(bs));
    KeptTrans(h0, h1, h2, Live(bs) - {b});
    KeptAt(h0, h1, Live(bs), b);
    SamePrefix(h0, h1, b.off + HEADER, b.next, n);
    KeptSize(h1, h2, live2 - {c});
  }

  /** The n bytes from lo on are, in the other arena, those from lo' on. */
  ghost predicate SameStart(h: seq<int>, lo: int, h': seq<int>, lo': int, n: int) {
    && 0 <= n && 0 <= lo && lo + n <= |h| && 0 <= lo' && lo' + n <= |h'|
    && h'[lo'..lo' + n] == h[lo..lo + n]
  }

  lemma {:induction false} SameSelf(h: seq<int>, lo: int, n: int)
    requires 0 <= n && 0 <= lo && lo + n <= |h|
    ensures SameStart(h, lo, h, lo, n)
  {
  }

  lemma {:induction false} KeptStart(h: seq<int>, h': seq<int>, live: set<Block>, b: Block, n: int)
    requires Kept(h, h', live) && b in live && 0 <= n <= b.Payload() && 0 <= b.off && b.next <= |h|
    ensures SameStart(h, b.off + HEADER, h', b.off + HEADER, n)
  {
    assert forall k | b.off + HEADER <= k < b.next :: b.Holds(k);
  }

  lemma {:induction false} CutBytes(h: seq<int>, lo: int, h': seq<int>, lo': int, n: int, few: int)
    requires 0 <= few <= n && 0 <= lo && lo + n <= |h| && 0 <= lo' && lo' + n <= |h'|
    requires Bytes(h', lo', n) == Bytes(h, lo, n)
    ensures SameStart(h, lo, h', lo', few)
  {
    assert h'[lo'..lo' + few] == Bytes(h', lo', n)[..few] && h[lo..lo + few] == Bytes(h, lo, n)[..few];
  }

  lemma {:induction false} InLive(bs: seq<Block>, i: nat)
    requires i < |bs| && bs[i].used
    ensures bs[i] in Live(bs)
  {
  }

  lemma {:induction false} KeptSize(h: seq<int>, h': seq<int>, live: set<Block>)
    requires Kept(h, h', live)
    ensures |h| == |h'|
  {
  }

  /** What rt_malloc does, in terms of the size asked for: RT_NULL when the size is 0 or no block serves
      it, else the address of a new live block that holds the size unless that wraps. */
  ghost predicate Served(bs: seq<Block>, after: seq<Block>, base: int, memSize: int, size: int, p: int) {
    if size == 0 || forall b | b in bs :: !Serves(b, memSize, size) then p == 0 && after == bs
    else exists c :: Obtained(bs, after, base, c, size, p)
  }

  ghost predicate Obtained(bs: seq<Block>, after: seq<Block>, base: int, c: Block, size: int, p: int) {
    && c in Live(after) && c !in Live(bs) && Live(after) == Live(bs) + {c}
    && p == base + c.off + HEADER && (c.Payload() >= size <==> !Wraps(size))
  }

  lemma {:induction false} AllocationServes(bs: seq<Block>, base: int, memSize: int, size: int)
    requires WellFormed(bs, memSize) && memSize % ALIGN_SIZE == 0 && 0 <= memSize < WORD_LIMIT - 2 * HEADER
    requires 0 <= size < WORD_LIMIT && base > 0
    ensures var f := MallocFit(bs, memSize, size);
      if f < |bs| then Served(bs, Carve(bs, f, Request(size)), base, memSize, size, base + bs[f].off + HEADER)
      else Served(bs, bs, base, memSize, size, 0)
  {
    hide Tiles, NoTwoFree, UsedExtent, MallocFit, Serves, Carve, Request, LeastPayload, Live;
    MallocFinds(bs, memSize, size);
    var f := MallocFit(bs, memSize, size);
    if f < |bs| {
      MallocGives(bs, memSize, size);
      var r := Carve(bs, f, Request(size));
      FirstUnused(bs, memSize, size);
      CarvedNotLive(bs, EndOff(memSize), f, r[f]);
      assert Obtained(bs, r, base, r[f], size, base + bs[f].off + HEADER);
      assert bs[f] in bs;
    }
  }

  lemma {:induction false} PlacedInside(bs: seq<Block>, memSize: int, f: nat)
    requires Tiles(bs, EndOff(memSize))
    ensures f < |bs| ==> bs[f].off >= 0
  {
    if f < |bs| {
      BlockInside(bs, memSize, f);
    }
  }

  /** What a caller of rt_realloc gets for block b and a positive size: the address of a live block that
      holds the size and starts with the bytes of b. */
  ghost predicate Regained(h: seq<int>, h': seq<int>, after: seq<Block>, base: int, b: Block, newsize: int, p: int) {
    exists c :: Holding(h, h', after, base, b, c, newsize, p)
  }

  ghost predicate Holding(h: seq<int>, h': seq<int>, after: seq<Block>, base: int, b: Block, c: Block, newsize: int, p: int) {
    && c in Live(after) && p == base + c.off + HEADER && c.Payload() >= newsize
    && SameStart(h, b.off + HEADER, h', c.off + HEADER, Min(b.Payload(), newsize))
  }

  lemma {:induction false} StaysHolding(h: seq<int>, bs: seq<Block>, memSize: int, base: int, i: nat, newsize: int)
    requires Tiles(bs, EndOff(memSize)) && i < |bs| && bs[i].used && |h| == EndOff(memSize) + HEADER
    requires 0 < newsize < WORD_LIMIT && !Wraps(newsize) && bs[i].Payload() == AlignUp(newsize)
    ensures Regained(h, h, bs, base, bs[i], newsize, base + bs[i].off + HEADER)
  {
    hide Tiles, Live, AlignUp, SameStart;
    InLive(bs, i);
    InRange(bs, EndOff(memSize), i);
    SameSelf(h, bs[i].off + HEADER, newsize);
    assert Holding(h, h, bs, base, bs[i], bs[i], newsize, base + bs[i].off + HEADER);
  }

  lemma {:induction false} ShrunkHolding(h: seq<int>, h': seq<int>, bs: seq<Block>, memSize: int, base: int, i: nat, newsize: int)
    requires WellFormed(bs, memSize) && i < |bs| && bs[i].used && |h| == EndOff(memSize) + HEADER
    requires 0 < newsize < WORD_LIMIT && !Wraps(newsize) && bs[i].Payload() >= AlignUp(newsize) + HEADER
    requires Kept(h, h', Live(Shrink(bs, i, AlignUp(newsize))))
    ensures Regained(h, h', Shrink(bs, i, AlignUp(newsize)), base, bs[i], newsize, base + bs[i].off + HEADER)
  {
    hide Tiles, NoTwoFree, UsedExtent, Live, AlignUp, Kept, Shrink, SameStart;
    var b, n := bs[i], AlignUp(newsize);
    InRange(bs, EndOff(memSize), i);
    ShrinkFacts(bs, memSize, i, n);
    var c := Block(b.off, b.off + HEADER + n, true);
    KeptStart(h, h', Live(Shrink(bs, i, n)), c, newsize);
    assert Holding(h, h', Shrink(bs, i, n), base, b, c, newsize, base + b.off + HEADER);
  }

  lemma {:induction false} MovedHolding(h: seq<int>, h': seq<int>, bs: seq<Block>, memSize: int, base: int, i: nat, f: nat, newsize: int)
    requires WellFormed(bs, memSize) && i < |bs| && bs[i].used && |h| == |h'| == EndOff(memSize) + HEADER
    requires 0 < newsize < WORD_LIMIT && !Wraps(newsize) && f < |bs| && f == MallocFit(bs, memSize, AlignUp(newsize))
    requires var m := Min(bs[i].Payload(), AlignUp(newsize));
      && bs[i].off + HEADER + m <= |h| && 0 <= bs[f].off && bs[f].off + HEADER + m <= |h|
      && 0 <= m && 0 <= bs[i].off && Bytes(h', bs[f].off + HEADER, m) == Bytes(h, bs[i].off + HEADER, m)
    ensures Regained(h, h', Moved(bs, f, Request(AlignUp(newsize)), bs[i].off), base, bs[i], newsize, base + bs[f].off + HEADER)
  {
    hide Tiles, NoTwoFree, UsedExtent, Live, AlignUp, Carve, Release, IndexOf, MallocFit, Moved, SameStart, Request;
    var b, n := bs[i], AlignUp(newsize);
    InRange(bs, EndOff(memSize), i);
    AlignedRequest(n);
    MallocFitFacts(bs, memSize, n);
    MoveFacts(bs, memSize, f, Request(n), i);
    var c := Carve(bs, f, Request(n))[f];
    CutBytes(h, b.off + HEADER, h', c.off + HEADER, Min(b.Payload(), n), Min(b.Payload(), newsize));
    assert Holding(h, h', Moved(bs, f, Request(n), b.off), base, b, c, newsize, base + bs[f].off + HEADER);
  }

  class SmallHeap {
    const heapPtr: int          // address of the arena
    const memSize: int          // mem_size_aligned
    const heap: array<int>      // the arena; a cell per byte, see HeapStore
    var lfree: int              // offset of the lowest free block
    var usedMem: int
    var maxMem: int
    ghost var blocks: seq<Block>

    ghost predicate Sized()
      reads this
    {
      && memSize >= MIN_PAYLOAD && memSize % ALIGN_SIZE == 0
      && heapPtr > 0 && heapPtr % ALIGN_SIZE == 0 && heapPtr + EndOff(memSize) + HEADER <= WORD_LIMIT
      && heap.Length == EndOff(memSize) + HEADER
    }

    /** The part of the invariant that holds even while plug_holes is at work. */
    ghost predicate Sane()
      reads this, heap
    {
      && Sized()
      && Tiles(blocks, EndOff(memSize))
      && Stored(heap[..], blocks, EndOff(memSize))
      && lfree == LowestFree(blocks, EndOff(memSize))
    }

    ghost predicate Valid()
      reads this, heap
    {
      && Sane() && NoTwoFree(blocks)
      && usedMem == UsedExtent(blocks) && maxMem >= usedMem
    }

    /** The address rt_malloc returns for block b. */
    function Pointer(b: Block): int
      reads this
    {
      heapPtr + b.off + HEADER
    }

    method Store(o: int, width: int, v: int)
      requires 0 <= o && width in {2, 4} && o + width <= heap.Length
      modifies heap
      ensures heap[..] == Put(old(heap[..]), o, width, v)
    {
      heap[o] := v;
      heap[o + 1] := 0;
      if width == 4 {
        heap[o + 2], heap[o + 3] := 0, 0;
      }
    }

    method SetUsedFlag(off: int, used: bool)
      requires 0 <= off && off + HEADER <= heap.Length
      modifies heap
      ensures heap[..] == PutUsed(old(heap[..]), off, used)
    {
      Store(off + USED, 2, if used then 1 else 0);
    }

    method SetNext(off: int, next: int)
      requires 0 <= off && off + HEADER <= heap.Length
      modifies heap
      ensures heap[..] == PutNext(old(heap[..]), off, next)
    {
      Store(off + NEXT, 4, next);
    }

    method SetPrev(off: int, prev: int)
      requires 0 <= off && off + HEADER <= heap.Length
      modifies heap
      ensures heap[..] == PutPrev(old(heap[..]), off, prev)
    {
      Store(off + PREV, 4, prev);
    }

    method WriteHeader(off: int, used: bool, next: int, prev: int)
      requires 0 <= off && off + HEADER <= heap.Length
      modifies heap
      ensures heap[..] == PutHeader(old(heap[..]), off, used, next, prev)
    {
      hide Put;
      Store(off, 2, HEAP_MAGIC);
      Store(off + USED, 2, if used then 1 else 0);
      Store(off + NEXT, 4, next);
      Store(off + PREV, 4, prev);
    }

    /** What the header of block i reads as. */
    lemma {:induction false} HeaderAt(i: nat)
      requires Sized() && Tiles(blocks, EndOff(memSize)) && Stored(heap[..], blocks, EndOff(memSize)) && i < |blocks|
      ensures var b := blocks[i];
        && 0 <= b.off && b.off + HEADER <= b.next <= EndOff(memSize) && b.off % ALIGN_SIZE == 0
        && heap[b.off + USED] == (if b.used then 1 else 0)
        && heap[b.off + NEXT] == b.next && heap[b.off + PREV] == PrevOff(blocks, i)
        && (b.next == EndOff(memSize) <==> i + 1 == |blocks|)
        && (i + 1 < |blocks| ==> b.next == blocks[i + 1].off)
        && blocks[0].off == 0
      ensures var end := EndOff(memSize); heap[end + USED] == 1 && heap[end + NEXT] == end
    {
      hide Tiles;
      assert Header(heap[..], blocks[i], PrevOff(blocks, i));
      InRange(blocks, EndOff(memSize), i);
    }

    /** One merge of plug_holes: free block i, at lo, swallows its free successor, at hi. */
    method Merge(lo: int, hi: int, ghost i: nat)
      requires Sane() && i + 1 < |blocks| && blocks[i].off == lo && blocks[i + 1].off == hi
      requires !blocks[i].used && !blocks[i + 1].used
      modifies heap, `lfree, `blocks
      ensures Sane() && blocks == Absorb(old(blocks), i)
      ensures Kept(old(heap[..]), heap[..], Live(old(blocks))) && Live(blocks) == Live(old(blocks))
      ensures UsedExtent(blocks) == UsedExtent(old(blocks))
    {
      hide Tiles, Stored, Kept, Live, LowestFree, UsedExtent, Absorb, PutPrev, PutNext;
      ghost var end := EndOff(memSize);
      HeaderAt(i);
      HeaderAt(i + 1);
      PutAbsorbStored(heap[..], blocks, end, i);
      AbsorbFacts(blocks, i, end);
      LowestNotSecond(blocks, end, i);
      lfree := if lfree == hi then lo else lfree;
      var next := heap[hi + NEXT];
      SetNext(lo, next);
      SetPrev(next, lo);
      blocks := Absorb(blocks, i);
    }

    /** The part of Valid() that callers of the operations reason with. */
    lemma {:induction false} Shape()
      requires Valid()
      ensures WellFormed(blocks, memSize) && heapPtr > 0 && heap.Length == EndOff(memSize) + HEADER
    {
      hide Tiles, Stored, NoTwoFree, LowestFree, UsedExtent;
    }

    lemma {:induction false} ValidIsSane()
      requires Valid()
      ensures Sane()
    {
      hide Tiles, Stored, NoTwoFree, LowestFree, UsedExtent;
    }

    /** plug_holes: block i is free; merge it with its free neighbours. */
    method PlugHoles(mem: int, ghost i: nat)
      requires Sane() && i < |blocks| && blocks[i].off == mem && !blocks[i].used
      modifies heap, `lfree, `blocks
      ensures Sane() && blocks == Plug(old(blocks), i)
      ensures Kept(old(heap[..]), heap[..], Live(old(blocks))) && Live(blocks) == Live(old(blocks))
      ensures UsedExtent(blocks) == UsedExtent(old(blocks))
    {
      hide Tiles, Stored, Kept, Live, LowestFree, UsedExtent, Absorb;
      ghost var h0, bs := heap[..], blocks;
      HeaderAt(i);
      var nmem := heap[mem + NEXT];
      if i + 1 < |blocks| { HeaderAt(i + 1); }
      KeptRefl(h0, Live(bs));
      if mem != nmem && heap[nmem + USED] == 0 && nmem != EndOff(memSize) {
        Merge(mem, nmem, i);
        AbsorbIs(bs, i);
      }
      assert blocks == PlugForward(bs, i);
      ghost var h1 := heap[..];
      HeaderAt(i);
      var pmem := heap[mem + PREV];
      if i > 0 { HeaderAt(i - 1); }
      if pmem != mem && heap[pmem + USED] == 0 {
        Merge(pmem, mem, i - 1);
        KeptTrans(h0, h1, heap[..], Live(bs));
      }
    }

    /** The search loop of rt_malloc, from the lowest free block on. */
    method Search(size: int) returns (ptr: int, ghost i: nat)
      requires Sane() && 0 <= size <= memSize
      ensures FirstFit(blocks, memSize, size) < |blocks| ==> ptr == blocks[FirstFit(blocks, memSize, size)].off
      ensures FirstFit(blocks, memSize, size) == |blocks| <==> ptr >= memSize - size
      ensures i == FirstFit(blocks, memSize, size)
    {
      hide Tiles, Stored, LowestFree, FirstFit;
      i := LowestIndex(blocks, EndOff(memSize));
      ptr := lfree;
      while ptr < memSize - size
        invariant 0 <= i <= |blocks|
        invariant ptr == if i < |blocks| then blocks[i].off else EndOff(memSize)
        invariant forall j | 0 <= j < i :: !Eligible(blocks[j], memSize, size)
        decreases |blocks| - i
      {
        HeaderAt(i);
        if heap[ptr + USED] == 0 && heap[ptr + NEXT] - (ptr + HEADER) >= size {
          FirstFitIs(blocks, memSize, size, i);
          return;
        }
        ptr := heap[ptr + NEXT];
        i := i + 1;
      }
      ghost var k := i;
      i := |blocks|;
      forall j | 0 <= j < i ensures !Eligible(blocks[j], memSize, size) {
        if j >= k { OffsAscend(blocks, EndOff(memSize), k, j); }
      }
      FirstFitIs(blocks, memSize, size, i);
    }

    /** The walk in rt_malloc that moves the lowest-free cursor past used blocks. */
    method AdvanceLowest(ghost start: nat)
      requires Sized() && Tiles(blocks, EndOff(memSize)) && Stored(heap[..], blocks, EndOff(memSize))
      requires start < |blocks| && lfree == blocks[start].off && forall j | 0 <= j < start :: blocks[j].used
      modifies `lfree
      ensures Sane()
    {
      hide Tiles, Stored, LowestFree;
      ghost var i := start;
      HeaderAt(i);
      while heap[lfree + USED] == 1 && lfree != EndOff(memSize)
        invariant 0 <= i <= |blocks| && 0 <= lfree && lfree + HEADER <= heap.Length
        invariant lfree == if i < |blocks| then blocks[i].off else EndOff(memSize)
        invariant forall j | 0 <= j < i :: blocks[j].used
        decreases |blocks| - i
      {
        HeaderAt(i);
        lfree := heap[lfree + NEXT];
        i := i + 1;
        if i < |blocks| { HeaderAt(i); }
      }
      if i < |blocks| { HeaderAt(i); }
      LowestIff(blocks, EndOff(memSize));
      assert IsLowest(blocks, EndOff(memSize), lfree);
    }

    /** The stores of a split (rt_malloc, and rt_realloc where the block is used already). */
    method SplitBlock(ptr: int, size: int, mark: bool, ghost i: nat)
      requires Sane() && i < |blocks| && blocks[i].off == ptr && (mark || blocks[i].used)
      requires 0 <= size && size % ALIGN_SIZE == 0 && blocks[i].Payload() >= size + HEADER
      modifies heap, `blocks
      ensures blocks == Split(old(blocks), i, size)
      ensures Tiles(blocks, EndOff(memSize)) && Stored(heap[..], blocks, EndOff(memSize))
      ensures Kept(old(heap[..]), heap[..], Live(blocks))
    {
      hide Tiles, Stored, Kept, Live, LowestFree, PutPrev, PutNext, PutUsed, PutHeader;
      HeaderAt(i);
      var next := heap[ptr + NEXT];
      PutSplitStored(heap[..], blocks, EndOff(memSize), i, size, mark);
      SplitTiles(blocks, i, size, EndOff(memSize));
      var ptr2 := ptr + HEADER + size;
      WriteHeader(ptr2, false, next, ptr);
      SetNext(ptr, ptr2);
      if mark {
        SetUsedFlag(ptr, true);
      }
      if next != memSize + HEADER {
        SetPrev(next, ptr2);
      }
      blocks := Split(blocks, i, size);
    }

    /** What rt_malloc does with the block it found. */
    method TakeBlock(ptr: int, size: int, ghost i: nat)
      requires Valid() && i < |blocks| && blocks[i].off == ptr && !blocks[i].used
      requires 0 <= size && size % ALIGN_SIZE == 0 && blocks[i].Payload() >= size
      modifies this, heap
      ensures Valid() && blocks == Carve(old(blocks), i, size)
      ensures Kept(old(heap[..]), heap[..], Live(old(blocks)))
      ensures maxMem == if old(maxMem) < usedMem then usedMem else old(maxMem)
    {
      hide Tiles, Stored, Kept, Live, LowestFree, UsedExtent, Split, SetUsed, PutUsed, NoTwoFree;
      ghost var bs := blocks;
      ghost var end := EndOff(memSize);
      HeaderAt(i);
      CarveFacts(bs, memSize, i, size);
      var next := heap[ptr + NEXT];
      if next - (ptr + HEADER) >= size + HEADER + MIN_PAYLOAD {
        SplitIs(bs, i, size);
        SplitBlock(ptr, size, true, i);
        KeptSub(old(heap[..]), heap[..], Live(bs), Live(blocks));
        usedMem := usedMem + (size + HEADER);
      } else {
        PutUsedStored(heap[..], bs, end, i, true);
        SetUsedIs(bs, i, true);
        SetUsedFlag(ptr, true);
        blocks := SetUsed(bs, i, true);
        usedMem := usedMem + (next - ptr);
      }
      if maxMem < usedMem {
        maxMem := usedMem;
      }
      if ptr == lfree {
        LowestSoFar(bs, end, i);
        AdvanceLowest(i);
      } else {
        LowestAfterCarve(bs, end, i, size);
      }
    }

    ghost predicate InArena(rmem: int)
      reads this
    {
      heapPtr <= rmem < heapPtr + EndOff(memSize)
    }

    /** The block at a caller's address. */
    ghost function BlockOf(rmem: int): nat
      reads this
    {
      IndexOf(blocks, rmem - heapPtr - HEADER)
    }

    /** What callers owe: a pointer into the arena came from this heap and is still allocated. */
    ghost predicate Owned(rmem: int)
      reads this
    {
      InArena(rmem) ==> BlockOf(rmem) < |blocks| && blocks[BlockOf(rmem)].used
    }

    /** Which branch rt_realloc takes for an owned block with `size` payload bytes. */
    static predicate ShrinksInPlace(size: int, newsize: int) {
      newsize + HEADER + MIN_SIZE < size
    }

    /** Nothing at all happened since the old state. */
    twostate predicate Untouched()
      reads this, heap
    {
      unchanged(this) && heap[..] == old(heap[..])
    }

    /** What rt_malloc(size) does, returning p. */
    twostate predicate Allocated(size: int, p: int)
      requires 0 <= size < WORD_LIMIT
      reads this, heap
    {
      var bs := old(blocks);
      var f := MallocFit(bs, memSize, size);
      if f == |bs| then p == 0 && Untouched()
      else
        && f < |bs| && p == Pointer(bs[f]) && blocks == Carve(bs, f, Request(size))
        && Kept(old(heap[..]), heap[..], Live(bs))
        && maxMem == (if old(maxMem) < usedMem then usedMem else old(maxMem))
    }

    /** What rt_free(rmem) does. */
    twostate predicate Freed(rmem: int)
      reads this, heap
    {
      if InArena(rmem) then
        && old(BlockOf(rmem)) < |old(blocks)|
        && blocks == Release(old(blocks), old(BlockOf(rmem)))
        && Kept(old(heap[..]), heap[..], Live(blocks)) && maxMem == old(maxMem)
      else Untouched()
    }

    /** The block at ptr moved, n payload bytes wanted, returning p: a new block is allocated and
        takes over the bytes, the old one is released; if that fails the old one is as it was. */
    twostate predicate MovedTo(i: nat, n: int, p: int)
      requires i < |old(blocks)| && 0 <= n < WORD_LIMIT
      reads this, heap
    {
      var bs := old(blocks);
      var ptr := bs[i].off;
      var m := Min(bs[i].Payload(), n);
      var f := MallocFit(bs, memSize, n);
      if f == |bs| then p == 0 && Untouched()
      else
        && f < |bs| && p == Pointer(bs[f]) && blocks == Moved(bs, f, Request(n), ptr)
        && Kept(old(heap[..]), heap[..], Live(bs) - {bs[i]})
        && 0 <= m && 0 <= ptr && ptr + HEADER + m <= heap.Length && 0 <= p - heapPtr && p - heapPtr + m <= heap.Length
        && Bytes(heap[..], p - heapPtr, m) == Bytes(old(heap[..]), ptr + HEADER, m)
    }

    /** What rt_realloc does to owned block i for an aligned, non-zero size n. */
    twostate predicate Resized(i: nat, n: int, p: int)
      requires i < |old(blocks)| && 0 <= n < WORD_LIMIT
      reads this, heap
    {
      var b := old(blocks)[i];
      if b.Payload() == n then p == Pointer(b) && Untouched()
      else if ShrinksInPlace(b.Payload(), n) then
        // cut where it is; every byte that stays allocated is the same
        p == Pointer(b) && blocks == Shrink(old(blocks), i, n) && Kept(old(heap[..]), heap[..], Live(blocks))
      else MovedTo(i, n, p)
    }

    /** rt_system_heap_init, past its size check. */
    constructor (beginAlign: int, size: int)
      requires beginAlign > 0 && beginAlign % ALIGN_SIZE == 0
      requires size >= 0 && size % ALIGN_SIZE == 0 && beginAlign + EndOff(size) + HEADER <= WORD_LIMIT
      ensures fresh(heap) && heapPtr == beginAlign && memSize == size && (Valid() <==> size >= MIN_PAYLOAD)
      ensures heap.Length == EndOff(size) + HEADER && Stored(heap[..], blocks, EndOff(size))
      ensures blocks == [Block(0, EndOff(size), false)] && maxMem == 0
    {
      hide PutHeader, Stored, Tiles, NoTwoFree, Header, LowestFree, UsedExtent, OnlyAt;
      heapPtr, memSize := beginAlign, size;
      heap := new int[size + HEADER + HEADER];
      usedMem, maxMem := 0, 0;
      lfree := 0;
      blocks := [Block(0, EndOff(size), false)];
      new;
      ghost var h0 := heap[..];
      WriteHeader(0, false, size + HEADER, 0);
      PutHeaderHere(h0, 0, false, size + HEADER, 0);
      ghost var h1 := heap[..];
      WriteHeader(size + HEADER, true, size + HEADER, size + HEADER);
      PutHeaderHere(h1, size + HEADER, true, size + HEADER, size + HEADER);
      HeaderKept(h1, heap[..], size + HEADER, HEADER, blocks[0], 0);
      InitialStored(heap[..], size);
    }

    /** rt_malloc */
    method Allocate(size: int) returns (p: int)
      requires Valid() && 0 <= size < WORD_LIMIT
      modifies this, heap
      ensures Valid()
      ensures Allocated(size, p)
    {
      hide Valid, Tiles, Kept, Live, Carve, NoTwoFree, FirstFit;
      if size == 0 {
        return 0;
      }
      var request := AlignUp(size);
      if request > memSize {
        return 0;
      }
      if request < MIN_PAYLOAD {
        request := MIN_PAYLOAD;
      }
      ValidIsSane();
      Shape();
      var ptr, i := Search(request);
      if ptr < memSize - request {
        FirstFitFacts(blocks, memSize, request);
        TakeBlock(ptr, request, i);
        return heapPtr + ptr + HEADER;
      }
      return 0;
    }

    /** The same, seen by the caller. */
    method Malloc(size: int) returns (p: int)
      requires Valid() && 0 <= size < WORD_LIMIT
      modifies this, heap
      ensures Valid()
      ensures Allocated(size, p)
      ensures Served(old(blocks), blocks, heapPtr, memSize, size, p) && (p == 0 ==> Untouched())
    {
      hide Tiles, Stored, NoTwoFree, LowestFree, UsedExtent, MallocFit, Carve, Request, Kept, Served;
      MallocFitFacts(blocks, memSize, size);
      AllocationServes(blocks, heapPtr, memSize, size);
      ghost var bs := blocks;
      PlacedInside(bs, memSize, MallocFit(bs, memSize, size));
      p := Allocate(size);
    }

    /** The stores of rt_free before plug_holes. */
    method MarkFree(mem: int, ghost i: nat)
      requires Valid() && i < |blocks| && blocks[i].off == mem && blocks[i].used
      modifies heap, `lfree, `usedMem, `blocks
      ensures Sane() && blocks == SetUsed(old(blocks), i, false)
      ensures i < |blocks| && blocks[i] == old(blocks)[i].(used := false)
      ensures Kept(old(heap[..]), heap[..], Live(blocks))
      ensures usedMem == UsedExtent(blocks) && usedMem <= old(usedMem)
    {
      hide Tiles, Stored, Kept, Live, LowestFree, UsedExtent, SetUsed, NoTwoFree, PutUsed;
      ghost var h0, bs := heap[..], blocks;
      ghost var end := EndOff(memSize);
      HeaderAt(i);
      PutUsedStored(h0, bs, end, i, false);
      SetUsedIs(bs, i, false);
      SetUsedFacts(bs, i, false, end);
      LowestAfterFree(bs, end, i);
      SetUsedFlag(mem, false);
      if mem < lfree {
        lfree := mem;
      }
      blocks := SetUsed(bs, i, false);
      HeaderAt(i);
      usedMem := usedMem - (heap[mem + NEXT] - mem);
      KeptSub(h0, heap[..], Live(blocks), Live(bs));
    }

    method FreeBlock(mem: int, ghost i: nat)
      requires Valid() && i < |blocks| && blocks[i].off == mem && blocks[i].used
      modifies heap, `lfree, `usedMem, `blocks
      ensures Valid() && blocks == Release(old(blocks), i)
      ensures Kept(old(heap[..]), heap[..], Live(blocks))
    {
      hide Tiles, Stored, Kept, Live, LowestFree, UsedExtent, SetUsed, Plug, NoTwoFree;
      ghost var h0 := heap[..];
      ReleaseFacts(blocks, memSize, i);
      MarkFree(mem, i);
      ghost var h1 := heap[..];
      PlugHoles(mem, i);
      KeptTrans(h0, h1, heap[..], Live(blocks));
    }

    method Free(rmem: int)
      requires Valid() && Owned(rmem)
      modifies this, heap
      ensures Valid() && Freed(rmem)
    {
      if rmem == 0 || rmem < heapPtr || rmem >= heapPtr + memSize + HEADER {
        return;
      }
      hide Tiles, Stored, Kept, Live, LowestFree, UsedExtent, Release, NoTwoFree, IndexOf;
      FreeBlock(rmem - heapPtr - HEADER, BlockOf(rmem));
    }

    /** The in-place branch of rt_realloc. */
    method ShrinkBlock(ptr: int, newsize: int, ghost i: nat)
      requires Valid() && i < |blocks| && blocks[i].off == ptr && blocks[i].used
      requires 0 <= newsize && newsize % ALIGN_SIZE == 0 && blocks[i].Payload() >= newsize + HEADER
      modifies heap, `lfree, `usedMem, `blocks
      ensures Valid() && blocks == Shrink(old(blocks), i, newsize)
      ensures Kept(old(heap[..]), heap[..], Live(blocks))
    {
      hide Tiles, Stored, Kept, Live, LowestFree, UsedExtent, Split, Plug, NoTwoFree;
      ghost var h0, bs := heap[..], blocks;
      ghost var end := EndOff(memSize);
      HeaderAt(i);
      var size := heap[ptr + NEXT] - ptr - HEADER;
      usedMem := usedMem - (size - newsize);
      LowestAfterCut(bs, end, i, newsize);
      ShrinkFacts(bs, memSize, i, newsize);
      SplitIs(bs, i, newsize);
      SplitFacts(bs, i, newsize, end);
      var ptr2 := ptr + HEADER + newsize;
      SplitBlock(ptr, newsize, false, i);
      ghost var h1 := heap[..];
      if ptr2 < lfree {
        lfree := ptr2;
      }
      PlugHoles(ptr2, i + 1);
      KeptTrans(h0, h1, heap[..], Live(blocks));
    }

    /** rt_memcpy from one payload to another, a byte at a time. */
    method CopyBytes(dst: int, src: int, n: int)
      requires 0 <= n && 0 <= dst && dst + n <= heap.Length && 0 <= src && src + n <= heap.Length
      requires dst + n <= src || src + n <= dst
      modifies heap
      ensures heap[..] == Copied(old(heap[..]), dst, src, n)
    {
      ghost var h0 := heap[..];
      for k := 0 to n
        invariant heap[..] == Copied(h0, dst, src, k)
      {
        CopiedStep(h0, dst, src, k);
        heap[dst + k] := heap[src + k];
      }
    }

    /** The moving branch of rt_realloc, once rt_malloc has delivered block f of the old layout. */
    method MoveBlock(ptr: int, to: int, n: int, ghost i: nat, ghost f: nat)
      requires Valid() && i < |blocks| && f < |blocks| && i != f && blocks[i].used && blocks[f].used
      requires blocks[i].off == ptr && blocks[f].off == to && 0 <= n <= blocks[i].Payload() && n <= blocks[f].Payload()
      modifies heap, `lfree, `usedMem, `blocks
      ensures Valid() && blocks == Release(old(blocks), i)
      ensures Kept(old(heap[..]), heap[..], Live(blocks) - {old(blocks)[f]})
      ensures Kept(Copied(old(heap[..]), to + HEADER, ptr + HEADER, n), heap[..], Live(blocks))
    {
      hide Tiles, Stored, Kept, Live, LowestFree, UsedExtent, Release, Header, NoTwoFree, Copied;
      ghost var h0, bs := heap[..], blocks;
      ghost var end := EndOff(memSize);
      InRange(bs, end, i);
      InRange(bs, end, f);
      Apart2(bs, end, i, f);
      PayloadStore(h0, Copied(h0, to + HEADER, ptr + HEADER, n), bs, end, f, to + HEADER, n);
      CopyBytes(to + HEADER, ptr + HEADER, n);
      ghost var h1 := heap[..];
      ReleaseFacts(bs, memSize, i);
      FreeBlock(ptr, i);
      KeptSub(h0, h1, Live(blocks) - {bs[f]}, Live(bs) - {bs[f]});
      KeptSub(h1, heap[..], Live(blocks) - {bs[f]}, Live(blocks));
      KeptTrans(h0, h1, heap[..], Live(blocks) - {bs[f]});
    }

    /** The last branch of rt_realloc: allocate, copy, free. */
    method ReallocByMoving(ptr: int, size: int, n: int, ghost newsize: int, ghost i: nat) returns (p: int)
      requires Valid() && i < |blocks| && blocks[i].used && ptr == blocks[i].off && size == blocks[i].Payload()
      requires 0 < newsize < WORD_LIMIT && n == AlignUp(newsize) && 0 < n <= memSize
      modifies this, heap
      ensures Valid()
      ensures MovedTo(i, n, p)
      ensures p != 0 ==> Regained(old(heap[..]), heap[..], blocks, heapPtr, old(blocks)[i], newsize, p)
    {
      hide Valid, Tiles, Kept, Live, Carve, Release, NoTwoFree, IndexOf, Copied, MallocFit, Moved, Bytes, Regained, AlignUp;
      Shape();
      ghost var bs, h0, f := blocks, heap[..], MallocFit(blocks, memSize, n);
      InRange(bs, EndOff(memSize), i);
      AlignedRequest(n);
      MallocFitFacts(bs, memSize, n);
      if f < |bs| { InRange(bs, EndOff(memSize), f); }
      p := Allocate(n);
      if p != 0 {
        ghost var h1, c := heap[..], blocks;
        Shape();
        MoveFacts(bs, memSize, f, Request(n), i);
        InRange(c, EndOff(memSize), f);
        var count := if size < n then size else n;
        MoveBlock(ptr, p - heapPtr - HEADER, count, IndexOf(c, ptr), f);
        MovedBytes(h0, h1, heap[..], bs, Live(blocks), bs[i], c[f], count);
        MovedHolding(h0, heap[..], bs, memSize, heapPtr, i, f, newsize);
      }
    }

    /** rt_realloc of an allocated block, for an aligned size n. */
    method ReallocOwned(rmem: int, n: int, ghost newsize: int, ghost i: nat) returns (p: int)
      requires Valid() && i < |blocks| && blocks[i].used && rmem == Pointer(blocks[i])
      requires 0 < newsize < WORD_LIMIT && n == AlignUp(newsize) && 0 < n <= memSize
      modifies this, heap
      ensures Valid()
      ensures Resized(i, n, p)
      ensures if p == 0 then Untouched()
              else Regained(old(heap[..]), heap[..], blocks, heapPtr, old(blocks)[i], newsize, p)
    {
      hide Tiles, Stored, Kept, Live, LowestFree, UsedExtent, Release, Shrink, NoTwoFree, MallocFit, Moved, Request, Regained, AlignUp, Bytes;
      HeaderAt(i);
      Shape();
      ghost var h, bs := heap[..], blocks;
      var ptr := rmem - heapPtr - HEADER;
      var size := heap[ptr + NEXT] - ptr - HEADER;
      if size == n {
        StaysHolding(h, bs, memSize, heapPtr, i, newsize);
        return rmem;
      }
      if n + HEADER + MIN_SIZE < size {
        ShrinkBlock(ptr, n, i);
        ShrunkHolding(h, heap[..], bs, memSize, heapPtr, i, newsize);
        return rmem;
      }
      p := ReallocByMoving(ptr, size, n, newsize, i);
    }

    method Realloc(rmem: int, newsize: int) returns (p: int)
      requires Valid() && Owned(rmem) && 0 <= newsize < WORD_LIMIT
      modifies this, heap
      ensures Valid()
      ensures var n := AlignUp(newsize);
        if n > memSize then p == 0 && Untouched()
        else if n == 0 then p == 0 && Freed(rmem)
        else if rmem == 0 then Allocated(n, p)
        else if !InArena(rmem) then p == rmem && Untouched()
        else old(BlockOf(rmem)) < |old(blocks)| && Resized(old(BlockOf(rmem)), n, p)
      ensures InArena(rmem) && newsize > 0 && !Wraps(newsize) ==>
        && old(BlockOf(rmem)) < |old(blocks)|
        && if p == 0 then Untouched()
           else Regained(old(heap[..]), heap[..], blocks, heapPtr, old(blocks)[old(BlockOf(rmem))], newsize, p)
    {
      hide Tiles, Stored, Kept, Live, LowestFree, UsedExtent, Carve, Release, Shrink, NoTwoFree, IndexOf, MallocFit, Moved,
           Allocated, Freed, Served, Regained;
      var n := AlignUp(newsize);
      if n > memSize {
        return 0;
      } else if n == 0 {
        Free(rmem);
        return 0;
      }
      if rmem == 0 {
        p := Allocate(n);
        return;
      }
      if rmem < heapPtr || rmem >= heapPtr + memSize + HEADER {
        return rmem;
      }
      p := ReallocOwned(rmem, n, newsize, BlockOf(rmem));
    }

    /** Freeing a fresh allocation puts the heap back: layout, lowest-free cursor and used bytes. */
    method MallocThenFree(size: int)
      requires Valid() && 0 <= size < WORD_LIMIT
      modifies this, heap
      ensures Valid() && blocks == old(blocks) && lfree == old(lfree) && usedMem == old(usedMem)
      ensures Kept(old(heap[..]), heap[..], Live(blocks))
    {
      hide Tiles, Stored, Kept, Live, LowestFree, UsedExtent, Carve, Release, NoTwoFree, IndexOf, MallocFit;
      ghost var bs, h0, f := blocks, heap[..], MallocFit(blocks, memSize, size);
      MallocFitFacts(bs, memSize, size);
      KeptRefl(h0, Live(bs));
      var p := Allocate(size);
      ghost var h1 := heap[..];
      KeptRefl(h1, Live(bs));
      if f < |bs| {
        CarveFacts(bs, memSize, f, Request(size));
        InRange(blocks, EndOff(memSize), f);
        IndexOfIs(blocks, EndOff(memSize), f);
        FreeUndoesMalloc(bs, memSize, f, Request(size));
      }
      Free(p);
      KeptTrans(h0, h1, heap[..], Live(bs));
    }

    /** The caller of a run names the block at offset off by this address. */
    lemma {:induction false} OwnedAt(off: int)
      requires Valid() && InUse(blocks, off)
      ensures var rmem := heapPtr + off + HEADER;
        && rmem > 0 && InArena(rmem) && Owned(rmem) && BlockOf(rmem) == IndexOf(blocks, off)
        && IndexOf(blocks, off) < |blocks| && blocks[IndexOf(blocks, off)].off == off
    {
      hide Tiles, Stored, NoTwoFree, LowestFree, UsedExtent;
      Shape();
      InRange(blocks, EndOff(memSize), IndexOf(blocks, off));
    }

    /** One call of a run. */
    method Perform(c: Call)
      requires Valid() && Allowed(blocks, c)
      modifies this, heap
      ensures Valid() && blocks == Apply(old(blocks), memSize, c)
      ensures forall b | b in Live(old(blocks)) && Spares([c], b) :: Kept(old(heap[..]), heap[..], {b})
    {
      hide Valid, Tiles, Kept, Live, Carve, Release, Shrink, NoTwoFree, IndexOf, MallocFit, Moved, Bytes, InArena;
      Shape();
      ghost var bs, h0 := blocks, heap[..];
      ApplyKeeps(bs, memSize, c);
      KeptRefl(h0, Live(bs));
      ghost var kept: set<Block>;
      match c {
        case MallocCall(size) =>
          var p := Allocate(size);
          kept := Live(bs);
        case FreeCall(off) =>
          OwnedAt(off);
          Free(heapPtr + off + HEADER);
          kept := Live(blocks);
        case ReallocCall(off, size) =>
          OwnedAt(off);
          var p := Realloc(heapPtr + off + HEADER, size);
          kept := Live(blocks) * Live(bs) - {bs[IndexOf(bs, off)]};
          ReallocKept(h0, heap[..], bs, blocks, bs[IndexOf(bs, off)]);
      }
      forall b | b in Live(bs) && Spares([c], b) ensures Kept(h0, heap[..], {b}) {
        assert c == [c][0];
        KeptSub(h0, heap[..], {b}, kept);
      }
    }

    /** A whole run of calls: the layout is that of the run, and a block that no call frees or resizes
        keeps its place and all its bytes. */
    method PerformAll(calls: seq<Call>)
      requires Valid() && AllowedRun(blocks, memSize, calls)
      modifies this, heap
      ensures Valid() && blocks == Run(old(blocks), memSize, calls)
      ensures forall b | b in Live(old(blocks)) && Spares(calls, b) :: b in Live(blocks) && Kept(old(heap[..]), heap[..], {b})
      decreases |calls|
    {
      hide Valid, Kept, Live, Allowed, Apply;
      ghost var bs, h0 := blocks, heap[..];
      if calls != [] {
        Shape();
        Perform(calls[0]);
        ghost var mid, h1 := blocks, heap[..];
        ApplyKeeps(bs, memSize, calls[0]);
        PerformAll(calls[1..]);
        forall b | b in Live(bs) && Spares(calls, b) ensures b in Live(blocks) && Kept(h0, heap[..], {b}) {
          SparesSplit(calls, b);
          KeptTrans(h0, h1, heap[..], {b});
        }
      } else {
        forall b | b in Live(bs) ensures Kept(h0, heap[..], {b}) {
          KeptRefl(h0, {b});
        }
      }
    }
  }

  lemma {:induction false} SparesSplit(calls: seq<Call>, b: Block)
    requires calls != [] && Spares(calls, b)
    ensures Spares([calls[0]], b) && Spares(calls[1..], b) && (calls[0].MallocCall? || b.off != calls[0].off)
  {
  }

  /** What every way of rt_realloc keeps. */
  lemma {:induction false} ReallocKept(h: seq<int>, h': seq<int>, bs: seq<Block>, after: seq<Block>, b: Block)
    requires h' == h || Kept(h, h', Live(after)) || Kept(h, h', Live(bs) - {b})
    ensures Kept(h, h', Live(after) * Live(bs) - {b})
  {
  }

  /* ---------- every run ---------- */

  /** One call on the heap, as a caller may make it: a block is named by the offset of its header. */
  datatype Call = MallocCall(size: int) | FreeCall(off: int) | ReallocCall(off: int, size: int)

  ghost predicate InUse(bs: seq<Block>, off: int) {
    IndexOf(bs, off) < |bs| && bs[IndexOf(bs, off)].used && bs[IndexOf(bs, off)].Payload() > 0
  }

  ghost predicate Allowed(bs: seq<Block>, c: Call) {
    match c
    case MallocCall(size) => 0 <= size < WORD_LIMIT
    case FreeCall(off) => InUse(bs, off)
    case ReallocCall(off, size) => InUse(bs, off) && 0 <= size < WORD_LIMIT
  }

  /** The layout after the call; Perform is proved to produce it. */
  ghost function Apply(bs: seq<Block>, memSize: int, c: Call): seq<Block>
    requires Allowed(bs, c)
  {
    match c
    case MallocCall(size) =>
      var f := MallocFit(bs, memSize, size);
      MallocFitFacts(bs, memSize, size);
      if f < |bs| then Carve(bs, f, Request(size)) else bs
    case FreeCall(off) => Release(bs, IndexOf(bs, off))
    case ReallocCall(off, size) =>
      var i, n := IndexOf(bs, off), AlignUp(size);
      if n > memSize then bs
      else if n == 0 then Release(bs, i)
      else if bs[i].Payload() == n then bs
      else if SmallHeap.ShrinksInPlace(bs[i].Payload(), n) then Shrink(bs, i, n)
      else
        var f := MallocFit(bs, memSize, n);
        MallocFitFacts(bs, memSize, n);
        if f < |bs| then Moved(bs, f, Request(n), off) else bs
  }

  ghost predicate AllowedRun(bs: seq<Block>, memSize: int, calls: seq<Call>)
    decreases |calls|
  {
    calls == [] || (Allowed(bs, calls[0]) && AllowedRun(Apply(bs, memSize, calls[0]), memSize, calls[1..]))
  }

  ghost function Run(bs: seq<Block>, memSize: int, calls: seq<Call>): seq<Block>
    requires AllowedRun(bs, memSize, calls)
    decreases |calls|
  {
    if calls == [] then bs else Run(Apply(bs, memSize, calls[0]), memSize, calls[1..])
  }

  lemma {:induction false} ApplyKeeps(bs: seq<Block>, memSize: int, c: Call)
    requires WellFormed(bs, memSize) && Allowed(bs, c)
    ensures WellFormed(Apply(bs, memSize, c), memSize)
    // whatever a call does, a live block it was not given stays live
    ensures forall b | b in Live(bs) && (c.MallocCall? || b.off != c.off) :: b in Live(Apply(bs, memSize, c))
  {
    hide Tiles, NoTwoFree, Carve, Release, Shrink, Moved, UsedExtent, MallocFit, IndexOf, Live;
    match c
    case MallocCall(size) =>
      MallocFitFacts(bs, memSize, size);
      var f := MallocFit(bs, memSize, size);
      if f < |bs| {
        CarveFacts(bs, memSize, f, Request(size));
      }
    case FreeCall(off) => ReleaseFacts(bs, memSize, IndexOf(bs, off));
    case ReallocCall(off, size) =>
      var i, n := IndexOf(bs, off), AlignUp(size);
      var f := MallocFit(bs, memSize, n);
      MallocFitFacts(bs, memSize, n);
      ReleaseFacts(bs, memSize, i);
      if SmallHeap.ShrinksInPlace(bs[i].Payload(), n) {
        ShrinkFacts(bs, memSize, i, n);
      }
      if f < |bs| {
        CarveFacts(bs, memSize, f, Request(n));
        MoveFacts(bs, memSize, f, Request(n), i);
        var c := Carve(bs, f, Request(n));
        ReleaseFacts(c, memSize, IndexOf(c, bs[i].off));
      }
  }

  /** rt_realloc of the block b that is in use, in terms of the size asked for.  A size of 0, and one
      that wraps, frees the block; less than 28 bytes cannot be cut off in place, and so a block that is
      made a little smaller moves, and stays as it is when there is no room to move to. */
  lemma {:induction false} ReallocGives(bs: seq<Block>, memSize: int, off: int, size: int) returns (c: Block)
    requires WellFormed(bs, memSize) && memSize % ALIGN_SIZE == 0 && 0 <= memSize < WORD_LIMIT && Allowed(bs, ReallocCall(off, size))
    ensures IndexOf(bs, off) < |bs|
    ensures var b := bs[IndexOf(bs, off)]; var r := Apply(bs, memSize, ReallocCall(off, size));
      if size == 0 || Wraps(size) then Live(r) == Live(bs) - {b}
      else if size <= b.Payload() < size + ALIGN_SIZE then r == bs
      else if size + 28 <= b.Payload() then
        Live(r) == Live(bs) - {b} + {c} && c.off == b.off && c.used && size <= c.Payload() < size + ALIGN_SIZE
      else if exists x :: x in bs && Serves(x, memSize, size) then
        Live(r) == Live(bs) - {b} + {c} && c !in Live(bs) && c.Payload() >= size
      else r == bs
  {
    hide Tiles, NoTwoFree, Carve, Release, Shrink, Moved, UsedExtent, MallocFit, IndexOf, Live, AlignUp, Serves;
    var i, n := IndexOf(bs, off), AlignUp(size);
    var b := bs[i];
    c := b;
    BlockInside(bs, memSize, i);
    PayloadAligned(bs, memSize, i);
    if size == 0 || Wraps(size) {
      assert n == 0;
      ReleaseFacts(bs, memSize, i);
    } else {
      Multiples(b.Payload(), n, size);
      Multiples(b.Payload() - 28, n, size);
      MallocFinds(bs, memSize, n);
      SameServes(bs, memSize, size);
      MallocFitFacts(bs, memSize, n);
      if size + 28 <= b.Payload() {
        ShrinkFacts(bs, memSize, i, n);
        c := Block(b.off, b.off + HEADER + n, true);
      } else if MallocFit(bs, memSize, n) < |bs| && !(size <= b.Payload() < size + ALIGN_SIZE) {
        var f := MallocFit(bs, memSize, n);
        ServedFits(bs, memSize, f, n);
        MoveFacts(bs, memSize, f, Request(n), i);
        c := Carve(bs, f, Request(n))[f];
        AlignedRequest(n);
      }
    }
  }

  lemma {:induction false} PayloadAligned(bs: seq<Block>, memSize: int, i: nat)
    requires Tiles(bs, EndOff(memSize)) && i < |bs|
    ensures bs[i].Payload() % ALIGN_SIZE == 0
  {
    assert bs[i].Sound() && (i < |bs| - 1 ==> bs[i + 1].Sound() && bs[i].next == bs[i + 1].off);
  }

  lemma {:induction false} ServedFits(bs: seq<Block>, memSize: int, f: nat, n: int)
    requires Tiles(bs, EndOff(memSize)) && f < |bs| && Serves(bs[f], memSize, n) && !Wraps(n)
    ensures n <= memSize
  {
    BlockInside(bs, memSize, f);
  }

  lemma {:induction false} SameServes(bs: seq<Block>, memSize: int, size: int)
    requires Tiles(bs, EndOff(memSize)) && 0 < size < WORD_LIMIT && !Wraps(size)
    ensures !Wraps(AlignUp(size)) && 0 < AlignUp(size) < WORD_LIMIT
    ensures forall b | b in bs :: Serves(b, memSize, AlignUp(size)) <==> Serves(b, memSize, size)
  {
    hide Tiles, Serves, AlignUp, Eligible;
    AlignedRequest(AlignUp(size));
    forall b | b in bs ensures Serves(b, memSize, AlignUp(size)) <==> Serves(b, memSize, size) {
      ServesIff(bs, memSize, size, b);
      ServesIff(bs, memSize, AlignUp(size), b);
    }
  }

  /** Every run of rt_malloc, rt_free and rt_realloc keeps the heap well formed. */
  lemma {:induction false} RunKeeps(bs: seq<Block>, memSize: int, calls: seq<Call>)
    requires WellFormed(bs, memSize) && AllowedRun(bs, memSize, calls)
    ensures WellFormed(Run(bs, memSize, calls), memSize)
    ensures NoneEmpty(bs) ==> NoneEmpty(Run(bs, memSize, calls))
    decreases |calls|
  {
    hide WellFormed, NoneEmpty, Apply, Allowed;
    if calls != [] {
      ApplyKeeps(bs, memSize, calls[0]);
      if NoneEmpty(bs) {
        NoneEmptyKept(bs, memSize, calls[0]);
      }
      RunKeeps(Apply(bs, memSize, calls[0]), memSize, calls[1..]);
    }
  }

  /** Every block in use has at least one payload byte, so its address lies below the end stub. */
  ghost predicate NoneEmpty(bs: seq<Block>) {
    forall b | b in Live(bs) :: b.Payload() > 0
  }

  lemma {:induction false} NoneEmptyKept(bs: seq<Block>, memSize: int, c: Call)
    requires WellFormed(bs, memSize) && Allowed(bs, c) && NoneEmpty(bs)
    ensures NoneEmpty(Apply(bs, memSize, c))
  {
    hide Tiles, NoTwoFree, Carve, Release, Shrink, Moved, UsedExtent, MallocFit, IndexOf, Live;
    match c
    case MallocCall(size) =>
      MallocFitFacts(bs, memSize, size);
      var f := MallocFit(bs, memSize, size);
      if f < |bs| {
        CarveFacts(bs, memSize, f, Request(size));
        PositiveRequest(size);
      }
    case FreeCall(off) => ReleaseFacts(bs, memSize, IndexOf(bs, off));
    case ReallocCall(off, size) =>
      var i, n := IndexOf(bs, off), AlignUp(size);
      var f := MallocFit(bs, memSize, n);
      MallocFitFacts(bs, memSize, n);
      ReleaseFacts(bs, memSize, i);
      PositiveRequest(n);
      if SmallHeap.ShrinksInPlace(bs[i].Payload(), n) {
        ShrinkFacts(bs, memSize, i, n);
      }
      if f < |bs| {
        MoveFacts(bs, memSize, f, Request(n), i);
      }
  }

  lemma {:induction false} PositiveRequest(size: int)
    requires 0 <= size < WORD_LIMIT
    ensures Request(size) >= MIN_PAYLOAD
  {
  }

  /** In such a heap a call may name every live block by its offset. */
  lemma {:induction false} LiveInUse(bs: seq<Block>, memSize: int, b: Block)
    requires WellFormed(bs, memSize) && NoneEmpty(bs) && b in Live(bs)
    ensures InUse(bs, b.off)
  {
    hide Tiles, NoTwoFree, IndexOf;
    IndexOfLive(bs, EndOff(memSize), b);
  }

  /** No call of the run frees or resizes block b. */
  predicate Spares(calls: seq<Call>, b: Block) {
    forall i | 0 <= i < |calls| :: calls[i].MallocCall? || calls[i].off != b.off
  }

  /** Over every run a live block that no call frees or resizes stays live, offset and size unchanged. */
  lemma {:induction false} RunSpares(bs: seq<Block>, memSize: int, calls: seq<Call>, b: Block)
    requires WellFormed(bs, memSize) && AllowedRun(bs, memSize, calls) && b in Live(bs) && Spares(calls, b)
    ensures b in Live(Run(bs, memSize, calls))
    decreases |calls|
  {
    hide WellFormed, Apply, Live, Allowed;
    if calls != [] {
      ApplyKeeps(bs, memSize, calls[0]);
      RunSpares(Apply(bs, memSize, calls[0]), memSize, calls[1..], b);
    }
  }
}
