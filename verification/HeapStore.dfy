/** How a block layout is stored in the byte arena of mem.c: `struct heap_mem` headers laid over
    the arena.  A cell stands for the byte at its offset.  A 16- or 32-bit store leaves its value
    in the first cell it covers and clears the others, so it destroys the bytes that were there. */
module HeapStore {
  import opened HeapLayout

  const HEAP_MAGIC := 0x1ea0

  /* offsets of the members of struct heap_mem */
  const USED := 2
  const NEXT := 4
  const PREV := 8

  /** The n bytes stored from lo on. */
  function Bytes(h: seq<int>, lo: int, n: int): seq<int>
    requires 0 <= lo && 0 <= n && lo + n <= |h|
  {
    h[lo..lo + n]
  }

  function Put(h: seq<int>, o: int, width: int, v: int): (r: seq<int>)
    requires 0 <= o && 0 < width && o + width <= |h|
    ensures |r| == |h| && r[o] == v
    ensures forall k | 0 <= k < |h| && !(o <= k < o + width) :: r[k] == h[k]
  {
    seq(|h|, k requires 0 <= k < |h| => if k == o then v else if o < k < o + width then 0 else h[k])
  }

  /** The header of block b, whose `prev` member is `prev`. */
  ghost predicate Header(h: seq<int>, b: Block, prev: int) {
    && 0 <= b.off && b.off + HEADER <= |h|
    && h[b.off] == HEAP_MAGIC && h[b.off + USED] == (if b.used then 1 else 0)
    && h[b.off + NEXT] == b.next && h[b.off + PREV] == prev
  }

  function PrevOff(bs: seq<Block>, k: nat): int
    requires k < |bs|
  {
    if k == 0 then 0 else bs[k - 1].off
  }

  /** The end stub: always used, its own successor; its `prev` member means nothing. */
  ghost predicate EndStub(h: seq<int>, end: int) {
    && 0 <= end && end + HEADER == |h|
    && h[end] == HEAP_MAGIC && h[end + USED] == 1 && h[end + NEXT] == end
  }

  /** Every header but that of block `but` is in place, and so is the end stub. */
  ghost predicate StoredBut(h: seq<int>, bs: seq<Block>, end: int, but: int) {
    && (forall k | 0 <= k < |bs| && k != but :: Header(h, bs[k], PrevOff(bs, k)))
    && EndStub(h, end)
  }

  ghost predicate Stored(h: seq<int>, bs: seq<Block>, end: int) {
    StoredBut(h, bs, end, -1)
  }

  /** Every payload byte of every block in `live` is the same in both arenas. */
  ghost predicate Kept(h: seq<int>, h': seq<int>, live: set<Block>) {
    |h| == |h'| && forall b, k | b in live && b.Holds(k) && 0 <= k < |h| :: h'[k] == h[k]
  }

  /** h' differs from h at most in the cells [lo, lo + width). */
  ghost predicate OnlyAt(h: seq<int>, h': seq<int>, lo: int, width: int) {
    |h| == |h'| && forall k | 0 <= k < |h| && !(lo <= k < lo + width) :: h'[k] == h[k]
  }

  lemma {:induction false} HeaderKept(h: seq<int>, h': seq<int>, lo: int, width: int, b: Block, prev: int)
    requires OnlyAt(h, h', lo, width) && Header(h, b, prev)
    requires b.off + HEADER <= lo || lo + width <= b.off
    ensures Header(h', b, prev)
  {
  }

  lemma {:induction false} KeptTrans(h0: seq<int>, h1: seq<int>, h2: seq<int>, live: set<Block>)
    requires Kept(h0, h1, live) && Kept(h1, h2, live)
    ensures Kept(h0, h2, live)
  {
  }

  lemma {:induction false} KeptRefl(h: seq<int>, live: set<Block>)
    ensures Kept(h, h, live)
  {
  }

  lemma {:induction false} KeptSub(h: seq<int>, h': seq<int>, live: set<Block>, more: set<Block>)
    requires Kept(h, h', more) && live <= more
    ensures Kept(h, h', live)
  {
  }

  lemma {:induction false} Apart2(bs: seq<Block>, end: int, i: nat, k: nat)
    requires Tiles(bs, end) && i < |bs| && k < |bs| && i != k
    ensures bs[k].off + HEADER <= bs[k].next <= bs[i].off || bs[i].off + HEADER <= bs[i].next <= bs[k].off
  {
    assert bs[i].Sound() && bs[k].Sound();
    assert i < k ==> bs[i].next <= bs[k].off;
    assert k < i ==> bs[k].next <= bs[i].off;
  }

  lemma {:induction false} InRange(bs: seq<Block>, end: int, i: nat)
    requires Tiles(bs, end) && i < |bs|
    ensures 0 <= bs[i].off && bs[i].off + HEADER <= bs[i].next <= end && bs[i].off % ALIGN_SIZE == 0
    ensures i < |bs| - 1 ==> bs[i].next == bs[i + 1].off
    ensures bs[0].off == 0 && (bs[i].next == end <==> i == |bs| - 1)
  {
    assert bs[i].Sound() && bs[|bs| - 1].Sound();
    assert i > 0 ==> bs[0].next <= bs[i].off && bs[0].Sound();
    assert i < |bs| - 1 ==> bs[i].next <= bs[|bs| - 1].off && bs[i].next == bs[i + 1].off;
  }

  lemma {:induction false} OffsAscend(bs: seq<Block>, end: int, i: nat, k: nat)
    requires Tiles(bs, end) && i <= k < |bs|
    ensures bs[i].off <= bs[k].off
  {
    assert bs[i].Sound();
  }

  /** A store inside the header of a block, or inside a free block, touches no live payload. */
  lemma {:induction false} StoreKeeps(h: seq<int>, h': seq<int>, bs: seq<Block>, end: int, i: nat, lo: int, width: int)
    requires Tiles(bs, end) && i < |bs| && OnlyAt(h, h', lo, width)
    requires bs[i].off <= lo && lo + width <= (if bs[i].used then bs[i].off + HEADER else bs[i].next)
    ensures Kept(h, h', Live(bs))
  {
    hide Tiles;
    forall b, k | b in Live(bs) && b.Holds(k) && 0 <= k < |h| ensures h'[k] == h[k] {
      var j :| 0 <= j < |bs| && bs[j] == b;
      InRange(bs, end, i);
      if j != i {
        Apart2(bs, end, i, j);
      }
    }
  }

  lemma {:induction false} EndKeeps(h: seq<int>, h': seq<int>, bs: seq<Block>, end: int, lo: int, width: int)
    requires Tiles(bs, end) && OnlyAt(h, h', lo, width) && end <= lo
    ensures Kept(h, h', Live(bs))
  {
    hide Tiles;
    forall b, k | b in Live(bs) && b.Holds(k) && 0 <= k < |h| ensures h'[k] == h[k] {
      var j :| 0 <= j < |bs| && bs[j] == b;
      InRange(bs, end, j);
    }
  }

  /** A store between the start of block i and the start of the next one leaves every other header. */
  lemma {:induction false} OthersKept(h: seq<int>, h': seq<int>, bs: seq<Block>, end: int, i: nat, lo: int, width: int)
    requires Tiles(bs, end) && StoredBut(h, bs, end, i) && i < |bs| && OnlyAt(h, h', lo, width)
    requires bs[i].off <= lo && lo + width <= bs[i].next
    ensures StoredBut(h', bs, end, i)
  {
    hide Tiles, Header, PrevOff;
    forall k | 0 <= k < |bs| && k != i ensures Header(h', bs[k], PrevOff(bs, k)) {
      Apart2(bs, end, i, k);
      HeaderKept(h, h', lo, width, bs[k], PrevOff(bs, k));
    }
    InRange(bs, end, i);
  }

  /** A store in the `prev` member of the end stub leaves everything. */
  lemma {:induction false} EndPrevKept(h: seq<int>, h': seq<int>, bs: seq<Block>, end: int)
    requires Tiles(bs, end) && StoredBut(h, bs, end, |bs|) && OnlyAt(h, h', end + PREV, 4)
    ensures Stored(h', bs, end)
  {
    hide Tiles, Header, PrevOff;
    forall k | 0 <= k < |bs| ensures Header(h', bs[k], PrevOff(bs, k)) {
      InRange(bs, end, k);
      HeaderKept(h, h', end + PREV, 4, bs[k], PrevOff(bs, k));
    }
  }

  lemma {:induction false} ButOne(h: seq<int>, bs: seq<Block>, end: int, i: nat)
    requires Stored(h, bs, end) && i < |bs|
    ensures StoredBut(h, bs, end, i) && Header(h, bs[i], PrevOff(bs, i))
  {
  }

  lemma {:induction false} PutBack(h: seq<int>, bs: seq<Block>, end: int, i: nat)
    requires StoredBut(h, bs, end, i) && (i < |bs| ==> Header(h, bs[i], PrevOff(bs, i)))
    ensures Stored(h, bs, end)
  {
  }

  /* ---------- marking a block used or free ---------- */

  function PutUsed(h: seq<int>, off: int, used: bool): (r: seq<int>)
    requires 0 <= off && off + HEADER <= |h|
    ensures |r| == |h|
  {
    Put(h, off + USED, 2, if used then 1 else 0)
  }

  lemma {:induction false} PutUsedHere(h: seq<int>, b: Block, prev: int, used: bool)
    requires Header(h, b, prev)
    ensures Header(PutUsed(h, b.off, used), b.(used := used), prev)
    ensures OnlyAt(h, PutUsed(h, b.off, used), b.off + USED, 2)
  {
  }

  lemma {:induction false} SetUsedIs(bs: seq<Block>, i: nat, used: bool)
    requires i < |bs|
    ensures SetUsed(bs, i, used) == bs[i := bs[i].(used := used)]
    ensures forall k | 0 <= k < |bs| :: PrevOff(SetUsed(bs, i, used), k) == PrevOff(bs, k)
  {
  }

  lemma {:induction false} PutUsedStored(h: seq<int>, bs: seq<Block>, end: int, i: nat, used: bool)
    requires Tiles(bs, end) && Stored(h, bs, end) && i < |bs|
    requires 0 <= bs[i].off && bs[i].off + HEADER <= |h|
    ensures var h' := PutUsed(h, bs[i].off, used);
      Stored(h', SetUsed(bs, i, used), end) && Kept(h, h', Live(bs))
  {
    hide Tiles, Header, PutUsed, SetUsed, OnlyAt, Kept, Live, EndStub, PrevOff;
    var h' := PutUsed(h, bs[i].off, used);
    SetUsedIs(bs, i, used);
    InRange(bs, end, i);
    PutUsedHere(h, bs[i], PrevOff(bs, i), used);
    StoreKeeps(h, h', bs, end, i, bs[i].off + USED, 2);
    OthersKept(h, h', bs, end, i, bs[i].off + USED, 2);
  }

  /* ---------- relinking the successor ---------- */

  function PutPrev(h: seq<int>, off: int, prev: int): (r: seq<int>)
    requires 0 <= off && off + HEADER <= |h|
    ensures |r| == |h|
  {
    Put(h, off + PREV, 4, prev)
  }

  lemma {:induction false} PutPrevHere(h: seq<int>, b: Block, oldPrev: int, prev: int)
    requires Header(h, b, oldPrev)
    ensures Header(PutPrev(h, b.off, prev), b, prev)
    ensures OnlyAt(h, PutPrev(h, b.off, prev), b.off + PREV, 4)
  {
  }

  /** Only the `prev` member of block i is out of date; storing it completes the picture. */
  lemma {:induction false} PutPrevStored(h: seq<int>, bs: seq<Block>, end: int, i: nat, oldPrev: int)
    requires Tiles(bs, end) && 0 < i < |bs| && StoredBut(h, bs, end, i) && Header(h, bs[i], oldPrev)
    requires 0 <= bs[i].off && bs[i].off + HEADER <= |h|
    ensures var h' := PutPrev(h, bs[i].off, bs[i - 1].off);
      Stored(h', bs, end) && Kept(h, h', Live(bs))
  {
    hide Tiles, Header, PutPrev, OnlyAt, Kept, Live, StoredBut;
    var h' := PutPrev(h, bs[i].off, bs[i - 1].off);
    InRange(bs, end, i);
    PutPrevHere(h, bs[i], oldPrev, bs[i - 1].off);
    StoreKeeps(h, h', bs, end, i, bs[i].off + PREV, 4);
    OthersKept(h, h', bs, end, i, bs[i].off + PREV, 4);
    PutBack(h', bs, end, i);
  }

  /* ---------- splitting a block ---------- */

  function PutHeader(h: seq<int>, off: int, used: bool, next: int, prev: int): (r: seq<int>)
    requires 0 <= off && off + HEADER <= |h|
    ensures |r| == |h|
  {
    Put(Put(Put(Put(h, off, 2, HEAP_MAGIC), off + USED, 2, if used then 1 else 0), off + NEXT, 4, next), off + PREV, 4, prev)
  }

  /** The stores of a split, except the one that relinks the successor. */
  function PutCut(h: seq<int>, off: int, next: int, size: int, mark: bool): (r: seq<int>)
    requires 0 <= off && 0 <= size && off + HEADER + size + HEADER <= |h|
    ensures |r| == |h|
  {
    var cut := off + HEADER + size;
    var h2 := PutNext(PutHeader(h, cut, false, next, off), off, cut);
    if mark then PutUsed(h2, off, true) else h2
  }

  lemma {:induction false} PutHeaderHere(h: seq<int>, off: int, used: bool, next: int, prev: int)
    requires 0 <= off && off + HEADER <= |h|
    ensures Header(PutHeader(h, off, used, next, prev), Block(off, next, used), prev)
    ensures OnlyAt(h, PutHeader(h, off, used, next, prev), off, HEADER)
  {
  }

  function PutNext(h: seq<int>, off: int, next: int): (r: seq<int>)
    requires 0 <= off && off + HEADER <= |h|
    ensures |r| == |h|
  {
    Put(h, off + NEXT, 4, next)
  }

  lemma {:induction false} PutNextHere(h: seq<int>, b: Block, prev: int, next: int)
    requires Header(h, b, prev)
    ensures Header(PutNext(h, b.off, next), b.(next := next), prev)
    ensures OnlyAt(h, PutNext(h, b.off, next), b.off + NEXT, 4)
  {
  }

  lemma {:induction false} PutCutHere(h: seq<int>, b: Block, prev: int, size: int, mark: bool)
    requires Header(h, b, prev) && 0 <= b.off && 0 <= size && (mark || b.used)
    requires b.off + HEADER + size + HEADER <= b.next <= |h|
    ensures var cut := b.off + HEADER + size; var h1 := PutHeader(h, cut, false, b.next, b.off);
      var h' := PutCut(h, b.off, b.next, size, mark);
      && Header(h', Block(b.off, cut, true), prev) && Header(h', Block(cut, b.next, false), b.off)
      && OnlyAt(h, h1, cut, HEADER) && OnlyAt(h1, h', b.off, HEADER) && OnlyAt(h, h', b.off, b.next - b.off)
  {
    hide PutHeader, PutNext, PutUsed, Header;
    var cut := b.off + HEADER + size;
    var h1 := PutHeader(h, cut, false, b.next, b.off);
    var rest := Block(cut, b.next, false);
    PutHeaderHere(h, cut, false, b.next, b.off);
    HeaderKept(h, h1, cut, HEADER, b, prev);
    var h2 := PutNext(h1, b.off, cut);
    PutNextHere(h1, b, prev, cut);
    HeaderKept(h1, h2, b.off + NEXT, 4, rest, b.off);
    if mark {
      PutUsedHere(h2, b.(next := cut), prev, true);
      HeaderKept(h2, PutUsed(h2, b.off, true), b.off + USED, 2, rest, b.off);
    }
  }

  lemma {:induction false} SplitIs(bs: seq<Block>, i: nat, size: int)
    requires i < |bs|
    ensures var r := Split(bs, i, size); var cut := bs[i].off + HEADER + size;
      && |r| == |bs| + 1
      && r[i] == Block(bs[i].off, cut, true) && r[i + 1] == Block(cut, bs[i].next, false)
      && (forall k | 0 <= k < i :: r[k] == bs[k])
      && (forall k | i + 2 <= k < |r| :: r[k] == bs[k - 1])
  {
  }

  lemma {:induction false} SplitHeaders(h: seq<int>, bs: seq<Block>, end: int, i: nat, size: int)
    requires i < |bs| && StoredBut(h, bs, end, i)
    requires var cut := bs[i].off + HEADER + size;
      Header(h, Block(bs[i].off, cut, true), PrevOff(bs, i)) && Header(h, Block(cut, bs[i].next, false), bs[i].off)
    ensures var r := Split(bs, i, size);
      StoredBut(h, r, end, i + 2) && (i + 2 < |r| ==> Header(h, r[i + 2], bs[i].off))
  {
    hide Header, Split;
    var r := Split(bs, i, size);
    SplitIs(bs, i, size);
    forall k | 0 <= k < |r| && k != i + 2 ensures Header(h, r[k], PrevOff(r, k)) {
      if k > i + 2 {
        assert Header(h, bs[k - 1], PrevOff(bs, k - 1));
      } else if k < i {
        assert Header(h, bs[k], PrevOff(bs, k));
      }
    }
    if i + 2 < |r| {
      assert Header(h, bs[i + 1], PrevOff(bs, i + 1));
    }
  }

  lemma {:induction false} PutCutStored(h: seq<int>, bs: seq<Block>, end: int, i: nat, size: int, mark: bool)
    requires Tiles(bs, end) && Stored(h, bs, end) && i < |bs|
    requires 0 <= size && size % ALIGN_SIZE == 0 && bs[i].Payload() >= size + HEADER && (mark || bs[i].used)
    requires 0 <= bs[i].off && bs[i].off + HEADER + size + HEADER <= |h|
    ensures var r := Split(bs, i, size); var h' := PutCut(h, bs[i].off, bs[i].next, size, mark);
      && StoredBut(h', r, end, i + 2) && Kept(h, h', Live(r))
      && (i + 2 < |r| ==> Header(h', r[i + 2], bs[i].off))
  {
    hide Tiles, Header, PutHeader, PutCut, OnlyAt, Kept, Live, StoredBut, EndStub, PrevOff, Split;
    var r := Split(bs, i, size);
    var cut := bs[i].off + HEADER + size;
    var h1 := PutHeader(h, cut, false, bs[i].next, bs[i].off);
    var h' := PutCut(h, bs[i].off, bs[i].next, size, mark);
    ButOne(h, bs, end, i);
    InRange(bs, end, i);
    StoredSize(h, bs, end);
    PutCutHere(h, bs[i], PrevOff(bs, i), size, mark);
    OthersKept(h, h', bs, end, i, bs[i].off, bs[i].next - bs[i].off);
    SplitHeaders(h', bs, end, i, size);
    SplitTiles(bs, i, size, end);
    SplitIs(bs, i, size);
    StoreKeeps(h, h1, r, end, i + 1, cut, HEADER);
    StoreKeeps(h1, h', r, end, i, bs[i].off, HEADER);
    KeptTrans(h, h1, h', Live(r));
  }

  lemma {:induction false} StoredSize(h: seq<int>, bs: seq<Block>, end: int)
    requires Stored(h, bs, end)
    ensures |h| == end + HEADER && end >= 0
  {
  }

  /** All stores of a split: the successor is relinked unless it is the end stub. */
  function PutSplit(h: seq<int>, off: int, next: int, size: int, mark: bool, end: int): (r: seq<int>)
    requires 0 <= off && 0 <= size && off + HEADER + size + HEADER <= next <= end && end + HEADER == |h|
    ensures |r| == |h|
  {
    var h' := PutCut(h, off, next, size, mark);
    if next != end then PutPrev(h', next, off + HEADER + size) else h'
  }

  /** The split writes exactly the split layout and disturbs no byte of a block live afterwards,
      in particular not the part of block i that stays allocated. */
  lemma {:induction false} PutSplitStored(h: seq<int>, bs: seq<Block>, end: int, i: nat, size: int, mark: bool)
    requires Tiles(bs, end) && Stored(h, bs, end) && i < |bs|
    requires 0 <= size && size % ALIGN_SIZE == 0 && bs[i].Payload() >= size + HEADER && (mark || bs[i].used)
    requires 0 <= bs[i].off && bs[i].next <= end && end + HEADER == |h|
    ensures var r := Split(bs, i, size); var h' := PutSplit(h, bs[i].off, bs[i].next, size, mark, end);
      Stored(h', r, end) && Kept(h, h', Live(r))
  {
    hide Tiles, Header, PutCut, PutPrev, OnlyAt, Kept, Live, StoredBut, EndStub, PrevOff, Split;
    var r := Split(bs, i, size);
    var h3 := PutCut(h, bs[i].off, bs[i].next, size, mark);
    InRange(bs, end, i);
    PutCutStored(h, bs, end, i, size, mark);
    SplitTiles(bs, i, size, end);
    SplitIs(bs, i, size);
    if bs[i].next != end {
      PutPrevStored(h3, r, end, i + 2, bs[i].off);
      KeptTrans(h, h3, PutPrev(h3, bs[i].next, r[i + 1].off), Live(r));
    } else {
      PutBack(h3, r, end, i + 2);
    }
  }

  /* ---------- merging two free blocks ---------- */

  /** The two stores of a merge in plug_holes; the successor may be the end stub. */
  function PutAbsorb(h: seq<int>, off: int, next: int): (r: seq<int>)
    requires 0 <= off && off + HEADER <= |h| && 0 <= next && next + HEADER <= |h|
    ensures |r| == |h|
  {
    PutPrev(PutNext(h, off, next), next, off)
  }

  lemma {:induction false} AbsorbIs(bs: seq<Block>, i: nat)
    requires i + 1 < |bs|
    ensures var r := Absorb(bs, i);
      && |r| == |bs| - 1 && r[i] == bs[i].(next := bs[i + 1].next)
      && (forall k | 0 <= k < i :: r[k] == bs[k])
      && (forall k | i + 1 <= k < |r| :: r[k] == bs[k + 1])
  {
  }

  lemma {:induction false} AbsorbHeaders(h: seq<int>, bs: seq<Block>, end: int, i: nat)
    requires i + 1 < |bs| && StoredBut(h, bs, end, i)
    requires Header(h, bs[i].(next := bs[i + 1].next), PrevOff(bs, i))
    ensures var r := Absorb(bs, i);
      StoredBut(h, r, end, i + 1) && (i + 1 < |r| ==> Header(h, r[i + 1], bs[i + 1].off))
  {
    hide Header, Absorb;
    var r := Absorb(bs, i);
    AbsorbIs(bs, i);
    forall k | 0 <= k < |r| && k != i + 1 ensures Header(h, r[k], PrevOff(r, k)) {
      if k > i + 1 {
        assert Header(h, bs[k + 1], PrevOff(bs, k + 1));
      } else if k < i {
        assert Header(h, bs[k], PrevOff(bs, k));
      }
    }
    if i + 1 < |r| {
      assert Header(h, bs[i + 2], PrevOff(bs, i + 2));
    }
  }

  lemma {:induction false} PutAbsorbStored(h: seq<int>, bs: seq<Block>, end: int, i: nat)
    requires Tiles(bs, end) && Stored(h, bs, end) && i + 1 < |bs| && !bs[i].used && !bs[i + 1].used
    requires 0 <= bs[i].off && bs[i].off + HEADER <= |h| && 0 <= bs[i + 1].next && bs[i + 1].next + HEADER <= |h|
    ensures var r := Absorb(bs, i); var h' := PutAbsorb(h, bs[i].off, bs[i + 1].next);
      Stored(h', r, end) && Kept(h, h', Live(bs))
  {
    hide Tiles, Header, PutNext, PutPrev, OnlyAt, Kept, Live, StoredBut, EndStub, PrevOff, Absorb;
    var r := Absorb(bs, i);
    var h1 := PutNext(h, bs[i].off, bs[i + 1].next);
    var h' := PutPrev(h1, bs[i + 1].next, bs[i].off);
    ButOne(h, bs, end, i);
    InRange(bs, end, i);
    InRange(bs, end, i + 1);
    PutNextHere(h, bs[i], PrevOff(bs, i), bs[i + 1].next);
    OthersKept(h, h1, bs, end, i, bs[i].off + NEXT, 4);
    StoreKeeps(h, h1, bs, end, i, bs[i].off + NEXT, 4);
    AbsorbHeaders(h1, bs, end, i);
    AbsorbFacts(bs, i, end);
    AbsorbIs(bs, i);
    if i + 1 < |r| {
      PutPrevStored(h1, r, end, i + 1, bs[i + 1].off);
    } else {
      PutEndPrev(h1, end, bs[i].off);
      EndPrevKept(h1, h', r, end);
      EndKeeps(h1, h', r, end, end + PREV, 4);
    }
    KeptTrans(h, h1, h', Live(bs));
  }

  lemma {:induction false} PutEndPrev(h: seq<int>, end: int, prev: int)
    requires 0 <= end && end + HEADER <= |h|
    ensures OnlyAt(h, PutPrev(h, end, prev), end + PREV, 4)
  {
  }

  /* ---------- writing a payload ---------- */

  /** A store inside the payload of block i changes no header and no other live payload. */
  lemma {:induction false} PayloadStore(h: seq<int>, h': seq<int>, bs: seq<Block>, end: int, i: nat, lo: int, width: int)
    requires Tiles(bs, end) && Stored(h, bs, end) && i < |bs| && OnlyAt(h, h', lo, width)
    requires bs[i].off + HEADER <= lo && lo + width <= bs[i].next
    ensures Stored(h', bs, end) && Kept(h, h', Live(bs) - {bs[i]})
  {
    hide Tiles, Header, PrevOff, StoredBut;
    ButOne(h, bs, end, i);
    OthersKept(h, h', bs, end, i, lo, width);
    HeaderKept(h, h', lo, width, bs[i], PrevOff(bs, i));
    PutBack(h', bs, end, i);
    forall b, k | b in Live(bs) - {bs[i]} && b.Holds(k) && 0 <= k < |h| ensures h'[k] == h[k] {
      var j :| 0 <= j < |bs| && bs[j] == b;
      Apart2(bs, end, i, j);
    }
  }

  lemma {:induction false} InitialStored(h: seq<int>, memSize: int)
    requires 0 <= memSize && memSize % ALIGN_SIZE == 0 && |h| == EndOff(memSize) + HEADER
    requires Header(h, Block(0, EndOff(memSize), false), 0) && Header(h, Block(EndOff(memSize), EndOff(memSize), true), EndOff(memSize))
    ensures var bs := [Block(0, EndOff(memSize), false)];
      && WellFormed(bs, memSize) && Stored(h, bs, EndOff(memSize))
      && LowestFree(bs, EndOff(memSize)) == 0 && UsedExtent(bs) == 0
  {
  }
}
