/** The block layout of the small-memory heap (mem.c) as a value: the blocks from the first
    header up to, and not including, the end stub, in address order.  The class in SmallHeap.dfy
    keeps such a layout in its byte arena; the laws of the allocator are proved here. */
module HeapLayout {
  /* RT_ALIGN_SIZE, SIZEOF_STRUCT_MEM, MIN_SIZE and MIN_SIZE_ALIGNED on a 32-bit target */
  const ALIGN_SIZE := 4
  const HEADER := 12
  const MIN_SIZE := 12
  const MIN_PAYLOAD := 12
  const WORD_LIMIT := 0x1_0000_0000

  /** RT_ALIGN on a 32-bit rt_size_t, wrap-around included. */
  function AlignUp(size: int): (r: int)
    requires 0 <= size < WORD_LIMIT
    ensures 0 <= r < WORD_LIMIT && r % ALIGN_SIZE == 0
    ensures r >= size <==> size <= WORD_LIMIT - ALIGN_SIZE
    ensures r < size + ALIGN_SIZE
    ensures size > WORD_LIMIT - ALIGN_SIZE ==> r == 0
  {
    (size + (ALIGN_SIZE - 1)) % WORD_LIMIT / ALIGN_SIZE * ALIGN_SIZE
  }

  /** One block: header at `off`, payload from `off + HEADER` up to `next`. */
  datatype Block = Block(off: int, next: int, used: bool) {
    function Payload(): int { next - off - HEADER }
    predicate Holds(k: int) { off + HEADER <= k < next }
    predicate Sound() { off % ALIGN_SIZE == 0 && off + HEADER <= next }
  }

  function EndOff(memSize: int): int { memSize + HEADER }

  /** The blocks tile [0, end): headers and payloads are aligned, in address order, without gaps. */
  ghost predicate Tiles(bs: seq<Block>, end: int) {
    && |bs| > 0 && bs[0].off == 0 && bs[|bs| - 1].next == end && end % ALIGN_SIZE == 0
    && (forall i | 0 <= i < |bs| :: bs[i].Sound())
    && InOrder(bs)
  }

  ghost predicate InOrder(bs: seq<Block>) {
    forall i, j | 0 <= i < j < |bs| :: bs[i].next <= bs[j].off && (j == i + 1 ==> bs[i].next == bs[j].off)
  }

  ghost predicate NoTwoFree(bs: seq<Block>) {
    forall i, j | 0 <= i < j < |bs| && j == i + 1 :: bs[i].used || bs[j].used
  }

  ghost predicate WellFormed(bs: seq<Block>, memSize: int) {
    Tiles(bs, EndOff(memSize)) && NoTwoFree(bs)
  }

  /** Offset of the lowest free block, or of the end stub when every block is used. */
  function LowestFree(bs: seq<Block>, end: int): int {
    if bs == [] then end else if !bs[0].used then bs[0].off else LowestFree(bs[1..], end)
  }

  /** Summed extents (header plus payload) of the used blocks. */
  function UsedExtent(bs: seq<Block>): (s: int) {
    if bs == [] then 0
    else (if bs[0].used then bs[0].next - bs[0].off else 0) + UsedExtent(bs[1..])
  }

  /** What the search loop of rt_malloc asks of a block. */
  predicate Eligible(b: Block, memSize: int, size: int) {
    !b.used && b.Payload() >= size && b.off < memSize - size
  }

  function FirstFitFrom(bs: seq<Block>, memSize: int, size: int, i: nat): (r: nat)
    requires i <= |bs|
    ensures i <= r <= |bs|
    ensures r < |bs| ==> Eligible(bs[r], memSize, size)
    ensures forall j | i <= j < r :: !Eligible(bs[j], memSize, size)
    decreases |bs| - i
  {
    if i == |bs| || Eligible(bs[i], memSize, size) then i
    else FirstFitFrom(bs, memSize, size, i + 1)
  }

  function FirstFit(bs: seq<Block>, memSize: int, size: int): nat {
    FirstFitFrom(bs, memSize, size, 0)
  }

  /** Replace the n blocks from i on by `mid`. */
  function Swap(bs: seq<Block>, i: nat, n: nat, mid: seq<Block>): seq<Block>
    requires i + n <= |bs|
  {
    bs[..i] + mid + bs[i + n..]
  }

  /** Cut block i after `size` payload bytes into a used block and a free remainder. */
  function Split(bs: seq<Block>, i: nat, size: int): seq<Block>
    requires i < |bs|
  {
    var cut := bs[i].off + HEADER + size;
    Swap(bs, i, 1, [Block(bs[i].off, cut, true), Block(cut, bs[i].next, false)])
  }

  function SetUsed(bs: seq<Block>, i: nat, used: bool): seq<Block>
    requires i < |bs|
  {
    Swap(bs, i, 1, [bs[i].(used := used)])
  }

  /** Hand out free block i for `size` bytes: split it when a useful remainder is left. */
  function Carve(bs: seq<Block>, i: nat, size: int): seq<Block>
    requires i < |bs|
  {
    if bs[i].Payload() >= size + HEADER + MIN_PAYLOAD then Split(bs, i, size)
    else SetUsed(bs, i, true)
  }

  /** Swallow block i + 1 into block i. */
  function Absorb(bs: seq<Block>, i: nat): seq<Block>
    requires i + 1 < |bs|
  {
    Swap(bs, i, 2, [bs[i].(next := bs[i + 1].next)])
  }

  /** plug_holes on the layout: block i is free; merge it with a free successor, then with a free
      predecessor. */
  function PlugForward(bs: seq<Block>, i: nat): seq<Block>
    requires i < |bs|
  {
    if i + 1 < |bs| && !bs[i + 1].used then Absorb(bs, i) else bs
  }

  function Plug(bs: seq<Block>, i: nat): seq<Block>
    requires i < |bs|
  {
    var f := PlugForward(bs, i);
    if i > 0 && !bs[i - 1].used then Absorb(f, i - 1) else f
  }

  /** rt_free of used block i. */
  function Release(bs: seq<Block>, i: nat): seq<Block>
    requires i < |bs|
  {
    Plug(SetUsed(bs, i, false), i)
  }

  /** The in-place branch of rt_realloc: used block i keeps `size` payload bytes. */
  function Shrink(bs: seq<Block>, i: nat, size: int): seq<Block>
    requires i < |bs|
  {
    Plug(Split(bs, i, size), i + 1)
  }

  /* ---------- sums and the lowest free block under seq surgery ---------- */

  lemma {:induction false} UsedExtentConcat(a: seq<Block>, b: seq<Block>)
    ensures UsedExtent(a + b) == UsedExtent(a) + UsedExtent(b)
  {
    if a == [] {
      assert a + b == b;
    } else {
      assert (a + b)[1..] == a[1..] + b;
      UsedExtentConcat(a[1..], b);
    }
  }

  lemma {:induction false} LowestFreeConcat(a: seq<Block>, b: seq<Block>, end: int)
    ensures LowestFree(a + b, end) == LowestFree(a, LowestFree(b, end))
  {
    if a == [] {
      assert a + b == b;
    } else {
      assert (a + b)[1..] == a[1..] + b;
      LowestFreeConcat(a[1..], b, end);
    }
  }

  /** LowestFree really is the lowest free block. */
  lemma {:induction false} LowestFreeIs(bs: seq<Block>, end: int)
    ensures (forall i | 0 <= i < |bs| :: bs[i].used) ==> LowestFree(bs, end) == end
    ensures forall i | 0 <= i < |bs| && !bs[i].used && (forall j | 0 <= j < i :: bs[j].used) ::
              LowestFree(bs, end) == bs[i].off
  {
    if bs != [] {
      LowestFreeIs(bs[1..], end);
      forall i | 0 < i < |bs| && !bs[i].used && (forall j | 0 <= j < i :: bs[j].used)
        ensures LowestFree(bs, end) == bs[i].off
      {
        assert bs[1..][i - 1] == bs[i];
        assert forall j | 0 <= j < i - 1 :: bs[1..][j] == bs[j + 1];
      }
      if forall i | 0 <= i < |bs| :: bs[i].used {
        assert forall i | 0 <= i < |bs[1..]| :: bs[1..][i] == bs[i + 1];
      }
    }
  }

  /** The live allocations: the used blocks. */
  ghost function Live(bs: seq<Block>): set<Block> {
    set b | b in bs && b.used
  }

  /* ---------- each surgery keeps the tiling and says what it does to the statistics ---------- */

  lemma {:induction false} SwapTiles(bs: seq<Block>, i: nat, n: nat, mid: seq<Block>, end: int)
    requires 0 < n && i + n <= |bs| && Tiles(bs, end) && 0 < |mid| <= 2
    requires mid[0].off == bs[i].off && mid[|mid| - 1].next == bs[i + n - 1].next
    requires forall k | 0 <= k < |mid| :: mid[k].Sound()
    requires |mid| == 2 ==> mid[0].next == mid[1].off
    ensures Tiles(Swap(bs, i, n, mid), end)
  {
    hide InOrder;
    SwapSound(bs, i, n, mid);
    SwapInOrder(bs, i, n, mid);
  }

  lemma {:induction false} SwapSound(bs: seq<Block>, i: nat, n: nat, mid: seq<Block>)
    requires i + n <= |bs|
    requires forall k | 0 <= k < |bs| :: bs[k].Sound()
    requires forall k | 0 <= k < |mid| :: mid[k].Sound()
    ensures var r := Swap(bs, i, n, mid); forall k | 0 <= k < |r| :: r[k].Sound()
  {
    hide Block.Sound;
    var r := Swap(bs, i, n, mid);
    forall k | 0 <= k < |r| ensures r[k].Sound() {
      assert r[k] == if k < i then bs[k] else if k < i + |mid| then mid[k - i] else bs[k - |mid| + n];
    }
  }

  lemma {:induction false} SwapInOrder(bs: seq<Block>, i: nat, n: nat, mid: seq<Block>)
    requires 0 < n && i + n <= |bs| && InOrder(bs) && 0 < |mid| <= 2
    requires mid[0].off == bs[i].off && mid[|mid| - 1].next == bs[i + n - 1].next
    requires mid[0].off <= mid[0].next <= mid[|mid| - 1].next && mid[0].off <= mid[|mid| - 1].off
    requires |mid| == 2 ==> mid[0].next == mid[1].off
    ensures InOrder(Swap(bs, i, n, mid))
  {
    var r := Swap(bs, i, n, mid);
    forall k, l | 0 <= k < l < |r|
      ensures r[k].next <= r[l].off && (l == k + 1 ==> r[k].next == r[l].off)
    {
      hide InOrder, Swap;
      SwapOrder(bs, i, n, mid, k, l);
    }
  }

  lemma {:induction false} SwapOrder(bs: seq<Block>, i: nat, n: nat, mid: seq<Block>, k: nat, l: nat)
    requires 0 < n && i + n <= |bs| && InOrder(bs) && 0 < |mid| <= 2
    requires mid[0].off == bs[i].off && mid[|mid| - 1].next == bs[i + n - 1].next
    requires mid[0].off <= mid[0].next <= mid[|mid| - 1].next && mid[0].off <= mid[|mid| - 1].off
    requires |mid| == 2 ==> mid[0].next == mid[1].off
    requires k < l < |Swap(bs, i, n, mid)|
    ensures var r := Swap(bs, i, n, mid); r[k].next <= r[l].off && (l == k + 1 ==> r[k].next == r[l].off)
  {
    var r := Swap(bs, i, n, mid);
    var k' := if k < i then k else if k < i + |mid| then i + n - 1 else k - |mid| + n;
    var l' := if l < i then l else if l < i + |mid| then i else l - |mid| + n;
    assert r[k] == if k < i then bs[k] else if k < i + |mid| then mid[k - i] else bs[k'];
    assert r[l] == if l < i then bs[l] else if l < i + |mid| then mid[l - i] else bs[l'];
    if k' < l' {
      assert bs[k'].next <= bs[l'].off;
    }
  }

  lemma {:induction false} SwapSums(bs: seq<Block>, i: nat, n: nat, mid: seq<Block>)
    requires i + n <= |bs|
    ensures UsedExtent(Swap(bs, i, n, mid)) == UsedExtent(bs) - UsedExtent(bs[i..i + n]) + UsedExtent(mid)
  {
    assert bs == bs[..i] + (bs[i..i + n] + bs[i + n..]);
    assert Swap(bs, i, n, mid) == bs[..i] + (mid + bs[i + n..]);
    UsedExtentConcat(bs[..i], bs[i..i + n] + bs[i + n..]);
    UsedExtentConcat(bs[i..i + n], bs[i + n..]);
    UsedExtentConcat(bs[..i], mid + bs[i + n..]);
    UsedExtentConcat(mid, bs[i + n..]);
  }

  lemma {:induction false} SwapLowest(bs: seq<Block>, i: nat, n: nat, mid: seq<Block>, end: int)
    requires i + n <= |bs|
    requires forall e :: LowestFree(bs[i..i + n], e) == LowestFree(mid, e)
    ensures LowestFree(Swap(bs, i, n, mid), end) == LowestFree(bs, end)
  {
    assert bs == bs[..i] + (bs[i..i + n] + bs[i + n..]);
    assert Swap(bs, i, n, mid) == bs[..i] + (mid + bs[i + n..]);
    LowestFreeConcat(bs[..i], bs[i..i + n] + bs[i + n..], end);
    LowestFreeConcat(bs[i..i + n], bs[i + n..], end);
    LowestFreeConcat(bs[..i], mid + bs[i + n..], end);
    LowestFreeConcat(mid, bs[i + n..], end);
  }

  lemma {:induction false} SwapLive(bs: seq<Block>, i: nat, n: nat, mid: seq<Block>, end: int)
    requires i + n <= |bs| && Tiles(bs, end)
    ensures Live(Swap(bs, i, n, mid)) == Live(bs) - Live(bs[i..i + n]) + Live(mid)
  {
    var r := Swap(bs, i, n, mid);
    assert forall b :: b in r <==> b in bs[..i] || b in mid || b in bs[i + n..];
    forall b ensures b in bs && b !in bs[i..i + n] <==> b in bs[..i] || b in bs[i + n..] {
      Apart(bs, i, n, b, end);
    }
  }

  lemma {:induction false} Apart(bs: seq<Block>, i: nat, n: nat, b: Block, end: int)
    requires i + n <= |bs| && Tiles(bs, end)
    ensures b in bs && b !in bs[i..i + n] <==> b in bs[..i] || b in bs[i + n..]
  {
    if b in bs && b !in bs[i..i + n] {
      var k :| 0 <= k < |bs| && bs[k] == b;
      if k < i {
        assert bs[..i][k] == b;
      } else if i + n <= k {
        assert bs[i + n..][k - i - n] == b;
      } else {
        MemberOfSlice(bs, i, n, k);
      }
    }
    if b in bs[i..i + n] {
      var k :| i <= k < i + n && bs[k] == b;
      assert bs[k].Sound();
      assert forall j | 0 <= j < |bs| && j != k :: bs[j] != b;
    }
  }

  lemma {:induction false} MemberOfSlice(bs: seq<Block>, i: nat, n: nat, k: nat)
    requires i <= k < i + n <= |bs|
    ensures bs[k] in bs[i..i + n]
  {
    assert bs[i..i + n][k - i] == bs[k];
  }

  lemma {:induction false} OneBlock(b: Block)
    ensures UsedExtent([b]) == if b.used then b.next - b.off else 0
    ensures Live([b]) == if b.used then {b} else {}
  {
    assert UsedExtent([b][1..]) == 0;
  }

  lemma {:induction false} TwoBlocks(a: Block, b: Block)
    ensures UsedExtent([a, b]) == UsedExtent([a]) + UsedExtent([b])
    ensures Live([a, b]) == Live([a]) + Live([b])
  {
    assert [a, b] == [a] + [b];
    UsedExtentConcat([a], [b]);
  }

  lemma {:induction false} SetUsedFacts(bs: seq<Block>, i: nat, used: bool, end: int)
    requires i < |bs| && Tiles(bs, end) && bs[i].used != used
    ensures var r := SetUsed(bs, i, used);
      && Tiles(r, end)
      && UsedExtent(r) == UsedExtent(bs) + (if used then bs[i].next - bs[i].off else bs[i].off - bs[i].next)
      && Live(r) == if used then Live(bs) + {bs[i].(used := true)} else Live(bs) - {bs[i]}
  {
    var mid := [bs[i].(used := used)];
    assert bs[i..i + 1] == [bs[i]] && bs[i].Sound() && mid[0].Sound();
    hide Tiles, Swap, UsedExtent, Live;
    SwapTiles(bs, i, 1, mid, end);
    SwapSums(bs, i, 1, mid);
    SwapLive(bs, i, 1, mid, end);
    OneBlock(bs[i]);
    OneBlock(mid[0]);
  }

  lemma {:induction false} SplitTiles(bs: seq<Block>, i: nat, size: int, end: int)
    requires i < |bs| && Tiles(bs, end)
    requires size >= 0 && size % ALIGN_SIZE == 0 && bs[i].Payload() >= size + HEADER
    ensures Tiles(Split(bs, i, size), end)
  {
    var cut := bs[i].off + HEADER + size;
    var mid := [Block(bs[i].off, cut, true), Block(cut, bs[i].next, false)];
    assert bs[i].Sound() && mid[0].Sound() && mid[1].Sound();
    hide Tiles, Swap, Block.Sound;
    SwapTiles(bs, i, 1, mid, end);
  }

  lemma {:induction false} SplitFacts(bs: seq<Block>, i: nat, size: int, end: int)
    requires i < |bs| && Tiles(bs, end)
    ensures var r := Split(bs, i, size);
      && UsedExtent(r) == UsedExtent(bs) + HEADER + size - (if bs[i].used then bs[i].next - bs[i].off else 0)
      && Live(r) == Live(bs) - {bs[i]} + {Block(bs[i].off, bs[i].off + HEADER + size, true)}
  {
    var cut := bs[i].off + HEADER + size;
    var mid := [Block(bs[i].off, cut, true), Block(cut, bs[i].next, false)];
    assert bs[i..i + 1] == [bs[i]];
    hide Tiles, Swap, UsedExtent, Live;
    SwapSums(bs, i, 1, mid);
    SwapLive(bs, i, 1, mid, end);
    OneBlock(bs[i]);
    OneBlock(mid[0]);
    OneBlock(mid[1]);
    TwoBlocks(mid[0], mid[1]);
  }

  lemma {:induction false} AbsorbFacts(bs: seq<Block>, i: nat, end: int)
    requires i + 1 < |bs| && Tiles(bs, end) && !bs[i].used && !bs[i + 1].used
    ensures var r := Absorb(bs, i);
      && Tiles(r, end)
      && UsedExtent(r) == UsedExtent(bs)
      && LowestFree(r, end) == LowestFree(bs, end)
      && Live(r) == Live(bs)
  {
    var mid := [bs[i].(next := bs[i + 1].next)];
    assert bs[i..i + 2] == [bs[i], bs[i + 1]];
    SwapTiles(bs, i, 2, mid, end);
    SwapSums(bs, i, 2, mid);
    SwapLowest(bs, i, 2, mid, end);
    SwapLive(bs, i, 2, mid, end);
    OneBlock(bs[i]);
    OneBlock(bs[i + 1]);
    OneBlock(mid[0]);
    TwoBlocks(bs[i], bs[i + 1]);
  }

  /** NoTwoFree except possibly for the two pairs that block i belongs to. */
  ghost predicate NoTwoFreeBut(bs: seq<Block>, i: int) {
    forall k, l | 0 <= k < l < |bs| && l == k + 1 && k != i && l != i :: bs[k].used || bs[l].used
  }

  lemma {:induction false} AbsorbPairs(bs: seq<Block>, i: nat, but: int)
    requires i + 1 < |bs| && !bs[i].used && !bs[i + 1].used
    requires NoTwoFreeBut(bs, but) && (but == i || but == i + 1)
    ensures var r := Absorb(bs, i);
      && NoTwoFreeBut(r, i)
      && |r| == |bs| - 1 && !r[i].used
      && (i > 0 ==> r[i - 1] == bs[i - 1]) && (i > 1 ==> r[i - 2] == bs[i - 2])
      && (i + 1 < |r| ==> r[i + 1] == bs[i + 2])
  {
    var r := Absorb(bs, i);
    assert forall k | 0 <= k < i :: r[k] == bs[k];
    assert forall k | i < k < |r| :: r[k] == bs[k + 1];
  }

  /** plug_holes at free block i changes no statistic and no live block, and repairs NoTwoFree
      when only the pairs around i can be broken. */
  lemma {:induction false} PlugFacts(bs: seq<Block>, i: nat, end: int)
    requires i < |bs| && Tiles(bs, end) && !bs[i].used && NoTwoFreeBut(bs, i)
    requires i > 1 && !bs[i - 1].used ==> bs[i - 2].used
    requires i + 2 < |bs| && !bs[i + 1].used ==> bs[i + 2].used
    ensures var r := Plug(bs, i);
      && Tiles(r, end) && NoTwoFree(r)
      && UsedExtent(r) == UsedExtent(bs)
      && LowestFree(r, end) == LowestFree(bs, end)
      && Live(r) == Live(bs)
  {
    hide Tiles, UsedExtent, LowestFree, Live, Absorb, NoTwoFree, NoTwoFreeBut;
    var f := PlugForward(bs, i);
    if i + 1 < |bs| && !bs[i + 1].used {
      AbsorbFacts(bs, i, end);
      AbsorbPairs(bs, i, i);
    }
    if i > 0 && !bs[i - 1].used {
      AbsorbFacts(f, i - 1, end);
      AbsorbPairs(f, i - 1, i);
      NotFreePair(Absorb(f, i - 1), i - 1);
    } else {
      NotFreePair(f, i);
    }
  }

  /* ---------- the operations keep the layout well formed ---------- */

  lemma {:induction false} SplitPairs(bs: seq<Block>, i: nat, size: int)
    requires i < |bs| && NoTwoFree(bs)
    ensures var r := Split(bs, i, size);
      && NoTwoFreeBut(r, i + 1)
      && |r| == |bs| + 1 && r[i].used && !r[i + 1].used
      && (i + 2 < |r| ==> r[i + 2] == bs[i + 1])
      && (i + 3 < |r| ==> r[i + 3] == bs[i + 2])
  {
    var r := Split(bs, i, size);
    assert forall k | 0 <= k < i :: r[k] == bs[k];
    assert forall k | i + 2 <= k < |r| :: r[k] == bs[k - 1];
  }

  lemma {:induction false} SetUsedPairs(bs: seq<Block>, i: nat, used: bool)
    requires i < |bs| && NoTwoFree(bs)
    ensures var r := SetUsed(bs, i, used);
      && NoTwoFreeBut(r, i) && (used ==> NoTwoFree(r)) && r == bs[i := bs[i].(used := used)]
  {
  }

  /** rt_malloc's surgery: block i, free and large enough, becomes the only new live block; its
      payload has at least the requested size and starts where block i did. */
  lemma {:induction false} CarveFacts(bs: seq<Block>, memSize: int, i: nat, size: int)
    requires i < |bs| && WellFormed(bs, memSize)
    requires size >= 0 && size % ALIGN_SIZE == 0 && !bs[i].used && bs[i].Payload() >= size
    ensures var r := Carve(bs, i, size);
      && WellFormed(r, memSize)
      && i < |r| && r[i].off == bs[i].off && r[i].used && r[i].Payload() >= size
      && Live(r) == Live(bs) + {r[i]}
      && UsedExtent(r) == UsedExtent(bs) + (r[i].next - r[i].off)
  {
    if bs[i].Payload() >= size + HEADER + MIN_PAYLOAD {
      SplitTiles(bs, i, size, EndOff(memSize));
      SplitFacts(bs, i, size, EndOff(memSize));
      SplitPairs(bs, i, size);
      var r := Split(bs, i, size);
      assert i + 2 < |r| ==> bs[i + 1].used;
      NotFreePair(r, i + 1);
    } else {
      SetUsedFacts(bs, i, true, EndOff(memSize));
      SetUsedPairs(bs, i, true);
    }
  }

  lemma {:induction false} NotFreePair(bs: seq<Block>, i: nat)
    requires i < |bs| && NoTwoFreeBut(bs, i)
    requires (i > 0 ==> bs[i - 1].used) && (i + 1 < |bs| ==> bs[i + 1].used)
    ensures NoTwoFree(bs)
  {
  }

  /** The block rt_malloc hands out is cut from free space: it overlaps no block that was live. */
  lemma {:induction false} FreeApartFromLive(bs: seq<Block>, end: int, i: nat, b: Block)
    requires i < |bs| && Tiles(bs, end) && !bs[i].used && b in Live(bs)
    ensures b.next <= bs[i].off || bs[i].next <= b.off
  {
    var k :| 0 <= k < |bs| && bs[k] == b;
    assert k != i;
  }

  /** rt_free's surgery: exactly block i stops being live. */
  lemma {:induction false} ReleaseFacts(bs: seq<Block>, memSize: int, i: nat)
    requires i < |bs| && WellFormed(bs, memSize) && bs[i].used
    ensures var r := Release(bs, i);
      && WellFormed(r, memSize)
      && Live(r) == Live(bs) - {bs[i]}
      && UsedExtent(r) == UsedExtent(bs) - (bs[i].next - bs[i].off)
  {
    SetUsedFacts(bs, i, false, EndOff(memSize));
    SetUsedPairs(bs, i, false);
    PlugFacts(SetUsed(bs, i, false), i, EndOff(memSize));
  }

  /** rt_realloc's in-place branch: block i is replaced by a live block of exactly `size` payload
      bytes at the same offset. */
  lemma {:induction false} ShrinkFacts(bs: seq<Block>, memSize: int, i: nat, size: int)
    requires i < |bs| && WellFormed(bs, memSize) && bs[i].used
    requires size >= 0 && size % ALIGN_SIZE == 0 && bs[i].Payload() >= size + HEADER
    ensures var r := Shrink(bs, i, size);
      && WellFormed(r, memSize)
      && Live(r) == Live(bs) - {bs[i]} + {Block(bs[i].off, bs[i].off + HEADER + size, true)}
      && UsedExtent(r) == UsedExtent(bs) - (bs[i].Payload() - size)
  {
    SplitTiles(bs, i, size, EndOff(memSize));
    SplitFacts(bs, i, size, EndOff(memSize));
    SplitPairs(bs, i, size);
    PlugFacts(Split(bs, i, size), i + 1, EndOff(memSize));
  }

  /* ---------- laws ---------- */

  lemma {:induction false} SplitThenAbsorb(bs: seq<Block>, i: nat, size: int)
    requires i < |bs| && !bs[i].used
    ensures var m := SetUsed(Split(bs, i, size), i, false);
      && |m| == |bs| + 1 && !m[i + 1].used && (i > 0 ==> m[i - 1] == bs[i - 1])
      && Absorb(m, i) == bs
  {
    var m := SetUsed(Split(bs, i, size), i, false);
    assert m[..i] == bs[..i] && m[i + 2..] == bs[i + 1..];
    assert Absorb(m, i) == bs[..i] + [bs[i]] + bs[i + 1..];
  }

  /** Freeing what was just allocated restores the layout exactly, and with it the lowest free
      block and the used extent, which are functions of the layout. */
  lemma {:induction false} FreeUndoesMalloc(bs: seq<Block>, memSize: int, i: nat, size: int)
    requires i < |bs| && WellFormed(bs, memSize)
    requires size >= 0 && !bs[i].used && bs[i].Payload() >= size
    ensures Release(Carve(bs, i, size), i) == bs
  {
    assert i > 0 ==> bs[i - 1].used;
    assert i + 1 < |bs| ==> bs[i + 1].used;
    hide Tiles, NoTwoFree;
    if bs[i].Payload() >= size + HEADER + MIN_PAYLOAD {
      SplitThenAbsorb(bs, i, size);
      hide Split, SetUsed, Absorb;
    } else {
      var m := SetUsed(SetUsed(bs, i, true), i, false);
      assert m == bs;
      hide SetUsed;
    }
  }

  /** A free block that can hold the request, and the one family the search misses. */
  predicate CanHold(b: Block, size: int) { !b.used && b.Payload() >= size }

  predicate ExactAtEnd(b: Block, memSize: int, size: int) {
    b.Payload() == size && b.next == EndOff(memSize)
  }

  /** rt_malloc's search finds a block exactly when some free block can hold the request and is not
      an exact fit ending at the end stub; and what it finds is the lowest such block. */
  lemma {:induction false} SearchComplete(bs: seq<Block>, memSize: int, size: int)
    requires WellFormed(bs, memSize)
    ensures forall b | b in bs :: Eligible(b, memSize, size) <==> CanHold(b, size) && !ExactAtEnd(b, memSize, size)
    ensures FirstFit(bs, memSize, size) < |bs| <==>
            exists b :: b in bs && CanHold(b, size) && !ExactAtEnd(b, memSize, size)
  {
    forall b | b in bs
      ensures Eligible(b, memSize, size) <==> CanHold(b, size) && !ExactAtEnd(b, memSize, size)
    {
      var k :| 0 <= k < |bs| && bs[k] == b;
      assert k < |bs| - 1 ==> bs[k].next <= bs[|bs| - 1].off;
      assert b.next <= EndOff(memSize);
    }
    var r := FirstFit(bs, memSize, size);
    if r < |bs| {
      assert bs[r] in bs;
    }
  }

  /** The strict bound at work: a heap that is one free block refuses a request for all of it. */
  lemma {:induction false} WholeHeapRefused(memSize: int)
    requires memSize >= MIN_PAYLOAD && memSize % ALIGN_SIZE == 0
    ensures var bs := [Block(0, EndOff(memSize), false)];
      && WellFormed(bs, memSize) && CanHold(bs[0], memSize)
      && FirstFit(bs, memSize, memSize) == |bs|
  {
    var bs := [Block(0, EndOff(memSize), false)];
    assert FirstFitFrom(bs, memSize, memSize, 1) == 1;
  }

  /** Live payloads never overlap. */
  lemma {:induction false} LiveDisjoint(bs: seq<Block>, end: int, a: Block, b: Block)
    requires Tiles(bs, end) && a in Live(bs) && b in Live(bs) && a != b
    ensures a.next <= b.off || b.next <= a.off
    ensures 0 <= a.off && a.next <= end && (a.off + HEADER) % ALIGN_SIZE == 0
  {
    var i :| 0 <= i < |bs| && bs[i] == a;
    var j :| 0 <= j < |bs| && bs[j] == b;
    assert i > 0 ==> bs[0].next <= bs[i].off;
    assert i < |bs| - 1 ==> bs[i].next <= bs[|bs| - 1].off;
  }

  /* ---------- the lowest free block after each operation ---------- */

  ghost predicate IsLowest(bs: seq<Block>, end: int, l: int) {
    || (l == end && forall j | 0 <= j < |bs| :: bs[j].used)
    || exists i :: 0 <= i < |bs| && !bs[i].used && l == bs[i].off && forall j | 0 <= j < i :: bs[j].used
  }

  lemma {:induction false} LowestIff(bs: seq<Block>, end: int)
    ensures IsLowest(bs, end, LowestFree(bs, end))
    ensures forall l | IsLowest(bs, end, l) :: l == LowestFree(bs, end)
  {
    LowestFreeIs(bs, end);
    LowestExists(bs, end);
  }

  lemma {:induction false} LowestExists(bs: seq<Block>, end: int)
    ensures IsLowest(bs, end, LowestFree(bs, end))
  {
    if bs != [] && bs[0].used {
      LowestExists(bs[1..], end);
      var l := LowestFree(bs[1..], end);
      if l == end && forall j | 0 <= j < |bs[1..]| :: bs[1..][j].used {
        forall j | 0 <= j < |bs| ensures bs[j].used {
          assert j > 0 ==> bs[j] == bs[1..][j - 1];
        }
      } else {
        var i :| 0 <= i < |bs[1..]| && !bs[1..][i].used && l == bs[1..][i].off && forall j | 0 <= j < i :: bs[1..][j].used;
        assert bs[i + 1] == bs[1..][i];
        forall j | 0 <= j < i + 1 ensures bs[j].used {
          assert j > 0 ==> bs[j] == bs[1..][j - 1];
        }
      }
    }
  }

  lemma {:induction false} LowestAfterFree(bs: seq<Block>, end: int, i: nat)
    requires i < |bs| && Tiles(bs, end) && bs[i].used
    ensures var l := LowestFree(bs, end);
      LowestFree(SetUsed(bs, i, false), end) == if bs[i].off < l then bs[i].off else l
  {
    LowestIff(bs, end);
    var r := SetUsed(bs, i, false);
    LowestIff(r, end);
    assert r == bs[i := bs[i].(used := false)];
    var l := LowestFree(bs, end);
    hide LowestFree, SetUsed;
    FirstFreeStep(bs, end, i, l);
  }

  lemma {:induction false} FirstFreeStep(bs: seq<Block>, end: int, i: nat, l: int)
    requires i < |bs| && Tiles(bs, end) && bs[i].used && IsLowest(bs, end, l)
    ensures IsLowest(bs[i := bs[i].(used := false)], end, if bs[i].off < l then bs[i].off else l)
  {
    var r := bs[i := bs[i].(used := false)];
    if l == end && forall j | 0 <= j < |bs| :: bs[j].used {
      assert bs[i].Sound() && (i < |bs| - 1 ==> bs[i].next <= bs[|bs| - 1].off) && bs[|bs| - 1].Sound();
      assert !r[i].used;
    } else {
      var k :| 0 <= k < |bs| && !bs[k].used && l == bs[k].off && forall j | 0 <= j < k :: bs[j].used;
      assert bs[i].Sound() && bs[k].Sound();
      if i < k {
        assert bs[i].next <= bs[k].off;
        assert !r[i].used;
      } else {
        assert bs[k].next <= bs[i].off;
        assert !r[k].used;
      }
    }
  }

  /** Freeing the tail of used block i. */
  lemma {:induction false} LowestAfterCut(bs: seq<Block>, end: int, i: nat, size: int)
    requires i < |bs| && Tiles(bs, end) && bs[i].used && 0 <= size && bs[i].Payload() >= size + HEADER
    ensures var l := LowestFree(bs, end); var cut := bs[i].off + HEADER + size;
      LowestFree(Split(bs, i, size), end) == if cut < l then cut else l
  {
    var r := Split(bs, i, size);
    LowestIff(bs, end);
    LowestIff(r, end);
    assert r[i] == Block(bs[i].off, bs[i].off + HEADER + size, true) && r[i + 1] == Block(r[i].next, bs[i].next, false);
    assert forall k | 0 <= k < i :: r[k] == bs[k];
    assert forall k | i + 2 <= k < |r| :: r[k] == bs[k - 1];
    var l := LowestFree(bs, end);
    hide LowestFree, Split;
    CutStep(bs, end, i, size, l, r);
  }

  lemma {:induction false} CutStep(bs: seq<Block>, end: int, i: nat, size: int, l: int, r: seq<Block>)
    requires i < |bs| && Tiles(bs, end) && bs[i].used && 0 <= size && bs[i].Payload() >= size + HEADER
    requires IsLowest(bs, end, l) && |r| == |bs| + 1
    requires r[i].used && !r[i + 1].used && r[i + 1].off == bs[i].off + HEADER + size
    requires forall k | 0 <= k < i :: r[k] == bs[k]
    ensures IsLowest(r, end, var cut := bs[i].off + HEADER + size; if cut < l then cut else l)
  {
    if l == end && forall j | 0 <= j < |bs| :: bs[j].used {
      assert bs[i].Sound() && (i < |bs| - 1 ==> bs[i].next <= bs[|bs| - 1].off) && bs[|bs| - 1].Sound();
      assert !r[i + 1].used;
    } else {
      var k :| 0 <= k < |bs| && !bs[k].used && l == bs[k].off && forall j | 0 <= j < k :: bs[j].used;
      assert bs[i].Sound() && bs[k].Sound();
      if i < k {
        assert bs[i].next <= bs[k].off;
        assert !r[i + 1].used;
      } else {
        assert bs[k].next <= bs[i].off;
        assert !r[k].used;
      }
    }
  }

  /** Taking a free block that is not the lowest one does not move the lowest. */
  lemma {:induction false} LowestAfterCarve(bs: seq<Block>, end: int, i: nat, size: int)
    requires i < |bs| && Tiles(bs, end) && !bs[i].used && bs[i].off != LowestFree(bs, end)
    ensures LowestFree(Carve(bs, i, size), end) == LowestFree(bs, end)
  {
    var r := Carve(bs, i, size);
    LowestIff(bs, end);
    LowestIff(r, end);
    assert forall k | 0 <= k < i :: r[k] == bs[k];
    var l := LowestFree(bs, end);
    hide LowestFree, Carve;
    var k :| 0 <= k < |bs| && !bs[k].used && l == bs[k].off && forall j | 0 <= j < k :: bs[j].used;
    assert k < i;
    assert !r[k].used && r[k].off == l;
  }

  lemma {:induction false} LowestNotSecond(bs: seq<Block>, end: int, i: nat)
    requires i + 1 < |bs| && Tiles(bs, end) && !bs[i].used && !bs[i + 1].used
    ensures LowestFree(bs, end) <= bs[i].off < bs[i + 1].off
  {
    LowestIff(bs, end);
    hide LowestFree;
    var k :| 0 <= k < |bs| && !bs[k].used && LowestFree(bs, end) == bs[k].off && forall j | 0 <= j < k :: bs[j].used;
    assert bs[i].Sound() && bs[k].Sound() && bs[i].next <= bs[i + 1].off;
    assert k < i ==> bs[k].next <= bs[i].off;
  }

  lemma {:induction false} FirstFitIs(bs: seq<Block>, memSize: int, size: int, r: nat)
    requires r <= |bs| && (r < |bs| ==> Eligible(bs[r], memSize, size))
    requires forall j | 0 <= j < r :: !Eligible(bs[j], memSize, size)
    ensures FirstFit(bs, memSize, size) == r
  {
    var f := FirstFitFrom(bs, memSize, size, 0);
    assert !(r < f) && !(f < r);
  }

  /** The free blocks below the lowest free block do not exist, so the search may start there. */
  lemma {:induction false} LowestIndex(bs: seq<Block>, end: int) returns (i: nat)
    requires Tiles(bs, end)
    ensures i <= |bs| && (forall j | 0 <= j < i :: bs[j].used)
    ensures LowestFree(bs, end) == if i < |bs| then bs[i].off else end
  {
    LowestIff(bs, end);
    var l := LowestFree(bs, end);
    if l == end && forall j | 0 <= j < |bs| :: bs[j].used {
      i := |bs|;
    } else {
      i :| 0 <= i < |bs| && !bs[i].used && l == bs[i].off && forall j | 0 <= j < i :: bs[j].used;
    }
  }

  lemma {:induction false} LowestSoFar(bs: seq<Block>, end: int, i: nat)
    requires Tiles(bs, end) && i < |bs| && bs[i].off == LowestFree(bs, end)
    ensures forall j | 0 <= j < i :: bs[j].used
  {
    LowestIff(bs, end);
    assert bs[|bs| - 1].Sound() && bs[i].Sound();
  }

  /** The block whose header is at `off`, or |bs|. */
  function IndexOf(bs: seq<Block>, off: int): (i: nat)
    ensures i <= |bs| && (i < |bs| ==> bs[i].off == off)
    ensures forall j | 0 <= j < i :: bs[j].off != off
  {
    if bs == [] || bs[0].off == off then 0 else IndexOf(bs[1..], off) + 1
  }

  lemma {:induction false} Ascending(bs: seq<Block>, end: int)
    requires Tiles(bs, end)
    ensures forall i, j | 0 <= i < j < |bs| :: bs[i].off < bs[j].off
  {
    forall i, j | 0 <= i < j < |bs| ensures bs[i].off < bs[j].off {
      assert bs[i].Sound();
    }
  }

  lemma {:induction false} IndexOfLive(bs: seq<Block>, end: int, b: Block)
    requires Tiles(bs, end) && b in Live(bs)
    ensures IndexOf(bs, b.off) < |bs| && bs[IndexOf(bs, b.off)] == b
  {
    var k :| 0 <= k < |bs| && bs[k] == b;
    var i := IndexOf(bs, b.off);
    Ascending(bs, end);
    assert i == k;
  }

  lemma {:induction false} FirstFitFacts(bs: seq<Block>, memSize: int, size: int)
    ensures var f := FirstFit(bs, memSize, size);
      f <= |bs| && (f < |bs| ==> Eligible(bs[f], memSize, size)) && forall j | 0 <= j < f :: !Eligible(bs[j], memSize, size)
  {
  }

  lemma {:induction false} IndexOfIs(bs: seq<Block>, end: int, k: nat)
    requires Tiles(bs, end) && k < |bs|
    ensures IndexOf(bs, bs[k].off) == k
  {
    Ascending(bs, end);
  }

  /** Free extents, the other half of the accounting. */
  function FreeExtent(bs: seq<Block>): int {
    if bs == [] then 0
    else (if bs[0].used then 0 else bs[0].next - bs[0].off) + FreeExtent(bs[1..])
  }

  /** Used and free extents add up to the whole arena. */
  lemma {:induction false} ExtentsAddUp(bs: seq<Block>, end: int)
    requires |bs| > 0 && InOrder(bs) && bs[|bs| - 1].next == end
    ensures UsedExtent(bs) + FreeExtent(bs) == end - bs[0].off
  {
    if |bs| > 1 {
      assert bs[1..][0] == bs[1] && bs[0].next == bs[1].off;
      assert bs[1..][|bs[1..]| - 1] == bs[|bs| - 1];
      ExtentsAddUp(bs[1..], end);
    } else {
      assert bs[1..] == [];
    }
  }
}
