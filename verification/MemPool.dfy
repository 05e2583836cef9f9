/** The memory pool object (mempool.c).  In front of every block stands one pointer: the next free
    block while the block is free, the pool itself while the block is handed out. */
module MemPool {
  import opened WaitList
  import opened Blocking
  import opened Nodes
  import opened Arithmetic
  import HeapLayout
  import Spec = MemPoolSpec

  const WORD_SIZE := 4   // sizeof(rt_uint8_t *)

  /** RT_ALIGN_DOWN of the pool size. */
  function PoolSize(size: nat): nat { size - size % HeapLayout.ALIGN_SIZE }

  /** Distance of two blocks, the pointer in front included. */
  function Stride(blockSize: nat): (r: nat)
    requires blockSize < HeapLayout.WORD_LIMIT
    ensures r >= WORD_SIZE
  {
    HeapLayout.AlignUp(blockSize) + WORD_SIZE
  }

  function Total(size: nat, blockSize: nat): nat
    requires blockSize < HeapLayout.WORD_LIMIT
  {
    Quota(PoolSize(size), Stride(blockSize))
  }

  function Quota(x: nat, d: nat): nat
    requires d > 0
  {
    x / d
  }

  lemma {:induction false} Quotient(x: nat, d: nat)
    requires d > 0
    ensures Quota(x, d) * d <= x < (Quota(x, d) + 1) * d
  {
  }

  /** Blocks are as close as the alignment allows: the distance is the least multiple of 4 that holds
      the block and its pointer. */
  lemma {:induction false} StrideIsLeast(blockSize: nat)
    requires blockSize <= HeapLayout.WORD_LIMIT - HeapLayout.ALIGN_SIZE
    ensures var d := Stride(blockSize); d % 4 == 0 && blockSize + 4 <= d < blockSize + 8
  {
  }

  lemma {:induction false} Sizes(size: nat, blockSize: nat)
    requires 0 < blockSize <= HeapLayout.WORD_LIMIT - HeapLayout.ALIGN_SIZE
    ensures var d, n := Stride(blockSize), Total(size, blockSize);
      blockSize + WORD_SIZE <= d && d % 4 == 0 && n * d <= PoolSize(size) <= size && PoolSize(size) < (n + 1) * d
  {
    hide HeapLayout.AlignUp, Quota;
    Quotient(PoolSize(size), Stride(blockSize));
  }

  /** A pool has as many blocks as fit, with their pointers, into the bytes it was given. */
  lemma {:induction false} TotalFits(size: nat, blockSize: nat)
    requires 0 < blockSize <= HeapLayout.WORD_LIMIT - HeapLayout.ALIGN_SIZE
    ensures var d, n := Stride(blockSize), Total(size, blockSize); n * d <= size < (n + 1) * d
  {
    hide Stride, Total, PoolSize;
    var d, n := Stride(blockSize), Total(size, blockSize);
    Sizes(size, blockSize);
    MultipleOfFour(n + 1, d);
    RoundedDown(size, (n + 1) * d);
  }

  lemma {:induction false} RoundedDown(size: nat, m: int)
    requires PoolSize(size) < m && m % 4 == 0
    ensures size < m
  {
  }

  /** Block i lies inside the pool, is aligned like the pool, overlaps no other block or pointer, and
      there is no room for one more block. */
  lemma {:induction false} BlocksFit(size: nat, blockSize: nat, i: nat, j: nat)
    requires 0 < blockSize <= HeapLayout.WORD_LIMIT - HeapLayout.ALIGN_SIZE && i < Total(size, blockSize)
    ensures var d := Stride(blockSize);
      && BlockAt(d, i) % HeapLayout.ALIGN_SIZE == 0
      && BlockAt(d, i) + blockSize <= size
      && (i < j ==> BlockAt(d, i) + blockSize <= BlockAt(d, j) - WORD_SIZE)
      && PoolSize(size) < BlockAt(d, Total(size, blockSize)) - WORD_SIZE + d
  {
    hide Stride, Total, PoolSize, BlockAt;
    var d, n := Stride(blockSize), Total(size, blockSize);
    Sizes(size, blockSize);
    Ahead(d, i, n);
    if i < j {
      Ahead(d, i, j);
    }
    LastBlock(d, n);
  }

  /** The last store of the initialisation, RT_NULL for the last block, lies inside the pool exactly
      when the pool has room for a block; without one it lies in front of the pool. */
  lemma {:induction false} LastLink(size: nat, blockSize: nat)
    requires 0 < blockSize <= HeapLayout.WORD_LIMIT - HeapLayout.ALIGN_SIZE
    ensures var d, n := Stride(blockSize), Total(size, blockSize);
      0 <= (n - 1) * d && (n - 1) * d + WORD_SIZE <= size <==> n > 0
  {
    hide Stride, Total, PoolSize, BlockAt;
    var d, n := Stride(blockSize), Total(size, blockSize);
    Sizes(size, blockSize);
    if n > 0 {
      BlocksFit(size, blockSize, n - 1, n);
      LastBlock(d, n - 1);
    } else {
      NegativePlace(d);
    }
  }

  lemma {:induction false} NegativePlace(d: nat)
    requires d > 0
    ensures (0 - 1) * d < 0
  {
  }

  /** Where block i starts, behind its pointer. */
  function BlockAt(stride: nat, i: nat): nat { i * stride + WORD_SIZE }

  lemma {:induction false} Ahead(d: nat, i: nat, j: nat)
    requires i < j && d % 4 == 0
    ensures BlockAt(d, i) % 4 == 0 && BlockAt(d, i) + d <= BlockAt(d, j)
  {
    Steps(i, j, d);
    MultipleOfFour(i, d);
  }

  lemma {:induction false} LastBlock(d: nat, n: nat)
    ensures BlockAt(d, n) - WORD_SIZE == n * d && n * d + d == (n + 1) * d
  {
  }

  datatype Word = Null | Block(k: nat) | Control(mp: MemPool)

  ghost function Link(l: seq<nat>, i: nat): Word {
    if i < |l| then Block(l[i]) else Null
  }

  /** The free list that starts at `first` consists of the blocks l. */
  ghost predicate Linked(area: seq<Word>, first: Word, l: seq<nat>) {
    && first == Link(l, 0)
    && (forall i | 0 <= i < |l| :: l[i] < |area|)
    && (forall i, j | 0 <= i < |l| && j == i + 1 :: area[l[i]] == Link(l, j))
  }

  lemma {:induction false} PopLink(area: seq<Word>, first: Word, l: seq<nat>, w: Word)
    requires Linked(area, first, l) && l != [] && NoRepeats(l)
    ensures first == Block(l[0]) && l[0] < |area| && Linked(area[l[0] := w], area[l[0]], l[1..])
  {
    var m := l[1..];
    LinkRest(l);
    forall i, j | 0 <= i < |m| && j == i + 1 ensures area[l[0] := w][m[i]] == Link(m, j) {
      assert m[i] == l[j] && l[j] != l[0] && area[l[j]] == Link(l, j + 1);
    }
  }

  lemma {:induction false} LinkRest(l: seq<nat>)
    requires l != []
    ensures forall i: nat :: Link(l[1..], i) == Link(l, i + 1)
  {
  }

  lemma {:induction false} PushLink(area: seq<Word>, first: Word, l: seq<nat>, k: nat)
    requires Linked(area, first, l) && k < |area| && k !in l
    ensures Linked(area[k := first], Block(k), [k] + l)
  {
    var m := [k] + l;
    assert m[1..] == l;
    LinkRest(m);
    forall i, j | 0 <= i < |m| && j == i + 1 ensures area[k := first][m[i]] == Link(m, j) {
      if i > 0 {
        assert m[i] == l[i - 1] && l[i - 1] in l && area[l[i - 1]] == Link(l, i);
      }
    }
  }

  lemma {:induction false} UpLinked(area: seq<Word>)
    requires |area| > 0 && area[|area| - 1] == Null
    requires forall i, j | 0 <= i < |area| - 1 && j == i + 1 :: area[i] == Block(j)
    ensures Linked(area, Block(0), Spec.Up(|area|))
  {
  }

  class MemPool {
    const area: array<Word>       // start_address: the pointers in front of the blocks
    const total: nat              // block_total_count
    var blockList: Word
    var freeCount: nat            // block_free_count
    var waiting: seq<Thread>      // suspend_thread
    ghost var free: seq<nat>
    ghost var taken: set<nat>
    ghost var retry: set<nat>

    ghost function View(): Spec.State
      reads this
    {
      Spec.State(total, free, taken, Side(waiting, retry))
    }

    /** The pointers match: the free list, and the pool's own address in front of every block that is
        handed out. */
    ghost predicate Pointers()
      reads `blockList, `freeCount, `free, `taken, area
    {
      && area.Length == total && freeCount == |free|
      && Linked(area[..], blockList, free)
      && forall k | k in taken :: k < total && area[k] == Control(this)
    }

    ghost predicate Valid()
      reads this, area
    {
      Pointers() && Spec.Inv(View())
    }

    /** rt_mp_init, for a pool that has room for at least one block. */
    constructor (size: nat, blockSize: nat)
      requires blockSize <= HeapLayout.WORD_LIMIT - HeapLayout.ALIGN_SIZE && Total(size, blockSize) > 0
      ensures Valid() && fresh(area)
      ensures View() == Spec.State(Total(size, blockSize), Spec.Up(Total(size, blockSize)), {}, Side([], {}))
    {
      hide Total, Linked, Spec.Inv;
      var n := Total(size, blockSize);
      total, freeCount, waiting, blockList := n, n, [], Block(0);
      area := new Word[n];
      free, taken, retry := Spec.Up(n), {}, {};
      new;
      var offset := 0;
      while offset < n
        invariant 0 <= offset <= n == area.Length
        invariant forall i, j | 0 <= i < offset && j == i + 1 :: area[i] == Block(j)
        modifies area
      {
        area[offset] := Block(offset + 1);
        offset := offset + 1;
      }
      area[offset - 1] := Null;
      Spec.InitialInv(n);
      UpLinked(area[..]);
    }

    /** The critical region of rt_mp_alloc, entered first or after being resumed. */
    method AllocLook(t: Thread, time: int) returns (r: Spec.Result)
      requires Pointers() && NoRepeats(free)
      modifies this, area
      ensures Pointers() && (View(), r) == Spec.Alloc(old(View()), t, time != 0)
    {
      hide NoRepeats, Linked;
      FirstFree(area[..], blockList, free);
      if freeCount == 0 {
        if time == 0 {
          return Spec.NoBlock;
        }
        waiting := [t] + waiting;
        return Spec.Suspended;
      }
      var k := blockList.k;
      PopLink(area[..], blockList, free, Control(this));
      freeCount := freeCount - 1;
      blockList := area[k];
      area[k] := Control(this);
      taken, free := taken + {k}, free[1..];
      return Spec.Got(k);
    }

    method Alloc(t: Thread, time: int) returns (r: Spec.Result)
      requires Valid() && Spec.Enabled(View(), Spec.AllocEvent(t, time != 0))
      modifies this, area
      ensures Valid() && (View(), r) == Spec.Alloc(old(View()), t, time != 0)
      ensures r.Got? ==> r.k < total && r.k !in old(taken) && area[r.k] == Control(this)
    {
      hide Spec.Enabled, Spec.Alloc, NoRepeats, Linked, Sound;
      Spec.StepKeeps(View(), Spec.AllocEvent(t, time != 0));
      Spec.AllocThenFree(View(), t, time != 0);
      r := AllocLook(t, time);
    }

    /** A resumed allocator runs again, with the time it has left. */
    method AllocAgain(t: Thread, time: int) returns (r: Spec.Result)
      requires Valid() && Spec.Enabled(View(), Spec.AllocRetry(t, time != 0))
      modifies this, area
      ensures Valid() && View() == Spec.Next(old(View()), Spec.AllocRetry(t, time != 0))
    {
      hide Spec.Enabled, Spec.Alloc, NoRepeats, Linked, Sound;
      Spec.StepKeeps(View(), Spec.AllocRetry(t, time != 0));
      retry := retry - {t.id};
      r := AllocLook(t, time);
    }

    /** Link the block into the free list. */
    method PutBlock(k: nat)
      requires Pointers() && k in taken && k !in free
      modifies `freeCount, `blockList, `taken, `free, area
      ensures Pointers() && taken == old(taken) - {k} && free == [k] + old(free)
    {
      hide Linked;
      PushLink(area[..], blockList, free, k);
      freeCount := freeCount + 1;
      area[k] := blockList;
      blockList := Block(k);
      taken, free := taken - {k}, [k] + free;
    }

    /** The rest of rt_mp_free once it knows the pool. */
    method Put(k: nat)
      requires Valid() && k in taken
      modifies this, area
      ensures Valid() && View() == Spec.Free(old(View()), k)
    {
      hide Pointers, Sound, Wake, Awake, Pool, NoRepeats;
      Spec.StepKeeps(View(), Spec.FreeEvent(k));
      NodesMean(free, k);
      HandedOut(k);
      PutBlock(k);
      WakeFirst();
    }

    lemma HandedOut(k: nat)
      requires Pointers() && k in taken
      ensures k < total && area.Length == total && area[k] == Control(this)
    {
    }

    method WakeFirst()
      modifies `waiting, `retry
      ensures Side(waiting, retry) == Wake(old(Side(waiting, retry)))
    {
      if waiting != [] {
        retry := retry + {waiting[0].id};
        waiting := waiting[1..];
      }
    }

    /** rt_thread_timeout of a sleeping allocator. */
    method Timeout(id: nat)
      requires Valid()
      modifies `waiting
      ensures Valid() && View() == Spec.Next(old(View()), Spec.TimeoutEvent(id))
    {
      hide Spec.Inv, Linked;
      Spec.StepKeeps(View(), Spec.TimeoutEvent(id));
      waiting := Without(waiting, id);
    }
  }

  lemma {:induction false} FirstFree(area: seq<Word>, first: Word, l: seq<nat>)
    requires Linked(area, first, l)
    ensures l == [] ==> first == Null
    ensures l != [] ==> first == Block(l[0]) && l[0] < |area|
  {
  }

  /** A pointer that rt_mp_free is given: none, or the block behind the k-th pointer of an area. */
  datatype Pointer = NoPointer | At(area: array<Word>, k: nat)

  /** rt_mp_free: the pointer in front of the block leads back to the pool that handed it out. */
  method Free(block: Pointer, ghost owner: MemPool)
    requires owner.Valid() && (block.At? ==> block.area == owner.area && block.k in owner.taken)
    modifies owner, owner.area
    ensures owner.Valid()
    ensures owner.View() == if block.At? then Spec.Free(old(owner.View()), block.k) else old(owner.View())
  {
    if block.NoPointer? {
      return;
    }
    var mp := block.area[block.k].mp;
    mp.Put(block.k);
  }

  /** Two pools share nothing: freeing into one leaves the other as it was. */
  method FreeLeavesOthers(block: Pointer, ghost owner: MemPool, ghost other: MemPool)
    requires owner.Valid() && block.At? && block.area == owner.area && block.k in owner.taken
    requires other.Valid() && other != owner && other.area != owner.area
    modifies owner, owner.area
    ensures owner.Valid() && owner.View() == Spec.Free(old(owner.View()), block.k)
    ensures other.Valid() && other.View() == old(other.View())
  {
    Free(block, owner);
  }
}
