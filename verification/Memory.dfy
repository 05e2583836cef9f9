/** Copying memory and aligned allocation (kservice.c).  Addresses are offsets into one byte array. */
module Memory {
  import opened Arithmetic
  import opened HeapLayout

  type Byte = x: int | 0 <= x < 256

  predicate InRange(n: nat, at: nat, count: nat) { at + count <= n }

  /** The memory after `count` bytes from src went to dst, as if through a buffer. */
  function Moved(m: seq<Byte>, dst: nat, src: nat, count: nat): (r: seq<Byte>)
    requires InRange(|m|, dst, count) && InRange(|m|, src, count)
    ensures |r| == |m|
    ensures forall j | 0 <= j < |m| :: r[j] == if dst <= j < dst + count then m[src + (j - dst)] else m[j]
  {
    m[..dst] + m[src..src + count] + m[dst + count..]
  }

  /** A copy byte by byte from the low end. */
  function Forward(m: seq<Byte>, dst: nat, src: nat, count: nat): (r: seq<Byte>)
    requires InRange(|m|, dst, count) && InRange(|m|, src, count)
    ensures |r| == |m|
    decreases count
  {
    if count == 0 then m
    else
      var r := Forward(m, dst, src, count - 1);
      r[dst + count - 1 := r[src + count - 1]]
  }

  /** Where a forward copy gets byte j of its result from. */
  lemma {:induction false} ForwardBytes(m: seq<Byte>, dst: nat, src: nat, count: nat, j: nat)
    requires InRange(|m|, dst, count) && InRange(|m|, src, count) && j < |m|
    ensures !(dst <= j < dst + count) ==> Forward(m, dst, src, count)[j] == m[j]
    ensures (dst <= src || src + count <= dst) && dst <= j < dst + count ==>
      Forward(m, dst, src, count)[j] == m[src + (j - dst)]
    decreases count
  {
    if count > 0 {
      ForwardBytes(m, dst, src, count - 1, j);
      ForwardBytes(m, dst, src, count - 1, src + count - 1);
    }
  }

  /** A forward copy moves every contents right exactly when the destination does not begin inside the
      source, behind its first byte. */
  lemma {:induction false} ForwardIsMove(n: nat, dst: nat, src: nat, count: nat)
    requires InRange(n, dst, count) && InRange(n, src, count)
    ensures (forall m: seq<Byte> | |m| == n :: Forward(m, dst, src, count) == Moved(m, dst, src, count))
      <==> !(src < dst < src + count)
  {
    hide Forward, Moved;
    if src < dst < src + count {
      var m := OneByte(n, dst);
      Overwritten(m, dst, src, count);
    } else {
      forall m: seq<Byte> | |m| == n ensures Forward(m, dst, src, count) == Moved(m, dst, src, count) {
        ApartIsMove(m, dst, src, count);
      }
    }
  }

  function OneByte(n: nat, at: nat): (m: seq<Byte>)
    ensures |m| == n && forall i | 0 <= i < n :: m[i] == if i == at then 1 else 0
  {
    seq(n, i => if i == at then 1 else 0)
  }

  lemma {:induction false} ApartIsMove(m: seq<Byte>, dst: nat, src: nat, count: nat)
    requires InRange(|m|, dst, count) && InRange(|m|, src, count) && (dst <= src || src + count <= dst)
    ensures Forward(m, dst, src, count) == Moved(m, dst, src, count)
  {
    hide Forward;
    forall j | 0 <= j < |m| ensures Forward(m, dst, src, count)[j] == Moved(m, dst, src, count)[j] {
      ForwardBytes(m, dst, src, count, j);
    }
  }

  /** The first overlapping byte is gone before it is read. */
  lemma {:induction false} Overwritten(m: seq<Byte>, dst: nat, src: nat, count: nat)
    requires InRange(|m|, dst, count) && InRange(|m|, src, count) && src < dst < src + count && m[src] != m[dst]
    ensures Forward(m, dst, src, count)[dst + (dst - src)] != Moved(m, dst, src, count)[dst + (dst - src)]
  {
    var k := dst - src;
    FirstByte(m, dst, src, k);
    assert Forward(m, dst, src, k + 1)[dst + k] == Forward(m, dst, src, k)[dst];
    StaysWritten(m, dst, src, k + 1, count);
  }

  lemma {:induction false} FirstByte(m: seq<Byte>, dst: nat, src: nat, count: nat)
    requires InRange(|m|, dst, count) && InRange(|m|, src, count) && count > 0 && src < dst
    ensures Forward(m, dst, src, count)[dst] == m[src]
    decreases count
  {
    if count > 1 {
      FirstByte(m, dst, src, count - 1);
    } else {
      assert Forward(m, dst, src, 0) == m;
    }
  }

  lemma {:induction false} StaysWritten(m: seq<Byte>, dst: nat, src: nat, few: nat, count: nat)
    requires InRange(|m|, dst, count) && InRange(|m|, src, count) && 0 < few <= count
    ensures Forward(m, dst, src, count)[dst + few - 1] == Forward(m, dst, src, few)[dst + few - 1]
    decreases count
  {
    if few < count {
      StaysWritten(m, dst, src, few, count - 1);
    }
  }

  /** One more byte below a destination that lies above its source. */
  lemma {:induction false} MovedDown(m: seq<Byte>, dst: nat, src: nat, count: nat)
    requires InRange(|m|, dst, count) && InRange(|m|, src, count) && 0 < src < dst
    ensures var r := Moved(m, dst, src, count);
      r[dst - 1 := r[src - 1]] == Moved(m, dst - 1, src - 1, count + 1)
  {
  }

  lemma {:induction false} MovedNothing(m: seq<Byte>, dst: nat, src: nat)
    requires InRange(|m|, dst, 0) && InRange(|m|, src, 0)
    ensures Moved(m, dst, src, 0) == m
  {
  }

  /** rt_memmove, for any two areas. */
  method MemMove(m: array<Byte>, dst: nat, src: nat, count: nat)
    requires InRange(m.Length, dst, count) && InRange(m.Length, src, count)
    modifies m
    ensures m[..] == Moved(old(m[..]), dst, src, count)
  {
    hide Moved, Forward;
    ghost var was := m[..];
    var tmp, s, n := dst, src, count;
    if s < tmp < s + n {
      tmp, s := tmp + n, s + n;
      MovedNothing(was, tmp, s);
      while n > 0
        invariant 0 <= n <= count && tmp == dst + n && s == src + n
        invariant m[..] == Moved(was, tmp, s, count - n)
      {
        MovedDown(was, tmp, s, count - n);
        tmp, s := tmp - 1, s - 1;
        m[tmp] := m[s];
        n := n - 1;
      }
    } else {
      ForwardNothing(was, dst, src);
      while n > 0
        invariant 0 <= n <= count && tmp == dst + (count - n) && s == src + (count - n)
        invariant m[..] == Forward(was, dst, src, count - n)
      {
        ForwardNext(was, dst, src, count - n);
        m[tmp] := m[s];
        tmp, s, n := tmp + 1, s + 1, n - 1;
      }
      ApartIsMove(was, dst, src, count);
    }
  }

  const LONG := 4   // sizeof(long)

  /** One aligned word: four bytes are read, then four are written. */
  method CopyWord(m: array<Byte>, dst: nat, src: nat)
    requires InRange(m.Length, dst, LONG) && InRange(m.Length, src, LONG)
    modifies m
    ensures m[..] == Moved(old(m[..]), dst, src, LONG)
  {
    ghost var was := m[..];
    m[dst], m[dst + 1], m[dst + 2], m[dst + 3] := m[src], m[src + 1], m[src + 2], m[src + 3];
    forall j | 0 <= j < m.Length ensures m[j] == Moved(was, dst, src, LONG)[j] {
      assert dst <= j < dst + LONG ==> j == dst || j == dst + 1 || j == dst + 2 || j == dst + 3;
    }
  }

  lemma {:induction false} FourBytes(r: seq<Byte>, d: nat, s: nat)
    requires InRange(|r|, d, LONG) && InRange(|r|, s, LONG) && (d == s || d + LONG <= s || s + LONG <= d)
    ensures r[d := r[s]][d + 1 := r[s + 1]][d + 2 := r[s + 2]][d + 3 := r[s + 3]] == Moved(r, d, s, LONG)
  {
    var t := r[d := r[s]][d + 1 := r[s + 1]][d + 2 := r[s + 2]][d + 3 := r[s + 3]];
    forall j | 0 <= j < |r| ensures t[j] == Moved(r, d, s, LONG)[j] {
      assert d <= j < d + LONG ==> j == d || j == d + 1 || j == d + 2 || j == d + 3;
    }
  }

  /** A word that does not overlap its source, or is it, may as well be copied byte by byte. */
  lemma {:induction false} WordIsBytes(m: seq<Byte>, dst: nat, src: nat, done: nat)
    requires InRange(|m|, dst, done + LONG) && InRange(|m|, src, done + LONG)
    requires dst == src || dst + LONG <= src || src + LONG <= dst
    ensures Moved(Forward(m, dst, src, done), dst + done, src + done, LONG) == Forward(m, dst, src, done + LONG)
  {
    hide Moved, Forward;
    var d, s, r := dst + done, src + done, Forward(m, dst, src, done);
    FourBytes(r, d, s);
    ForwardNext(m, dst, src, done);
    ForwardNext(m, dst, src, done + 1);
    ForwardNext(m, dst, src, done + 2);
    ForwardNext(m, dst, src, done + 3);
  }

  /** rt_memcpy: words where both addresses are aligned and there is enough to copy, else bytes.  Always
      the same as copying byte by byte from the low end.  The count is held in an int that is compared
      as unsigned with the word sizes and otherwise only with 0; `len` is its 32 bits. */
  method MemCpy(m: array<Byte>, dst: nat, src: nat, count: nat)
    requires count < WORD_LIMIT
    requires InRange(m.Length, dst, count) && InRange(m.Length, src, count)
    modifies m
    ensures m[..] == Forward(old(m[..]), dst, src, count)
  {
    hide Forward, Moved;
    ghost var was := m[..];
    var d, s, len := dst, src, count;
    ForwardNothing(was, dst, src);
    if len >= 4 * LONG && s % LONG == 0 && d % LONG == 0 {
      while len >= 4 * LONG
        invariant 0 <= len <= count && d == dst + (count - len) && s == src + (count - len)
        invariant m[..] == Forward(was, dst, src, count - len)
      {
        len := CopyOne(m, dst, src, count, len, was);
        len := CopyOne(m, dst, src, count, len, was);
        len := CopyOne(m, dst, src, count, len, was);
        len := CopyOne(m, dst, src, count, len, was);
        d, s := d + 4 * LONG, s + 4 * LONG;
      }
      while len >= LONG
        invariant 0 <= len <= count && d == dst + (count - len) && s == src + (count - len)
        invariant m[..] == Forward(was, dst, src, count - len)
      {
        len := CopyOne(m, dst, src, count, len, was);
        d, s := d + LONG, s + LONG;
      }
    }
    while len > 0
      invariant 0 <= len <= count && d == dst + (count - len) && s == src + (count - len)
      invariant m[..] == Forward(was, dst, src, count - len)
    {
      ForwardNext(was, dst, src, count - len);
      m[d] := m[s];
      d, s, len := d + 1, s + 1, len - 1;
    }
  }

  /** The next word of a copy of which `len` bytes are left. */
  method CopyOne(m: array<Byte>, dst: nat, src: nat, count: nat, len: nat, ghost was: seq<Byte>) returns (left: nat)
    requires LONG <= len <= count && dst % LONG == 0 && src % LONG == 0
    requires InRange(m.Length, dst, count) && InRange(m.Length, src, count) && |was| == m.Length
    requires m[..] == Forward(was, dst, src, count - len)
    modifies m
    ensures left == len - LONG && m[..] == Forward(was, dst, src, count - left)
  {
    hide Forward, Moved;
    var done := count - len;
    WordIsBytes(was, dst, src, done);
    CopyWord(m, dst + done, src + done);
    left := len - LONG;
  }

  lemma {:induction false} ForwardNothing(m: seq<Byte>, dst: nat, src: nat)
    requires InRange(|m|, dst, 0) && InRange(|m|, src, 0)
    ensures Forward(m, dst, src, 0) == m
  {
  }

  lemma {:induction false} ForwardNext(m: seq<Byte>, dst: nat, src: nat, done: nat)
    requires InRange(|m|, dst, done + 1) && InRange(|m|, src, done + 1)
    ensures var r := Forward(m, dst, src, done);
      Forward(m, dst, src, done + 1) == r[dst + done := r[src + done]]
  {
  }

  /* ---------- aligned allocation ---------- */

  const WORD_SIZE := 4   // sizeof(void *)

  /** How much rt_malloc_align asks of rt_malloc: a sum of 32-bit numbers. */
  function AlignedRequest(size: nat, align: nat): nat
    requires size < WORD_LIMIT && align < WORD_LIMIT
  {
    (AlignUp(size) + AlignUp(align)) % WORD_LIMIT
  }

  /** The request does not wrap. */
  predicate RequestFits(size: nat, align: nat)
    requires size < WORD_LIMIT && align < WORD_LIMIT
  {
    size <= WORD_LIMIT - ALIGN_SIZE && AlignUp(size) + AlignUp(align) < WORD_LIMIT
  }

  /** The address it returns for the block at ptr; `& (align - 1)` is the remainder by a power of two. */
  function AlignedAddress(ptr: nat, align: nat): nat
    requires 0 < align <= WORD_LIMIT - ALIGN_SIZE
  {
    var a := AlignUp(align);
    if ptr % a == 0 then ptr + a else (ptr + (a - 1)) / a * a
  }

  /** The least multiple of a that is not below ptr. */
  lemma {:induction false} RoundedUp(ptr: nat, a: nat)
    requires a > 0 && a % WORD_SIZE == 0 && ptr % WORD_SIZE == 0
    ensures var p := (ptr + (a - 1)) / a * a; p % a == 0 && p % WORD_SIZE == 0 && ptr <= p < ptr + a
  {
    var k := (ptr + (a - 1)) / a;
    Floor(ptr + (a - 1), a);
    MultipleOf(k, a, k * a);
    MultipleOfFour(k, a);
  }

  lemma {:induction false} OneFurther(ptr: nat, a: nat)
    requires a > 0 && ptr % a == 0
    ensures (ptr + a) % a == 0
  {
    assert ptr == ptr / a * a;
    assert ptr + a == (ptr / a + 1) * a;
    MultipleOf(ptr / a + 1, a, ptr + a);
  }

  /** The returned address is aligned, and in front of it there is room in the block for the address of
      the block that rt_free_align reads.  The caller's bytes lie inside a block of the requested size
      exactly when the request does not wrap. */
  lemma {:induction false} AlignedPlace(ptr: nat, size: nat, align: nat)
    requires 0 < align <= WORD_LIMIT - ALIGN_SIZE && size < WORD_LIMIT && ptr % WORD_SIZE == 0
    ensures var p := AlignedAddress(ptr, align);
      && p % AlignUp(align) == 0 && ptr <= p - WORD_SIZE && p <= ptr + AlignUp(align)
      && (p + size <= ptr + AlignedRequest(size, align) <==> RequestFits(size, align))
  {
    hide AlignUp;
    var a := AlignUp(align);
    RoundedUp(ptr, a);
    OneFurtherIf(ptr, a);
    AddressBounds(ptr, align);
    RequestCases(size, align);
  }

  lemma {:induction false} AddressBounds(ptr: nat, align: nat)
    requires 0 < align <= WORD_LIMIT - ALIGN_SIZE && ptr % WORD_SIZE == 0
    ensures ptr + WORD_SIZE <= AlignedAddress(ptr, align) <= ptr + AlignUp(align)
  {
    hide AlignUp;
    RoundedUp(ptr, AlignUp(align));
  }

  /** A request that wraps is too small for any place behind the stored address. */
  lemma {:induction false} RequestCases(size: nat, align: nat)
    requires 0 < align <= WORD_LIMIT - ALIGN_SIZE && size < WORD_LIMIT
    ensures RequestFits(size, align) ==> AlignedRequest(size, align) == AlignUp(size) + AlignUp(align) && size <= AlignUp(size)
    ensures !RequestFits(size, align) ==> AlignedRequest(size, align) < WORD_SIZE + size
  {
  }

  lemma {:induction false} OneFurtherIf(ptr: nat, a: nat)
    requires a > 0
    ensures ptr % a == 0 ==> (ptr + a) % a == 0
  {
    if ptr % a == 0 {
      OneFurther(ptr, a);
    }
  }
}
