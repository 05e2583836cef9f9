/** Find first set (kservice.c), and one-bit masks of a 32-bit word. */
module FirstSet {
  function Double(m: bv32): bv32 { m << 1 }

  /** 1 << p */
  function Mask(p: nat): bv32 {
    if p == 0 then 1 else Double(Mask(p - 1))
  }

  predicate Meets(g: bv32, m: bv32) { g & m != 0 }

  predicate HasBit(g: bv32, p: nat) {
    Meets(g, Mask(p))
  }

  function SetMask(g: bv32, m: bv32): bv32 { g | m }

  function ClearMask(g: bv32, m: bv32): bv32 { g & !m }

  /** The first entry of each row of the table __lowest_bit_bitmap; the other entries of all sixteen
      rows are the same. */
  function FirstColumn(row: bv32): nat {
    if row == 0 then 0
    else if row == 1 then 4 else if row == 2 then 5 else if row == 3 then 4
    else if row == 4 then 6 else if row == 5 then 4 else if row == 6 then 5 else if row == 7 then 4
    else if row == 8 then 7 else if row == 9 then 4 else if row == 10 then 5 else if row == 11 then 4
    else if row == 12 then 6 else if row == 13 then 4 else if row == 14 then 5 else 4
  }

  function OtherColumn(col: bv32): nat {
    if col == 1 then 0 else if col == 2 then 1 else if col == 3 then 0
    else if col == 4 then 2 else if col == 5 then 0 else if col == 6 then 1 else if col == 7 then 0
    else if col == 8 then 3 else if col == 9 then 0 else if col == 10 then 1 else if col == 11 then 0
    else if col == 12 then 2 else if col == 13 then 0 else if col == 14 then 1 else 0
  }

  function LowestBitMap(byte: bv32): nat {
    if byte & 0xF == 0 then FirstColumn(byte >> 4) else OtherColumn(byte & 0xF)
  }

  /** __rt_ffs on the bits of its argument. */
  function Ffs(value: bv32): nat {
    if value == 0 then 0
    else if value & 0xFF != 0 then LowestBitMap(value & 0xFF) + 1
    else if value & 0xFF00 != 0 then LowestBitMap((value & 0xFF00) >> 8) + 9
    else if value & 0xFF_0000 != 0 then LowestBitMap((value & 0xFF_0000) >> 16) + 17
    else LowestBitMap((value & 0xFF00_0000) >> 24) + 25
  }

  lemma {:induction false} MaskTable()
    ensures Mask(0) == 0x1 && Mask(1) == 0x2 && Mask(2) == 0x4 && Mask(3) == 0x8
    ensures Mask(4) == 0x10 && Mask(5) == 0x20 && Mask(6) == 0x40 && Mask(7) == 0x80
    ensures Mask(8) == 0x100
  {
    assert Mask(1) == 2;
    assert Mask(2) == 4;
    assert Mask(3) == 8;
    assert Mask(4) == 0x10;
    assert Mask(5) == 0x20;
    assert Mask(6) == 0x40;
    assert Mask(7) == 0x80;
    assert Mask(8) == 0x100;
  }

  function OneByteUp(m: bv32): bv32 { m << 8 }

  lemma {:induction false} EightDoubles(m: bv32)
    ensures Double(Double(Double(Double(Double(Double(Double(Double(m)))))))) == OneByteUp(m)
  {
  }

  lemma {:induction false} FourHigher(p: nat)
    ensures Mask(p + 4) == Double(Double(Double(Double(Mask(p)))))
  {
    hide Double;
    assert Mask(p + 1) == Double(Mask(p));
    assert Mask(p + 2) == Double(Mask(p + 1));
    assert Mask(p + 3) == Double(Mask(p + 2));
  }

  lemma {:induction false} EightHigher(p: nat)
    ensures Mask(p + 8) == OneByteUp(Mask(p))
  {
    hide Mask, Double, OneByteUp;
    FourHigher(p);
    FourHigher(p + 4);
    EightDoubles(Mask(p));
  }

  /** Value & -value keeps the lowest set bit. */
  function Lowest(v: bv32): bv32 { v & (0 - v) }

  lemma {:induction false} RowEntry(byte: bv32)
    requires byte & 0xFF == byte && byte != 0 && byte & 0xF == 0
    ensures FirstColumn(byte >> 4) <= 7 && Mask(FirstColumn(byte >> 4)) == Lowest(byte)
  {
    hide Mask;
    MaskTable();
  }

  lemma {:induction false} ColumnEntry(byte: bv32)
    requires byte & 0xF != 0
    ensures OtherColumn(byte & 0xF) <= 7 && Mask(OtherColumn(byte & 0xF)) == Lowest(byte)
  {
    hide Mask;
    MaskTable();
  }

  lemma {:induction false} ByteEntry(byte: bv32)
    requires byte & 0xFF == byte && byte != 0
    ensures LowestBitMap(byte) <= 7 && Mask(LowestBitMap(byte)) == Lowest(byte)
  {
    hide Mask, Lowest, FirstColumn, OtherColumn;
    if byte & 0xF == 0 {
      RowEntry(byte);
    } else {
      ColumnEntry(byte);
    }
  }

  lemma {:induction false} Byte0(v: bv32)
    requires v & 0xFF != 0
    ensures (v & 0xFF) & 0xFF == v & 0xFF && Lowest(v & 0xFF) == Lowest(v)
  {
  }

  lemma {:induction false} Byte1(v: bv32)
    requires v & 0xFF == 0 && v & 0xFF00 != 0
    ensures var b := (v & 0xFF00) >> 8; b & 0xFF == b && b != 0 && OneByteUp(Lowest(b)) == Lowest(v)
  {
  }

  lemma {:induction false} Byte2(v: bv32)
    requires v & 0xFF == 0 && v & 0xFF00 == 0 && v & 0xFF_0000 != 0
    ensures var b := (v & 0xFF_0000) >> 16; b & 0xFF == b && b != 0 && OneByteUp(OneByteUp(Lowest(b))) == Lowest(v)
  {
  }

  lemma {:induction false} Byte3(v: bv32)
    requires v & 0xFF == 0 && v & 0xFF00 == 0 && v & 0xFF_0000 == 0 && v != 0
    ensures var b := (v & 0xFF00_0000) >> 24;
      b & 0xFF == b && b != 0 && OneByteUp(OneByteUp(OneByteUp(Lowest(b)))) == Lowest(v)
  {
  }

  lemma {:induction false} FfsMask(v: bv32)
    requires v != 0
    ensures 1 <= Ffs(v) <= 32 && Mask(Ffs(v) - 1) == Lowest(v)
  {
    hide Mask, Lowest, LowestBitMap, OneByteUp;
    if v & 0xFF != 0 {
      Byte0(v);
      ByteEntry(v & 0xFF);
    } else if v & 0xFF00 != 0 {
      Byte1(v);
      ByteEntry((v & 0xFF00) >> 8);
      EightHigher(LowestBitMap((v & 0xFF00) >> 8));
    } else if v & 0xFF_0000 != 0 {
      Byte2(v);
      var k := LowestBitMap((v & 0xFF_0000) >> 16);
      ByteEntry((v & 0xFF_0000) >> 16);
      EightHigher(k);
      EightHigher(k + 8);
    } else {
      Byte3(v);
      var k := LowestBitMap((v & 0xFF00_0000) >> 24);
      ByteEntry((v & 0xFF00_0000) >> 24);
      EightHigher(k);
      EightHigher(k + 8);
      EightHigher(k + 16);
    }
  }

  /* ---------- masks as single bits ---------- */

  predicate OneBit(m: bv32) {
    m != 0 && m & (m - 1) == 0
  }

  lemma {:induction false} MaskValue(p: nat)
    requires p < 32
    ensures OneBit(Mask(p)) && (p < 31 ==> Mask(p) < 0x8000_0000)
    ensures p < 24 ==> Mask(p) < 0x0100_0000
    ensures p < 16 ==> Mask(p) < 0x0001_0000
    ensures p < 8 ==> Mask(p) < 0x0000_0100
  {
    hide Mask;
    MaskTable();
    if p >= 8 {
      MaskValue(p - 8);
      EightHigher(p - 8);
      if p == 31 {
      } else if p < 31 && p - 8 >= 16 {
        Small(p - 24);
        EightHigher(p - 24);
        EightHigher(p - 16);
      }
    }
  }

  lemma {:induction false} Small(p: nat)
    requires p < 7
    ensures Mask(p) <= 0x40 && OneBit(Mask(p))
  {
    hide Mask;
    MaskTable();
  }

  lemma {:induction false} DoubledApart(a: bv32, b: bv32)
    requires !Meets(a, b)
    ensures !Meets(Double(a), Double(b))
  {
  }

  lemma {:induction false} FirstApart(a: bv32)
    ensures !Meets(1, Double(a))
  {
  }

  lemma {:induction false} MasksApart(p: nat, q: nat)
    requires p < q < 32
    ensures !Meets(Mask(p), Mask(q))
  {
    hide Meets, Double;
    if p == 0 {
      FirstApart(Mask(q - 1));
    } else {
      MasksApart(p - 1, q - 1);
      DoubledApart(Mask(p - 1), Mask(q - 1));
    }
  }

  lemma {:induction false} MeetsBoth(a: bv32, b: bv32)
    ensures Meets(a, b) == Meets(b, a)
  {
  }

  lemma {:induction false} Apart(p: nat, q: nat)
    requires p < 32 && q < 32 && p != q
    ensures !Meets(Mask(p), Mask(q))
  {
    hide Mask, Meets;
    if p < q {
      MasksApart(p, q);
    } else {
      MasksApart(q, p);
      MeetsBoth(Mask(p), Mask(q));
    }
  }

  lemma {:induction false} Distribute(g: bv32, m: bv32, n: bv32)
    ensures SetMask(g, m) & n == SetMask(g & n, m & n)
  {
  }

  lemma {:induction false} OrZero(g: bv32)
    ensures SetMask(g, 0) == g
  {
  }

  lemma {:induction false} SetOther(g: bv32, m: bv32, n: bv32)
    requires !Meets(m, n)
    ensures Meets(SetMask(g, m), n) == Meets(g, n)
  {
    hide SetMask;
    Distribute(g, m, n);
    OrZero(g & n);
  }

  lemma {:induction false} ClearMoves(g: bv32, m: bv32, n: bv32)
    ensures ClearMask(g, m) & n == g & ClearMask(n, m)
  {
  }

  lemma {:induction false} ClearOther(g: bv32, m: bv32, n: bv32)
    requires !Meets(m, n)
    ensures Meets(ClearMask(g, m), n) == Meets(g, n)
  {
    hide ClearMask;
    ClearMoves(g, m, n);
    MeetsBoth(m, n);
    ClearAbsent(n, m);
  }

  lemma {:induction false} SetOwn(g: bv32, m: bv32)
    requires m != 0
    ensures Meets(SetMask(g, m), m)
  {
  }

  lemma {:induction false} ClearOwn(g: bv32, m: bv32)
    ensures !Meets(ClearMask(g, m), m)
  {
  }

  lemma {:induction false} ClearAbsent(g: bv32, m: bv32)
    requires !Meets(g, m)
    ensures ClearMask(g, m) == g
  {
  }

  lemma {:induction false} SetBit(g: bv32, p: nat, q: nat)
    requires p < 32 && q < 32
    ensures HasBit(SetMask(g, Mask(p)), q) <==> q == p || HasBit(g, q)
  {
    hide Mask, Meets, SetMask;
    if p == q {
      MaskValue(p);
      SetOwn(g, Mask(p));
    } else {
      Apart(p, q);
      SetOther(g, Mask(p), Mask(q));
    }
  }

  lemma {:induction false} ClearBit(g: bv32, p: nat, q: nat)
    requires p < 32 && q < 32
    ensures HasBit(ClearMask(g, Mask(p)), q) <==> q != p && HasBit(g, q)
  {
    hide Mask, Meets, ClearMask;
    if p == q {
      ClearOwn(g, Mask(p));
    } else {
      Apart(p, q);
      ClearOther(g, Mask(p), Mask(q));
    }
  }

  /** x has bits only below the single bit m. */
  predicate Under(x: bv32, m: bv32) { x & (m - 1) == x }

  lemma {:induction false} LowestMeets(v: bv32)
    requires v != 0
    ensures Meets(v, Lowest(v))
  {
  }

  lemma {:induction false} NoLower(v: bv32, x: bv32)
    requires v != 0 && Under(x, Lowest(v))
    ensures !Meets(v, x)
  {
  }

  lemma {:induction false} UnderDouble(m: bv32, x: bv32)
    requires OneBit(m) && m < 0x8000_0000 && (Under(x, m) || x == m)
    ensures Under(x, Double(m))
  {
  }

  /** A lower bit is below a higher one. */
  lemma {:induction false} LowerBit(q: nat, p: nat)
    requires q < p < 32
    ensures Under(Mask(q), Mask(p))
    decreases p
  {
    hide Under, Double, OneBit;
    MaskValue(p - 1);
    if q < p - 1 {
      LowerBit(q, p - 1);
    }
    UnderDouble(Mask(p - 1), Mask(q));
  }

  /** __rt_ffs returns one plus the number of the lowest set bit, for every 32-bit value, and 0 for 0. */
  lemma {:induction false} FfsIsLowest(v: bv32)
    ensures Ffs(v) <= 32 && (Ffs(v) == 0 <==> v == 0)
    ensures v != 0 ==> HasBit(v, Ffs(v) - 1) && forall q: nat | q < Ffs(v) - 1 :: !HasBit(v, q)
  {
    hide Mask, Lowest, Meets, Under, LowestBitMap;
    if v != 0 {
      hide Ffs;
      FfsMask(v);
      LowestMeets(v);
      var p := Ffs(v) - 1;
      forall q: nat | q < p ensures !HasBit(v, q) {
        LowerBit(q, p);
        NoLower(v, Mask(q));
      }
    }
  }

  /** A bit that is set makes the word non-zero. */
  lemma {:induction false} BitNotZero(v: bv32, p: nat)
    requires HasBit(v, p)
    ensures v != 0
  {
    hide Mask;
  }
}
