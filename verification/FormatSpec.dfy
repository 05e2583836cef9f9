/** What the formatted output of kservice.c prints, with no bound on its length.  The configuration is
    that of rtconfig.h: 32-bit numbers, precision, no "0x" prefixes. */
module FormatSpec {
  const WORD := 0x1_0000_0000
  const HALF := 0x8000_0000

  /** One variadic argument, as 32 bits. */
  type Word = x: int | 0 <= x < 0x1_0000_0000

  function Signed(w: Word): int { if w < HALF then w else w - WORD }

  /** -x in 32-bit two's complement. */
  function Negate(x: int): int { if x == -HALF then x else -x }

  function Unsigned(x: int): int { if x < 0 then x + WORD else x }

  predicate IsDigit(c: char) { '0' <= c <= '9' }

  function Repeat(c: char, n: int): (s: string)
    ensures |s| == if n > 0 then n else 0
    ensures forall i | 0 <= i < |s| :: s[i] == c
  {
    if n <= 0 then "" else seq(n, i => c)
  }

  datatype Flags = Flags(zeroPad: bool, sign: bool, plus: bool, space: bool, left: bool, special: bool, large: bool)

  const NO_FLAGS := Flags(false, false, false, false, false, false, false)

  /* ---------- numbers ---------- */

  /** `divide` knows base 10; every other base is taken for 16. */
  function Radix(base: int): nat { if base == 10 then 10 else 16 }

  function High(m: nat, base: int): (r: nat)
    ensures r <= m / 10 && (m > 0 ==> r < m)
  {
    if base == 10 then m / 10 else m / 16
  }

  function Low(m: nat, base: int): (r: nat)
    ensures r < Radix(base) && m == High(m, base) * Radix(base) + r
  {
    if base == 10 then m % 10 else m % 16
  }

  function Digit(k: nat, large: bool): char
    requires k < 16
  {
    if large then "0123456789ABCDEF"[k] else "0123456789abcdef"[k]
  }

  /** The digits of m, the highest first; none for 0. */
  function Positional(m: nat, base: int, large: bool): string {
    if m == 0 then "" else Positional(High(m, base), base, large) + [Digit(Low(m, base), large)]
  }

  function Digits(m: nat, base: int, large: bool): string {
    if m == 0 then "0" else Positional(m, base, large)
  }

  function SignText(num: int, f: Flags): string {
    if !f.sign then "" else if num < 0 then "-" else if f.plus then "+" else if f.space then " " else ""
  }

  function Magnitude(num: int, f: Flags): (m: nat)
    requires -HALF <= num < HALF
    ensures m < WORD
  {
    if f.sign && num < 0 then -num else Unsigned(num)
  }

  function Larger(a: int, b: int): int { if a > b then a else b }

  /** print_number.  Precision 0 prints no digit at all, but the padding is computed as if it did. */
  function NumberText(num: int, base: int, width: int, prec: int, f: Flags): string
    requires -HALF <= num < HALF
  {
    var g, d := SignText(num, f), Digits(Magnitude(num, f), base, f.large);
    var p := Larger(|d|, prec);
    var body := Repeat('0', p - |d|) + (if prec == 0 then "" else d);
    var pad := width - p - |g|;
    if f.left then g + body + Repeat(' ', pad)
    else if f.zeroPad then g + Repeat('0', pad) + body
    else Repeat(' ', pad) + g + body
  }

  /* ---------- the other conversions ---------- */

  function CharText(w: Word, width: int, left: bool): string {
    var c := (w % 256) as char;
    if left then [c] + Repeat(' ', width - 1) else Repeat(' ', width - 1) + [c]
  }

  /** The field width also cuts the string; a precision of 0 does not. */
  function StringLen(s: string, width: int, prec: int): (len: nat)
    ensures len <= |s|
  {
    var len := if 0 <= width <= |s| then width else |s|;
    if 0 < prec < len then prec else len
  }

  function StringText(s: string, width: int, prec: int, left: bool): string {
    var len := StringLen(s, width, prec);
    if left then s[..len] + Repeat(' ', width - len) else Repeat(' ', width - len) + s[..len]
  }

  /** The number that a conversion takes from its argument: 16 bits with 'h', else all 32. */
  function NumberArg(qual: char, sign: bool, w: Word): (n: int)
    ensures -HALF <= n < HALF
  {
    if qual == 'h' then
      var h := w % 0x1_0000;
      if sign && h >= 0x8000 then h - 0x1_0000 else h
    else Signed(w)
  }

  /* ---------- reading the format ---------- */

  /** *(fmt + i), where the string ends with a NUL. */
  function At(fmt: string, i: nat): char { if i < |fmt| then fmt[i] else '\0' }

  /** skip_atoi from position i on, with `acc` read so far: the value and the position behind it. */
  function Atoi(s: string, i: nat, acc: nat): (r: (nat, nat))
    ensures i <= r.1 && r.1 <= Larger(i, |s|) && (IsDigit(At(s, i)) ==> r.1 > i)
    decreases |s| - i
  {
    if IsDigit(At(s, i)) then Atoi(s, i + 1, acc * 10 + (s[i] as int - '0' as int)) else (acc, i)
  }

  function FlagsFrom(fmt: string, i: nat, f: Flags): (r: (Flags, nat))
    ensures i <= r.1 && r.1 <= Larger(i, |fmt|)
    decreases |fmt| - i
  {
    var c := At(fmt, i);
    if i >= |fmt| then (f, i)
    else if c == '-' then FlagsFrom(fmt, i + 1, f.(left := true))
    else if c == '+' then FlagsFrom(fmt, i + 1, f.(plus := true))
    else if c == ' ' then FlagsFrom(fmt, i + 1, f.(space := true))
    else if c == '#' then FlagsFrom(fmt, i + 1, f.(special := true))
    else if c == '0' then FlagsFrom(fmt, i + 1, f.(zeroPad := true))
    else (f, i)
  }

  /** What stands between '%' and the conversion letter, with the positions in the format and in the
      arguments behind it. */
  datatype Directive = Directive(flags: Flags, width: int, prec: int, qual: char, at: nat, arg: nat)

  function WidthFrom(fmt: string, d: Directive, args: nat -> Word): Directive {
    if IsDigit(At(fmt, d.at)) then
      var r := Atoi(fmt, d.at, 0);
      d.(width := r.0, at := r.1)
    else if At(fmt, d.at) == '*' then
      var w := Signed(args(d.arg));
      d.(width := if w < 0 then Negate(w) else w, flags := if w < 0 then d.flags.(left := true) else d.flags,
         at := d.at + 1, arg := d.arg + 1)
    else d.(width := -1)
  }

  function PrecisionFrom(fmt: string, d: Directive, args: nat -> Word): Directive {
    if At(fmt, d.at) != '.' then d.(prec := -1)
    else if IsDigit(At(fmt, d.at + 1)) then
      var r := Atoi(fmt, d.at + 1, 0);
      d.(prec := r.0, at := r.1)
    else if At(fmt, d.at + 1) == '*' then
      d.(prec := Larger(Signed(args(d.arg)), 0), at := d.at + 2, arg := d.arg + 1)
    else d.(prec := 0, at := d.at + 1)
  }

  function QualifierFrom(fmt: string, d: Directive): Directive {
    var c := At(fmt, d.at);
    if c == 'h' || c == 'l' then d.(qual := c, at := d.at + 1) else d.(qual := '\0')
  }

  /** The directive whose '%' stands just before position i. */
  function Parse(fmt: string, i: nat, args: nat -> Word, a: nat): (d: Directive)
    requires i <= |fmt|
    ensures i <= d.at <= |fmt|
  {
    var (f, j) := FlagsFrom(fmt, i, NO_FLAGS);
    QualifierFrom(fmt, PrecisionFrom(fmt, WidthFrom(fmt, Directive(f, -1, -1, '\0', j, a), args), args))
  }

  /** What conversion letter c prints for directive d and argument w, and how many arguments it takes. */
  function Show(c: char, d: Directive, w: Word, text: Word -> string): (string, nat) {
    if c == 'c' then (CharText(w, d.width, d.flags.left), 1)
    else if c == 's' then (StringText(if w == 0 then "(NULL)" else text(w), d.width, d.prec, d.flags.left), 1)
    else if c == 'p' then
      (if d.width == -1 then NumberText(Signed(w), 16, 8, d.prec, d.flags.(zeroPad := true))
       else NumberText(Signed(w), 16, d.width, d.prec, d.flags), 1)
    else if c == '%' then ("%", 0)
    else if c == 'o' then (NumberText(NumberArg(d.qual, false, w), 8, d.width, d.prec, d.flags), 1)
    else if c == 'x' then (NumberText(NumberArg(d.qual, false, w), 16, d.width, d.prec, d.flags), 1)
    else if c == 'X' then
      (NumberText(NumberArg(d.qual, false, w), 16, d.width, d.prec, d.flags.(large := true)), 1)
    else if c == 'd' || c == 'i' then
      (NumberText(NumberArg(d.qual, true, w), 10, d.width, d.prec, d.flags.(sign := true)), 1)
    else if c == 'u' then (NumberText(NumberArg(d.qual, false, w), 10, d.width, d.prec, d.flags), 1)
    else (['%', c], 0)
  }

  /** What a directive prints; one that is cut off by the end of the format prints its '%'. */
  function Convert(fmt: string, d: Directive, args: nat -> Word, text: Word -> string): (string, nat) {
    if d.at < |fmt| then Show(fmt[d.at], d, args(d.arg), text) else ("%", 0)
  }

  /** Everything that the format prints from position i on, argument a being the next one. */
  function Format(fmt: string, i: nat, args: nat -> Word, text: Word -> string, a: nat): string
    decreases |fmt| - i
  {
    if i >= |fmt| then ""
    else if fmt[i] != '%' then [fmt[i]] + Format(fmt, i + 1, args, text, a)
    else
      var d := Parse(fmt, i + 1, args, a);
      var (t, k) := Convert(fmt, d, args, text);
      t + Format(fmt, d.at + 1, args, text, d.arg + k)
  }

  /* ---------- how wide a number prints ---------- */

  /** A printed number fills its field; it is wider only when sign and digits need more.  With precision
      0 the digits are missing. */
  lemma {:induction false} NumberWidth(num: int, base: int, width: int, prec: int, f: Flags)
    requires -HALF <= num < HALF
    ensures var g, d := SignText(num, f), Digits(Magnitude(num, f), base, f.large);
      |NumberText(num, base, width, prec, f)|
        == Larger(width, Larger(|d|, prec) + |g|) - (if prec == 0 then |d| else 0)
  {
  }

  /** Where everything stands in a printed number: blanks on one side at most, the sign before the
      zeros, the digits last; zeros come from the precision or, in front, from the 0 flag, which a minus
      flag turns off. */
  lemma {:induction false} NumberShape(num: int, base: int, width: int, prec: int, f: Flags)
    returns (before: nat, zeros: nat, after: nat)
    requires -HALF <= num < HALF
    ensures var g, d := SignText(num, f), Digits(Magnitude(num, f), base, f.large);
      && NumberText(num, base, width, prec, f)
         == Repeat(' ', before) + g + Repeat('0', zeros) + (if prec == 0 then "" else d) + Repeat(' ', after)
      && (after > 0 ==> f.left) && (before > 0 ==> !f.left && !f.zeroPad)
      && before + |g| + zeros + |d| + after == Larger(width, Larger(|d|, prec) + |g|)
      && (f.left || !f.zeroPad ==> zeros == Larger(prec - |d|, 0))
  {
    hide Digits, Repeat, NumberText, SignText, Magnitude;
    var g, d := SignText(num, f), Digits(Magnitude(num, f), base, f.large);
    var p := Larger(|d|, prec);
    var pad := Larger(width - p - |g|, 0);
    TextIs(num, base, width, prec, f);
    before := if f.left || f.zeroPad then 0 else pad;
    zeros := p - |d| + if f.zeroPad && !f.left then pad else 0;
    after := if f.left then pad else 0;
    LaidOut(g, p - |d|, if prec == 0 then "" else d, width - p - |g|, f.zeroPad, f.left);
  }

  /** Sign, zeros and digits in a field, as print_number lays them out. */
  function Laid(g: string, z: int, e: string, pad: int, zeroPad: bool, left: bool): string {
    if left then g + (Repeat('0', z) + e) + Repeat(' ', pad)
    else if zeroPad then g + Repeat('0', pad) + (Repeat('0', z) + e)
    else Repeat(' ', pad) + g + (Repeat('0', z) + e)
  }

  lemma {:induction false} LaidOut(g: string, z: nat, e: string, pad: int, zeroPad: bool, left: bool)
    ensures var n := Larger(pad, 0);
      Laid(g, z, e, pad, zeroPad, left)
        == Repeat(' ', if left || zeroPad then 0 else n) + g + Repeat('0', z + if zeroPad && !left then n else 0) + e
           + Repeat(' ', if left then n else 0)
  {
    hide Repeat;
    NoneOf(' ');
    SameRepeat(' ', pad);
    SameRepeat('0', pad);
    if left {
      Blankless(g, Repeat('0', z), e, Repeat(' ', pad));
    } else if zeroPad {
      Repeats('0', Larger(pad, 0), z);
      Zeros(g, Repeat('0', pad), Repeat('0', z), e);
    } else {
      Trailless(Repeat(' ', pad), g, Repeat('0', z), e);
    }
  }

  lemma {:induction false} TextIs(num: int, base: int, width: int, prec: int, f: Flags)
    requires -HALF <= num < HALF
    ensures var g, d := SignText(num, f), Digits(Magnitude(num, f), base, f.large);
      var p := Larger(|d|, prec);
      NumberText(num, base, width, prec, f)
        == Laid(g, p - |d|, if prec == 0 then "" else d, width - p - |g|, f.zeroPad, f.left)
  {
    hide Digits, Repeat, SignText, Magnitude;
  }

  lemma {:induction false} Blankless(g: string, z: string, e: string, c: string)
    ensures g + (z + e) + c == "" + g + z + e + c
  {
  }

  lemma {:induction false} Zeros(g: string, y: string, z: string, e: string)
    ensures g + y + (z + e) == "" + g + (y + z) + e + ""
  {
  }

  lemma {:induction false} Trailless(b: string, g: string, z: string, e: string)
    ensures b + g + (z + e) == b + g + z + e + ""
  {
  }

  lemma {:induction false} NoneOf(c: char)
    ensures Repeat(c, 0) == ""
  {
  }

  lemma {:induction false} SameRepeat(c: char, n: int)
    ensures Repeat(c, n) == Repeat(c, Larger(n, 0))
  {
  }

  lemma {:induction false} Repeats(c: char, a: nat, b: nat)
    ensures Repeat(c, a) + Repeat(c, b) == Repeat(c, a + b)
  {
  }

  /** A format without directives prints itself. */
  lemma {:induction false} PlainFormat(fmt: string, i: nat, args: nat -> Word, text: Word -> string, a: nat)
    requires '%' !in fmt && i <= |fmt|
    ensures Format(fmt, i, args, text, a) == fmt[i..]
    decreases |fmt| - i
  {
    hide Parse, Convert;
    if i < |fmt| {
      PlainFormat(fmt, i + 1, args, text, a);
      assert fmt[i] in fmt && fmt[i..] == [fmt[i]] + fmt[i + 1..];
    }
  }

  /** %c fills its field; a negative width does the same as none. */
  lemma {:induction false} CharWidth(w: Word, width: int, left: bool)
    ensures |CharText(w, width, left)| == Larger(width, 1)
  {
  }

  /** %s prints the first characters of the string, as many as neither the width nor a positive
      precision cuts off, and fills its field. */
  lemma {:induction false} StringShape(s: string, width: int, prec: int, left: bool)
    ensures var t, len := StringText(s, width, prec, left), StringLen(s, width, prec);
      && |t| == Larger(width, len)
      && (if left then t[..len] == s[..len] else t[|t| - len..] == s[..len])
      && (forall i | 0 <= i < |t| && (if left then i >= len else i < |t| - len) :: t[i] == ' ')
  {
  }

  /** The whole string is printed exactly when neither a width nor a positive precision is shorter than
      it: a width too short cuts it. */
  lemma {:induction false} StringWhole(s: string, width: int, prec: int)
    ensures StringLen(s, width, prec) == |s| <==> (width < 0 || width >= |s|) && (prec <= 0 || prec >= |s|)
  {
  }

  function Tens(k: nat): nat { if k == 0 then 1 else 10 * Tens(k - 1) }

  lemma {:induction false} DigitCount(m: nat, base: int, large: bool, k: nat)
    requires m < Tens(k)
    ensures |Positional(m, base, large)| <= k
    decreases k
  {
    if m > 0 {
      DigitCount(High(m, base), base, large, k - 1);
    }
  }

  lemma {:induction false} TenTens()
    ensures Tens(10) == 10000000000
  {
    assert Tens(2) == 100;
    assert Tens(4) == 10000;
    assert Tens(6) == 1000000;
    assert Tens(8) == 100000000;
  }

  /** A 32-bit number has at most ten digits, so the 16 characters of print_number are enough. */
  lemma {:induction false} AtMostTenDigits(m: nat, base: int, large: bool)
    requires m < WORD
    ensures 1 <= |Digits(m, base, large)| <= 10
  {
    hide Tens;
    TenTens();
    DigitCount(m, base, large, 10);
  }

  /* ---------- printing and reading undo each other ---------- */

  function DigitValue(c: char): nat {
    if IsDigit(c) then c as int - '0' as int
    else if 'a' <= c <= 'f' then c as int - 'a' as int + 10
    else if 'A' <= c <= 'F' then c as int - 'A' as int + 10
    else 0
  }

  lemma {:induction false} DigitMeans(k: nat, large: bool)
    requires k < 16
    ensures DigitValue(Digit(k, large)) == k
    ensures k < 10 ==> IsDigit(Digit(k, large))
  {
  }

  function ValueOf(s: string, radix: nat): nat {
    if s == "" then 0 else ValueOf(s[..|s| - 1], radix) * radix + DigitValue(s[|s| - 1])
  }

  /** In either base and either case the digits mean the number they were printed from. */
  lemma {:induction false} DigitsMean(m: nat, base: int, large: bool)
    ensures ValueOf(Digits(m, base, large), Radix(base)) == m
  {
    if m == 0 {
      assert ValueOf("0", Radix(base)) == ValueOf("", Radix(base)) * Radix(base) + 0;
    } else {
      PositionalMeans(m, base, large);
    }
  }

  lemma {:induction false} PositionalMeans(m: nat, base: int, large: bool)
    ensures ValueOf(Positional(m, base, large), Radix(base)) == m
  {
    if m > 0 {
      hide Digit, DigitValue, High, Low, Radix;
      var h, c := Positional(High(m, base), base, large), Digit(Low(m, base), large);
      PositionalMeans(High(m, base), base, large);
      DigitMeans(Low(m, base), large);
      assert (h + [c])[..|h|] == h;
    }
  }

  /** `s` holds `d` at position i. */
  predicate HasAt(s: string, i: nat, d: string) {
    i + |d| <= |s| && s[i..i + |d|] == d
  }

  /** Leading zeros do not count. */
  lemma {:induction false} SkipZeros(s: string, i: nat, n: nat)
    requires HasAt(s, i, Repeat('0', n))
    ensures Atoi(s, i, 0) == Atoi(s, i + n, 0)
    decreases n
  {
    if n > 0 {
      assert s[i] == s[i..i + n][0];
      assert s[i + 1..i + n] == s[i..i + n][1..] == Repeat('0', n - 1);
      SkipZeros(s, i + 1, n - 1);
    }
  }

  lemma {:induction false} TakeDigits(s: string, i: nat, acc: nat, d: string)
    requires HasAt(s, i, d) && forall k | 0 <= k < |d| :: IsDigit(d[k])
    ensures Atoi(s, i, acc) == Atoi(s, i + |d|, Shifted(acc, |d|) + ValueOf(d, 10))
    decreases |d|
  {
    if d == "" {
    } else {
      var e, c := d[..|d| - 1], d[|d| - 1];
      assert s[i..i + |e|] == s[i..i + |d|][..|e|] == e;
      TakeDigits(s, i, acc, e);
      assert s[i + |e|] == s[i..i + |d|][|e|] == c;
      var v := Shifted(acc, |e|) + ValueOf(e, 10);
      assert Atoi(s, i + |e|, v) == Atoi(s, i + |d|, v * 10 + DigitValue(c));
      assert Shifted(acc, |d|) == Shifted(acc, |e|) * 10;
    }
  }

  function Shifted(acc: nat, n: nat): nat { if n == 0 then acc else Shifted(acc, n - 1) * 10 }

  lemma {:induction false} ShiftedZero(n: nat)
    ensures Shifted(0, n) == 0
  {
    if n > 0 {
      ShiftedZero(n - 1);
    }
  }

  lemma {:induction false} DecimalDigits(m: nat, large: bool)
    ensures forall k | 0 <= k < |Positional(m, 10, large)| :: IsDigit(Positional(m, 10, large)[k])
  {
    if m > 0 {
      DecimalDigits(High(m, 10), large);
      DigitMeans(Low(m, 10), large);
    }
  }

  /** What print_number prints in base 10, plain or padded with zeros, skip_atoi reads back: the number
      comes out and exactly the printed characters are consumed, if no further digit follows. */
  lemma {:induction false} PrintThenRead(n: nat, width: int, f: Flags, s: string, i: nat)
    requires n < HALF && !f.plus && !f.space && ((f.zeroPad && !f.left) || width == -1)
    requires HasAt(s, i, NumberText(n, 10, width, -1, f))
    requires !IsDigit(At(s, i + |NumberText(n, 10, width, -1, f)|))
    ensures Atoi(s, i, 0) == (n, i + |NumberText(n, 10, width, -1, f)|)
  {
    hide NumberText, Digits, Atoi, HasAt, IsDigit, At;
    var d := Digits(n, 10, f.large);
    var z := if f.zeroPad && !f.left then Larger(width - |d|, 0) else 0;
    PlainNumber(n, width, f);
    SplitAt(s, i, Repeat('0', z), d);
    SkipZeros(s, i, z);
    ReadDigits(n, f.large, s, i + z);
  }

  lemma {:induction false} SplitAt(s: string, i: nat, a: string, b: string)
    requires HasAt(s, i, a + b)
    ensures HasAt(s, i, a) && HasAt(s, i + |a|, b)
  {
    var t := s[i..i + |a + b|];
    assert s[i..i + |a|] == t[..|a|] == a;
    assert s[i + |a|..i + |a| + |b|] == t[|a|..] == b;
  }

  lemma {:induction false} ReadDigits(n: nat, large: bool, s: string, i: nat)
    requires HasAt(s, i, Digits(n, 10, large)) && !IsDigit(At(s, i + |Digits(n, 10, large)|))
    ensures Atoi(s, i, 0) == (n, i + |Digits(n, 10, large)|)
  {
    hide Digits, ValueOf, HasAt, IsDigit, At, Shifted;
    var d := Digits(n, 10, large);
    AllDecimal(n, large);
    TakeDigits(s, i, 0, d);
    DigitsMean(n, 10, large);
    ShiftedZero(|d|);
  }

  lemma {:induction false} AllDecimal(n: nat, large: bool)
    ensures forall k | 0 <= k < |Digits(n, 10, large)| :: IsDigit(Digits(n, 10, large)[k])
  {
    DecimalDigits(n, large);
  }

  lemma {:induction false} PlainNumber(n: nat, width: int, f: Flags)
    requires n < HALF && !f.plus && !f.space && ((f.zeroPad && !f.left) || width == -1)
    ensures var d := Digits(n, 10, f.large);
      var z := if f.zeroPad && !f.left then Larger(width - |d|, 0) else 0;
      NumberText(n, 10, width, -1, f) == Repeat('0', z) + d
  {
    hide Digits;
    AtMostTenDigits(n, 10, f.large);
  }

  /** skip_atoi adds the character before it takes the '0' away: the largest number that appears while
      it reads on from position i. */
  ghost predicate NoOverflow(s: string, i: nat, acc: nat)
    decreases |s| - i
  {
    IsDigit(At(s, i)) ==>
      && acc * 10 + s[i] as int < HALF
      && NoOverflow(s, i + 1, acc * 10 + (s[i] as int - '0' as int))
  }

  lemma {:induction false} AtoiGrows(s: string, i: nat, acc: nat)
    ensures Atoi(s, i, acc).0 >= acc
    decreases |s| - i
  {
    if IsDigit(At(s, i)) {
      AtoiGrows(s, i + 1, acc * 10 + (s[i] as int - '0' as int));
    }
  }

  /** Reading a number overflows an int on the way exactly when the number is one of the last 48 below
      2^31, or larger: the last sum is the number plus the character '0'. */
  lemma {:induction false} AtoiOverflowIff(s: string, i: nat, acc: nat)
    requires IsDigit(At(s, i))
    ensures NoOverflow(s, i, acc) <==> Atoi(s, i, acc).0 + '0' as int < HALF
    decreases |s| - i
  {
    var v := acc * 10 + (s[i] as int - '0' as int);
    AtoiGrows(s, i + 1, v);
    if IsDigit(At(s, i + 1)) {
      AtoiOverflowIff(s, i + 1, v);
    }
  }

  /** The octal digits of m. */
  function OctalPositional(m: nat): string {
    if m == 0 then "" else OctalPositional(m / 8) + [Digit(m % 8, false)]
  }

  function Octal(m: nat): string {
    if m == 0 then "0" else OctalPositional(m)
  }

  lemma {:induction false} OctalMeans(m: nat)
    ensures ValueOf(OctalPositional(m), 8) == m
  {
    if m > 0 {
      hide Digit, DigitValue;
      var h, c := OctalPositional(m / 8), Digit(m % 8, false);
      OctalMeans(m / 8);
      DigitMeans(m % 8, false);
      assert (h + [c])[..|h|] == h;
    }
  }

  /** Read in base 16, digits never mean less than in base 8. */
  lemma {:induction false} HexReadsMore(s: string)
    ensures ValueOf(s, 16) >= ValueOf(s, 8)
  {
    if s != "" {
      HexReadsMore(s[..|s| - 1]);
    }
  }

  /** %o is right exactly for the numbers of one octal digit: base 8 prints the digits of base 16. */
  lemma {:induction false} OctalIsHex(m: nat, large: bool)
    ensures Digits(m, 8, large) == Digits(m, 16, large)
    ensures Digits(m, 8, large) == Octal(m) <==> m < 8
  {
    if m > 0 {
      PositionalSame(m, large);
    }
    if 0 < m < 8 {
      OneDigit(m, large);
    } else if m >= 8 {
      hide Digit, DigitValue, Digits, Positional;
      var h, c := OctalPositional(m / 8), Digit(m % 8, false);
      OctalMeans(m);
      OctalMeans(m / 8);
      HexReadsMore(h);
      assert Octal(m) == h + [c] && (h + [c])[..|h|] == h;
      assert ValueOf(h + [c], 16) > ValueOf(h + [c], 8);
      DigitsMean(m, 8, large);
    }
  }

  lemma {:induction false} OneDigit(m: nat, large: bool)
    requires 0 < m < 8
    ensures Digits(m, 8, large) == Octal(m)
  {
    assert Positional(0, 8, large) == "" && OctalPositional(0) == "";
    assert Digit(m, large) == Digit(m, false);
  }

  lemma {:induction false} PositionalSame(m: nat, large: bool)
    ensures Positional(m, 8, large) == Positional(m, 16, large)
  {
    if m > 0 {
      PositionalSame(High(m, 8), large);
    }
  }
}
