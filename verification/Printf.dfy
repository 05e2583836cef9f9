/** Formatted output into a buffer (kservice.c).  Pointers into the buffer are offsets from its start;
    `end` is where writing stops, and a pointer goes on counting behind it. */
module Printf {
  import opened FormatSpec

  /** The contents after writing t from `str` on, as far as it lies before `end`. */
  function Emit(b: seq<char>, str: nat, end: nat, t: string): (r: seq<char>)
    ensures |r| == |b|
    ensures forall j | 0 <= j < |b| :: r[j] == if str <= j < end && j - str < |t| then t[j - str] else b[j]
  {
    seq(|b|, j requires 0 <= j < |b| => if str <= j < end && j - str < |t| then t[j - str] else b[j])
  }

  lemma {:induction false} EmitTwice(b: seq<char>, str: nat, end: nat, s: string, t: string)
    ensures Emit(Emit(b, str, end, s), str + |s|, end, t) == Emit(b, str, end, s + t)
  {
  }

  lemma {:induction false} EmitNothing(b: seq<char>, str: nat, end: nat)
    ensures Emit(b, str, end, "") == b
  {
  }

  /** if (str < end) *str = c; ++ str; */
  method Put(buf: array<char>, str: nat, end: nat, c: char) returns (r: nat)
    requires end <= buf.Length
    modifies buf
    ensures buf[..] == Emit(old(buf[..]), str, end, [c]) && r == str + 1
  {
    if str < end {
      buf[str] := c;
    }
    r := str + 1;
  }

  /** while (count-- > 0) the same with one character. */
  method Fill(buf: array<char>, str: nat, end: nat, c: char, count: int) returns (r: nat, left: int)
    requires end <= buf.Length
    modifies buf
    ensures buf[..] == Emit(old(buf[..]), str, end, Repeat(c, count)) && r == str + |Repeat(c, count)|
    ensures left < 0
  {
    hide Emit, Repeat;
    r, left := str, count;
    ghost var t := "";
    EmitNothing(buf[..], str, end);
    while left > 0
      invariant t == Repeat(c, if count > 0 then count - left else 0) && r == str + |t| && left <= count
      invariant 0 <= left || left == count
      invariant buf[..] == Emit(old(buf[..]), str, end, t)
    {
      r := Put(buf, r, end, c);
      EmitTwice(old(buf[..]), str, end, t, [c]);
      t := t + [c];
      left := left - 1;
    }
    left := left - 1;
  }

  /** `divide`: one digit off the number, which is taken as unsigned. */
  method Divide(n: int, base: int) returns (res: nat, rest: int)
    requires -HALF <= n < HALF
    ensures res == Low(Unsigned(n), base) && rest == High(Unsigned(n), base) && rest < HALF
  {
    if base == 10 {
      res, rest := Unsigned(n) % 10, Unsigned(n) / 10;
    } else {
      res, rest := Unsigned(n) % 16, Unsigned(n) / 16;
    }
  }

  /** tmp[i - 1], ..., tmp[0] */
  function Backwards(tmp: seq<char>, i: nat): (r: string)
    requires i <= |tmp|
    ensures |r| == i
  {
    seq(i, k requires 0 <= k < i => tmp[i - 1 - k])
  }

  lemma {:induction false} BackwardsStep(tmp: seq<char>, i: nat, c: char)
    requires i < |tmp|
    ensures Backwards(tmp[i := c], i + 1) == [c] + Backwards(tmp, i)
  {
  }

  /** The digit loop of print_number: the digits of n, the lowest first, always fit into tmp[16]. */
  method StoreDigits(tmp: array<char>, num: int, base: int, large: bool) returns (i: nat)
    requires tmp.Length == 16 && -HALF <= num < HALF
    modifies tmp
    ensures i <= 10 && Backwards(tmp[..], i) == Digits(Unsigned(num), base, large)
  {
    hide Digit, High, Low, Digits;
    ghost var m := Unsigned(num);
    ghost var all := Digits(m, base, large);
    AtMostTenDigits(m, base, large);
    DigitsOf(m, base, large);
    i := 0;
    var n := num;
    if n == 0 {
      tmp[0] := '0';
      i := 1;
    } else {
      while n != 0
        invariant -HALF <= n < HALF && i <= 10 && (i == 0 ==> n != 0)
        invariant i + |Positional(Unsigned(n), base, large)| == |all|
        invariant Positional(Unsigned(n), base, large) + Backwards(tmp[..], i) == all
        decreases Unsigned(n)
      {
        BackwardsStep(tmp[..], i, Digit(Low(Unsigned(n), base), large));
        ghost var u := Unsigned(n);
        ghost var done := Backwards(tmp[..], i);
        var res, rest := Divide(n, base);
        tmp[i] := Digit(res, large);
        ghost var h := Positional(rest, base, large);
        assert Positional(u, base, large) == h + [Digit(res, large)];
        assert h + ([Digit(res, large)] + done) == (h + [Digit(res, large)]) + done;
        i := i + 1;
        n := rest;
      }
    }
  }

  lemma {:induction false} DigitsOf(m: nat, base: int, large: bool)
    ensures m == 0 ==> Digits(m, base, large) == "0"
    ensures m != 0 ==> Digits(m, base, large) == Positional(m, base, large)
  {
  }

  /* What print_number writes: padding and sign, then the digits, then padding on the right. */

  function Front(g: string, size: int, zero: bool, left: bool): string {
    var blank := if !zero && !left then (if g != "" && size > 0 then size - 1 else size) else 0;
    var after := (if !zero && !left then -1 else size) - |g|;
    Repeat(' ', blank) + g + (if left then "" else Repeat(if zero then '0' else ' ', after))
  }

  function Back(d: string, zeros: int, prec: int): string {
    Repeat('0', zeros) + (if prec == 0 then "" else d)
  }

  function Trail(g: string, size: int, left: bool): string {
    if left then Repeat(' ', size - |g|) else ""
  }

  /** Signs and padding in front of the digits. */
  method PrintFront(buf: array<char>, str: nat, end: nat, g: string, size: int, zero: bool, left: bool)
    returns (r: nat, rest: int)
    requires end <= buf.Length && |g| <= 1
    modifies buf
    ensures var t := Front(g, size, zero, left); buf[..] == Emit(old(buf[..]), str, end, t) && r == str + |t|
    ensures if left then rest == size - |g| else rest < 0
  {
    hide Emit, Repeat;
    r, rest := str, size;
    ghost var t := "";
    EmitNothing(buf[..], str, end);
    if !zero && !left {
      if g != "" && rest > 0 {
        rest := rest - 1;
      }
      t := Repeat(' ', rest);
      r, rest := Fill(buf, r, end, ' ', rest);
    } else {
      NoRepeat(' ', 0);
    }
    if g != "" {
      assert g == [g[0]];
      r := Put(buf, r, end, g[0]);
      rest := rest - 1;
    }
    ghost var u := t + g;
    EmitTwice(old(buf[..]), str, end, t, g);
    EmitNothing(Emit(old(buf[..]), str, end, t), str + |t|, end);
    if !left {
      var c := if zero then '0' else ' ';
      ghost var v := Repeat(c, rest);
      EmitTwice(old(buf[..]), str, end, u, v);
      if !zero {
        NoRepeat(c, rest);
        NoRepeat(c, -1 - |g|);
      }
      r, rest := Fill(buf, r, end, c, rest);
    } else {
      assert u + "" == u;
    }
  }

  lemma {:induction false} NoRepeat(c: char, n: int)
    requires n <= 0
    ensures Repeat(c, n) == ""
  {
  }

  /** The digits, unless the precision is 0. */
  method PrintDigits(buf: array<char>, str: nat, end: nat, tmp: array<char>, count: nat, precision: int) returns (r: nat)
    requires end <= buf.Length && count <= tmp.Length && tmp != buf
    modifies buf
    ensures var t := if precision == 0 then "" else Backwards(tmp[..], count);
      buf[..] == Emit(old(buf[..]), str, end, t) && r == str + |t|
  {
    hide Emit;
    var i := count;
    r := str;
    EmitNothing(buf[..], str, end);
    ghost var all := Backwards(tmp[..], count);
    assert all[..0] == "";
    while i > 0 && precision != 0
      invariant 0 <= i <= count && r == str + (count - i) && (precision == 0 ==> i == count)
      invariant buf[..] == Emit(old(buf[..]), str, end, all[..count - i])
    {
      i := i - 1;
      r := Put(buf, r, end, tmp[i]);
      assert all[count - i - 1] == tmp[i];
      EmitTwice(old(buf[..]), str, end, all[..count - i - 1], [tmp[i]]);
      assert all[..count - i - 1] + [tmp[i]] == all[..count - i];
    }
    assert i == 0 ==> all[..count] == all;
  }

  method PrintNumber(buf: array<char>, str: nat, end: nat, num: int, base: int, width: int, prec: int, f: Flags)
    returns (r: nat)
    requires end <= buf.Length && -HALF <= num < HALF
    modifies buf
    ensures var t := NumberText(num, base, width, prec, f); buf[..] == Emit(old(buf[..]), str, end, t) && r == str + |t|
  {
    hide Emit, Repeat, Digits, NumberText, Backwards, Front, Back, Trail;
    var zero := f.zeroPad && !f.left;
    var g, n := "", num;
    if f.sign {
      if num < 0 {
        g, n := "-", Negate(num);
      } else if f.plus {
        g := "+";
      } else if f.space {
        g := " ";
      }
    }
    assert Unsigned(n) == Magnitude(num, f) && g == SignText(num, f);
    var tmp := new char[16];
    var i := StoreDigits(tmp, n, base, f.large);
    var precision := prec;
    if i > precision {
      precision := i;
    }
    var size := width - precision;
    PiecesAreNumber(num, base, width, prec, f);
    r := PrintRest(buf, str, end, tmp, i, g, size, precision, prec, zero, f.left);
  }

  /** Together the pieces are the number as specified. */
  lemma {:induction false} PiecesAreNumber(num: int, base: int, width: int, prec: int, f: Flags)
    requires -HALF <= num < HALF
    ensures var g, d := SignText(num, f), Digits(Magnitude(num, f), base, f.large);
      var p := Larger(|d|, prec);
      Front(g, width - p, f.zeroPad && !f.left, f.left) + Back(d, p - |d|, prec) + Trail(g, width - p, f.left)
        == NumberText(num, base, width, prec, f)
  {
    hide Repeat, Digits, Back;
    var g, d := SignText(num, f), Digits(Magnitude(num, f), base, f.large);
    var size := width - Larger(|d|, prec);
    NoRepeat(' ', 0);
    NoRepeat(' ', -1 - |g|);
    if g != "" && size <= 0 {
      NoRepeat(' ', size);
      NoRepeat(' ', size - 1);
    }
    BackIs(d, Larger(|d|, prec) - |d|, prec);
  }

  lemma {:induction false} BackIs(d: string, zeros: int, prec: int)
    ensures Back(d, zeros, prec) == Repeat('0', zeros) + (if prec == 0 then "" else d)
  {
  }

  /** Leading zeros up to the precision, and the digits. */
  method PrintBack(buf: array<char>, str: nat, end: nat, tmp: array<char>, i: nat, zeros: int, prec: int) returns (r: nat)
    requires end <= buf.Length && i <= tmp.Length && tmp != buf
    modifies buf
    ensures var t := Back(Backwards(tmp[..], i), zeros, prec); buf[..] == Emit(old(buf[..]), str, end, t) && r == str + |t|
  {
    hide Emit, Repeat, Backwards;
    ghost var shown := if prec == 0 then "" else Backwards(tmp[..], i);
    EmitTwice(buf[..], str, end, Repeat('0', zeros), shown);
    var gone;
    r, gone := Fill(buf, str, end, '0', zeros);
    r := PrintDigits(buf, r, end, tmp, i, prec);
  }

  /** print_number from the padding on. */
  method PrintRest(buf: array<char>, str: nat, end: nat, tmp: array<char>, i: nat, g: string,
                   size: int, precision: int, prec: int, zero: bool, left: bool) returns (r: nat)
    requires end <= buf.Length && i <= tmp.Length && tmp != buf && |g| <= 1
    modifies buf
    ensures var t := Front(g, size, zero, left) + Back(Backwards(tmp[..], i), precision - i, prec) + Trail(g, size, left);
      buf[..] == Emit(old(buf[..]), str, end, t) && r == str + |t|
  {
    hide Emit, Repeat, Backwards, Front, Back;
    ghost var was, front, back := buf[..], Front(g, size, zero, left), Back(Backwards(tmp[..], i), precision - i, prec);
    var rest, gone;
    r, rest := PrintFront(buf, str, end, g, size, zero, left);
    r := PrintBack(buf, r, end, tmp, i, precision - i, prec);
    EmitTwice(was, str, end, front, back);
    EmitTwice(was, str, end, front + back, Repeat(' ', rest));
    if !left {
      NoRepeat(' ', rest);
    }
    r, gone := Fill(buf, r, end, ' ', rest);
  }

  /* ---------- %c and %s ---------- */

  method PrintChar(buf: array<char>, str: nat, end: nat, w: Word, width: int, left: bool) returns (r: nat)
    requires end <= buf.Length
    modifies buf
    ensures var t := CharText(w, width, left); buf[..] == Emit(old(buf[..]), str, end, t) && r == str + |t|
  {
    hide Emit, Repeat;
    ghost var was := buf[..];
    var c := (w % 256) as char;
    var fieldWidth := width - 1;
    r := str;
    if !left {
      r, fieldWidth := Fill(buf, r, end, ' ', fieldWidth);
      EmitTwice(was, str, end, Repeat(' ', width - 1), [c]);
      ghost var t := Repeat(' ', width - 1) + [c];
      EmitTwice(was, str, end, t, Repeat(' ', fieldWidth));
      NoRepeat(' ', fieldWidth);
      assert t + "" == t;
    } else {
      EmitTwice(was, str, end, [c], Repeat(' ', fieldWidth));
    }
    r := Put(buf, r, end, c);
    r, fieldWidth := Fill(buf, r, end, ' ', fieldWidth);
  }

  method PrintString(buf: array<char>, str: nat, end: nat, s: string, width: int, prec: int, left: bool) returns (r: nat)
    requires end <= buf.Length
    modifies buf
    ensures var t := StringText(s, width, prec, left); buf[..] == Emit(old(buf[..]), str, end, t) && r == str + |t|
  {
    hide Emit, Repeat;
    ghost var was := buf[..];
    var len := Measure(s, width, prec);
    var room := width - len;
    r := str;
    if !left {
      r, room := Fill(buf, r, end, ' ', room);
      EmitTwice(was, str, end, Repeat(' ', width - len), s[..len]);
      ghost var t := Repeat(' ', width - len) + s[..len];
      EmitTwice(was, str, end, t, Repeat(' ', room));
      NoRepeat(' ', room);
      assert t + "" == t;
    } else {
      EmitTwice(was, str, end, s[..len], Repeat(' ', room));
    }
    r := Copy(buf, r, end, s[..len]);
    r, room := Fill(buf, r, end, ' ', room);
  }

  /** How many characters of a string are printed. */
  method Measure(s: string, width: int, prec: int) returns (len: nat)
    ensures len == StringLen(s, width, prec)
  {
    len := 0;
    while len != width && len < |s|
      invariant len <= |s| && (0 <= width ==> len <= width || width < 0)
      decreases |s| - len
    {
      len := len + 1;
    }
    if prec > 0 && len > prec {
      len := prec;
    }
  }

  method Copy(buf: array<char>, str: nat, end: nat, s: string) returns (r: nat)
    requires end <= buf.Length
    modifies buf
    ensures buf[..] == Emit(old(buf[..]), str, end, s) && r == str + |s|
  {
    hide Emit;
    var i := 0;
    r := str;
    EmitNothing(buf[..], str, end);
    assert s[..0] == "";
    while i < |s|
      invariant 0 <= i <= |s| && r == str + i && buf[..] == Emit(old(buf[..]), str, end, s[..i])
    {
      r := Put(buf, r, end, s[i]);
      EmitTwice(old(buf[..]), str, end, s[..i], [s[i]]);
      assert s[..i] + [s[i]] == s[..i + 1];
      i := i + 1;
    }
    assert s[..i] == s;
  }

  /* ---------- the format ---------- */

  method SkipAtoi(s: string, at: nat) returns (value: nat, i: nat)
    requires at <= |s|
    ensures (value, i) == Atoi(s, at, 0)
  {
    value, i := 0, at;
    while IsDigit(At(s, i))
      invariant i <= |s| && Atoi(s, at, 0) == Atoi(s, i, value)
      decreases |s| - i
    {
      value, i := value * 10 + (s[i] as int - '0' as int), i + 1;
    }
  }

  method ReadFlags(fmt: string, at: nat) returns (f: Flags, i: nat)
    requires at <= |fmt| && '\0' !in fmt
    ensures (f, i) == FlagsFrom(fmt, at, NO_FLAGS)
  {
    f, i := NO_FLAGS, at;
    while true
      invariant i <= |fmt| && FlagsFrom(fmt, at, NO_FLAGS) == FlagsFrom(fmt, i, f)
      decreases |fmt| - i
    {
      var c := At(fmt, i);
      if c == '-' { f := f.(left := true); }
      else if c == '+' { f := f.(plus := true); }
      else if c == ' ' { f := f.(space := true); }
      else if c == '#' { f := f.(special := true); }
      else if c == '0' { f := f.(zeroPad := true); }
      else { break; }
      i := i + 1;
    }
  }

  /** Flags, field width, precision and qualifier behind a '%'. */
  method ReadDirective(fmt: string, at: nat, args: nat -> Word, a: nat) returns (d: Directive)
    requires at <= |fmt| && '\0' !in fmt
    ensures d == Parse(fmt, at, args, a)
  {
    hide Atoi, FlagsFrom;
    var flags, i := ReadFlags(fmt, at);
    var arg, width, prec, value := a, -1, -1, 0;
    if IsDigit(At(fmt, i)) {
      value, i := SkipAtoi(fmt, i);
      width := value;
    } else if At(fmt, i) == '*' {
      i := i + 1;
      width := Signed(args(arg));
      arg := arg + 1;
      if width < 0 {
        width := Negate(width);
        flags := flags.(left := true);
      }
    }
    if At(fmt, i) == '.' {
      i := i + 1;
      if IsDigit(At(fmt, i)) {
        value, i := SkipAtoi(fmt, i);
        prec := value;
      } else if At(fmt, i) == '*' {
        i := i + 1;
        prec := Signed(args(arg));
        arg := arg + 1;
      }
      if prec < 0 {
        prec := 0;
      }
    }
    var qual := '\0';
    if At(fmt, i) == 'h' || At(fmt, i) == 'l' {
      qual := At(fmt, i);
      i := i + 1;
    }
    d := Directive(flags, width, prec, qual, i, arg);
  }

  /** The number argument of an integer conversion. */
  method TakeNumber(qual: char, sign: bool, w: Word) returns (n: int)
    ensures n == NumberArg(qual, sign, w)
  {
    if qual == 'l' {
      n := Signed(w);
    } else if qual == 'h' {
      n := w % 0x1_0000;
      if sign && n >= 0x8000 {
        n := n - 0x1_0000;
      }
    } else {
      n := Signed(w);
    }
  }

  /** The switch over the conversion letter. */
  method PrintDirective(buf: array<char>, str: nat, end: nat, fmt: string, d: Directive, args: nat -> Word, text: Word -> string)
    returns (r: nat, taken: nat)
    requires end <= buf.Length && '\0' !in fmt
    modifies buf
    ensures var (t, k) := Convert(fmt, d, args, text);
      buf[..] == Emit(old(buf[..]), str, end, t) && r == str + |t| && taken == k
  {
    hide Emit, CharText, StringText, NumberText, NumberArg;
    var c, w := At(fmt, d.at), args(d.arg);
    var base, flags := 10, d.flags;
    if c == 'c' {
      r := PrintChar(buf, str, end, w, d.width, flags.left);
      return r, 1;
    } else if c == 's' {
      var s := if w == 0 then "(NULL)" else text(w);
      r := PrintString(buf, str, end, s, d.width, d.prec, flags.left);
      return r, 1;
    } else if c == 'p' {
      var width := d.width;
      if width == -1 {
        width, flags := 8, flags.(zeroPad := true);
      }
      r := PrintNumber(buf, str, end, Signed(w), 16, width, d.prec, flags);
      return r, 1;
    } else if c == '%' {
      r := Put(buf, str, end, '%');
      return r, 0;
    } else if c == 'o' {
      base := 8;
    } else if c == 'X' || c == 'x' {
      base := 16;
      if c == 'X' {
        flags := flags.(large := true);
      }
    } else if c == 'd' || c == 'i' {
      flags := flags.(sign := true);
    } else if c != 'u' {
      r := PrintOther(buf, str, end, fmt, d.at);
      return r, 0;
    }
    var n := TakeNumber(d.qual, c == 'd' || c == 'i', w);
    r := PrintNumber(buf, str, end, n, base, d.width, d.prec, flags);
    taken := 1;
  }

  /** An unknown letter is printed behind its '%'; at the end of the format only the '%' is. */
  method PrintOther(buf: array<char>, str: nat, end: nat, fmt: string, at: nat) returns (r: nat)
    requires end <= buf.Length && '\0' !in fmt
    modifies buf
    ensures var t := if at < |fmt| then ['%', fmt[at]] else "%";
      buf[..] == Emit(old(buf[..]), str, end, t) && r == str + |t|
  {
    hide Emit;
    r := Put(buf, str, end, '%');
    if At(fmt, at) != '\0' {
      EmitTwice(old(buf[..]), str, end, "%", [fmt[at]]);
      assert "%" + [fmt[at]] == ['%', fmt[at]];
      r := Put(buf, r, end, At(fmt, at));
    }
  }

  /** One character of the format, or one directive. */
  method PrintOne(buf: array<char>, str: nat, end: nat, fmt: string, i: nat, args: nat -> Word, text: Word -> string, a: nat)
    returns (r: nat, j: nat, b: nat, ghost piece: string)
    requires end <= buf.Length && i < |fmt| && '\0' !in fmt
    modifies buf
    ensures i < j <= |fmt| && Format(fmt, i, args, text, a) == piece + Format(fmt, j, args, text, b)
    ensures buf[..] == Emit(old(buf[..]), str, end, piece) && r == str + |piece|
  {
    hide Emit, Convert, Parse;
    FormatStep(fmt, i, args, text, a);
    if fmt[i] != '%' {
      r := Put(buf, str, end, fmt[i]);
      piece := [fmt[i]];
      return r, i + 1, a, piece;
    }
    var d := ReadDirective(fmt, i + 1, args, a);
    var k;
    r, k := PrintDirective(buf, str, end, fmt, d, args, text);
    piece := Convert(fmt, d, args, text).0;
    j, b := d.at, d.arg + k;
    if At(fmt, j) == '\0' {
      j := j - 1;   // the format ends behind the '%'
    }
    j := j + 1;
  }

  /** The NUL behind the output, or in the last place of a buffer that is full. */
  method Terminate(buf: array<char>, str: nat, size: nat, ghost was: seq<char>, ghost t: string)
    requires size <= buf.Length && |was| == buf.Length && str == |t| && buf[..] == Emit(was, 0, size, t)
    modifies buf
    ensures size == 0 ==> buf[..] == was
    ensures size > 0 ==>
      var k := if |t| < size then |t| else size - 1;
      buf[..] == t[..k] + ['\0'] + was[k + 1..]
  {
    hide Emit;
    if size > 0 {
      Terminated(was, size, t);
      if str < size {
        buf[str] := '\0';
      } else {
        buf[size - 1] := '\0';
      }
    } else {
      Unwritten(was, t);
    }
  }

  /** The size that rt_vsnprintf works with: `buf + size` must not pass the top of the address space. */
  function EffectiveSize(address: Word, size: Word): Word {
    if address + size >= WORD then WORD - 1 - address else size
  }

  /** It is the size asked for as long as the buffer ends below the top, and all that is left below the
      last address otherwise. */
  lemma {:induction false} SizeLeft(address: Word, size: Word)
    ensures var e := EffectiveSize(address, size);
      && 0 <= e <= size && address + e < WORD
      && (e == size || (address + size >= WORD && address + e == WORD - 1))
  {
  }

  /** rt_vsnprintf, with a buffer at `address`; the array is the memory from there on.  Whatever the
      size, the result is the length of the whole output; the buffer gets the output cut to one
      character less than the size and a NUL, and nothing behind that NUL changes. */
  method Vsnprintf(buf: array<char>, address: Word, size: Word, fmt: string, args: nat -> Word, text: Word -> string)
    returns (n: nat)
    requires EffectiveSize(address, size) <= buf.Length && '\0' !in fmt
    requires address + |Format(fmt, 0, args, text, 0)| < WORD
    modifies buf
    ensures var t, e := Format(fmt, 0, args, text, 0), EffectiveSize(address, size);
      && n == |t|
      && (e == 0 ==> buf[..] == old(buf[..]))
      && (e > 0 ==>
        var k := if |t| < e then |t| else e - 1;
        buf[..] == t[..k] + ['\0'] + old(buf[k + 1..]))
  {
    hide Emit, Format;
    ghost var was, all := buf[..], Format(fmt, 0, args, text, 0);
    ghost var t := "";
    var i: nat, a: nat, str: nat := 0, 0, 0;
    var end := size;
    if address + size >= WORD {
      end := WORD - 1 - address;
    }
    EmitNothing(was, 0, end);
    while i < |fmt|
      invariant 0 <= i <= |fmt| && str == |t| && all == t + Format(fmt, i, args, text, a)
      invariant buf[..] == Emit(was, 0, end, t)
      decreases |fmt| - i
    {
      ghost var piece;
      str, i, a, piece := PrintOne(buf, str, end, fmt, i, args, text, a);
      EmitTwice(was, 0, end, t, piece);
      assert (t + piece) + Format(fmt, i, args, text, a) == t + (piece + Format(fmt, i, args, text, a));
      t := t + piece;
    }
    FormatEnd(fmt, i, args, text, a);
    assert t == all;
    Terminate(buf, str, end, was, t);
    n := str;
  }

  /** rt_vsprintf asks for the largest size, so that the output is whole, unless it ends right below
      the last address: then it loses its last character. */
  method Vsprintf(buf: array<char>, address: Word, fmt: string, args: nat -> Word, text: Word -> string) returns (n: nat)
    requires address + buf.Length >= WORD - 1 && '\0' !in fmt
    requires address + |Format(fmt, 0, args, text, 0)| < WORD
    modifies buf
    ensures var t := Format(fmt, 0, args, text, 0);
      && n == |t|
      && (address + |t| < WORD - 1 ==> buf[..] == t + ['\0'] + old(buf[n + 1..]))
      && (address + |t| == WORD - 1 && t != "" ==> buf[..] == t[..n - 1] + ['\0'] + old(buf[n..]))
  {
    hide Format;
    n := Vsnprintf(buf, address, WORD - 1, fmt, args, text);
  }

  lemma {:induction false} FormatEnd(fmt: string, i: nat, args: nat -> Word, text: Word -> string, a: nat)
    requires i >= |fmt|
    ensures Format(fmt, i, args, text, a) == ""
  {
  }

  lemma {:induction false} FormatStep(fmt: string, i: nat, args: nat -> Word, text: Word -> string, a: nat)
    requires i < |fmt|
    ensures fmt[i] != '%' ==> Format(fmt, i, args, text, a) == [fmt[i]] + Format(fmt, i + 1, args, text, a)
    ensures fmt[i] == '%' ==>
      var d := Parse(fmt, i + 1, args, a);
      var (t, k) := Convert(fmt, d, args, text);
      Format(fmt, i, args, text, a) == t + Format(fmt, if d.at < |fmt| then d.at + 1 else d.at, args, text, d.arg + k)
  {
    hide Convert, Parse;
  }

  lemma {:induction false} Terminated(b: seq<char>, size: nat, t: string)
    requires 0 < size <= |b|
    ensures var k := if |t| < size then |t| else size - 1;
      Emit(b, 0, size, t)[k := '\0'] == t[..k] + ['\0'] + b[k + 1..]
  {
  }

  lemma {:induction false} Unwritten(b: seq<char>, t: string)
    ensures Emit(b, 0, 0, t) == b
  {
  }
}
