/** What formatted output means: the text of every conversion letter, and a format as the sequence of
    its pieces. */
module FormatLaws {
  import opened FormatSpec

  /* ---------- printed numbers ---------- */

  /** Where everything stands in a printed number. */
  datatype Layout = Layout(before: nat, sign: string, zeros: nat, digits: string, after: nat)

  predicate DigitOf(c: char, large: bool) {
    IsDigit(c) || (if large then 'A' <= c <= 'F' else 'a' <= c <= 'f')
  }

  /** The digits stand for m in this radix and case, without leading zeros. */
  ghost predicate StandsFor(digits: string, m: nat, radix: nat, large: bool) {
    && digits != "" && ValueOf(digits, radix) == m && (digits[0] == '0' ==> digits == "0")
    && forall k | 0 <= k < |digits| :: DigitOf(digits[k], large && radix == 16) && (radix == 10 ==> IsDigit(digits[k]))
  }

  /** Text t is: blanks, sign, zeros, digits, blanks; and with precision 0 no digits. */
  ghost predicate LaidOutAs(t: string, l: Layout, prec: int) {
    t == Repeat(' ', l.before) + l.sign + Repeat('0', l.zeros) + (if prec == 0 then "" else l.digits) + Repeat(' ', l.after)
  }

  /** The number fills its field.  Blanks stand on one side only, behind it for '-'; zeros come from the
      precision, or fill the field in front of the digits for '0' without '-'. */
  ghost predicate Fills(l: Layout, width: int, prec: int, left: bool, zeroPad: bool) {
    && l.before + |l.sign| + l.zeros + |l.digits| + l.after == Larger(width, Larger(|l.digits|, prec) + |l.sign|)
    && (l.after > 0 ==> left) && (l.before > 0 ==> !left && !zeroPad)
    && (left || !zeroPad ==> l.zeros == Larger(prec - |l.digits|, 0))
  }

  lemma {:induction false} LeadingDigit(m: nat, base: int, large: bool)
    ensures m > 0 ==> Positional(m, base, large) != "" && Positional(m, base, large)[0] != '0'
  {
    if m > 0 {
      LeadingDigit(High(m, base), base, large);
      if High(m, base) == 0 {
        NotZero(Low(m, base), large);
        assert Positional(m, base, large) == [Digit(Low(m, base), large)];
      }
    }
  }

  lemma {:induction false} NotZero(k: nat, large: bool)
    requires 0 < k < 16
    ensures Digit(k, large) != '0'
  {
  }

  lemma {:induction false} DigitCase(k: nat, large: bool)
    requires k < 16
    ensures DigitOf(Digit(k, large), large) && (k < 10 ==> IsDigit(Digit(k, large)))
  {
  }

  lemma {:induction false} PositionalCase(m: nat, base: int, large: bool)
    ensures forall k | 0 <= k < |Positional(m, base, large)| ::
      DigitOf(Positional(m, base, large)[k], large) && (base == 10 ==> IsDigit(Positional(m, base, large)[k]))
  {
    if m > 0 {
      hide Digit, DigitOf;
      PositionalCase(High(m, base), base, large);
      DigitCase(Low(m, base), large);
    }
  }

  lemma {:induction false} DigitsStandFor(m: nat, base: int, large: bool)
    ensures StandsFor(Digits(m, base, large), m, Radix(base), large)
  {
    hide ValueOf;
    DigitsMean(m, base, large);
    LeadingDigit(m, base, large);
    PositionalCase(m, base, large);
  }

  /** What print_number prints for a number, sign and value being those of the number. */
  lemma {:induction false} NumberReads(num: int, base: int, width: int, prec: int, f: Flags) returns (l: Layout)
    requires -HALF <= num < HALF
    ensures LaidOutAs(NumberText(num, base, width, prec, f), l, prec) && Fills(l, width, prec, f.left, f.zeroPad)
    ensures l.sign == if !f.sign then "" else if num < 0 then "-" else if f.plus then "+" else if f.space then " " else ""
    ensures StandsFor(l.digits, if num >= 0 then num else if f.sign then -num else num + WORD, if base == 10 then 10 else 16, f.large)
  {
    hide NumberText, Digits, StandsFor;
    var before, zeros, after := NumberShape(num, base, width, prec, f);
    l := Layout(before, SignText(num, f), zeros, Digits(Magnitude(num, f), base, f.large), after);
    DigitsStandFor(Magnitude(num, f), base, f.large);
  }

  /* ---------- the conversion letters ---------- */

  /** The argument as a number of so many bits, signed or not. */
  ghost predicate IsArgument(v: int, w: Word, qual: char, signed: bool) {
    var m := if qual == 'h' then 0x1_0000 else 0x1_0000_0000;
    && (v - w) % m == 0
    && if signed then -m <= 2 * v < m else 0 <= v < m
  }

  /** %d and %i: the digits of the absolute value in base 10, and in front a '-' exactly for a negative
      argument. */
  lemma {:induction false} SignedLetter(c: char, d: Directive, w: Word, text: Word -> string) returns (v: int, l: Layout)
    requires c == 'd' || c == 'i'
    ensures IsArgument(v, w, d.qual, true) && Show(c, d, w, text).1 == 1
    ensures LaidOutAs(Show(c, d, w, text).0, l, d.prec) && Fills(l, d.width, d.prec, d.flags.left, d.flags.zeroPad)
    ensures l.sign == if v < 0 then "-" else if d.flags.plus then "+" else if d.flags.space then " " else ""
    ensures StandsFor(l.digits, if v < 0 then -v else v, 10, d.flags.large)
  {
    hide NumberText, StandsFor, LaidOutAs, Fills;
    v := NumberArg(d.qual, true, w);
    l := NumberReads(v, 10, d.width, d.prec, d.flags.(sign := true));
  }

  /** %u, %x, %X and %o: the digits of the unsigned argument, without a sign, in base 10 for %u and in
      base 16 for the others, in capitals for %X. */
  lemma {:induction false} UnsignedLetter(c: char, d: Directive, w: Word, text: Word -> string) returns (m: nat, l: Layout)
    requires (c == 'u' || c == 'x' || c == 'X' || c == 'o') && !d.flags.sign && !d.flags.large
    ensures IsArgument(m, w, d.qual, false) && Show(c, d, w, text).1 == 1
    ensures LaidOutAs(Show(c, d, w, text).0, l, d.prec) && Fills(l, d.width, d.prec, d.flags.left, d.flags.zeroPad)
    ensures l.sign == "" && StandsFor(l.digits, m, if c == 'u' then 10 else 16, c == 'X')
  {
    hide NumberText, StandsFor, LaidOutAs, Fills;
    var n := NumberArg(d.qual, false, w);
    m := if n < 0 then n + WORD else n;
    l := NumberReads(n, if c == 'u' then 10 else if c == 'o' then 8 else 16, d.width, d.prec, d.flags.(large := c == 'X'));
    assert d.flags.(large := false) == d.flags;
  }

  /** %p: the digits of all 32 bits in base 16, in a field of eight zeros if no width is given. */
  lemma {:induction false} PointerLetter(d: Directive, w: Word, text: Word -> string) returns (l: Layout)
    requires !d.flags.sign && !d.flags.large
    ensures Show('p', d, w, text).1 == 1
    ensures LaidOutAs(Show('p', d, w, text).0, l, d.prec)
    ensures Fills(l, if d.width == -1 then 8 else d.width, d.prec, d.flags.left, d.flags.zeroPad || d.width == -1)
    ensures l.sign == "" && StandsFor(l.digits, w, 16, false)
  {
    hide NumberText, StandsFor, LaidOutAs, Fills;
    l := NumberReads(Signed(w), 16, if d.width == -1 then 8 else d.width, d.prec, d.flags.(zeroPad := d.flags.zeroPad || d.width == -1));
    assert d.width != -1 ==> d.flags.(zeroPad := d.flags.zeroPad || d.width == -1) == d.flags;
  }

  /** %c: the character with the low 8 bits, and blanks that fill the field on the other side. */
  lemma {:induction false} CharLetter(d: Directive, w: Word, text: Word -> string)
    ensures var t := Show('c', d, w, text).0;
      && |t| == Larger(d.width, 1)
      && t[if d.flags.left then 0 else |t| - 1] == (w % 256) as char
      && forall k | 0 <= k < |t| && k != (if d.flags.left then 0 else |t| - 1) :: t[k] == ' '
    ensures Show('c', d, w, text).1 == 1
  {
  }

  /** %s: the string, or "(NULL)" for a null pointer, as far as width and precision let it be printed. */
  lemma {:induction false} StringLetter(d: Directive, w: Word, text: Word -> string)
    ensures var s := if w == 0 then "(NULL)" else text(w);
      var t := Show('s', d, w, text).0;
      exists len :: 0 <= len <= |s| && |t| == Larger(d.width, len) && PrintsPart(t, s, len, d.flags.left)
        && (len < |s| <==> 0 <= d.width < |s| || 0 < d.prec < |s|)
        && (len < |s| ==> len == d.width || len == d.prec)
        && (0 <= d.width <= |s| ==> len <= d.width) && (0 < d.prec ==> len <= d.prec)
    ensures Show('s', d, w, text).1 == 1
  {
    var s := if w == 0 then "(NULL)" else text(w);
    hide StringText;
    StringShape(s, d.width, d.prec, d.flags.left);
    assert PrintsPart(Show('s', d, w, text).0, s, StringLen(s, d.width, d.prec), d.flags.left);
  }

  /** The first len characters of s, on the left or on the right of blanks. */
  ghost predicate PrintsPart(t: string, s: string, len: nat, left: bool) {
    && len <= |s| && len <= |t|
    && (if left then t[..len] == s[..len] else t[|t| - len..] == s[..len])
    && forall k | 0 <= k < |t| && (if left then k >= len else k < |t| - len) :: t[k] == ' '
  }

  predicate TakesArgument(c: char) {
    c == 'c' || c == 's' || c == 'p' || c == 'o' || c == 'x' || c == 'X' || c == 'd' || c == 'i' || c == 'u'
  }

  /** Every other letter takes no argument: %% prints one '%', an unknown letter prints itself and the
      '%' in front. */
  lemma {:induction false} OtherLetter(c: char, d: Directive, w: Word, text: Word -> string)
    ensures !TakesArgument(c) ==> Show(c, d, w, text) == (if c == '%' then "%" else "%" + [c], 0)
    ensures TakesArgument(c) ==> Show(c, d, w, text).1 == 1
  {
    hide NumberText, CharText, StringText;
    assert "%" + [c] == ['%', c];
  }

  /* ---------- directives, written and read ---------- */

  /** A width or a precision: none, digits, or a '*' that takes an argument. */
  datatype Field = Absent | Number(digits: string) | Star

  /** A format is a sequence of pieces: plain text, and directives. */
  datatype Piece =
    | Text(s: string)
    | Conv(flags: string, width: Field, point: bool, prec: Field, qual: string, letter: char)

  function FieldText(f: Field): string {
    match f
    case Absent => ""
    case Number(ds) => ds
    case Star => "*"
  }

  function PrecText(p: Piece): string
    requires p.Conv?
  {
    if p.point then "." + FieldText(p.prec) else ""
  }

  function Written(p: Piece): string {
    match p
    case Text(s) => s
    case Conv(flags, width, _, _, qual, letter) => "%" + (flags + (FieldText(width) + (PrecText(p) + (qual + [letter]))))
  }

  predicate FlagChar(c: char) { c == '-' || c == '+' || c == ' ' || c == '#' || c == '0' }

  ghost predicate AllDigits(s: string) {
    s != "" && forall k | 0 <= k < |s| :: IsDigit(s[k])
  }

  /** The pieces as one writes them: plain text has no '%'; a width does not begin with a zero, which
      would be a flag; the letter is none of the characters that belong in front of it. */
  ghost predicate WellWritten(p: Piece) {
    match p
    case Text(s) => '%' !in s
    case Conv(flags, width, point, prec, qual, letter) =>
      && (forall k | 0 <= k < |flags| :: FlagChar(flags[k]))
      && (width.Number? ==> AllDigits(width.digits) && width.digits[0] != '0')
      && (prec.Number? ==> AllDigits(prec.digits)) && (!point ==> prec.Absent?)
      && (qual == "" || qual == "h" || qual == "l") && LetterAlone(letter)
      && (qual == "" ==> letter != 'h' && letter != 'l')
  }

  predicate LetterAlone(c: char) { !FlagChar(c) && !IsDigit(c) && c != '*' && c != '.' }

  /** How many arguments stand in front of the converted one. */
  function Stars(p: Piece): nat
    requires p.Conv?
  {
    (if p.width.Star? then 1 else 0) + (if p.prec.Star? then 1 else 0)
  }

  /** The 32-bit argument as a signed number. */
  lemma {:induction false} SignedIs(w: Word)
    ensures -0x8000_0000 <= Signed(w) < 0x8000_0000 && (Signed(w) - w) % 0x1_0000_0000 == 0
  {
  }

  /** What a directive means, argument a being the next one: each flag character sets its flag and no
      other; a width is the number that is written, or an argument, whose sign stands for '-'; a
      precision is the number that is written, or an argument, 0 for a negative one and after a bare
      point. */
  function Meaning(p: Piece, args: nat -> Word, a: nat, at: nat): Directive
    requires p.Conv?
  {
    var w, q := Signed(args(a)), Signed(args(a + if p.width.Star? then 1 else 0));
    Directive(Flags('0' in p.flags, false, '+' in p.flags, ' ' in p.flags, '-' in p.flags || (p.width.Star? && w < 0), '#' in p.flags, false),
              match p.width {
                case Absent => -1
                case Number(ds) => ValueOf(ds, 10)
                case Star => if -0x8000_0000 < w < 0 then -w else w
              },
              if !p.point then -1
              else match p.prec {
                case Absent => 0
                case Number(ds) => ValueOf(ds, 10)
                case Star => if q < 0 then 0 else q
              },
              if p.qual == "" then '\0' else p.qual[0], at, a + Stars(p))
  }

  /** The flag of one character. */
  function WithFlag(f: Flags, c: char): Flags {
    if c == '-' then f.(left := true) else if c == '+' then f.(plus := true) else if c == ' ' then f.(space := true)
    else if c == '#' then f.(special := true) else f.(zeroPad := true)
  }

  function WithFlags(f: Flags, s: string): Flags {
    Flags(f.zeroPad || '0' in s, f.sign, f.plus || '+' in s, f.space || ' ' in s, f.left || '-' in s, f.special || '#' in s, f.large)
  }

  lemma {:induction false} FlagStep(fmt: string, i: nat, f: Flags)
    requires i < |fmt|
    ensures if FlagChar(fmt[i]) then FlagsFrom(fmt, i, f) == FlagsFrom(fmt, i + 1, WithFlag(f, fmt[i]))
            else FlagsFrom(fmt, i, f) == (f, i)
  {
  }

  lemma {:induction false} FlagsEnd(fmt: string, i: nat, f: Flags)
    requires !FlagChar(At(fmt, i))
    ensures FlagsFrom(fmt, i, f) == (f, i)
  {
  }

  lemma {:induction false} WithFlagsStep(f: Flags, s: string)
    requires s != "" && FlagChar(s[0])
    ensures WithFlags(f, s) == WithFlags(WithFlag(f, s[0]), s[1..])
  {
    InCons(s, '0');
    InCons(s, '+');
    InCons(s, ' ');
    InCons(s, '-');
    InCons(s, '#');
  }

  lemma {:induction false} InCons(s: string, c: char)
    requires s != ""
    ensures c in s <==> c == s[0] || c in s[1..]
  {
    assert s == [s[0]] + s[1..];
  }

  lemma {:induction false} FlagsRead(fmt: string, i: nat, flags: string, f: Flags)
    requires HasAt(fmt, i, flags) && !FlagChar(At(fmt, i + |flags|)) && forall k | 0 <= k < |flags| :: FlagChar(flags[k])
    ensures FlagsFrom(fmt, i, f) == (WithFlags(f, flags), i + |flags|)
    decreases |flags|
  {
    hide FlagsFrom, WithFlag, FlagChar;
    if flags == "" {
      FlagsEnd(fmt, i, f);
    } else {
      hide WithFlags;
      assert fmt[i] == fmt[i..i + |flags|][0] == flags[0];
      assert fmt[i + 1..i + |flags|] == fmt[i..i + |flags|][1..] == flags[1..];
      FlagStep(fmt, i, f);
      WithFlagsStep(f, flags);
      FlagsRead(fmt, i + 1, flags[1..], WithFlag(f, flags[0]));
    }
    NoMoreFlags(f);
  }

  lemma {:induction false} NoMoreFlags(f: Flags)
    ensures WithFlags(f, "") == f
  {
  }

  lemma {:induction false} NumberRead(fmt: string, i: nat, ds: string)
    requires HasAt(fmt, i, ds) && AllDigits(ds) && !IsDigit(At(fmt, i + |ds|))
    ensures Atoi(fmt, i, 0) == (ValueOf(ds, 10), i + |ds|) && IsDigit(At(fmt, i)) && At(fmt, i) == ds[0]
  {
    hide ValueOf, Shifted;
    assert fmt[i] == fmt[i..i + |ds|][0] == ds[0];
    TakeDigits(fmt, i, 0, ds);
    ShiftedZero(|ds|);
  }

  lemma {:induction false} WidthRead(fmt: string, d: Directive, w: Field, args: nat -> Word)
    requires HasAt(fmt, d.at, FieldText(w)) && (w.Number? ==> AllDigits(w.digits))
    requires var c := At(fmt, d.at + |FieldText(w)|); !IsDigit(c) && (w.Absent? ==> c != '*')
    ensures var v := Signed(args(d.arg));
      WidthFrom(fmt, d, args) == Directive(
        if w.Star? && v < 0 then d.flags.(left := true) else d.flags,
        match w { case Absent => -1 case Number(ds) => ValueOf(ds, 10) case Star => if -0x8000_0000 < v < 0 then -v else v },
        d.prec, d.qual, d.at + |FieldText(w)|, d.arg + if w.Star? then 1 else 0)
  {
    hide Atoi, ValueOf, AllDigits;
    match w
    case Absent =>
    case Number(ds) => NumberRead(fmt, d.at, ds);
    case Star => assert fmt[d.at] == fmt[d.at..d.at + 1][0] == '*';
  }

  lemma {:induction false} PrecisionRead(fmt: string, d: Directive, point: bool, q: Field, args: nat -> Word)
    requires HasAt(fmt, d.at, if point then "." + FieldText(q) else "") && (q.Number? ==> AllDigits(q.digits)) && (!point ==> q.Absent?)
    requires var c := At(fmt, d.at + |if point then "." + FieldText(q) else ""|);
      !IsDigit(c) && c != '.' && (q.Absent? ==> c != '*')
    ensures var v := Signed(args(d.arg));
      PrecisionFrom(fmt, d, args) == d.(
        prec := if !point then -1
                else match q { case Absent => 0 case Number(ds) => ValueOf(ds, 10) case Star => if v < 0 then 0 else v },
        at := d.at + |if point then "." + FieldText(q) else ""|,
        arg := d.arg + if q.Star? then 1 else 0)
  {
    hide Atoi, ValueOf, AllDigits;
    if point {
      SplitAt(fmt, d.at, ".", FieldText(q));
      assert fmt[d.at] == fmt[d.at..d.at + 1][0] == '.';
      match q {
        case Absent =>
        case Number(ds) => NumberRead(fmt, d.at + 1, ds);
        case Star => assert fmt[d.at + 1] == fmt[d.at + 1..d.at + 2][0] == '*';
      }
    }
  }

  lemma {:induction false} QualifierRead(fmt: string, d: Directive, qual: string)
    requires HasAt(fmt, d.at, qual) && (qual == "" || qual == "h" || qual == "l")
    requires qual == "" ==> At(fmt, d.at) != 'h' && At(fmt, d.at) != 'l'
    ensures QualifierFrom(fmt, d) == d.(qual := if qual == "" then '\0' else qual[0], at := d.at + |qual|)
  {
    if qual != "" {
      assert fmt[d.at] == fmt[d.at..d.at + 1][0] == qual[0];
    }
  }

  /** Writing a directive and reading it back gives its meaning, whatever stands around it. */
  lemma {:induction false} WrittenIsRead(x: string, p: Piece, y: string, args: nat -> Word, a: nat)
    requires p.Conv? && WellWritten(p)
    ensures var fmt := x + Written(p) + y; var end := |x| + |Written(p)| - 1;
      Parse(fmt, |x| + 1, args, a) == Meaning(p, args, a, end) && 0 <= end < |fmt| && fmt[end] == p.letter
  {
    hide WidthFrom, PrecisionFrom, QualifierFrom, ValueOf, FlagsFrom, HasAt, WellWritten, Written, FieldText, Meaning,
         AllDigits, FlagChar, IsDigit, At, Signed, WithFlags;
    var fmt := x + Written(p) + y;
    var i0 := |x| + 1;
    var i1 := i0 + |p.flags|;
    Parts(x, p, y);
    FirstFollows(x, p, y);
    SecondFollows(x, p, y);
    ThirdFollows(x, p, y);
    FlagsRead(fmt, i0, p.flags, NO_FLAGS);
    var d0 := Directive(WithFlags(NO_FLAGS, p.flags), -1, -1, '\0', i1, a);
    WidthRead(fmt, d0, p.width, args);
    PrecisionRead(fmt, WidthFrom(fmt, d0, args), p.point, p.prec, args);
    QualifierRead(fmt, PrecisionFrom(fmt, WidthFrom(fmt, d0, args), args), p.qual);
    MeaningIs(p, args, a, |x| + |Written(p)| - 1);
  }

  /** The meaning, as the stages of reading put it together. */
  lemma {:induction false} MeaningIs(p: Piece, args: nat -> Word, a: nat, at: nat)
    requires p.Conv?
    ensures var v := Signed(args(a)); var b := a + if p.width.Star? then 1 else 0; var q := Signed(args(b));
      var f := WithFlags(NO_FLAGS, p.flags);
      Meaning(p, args, a, at) == Directive(
        if p.width.Star? && v < 0 then f.(left := true) else f,
        match p.width { case Absent => -1 case Number(ds) => ValueOf(ds, 10) case Star => if -0x8000_0000 < v < 0 then -v else v },
        if !p.point then -1
        else match p.prec { case Absent => 0 case Number(ds) => ValueOf(ds, 10) case Star => if q < 0 then 0 else q },
        if p.qual == "" then '\0' else p.qual[0], at, b + if p.prec.Star? then 1 else 0)
  {
    hide ValueOf, Signed;
  }

  /** Where the parts of a written directive stand. */
  lemma {:induction false} Parts(x: string, p: Piece, y: string)
    requires p.Conv?
    ensures var fmt := x + Written(p) + y; var i := |x| + 1;
      var w, q := FieldText(p.width), PrecText(p);
      && HasAt(fmt, i, p.flags) && HasAt(fmt, i + |p.flags|, w) && HasAt(fmt, i + |p.flags| + |w|, q)
      && HasAt(fmt, i + |p.flags| + |w| + |q|, p.qual) && HasAt(fmt, i + |p.flags| + |w| + |q| + |p.qual|, [p.letter])
      && |Written(p)| == 2 + |p.flags| + |w| + |q| + |p.qual|
  {
    hide HasAt, PrecText, FieldText;
    var fmt, w, q := x + Written(p) + y, FieldText(p.width), PrecText(p);
    Middle(x, Written(p), y);
    SplitAt(fmt, |x|, "%", p.flags + (w + (q + (p.qual + [p.letter]))));
    SplitAt(fmt, |x| + 1, p.flags, w + (q + (p.qual + [p.letter])));
    SplitAt(fmt, |x| + 1 + |p.flags|, w, q + (p.qual + [p.letter]));
    SplitAt(fmt, |x| + 1 + |p.flags| + |w|, q, p.qual + [p.letter]);
    SplitAt(fmt, |x| + 1 + |p.flags| + |w| + |q|, p.qual, [p.letter]);
  }

  lemma {:induction false} Middle(x: string, s: string, y: string)
    ensures HasAt(x + s + y, |x|, s)
  {
  }

  /** The first character of the part at position i, or of what follows an empty one. */
  lemma {:induction false} FirstOf(fmt: string, i: nat, s: string)
    requires HasAt(fmt, i, s)
    ensures s != "" ==> At(fmt, i) == s[0]
    ensures s == "" ==> i + |s| == i
  {
    assert s != "" ==> fmt[i] == fmt[i..i + |s|][0];
  }

  /** What follows the precision cannot be taken for a part of what is in front of it. */
  lemma {:induction false} ThirdFollows(x: string, p: Piece, y: string)
    requires p.Conv? && WellWritten(p)
    ensures var fmt := x + Written(p) + y; var i3 := |x| + 1 + |p.flags| + |FieldText(p.width)| + |PrecText(p)|;
      && !FlagChar(At(fmt, i3)) && !IsDigit(At(fmt, i3)) && At(fmt, i3) != '.' && At(fmt, i3) != '*'
      && (p.qual == "" ==> At(fmt, i3) != 'h' && At(fmt, i3) != 'l')
      && i3 + |p.qual| < |fmt| && fmt[i3 + |p.qual|] == p.letter && i3 + |p.qual| == |x| + |Written(p)| - 1
      && (p.qual == "" || p.qual == "h" || p.qual == "l")
  {
    hide Written, FieldText, PrecText, AllDigits;
    var fmt, i3 := x + Written(p) + y, |x| + 1 + |p.flags| + |FieldText(p.width)| + |PrecText(p)|;
    Parts(x, p, y);
    FirstOf(fmt, i3, p.qual);
    FirstOf(fmt, i3 + |p.qual|, [p.letter]);
  }

  /** Nor can what follows the width. */
  lemma {:induction false} SecondFollows(x: string, p: Piece, y: string)
    requires p.Conv? && WellWritten(p)
    ensures var fmt := x + Written(p) + y; var i2 := |x| + 1 + |p.flags| + |FieldText(p.width)|;
      && !FlagChar(At(fmt, i2)) && !IsDigit(At(fmt, i2)) && At(fmt, i2) != '*'
      && (p.prec.Number? ==> AllDigits(p.prec.digits)) && (!p.point ==> p.prec.Absent?)
  {
    hide Written, FieldText, AllDigits, PrecText, IsDigit, FlagChar, At, HasAt, LetterAlone;
    var fmt, i2 := x + Written(p) + y, |x| + 1 + |p.flags| + |FieldText(p.width)|;
    Parts(x, p, y);
    ThirdFollows(x, p, y);
    FirstOf(fmt, i2, PrecText(p));
    PointFirst(p);
  }

  lemma {:induction false} PointFirst(p: Piece)
    requires p.Conv?
    ensures if p.point then PrecText(p) != "" && PrecText(p)[0] == '.' else PrecText(p) == ""
    ensures !FlagChar('.') && !IsDigit('.')
  {
  }

  /** Nor can what follows the flags be taken for one. */
  lemma {:induction false} FirstFollows(x: string, p: Piece, y: string)
    requires p.Conv? && WellWritten(p)
    ensures var fmt := x + Written(p) + y; var i1 := |x| + 1 + |p.flags|;
      && !FlagChar(At(fmt, i1)) && (p.width.Number? ==> AllDigits(p.width.digits))
      && (forall k | 0 <= k < |p.flags| :: FlagChar(p.flags[k]))
  {
    hide Written, PrecText;
    var fmt, i1 := x + Written(p) + y, |x| + 1 + |p.flags|;
    Parts(x, p, y);
    SecondFollows(x, p, y);
    FirstOf(fmt, i1, FieldText(p.width));
  }

  /* ---------- formats as sequences of pieces ---------- */

  function WrittenAll(ps: seq<Piece>): string {
    if ps == [] then "" else Written(ps[0]) + WrittenAll(ps[1..])
  }

  /** What the pieces print one after the other, each directive taking its arguments behind those of the
      directives before it. */
  function PrintedAll(ps: seq<Piece>, args: nat -> Word, text: Word -> string, a: nat): string
    decreases |ps|
  {
    if ps == [] then ""
    else match ps[0]
      case Text(s) => s + PrintedAll(ps[1..], args, text, a)
      case Conv(_, _, _, _, _, c) =>
        var b := a + Stars(ps[0]);
        Show(c, Meaning(ps[0], args, a, 0), args(b), text).0
          + PrintedAll(ps[1..], args, text, if TakesArgument(c) then b + 1 else b)
  }

  /** Plain text in front of position j prints itself. */
  lemma {:induction false} PlainPart(fmt: string, i: nat, j: nat, args: nat -> Word, text: Word -> string, a: nat)
    requires i <= j <= |fmt| && '%' !in fmt[i..j]
    ensures Format(fmt, i, args, text, a) == fmt[i..j] + Format(fmt, j, args, text, a)
    decreases j - i
  {
    hide Parse, Convert;
    if i < j {
      assert fmt[i] == fmt[i..j][0] && fmt[i + 1..j] == fmt[i..j][1..];
      PlainPart(fmt, i + 1, j, args, text, a);
      assert fmt[i..j] == [fmt[i]] + fmt[i + 1..j];
    }
  }

  /** Where a directive stands does not matter for what it prints. */
  lemma {:induction false} PlaceFree(c: char, d: Directive, at: nat, w: Word, text: Word -> string)
    ensures Show(c, d.(at := at), w, text) == Show(c, d, w, text)
  {
    hide NumberText, CharText, StringText;
  }

  lemma {:induction false} OneDirective(fmt: string, i: nat, args: nat -> Word, text: Word -> string, a: nat)
    requires i < |fmt| && fmt[i] == '%'
    ensures var d := Parse(fmt, i + 1, args, a);
      var (t, k) := Convert(fmt, d, args, text);
      Format(fmt, i, args, text, a) == t + Format(fmt, d.at + 1, args, text, d.arg + k)
  {
    hide Parse, Convert;
  }

  lemma {:induction false} PastEnd(fmt: string, args: nat -> Word, text: Word -> string, a: nat)
    ensures Format(fmt, |fmt|, args, text, a) == ""
  {
  }

  /** A format prints what its pieces print: plain text as it is, every directive as it is meant, with the
      arguments in order. */
  lemma {:induction false} FormatPieces(x: string, ps: seq<Piece>, args: nat -> Word, text: Word -> string, a: nat)
    requires forall i | 0 <= i < |ps| :: WellWritten(ps[i])
    ensures Format(x + WrittenAll(ps), |x|, args, text, a) == PrintedAll(ps, args, text, a)
    decreases |ps|
  {
    hide Format, Show, Meaning, Parse, WellWritten, Written;
    var fmt := x + WrittenAll(ps);
    if ps == [] {
      assert fmt == x;
      PastEnd(fmt, args, text, a);
    } else {
      var p, y := ps[0], WrittenAll(ps[1..]);
      assert fmt == (x + Written(p)) + y;
      match p {
        case Text(s) =>
          PlainPiece(x, p, y, args, text, a);
          FormatPieces(x + Written(p), ps[1..], args, text, a);
        case Conv(_, _, _, _, _, c) =>
          DirectivePiece(x, p, y, args, text, a);
          FormatPieces(x + Written(p), ps[1..], args, text, if TakesArgument(c) then a + Stars(p) + 1 else a + Stars(p));
      }
    }
  }

  lemma {:induction false} PlainPiece(x: string, p: Piece, y: string, args: nat -> Word, text: Word -> string, a: nat)
    requires p.Text? && WellWritten(p)
    ensures var fmt := x + Written(p) + y;
      Format(fmt, |x|, args, text, a) == p.s + Format(fmt, |x + Written(p)|, args, text, a)
  {
    hide Format;
    var fmt := x + Written(p) + y;
    assert fmt[|x|..|x + p.s|] == p.s;
    PlainPart(fmt, |x|, |x + p.s|, args, text, a);
  }

  lemma {:induction false} DirectivePiece(x: string, p: Piece, y: string, args: nat -> Word, text: Word -> string, a: nat)
    requires p.Conv? && WellWritten(p)
    ensures var fmt := x + Written(p) + y; var b := a + Stars(p);
      Format(fmt, |x|, args, text, a)
        == Show(p.letter, Meaning(p, args, a, 0), args(b), text).0
           + Format(fmt, |x + Written(p)|, args, text, if TakesArgument(p.letter) then b + 1 else b)
  {
    hide Format, Show, Parse, WellWritten, Written, Meaning, Stars, TakesArgument;
    var fmt := x + Written(p) + y;
    var end := |x| + |Written(p)| - 1;
    WrittenIsRead(x, p, y, args, a);
    BeginsWithPercent(x, p, y);
    OneDirective(fmt, |x|, args, text, a);
    MeaningAt(p, args, a, end);
    PlaceFree(p.letter, Meaning(p, args, a, 0), end, args(a + Stars(p)), text);
    OtherLetter(p.letter, Meaning(p, args, a, end), args(a + Stars(p)), text);
  }

  lemma {:induction false} BeginsWithPercent(x: string, p: Piece, y: string)
    requires p.Conv?
    ensures var fmt := x + Written(p) + y; |x| < |fmt| && fmt[|x|] == '%' && |x + Written(p)| <= |fmt|
  {
    hide FieldText, PrecText;
    assert Written(p)[0] == '%';
  }

  lemma {:induction false} MeaningAt(p: Piece, args: nat -> Word, a: nat, at: nat)
    requires p.Conv?
    ensures Meaning(p, args, a, at) == Meaning(p, args, a, 0).(at := at)
    ensures Meaning(p, args, a, at).at == at && Meaning(p, args, a, at).arg == a + Stars(p)
  {
    hide ValueOf;
  }

  /** A '%' that ends the format prints itself. */
  lemma {:induction false} LonePercent(x: string, args: nat -> Word, text: Word -> string, a: nat)
    ensures Format(x + "%", |x|, args, text, a) == "%"
  {
    var fmt := x + "%";
    var d := Parse(fmt, |x| + 1, args, a);
    OneDirective(fmt, |x|, args, text, a);
    assert d.at == |fmt| && Format(fmt, d.at + 1, args, text, d.arg) == "";
  }

  /** Text, one directive, text. */
  lemma {:induction false} TextDirectiveText(s: string, p: Piece, e: string, args: nat -> Word, text: Word -> string)
    requires '%' !in s && '%' !in e && p.Conv? && WellWritten(p)
    ensures Format(s + Written(p) + e, 0, args, text, 0)
      == s + Show(p.letter, Meaning(p, args, 0, 0), args(Stars(p)), text).0 + e
  {
    hide Format, Show, Written, Meaning, PrintedAll, WrittenAll, Stars;
    var ps := [Text(s), p, Text(e)];
    assert WellWritten(Text(s)) && WellWritten(Text(e));
    FormatPieces("", ps, args, text, 0);
    PiecesOf(s, p, e);
    assert "" + WrittenAll(ps) == s + Written(p) + e;
    PrintedThree(s, p, e, args, text);
    Grouped(s, Show(p.letter, Meaning(p, args, 0, 0), args(Stars(p)), text).0, e);
  }

  lemma {:induction false} Grouped(a: string, b: string, c: string)
    ensures a + (b + c) == a + b + c
  {
  }

  /** %d between two plain texts: the first text, a '-' exactly for a negative argument, the digits of its
      absolute value in base 10, the second text. */
  lemma {:induction false} DecimalInText(s: string, e: string, args: nat -> Word, text: Word -> string) returns (v: int, digits: string)
    requires '%' !in s && '%' !in e
    ensures IsArgument(v, args(0), '\0', true)
    ensures Format(s + "%d" + e, 0, args, text, 0) == s + (if v < 0 then "-" else "") + digits + e
    ensures StandsFor(digits, if v < 0 then -v else v, 10, false)
  {
    hide Format, Show, StandsFor, WellWritten, IsArgument, Meaning, Fills, Written;
    var p := Conv("", Absent, false, Absent, "", 'd');
    PlainConv(args);
    TextDirectiveText(s, p, e, args, text);
    var l;
    v, l := SignedLetter('d', Meaning(p, args, 0, 0), args(0), text);
    digits := l.digits;
    NoBlanks(l);
    Grouped(s, l.sign, l.digits);
  }

  lemma {:induction false} PlainConv(args: nat -> Word)
    ensures var p := Conv("", Absent, false, Absent, "", 'd');
      WellWritten(p) && Written(p) == "%d" && Stars(p) == 0 && Meaning(p, args, 0, 0) == Directive(NO_FLAGS, -1, -1, '\0', 0, 0)
  {
    hide ValueOf;
  }

  lemma {:induction false} PiecesOf(s: string, p: Piece, e: string)
    ensures WrittenAll([Text(s), p, Text(e)]) == s + Written(p) + e
  {
    hide Written;
    var ps := [Text(s), p, Text(e)];
    assert ps[1..] == [p, Text(e)] && ps[1..][1..] == [Text(e)] && ps[1..][1..][1..] == [];
    assert Written(Text(s)) == s && Written(Text(e)) == e by { PlainWritten(s, e); }
    assert WrittenAll(ps[1..][1..]) == e + "" == e;
  }

  lemma {:induction false} PlainWritten(s: string, e: string)
    ensures Written(Text(s)) == s && Written(Text(e)) == e
  {
  }

  lemma {:induction false} PrintedThree(s: string, p: Piece, e: string, args: nat -> Word, text: Word -> string)
    requires p.Conv?
    ensures PrintedAll([Text(s), p, Text(e)], args, text, 0)
      == s + (Show(p.letter, Meaning(p, args, 0, 0), args(Stars(p)), text).0 + e)
  {
    hide Show, Meaning;
    var ps := [Text(s), p, Text(e)];
    assert ps[1..] == [p, Text(e)] && [p, Text(e)][1..] == [Text(e)];
    PrintedLast(e, args, text, Stars(p));
    PrintedLast(e, args, text, Stars(p) + 1);
    assert PrintedAll([p, Text(e)], args, text, 0) == Show(p.letter, Meaning(p, args, 0, 0), args(Stars(p)), text).0 + e;
  }

  lemma {:induction false} PrintedLast(e: string, args: nat -> Word, text: Word -> string, a: nat)
    ensures PrintedAll([Text(e)], args, text, a) == e
  {
    assert [Text(e)][1..] == [] && e + "" == e;
  }

  /** Without flags, width and precision nothing pads. */
  lemma {:induction false} NoBlanks(l: Layout)
    requires Fills(l, -1, -1, false, false)
    ensures Repeat(' ', l.before) + l.sign + Repeat('0', l.zeros) + l.digits + Repeat(' ', l.after) == l.sign + l.digits
  {
    assert l.before == 0 && l.zeros == 0 && l.after == 0;
  }
}
