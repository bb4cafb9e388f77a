/**
 Number formatting in kernel/printk.c: what `number` prints for a 32-bit word in a base from 2 to
 36 under its flags, width and precision, and how `vsprintf` reads a format.
 */
module Printk {
  import opened Digits
  import opened Words

  datatype Flags = Flags(zeropad: bool, sign: bool, plus: bool, space: bool, left: bool, special: bool, small: bool)

  const NO_FLAGS := Flags(false, false, false, false, false, false, false)

  // ------------------------------------------------------------------- the printed text

  /** The word read as a signed number. */
  function Signed(num: word): int {
    if num < 0x8000_0000 then num else num - WORD
  }

  predicate Negative(num: word, f: Flags) {
    f.sign && Signed(num) < 0
  }

  /** The number whose digits are printed; negating the least integer gives itself, as a word 2^31. */
  function Magnitude(num: word, f: Flags): word {
    if Negative(num, f) then -Signed(num) else num
  }

  function SignText(num: word, f: Flags): string {
    if Negative(num, f) then "-" else if f.plus then "+" else if f.space then " " else ""
  }

  function PrefixText(base: int, f: Flags): string {
    if !f.special then "" else if base == 8 then "0" else if base == 16 then ['0', DigitChar(33, f.small)] else ""
  }

  /** Sign, prefix, the zeros that the precision asks for, and the digits. */
  function Body(num: word, base: int, precision: int, f: Flags, fill: string): string
    requires IsBase(base)
  {
    var digits := Numeral(Magnitude(num, f), base, f.small);
    SignText(num, f) + PrefixText(base, f) + fill + Repeat('0', precision - |digits|) + digits
  }

  /** The padding goes before the sign, or as zeros behind the prefix, or behind the digits. */
  function NumberText(num: word, base: int, size: int, precision: int, f: Flags): string
    requires IsBase(base)
  {
    var pad := size - |Body(num, base, precision, f, "")|;
    if f.left then Body(num, base, precision, f, "") + Repeat(' ', pad)
    else if f.zeropad then Body(num, base, precision, f, Repeat('0', pad))
    else Repeat(' ', pad) + Body(num, base, precision, f, "")
  }

  function Max(a: int, b: int): int {
    if a < b then b else a
  }

  /** The text is as wide as the width asks for, and wider only when its parts need it. */
  lemma NumberWidth(num: word, base: int, size: int, precision: int, f: Flags)
    requires IsBase(base)
    ensures |NumberText(num, base, size, precision, f)| ==
            Max(size, |SignText(num, f)| + |PrefixText(base, f)|
                      + Max(precision, |Numeral(Magnitude(num, f), base, f.small)|))
  {
  }

  /** `%d` and `%u` without flags, width or precision. */
  lemma PlainText(num: word, f: Flags)
    requires !f.plus && !f.space && !f.special
    ensures NumberText(num, 10, -1, -1, f) ==
            (if Negative(num, f) then "-" else "") + Numeral(Magnitude(num, f), 10, f.small)
  {
    var digits := Numeral(Magnitude(num, f), 10, f.small);
    assert Body(num, 10, -1, f, "") == SignText(num, f) + digits;
    assert Repeat(' ', -1 - |Body(num, 10, -1, f, "")|) == "";
  }

  // ----------------------------------------------------------------- reading a directive

  /** What `va_arg` yields, read as a number or as a pointer to text. */
  datatype Arg = Arg(num: word, text: string)

  type Args = nat -> Arg

  /** The character at place `i`, 0 at the end. */
  function At(s: string, i: nat): char {
    if i < |s| then s[i] else '\0'
  }

  predicate IsDigit(c: char) {
    '0' <= c <= '9'
  }

  predicate IsFlag(c: char) {
    c == '-' || c == '+' || c == ' ' || c == '#' || c == '0'
  }

  function WithFlag(f: Flags, c: char): Flags {
    match c
    case '-' => f.(left := true)
    case '+' => f.(plus := true)
    case ' ' => f.(space := true)
    case '#' => f.(special := true)
    case '0' => f.(zeropad := true)
    case _ => f
  }

  function FlagsEnd(s: string, i: nat): (j: nat)
    ensures i <= j && (i <= |s| ==> j <= |s|) && !IsFlag(At(s, j))
    ensures forall k | i <= k < j :: IsFlag(At(s, k))
    decreases |s| - i
  {
    if i < |s| && IsFlag(s[i]) then FlagsEnd(s, i + 1) else i
  }

  function FlagsFrom(s: string, i: nat, j: nat, f: Flags): Flags
    requires i <= j <= |s|
    decreases j - i
  {
    if i == j then f else FlagsFrom(s, i + 1, j, WithFlag(f, s[i]))
  }

  function NumberEnd(s: string, i: nat): (j: nat)
    ensures i <= j && (i <= |s| ==> j <= |s|) && !IsDigit(At(s, j))
    ensures forall k | i <= k < j :: IsDigit(At(s, k))
    decreases |s| - i
  {
    if i < |s| && IsDigit(s[i]) then NumberEnd(s, i + 1) else i
  }

  lemma DigitsNotNegative(s: string)
    requires forall k | 0 <= k < |s| :: IsDigit(s[k])
    ensures Denotes(s, 10) >= 0
  {
    if s != [] { DigitsNotNegative(s[..|s|-1]); }
  }

  lemma NumberNotNegative(s: string, i: nat)
    requires i <= |s|
    ensures Denotes(s[i..NumberEnd(s, i)], 10) >= 0
  {
    var j := NumberEnd(s, i);
    forall k | 0 <= k < j - i ensures IsDigit(s[i..j][k]) { assert IsDigit(At(s, i + k)); }
    DigitsNotNegative(s[i..j]);
  }

  /** A directive read up to its conversion character at `next`. */
  datatype Directive = Directive(next: nat, ap: nat, flags: Flags, width: int, precision: int)

  /** The width: a number, or the next argument for `*`, whose place in the format is kept. */
  function ReadWidth(s: string, i: nat, args: Args, ap: nat, f: Flags): (d: Directive)
    requires i <= |s|
    ensures i <= d.next <= |s|
  {
    var c := At(s, i);
    if IsDigit(c) then Directive(NumberEnd(s, i), ap, f, Denotes(s[i..NumberEnd(s, i)], 10), -1)
    else if c == '*' then
      var w := Signed(args(ap).num);
      if w < 0 then Directive(i, ap + 1, f.(left := true), -w, -1) else Directive(i, ap + 1, f, w, -1)
    else Directive(i, ap, f, -1, -1)
  }

  function ReadPrecision(s: string, d: Directive, args: Args): (r: Directive)
    requires d.next <= |s|
    ensures d.next <= r.next <= |s|
  {
    if At(s, d.next) != '.' then d
    else
      var i := d.next + 1;
      if IsDigit(At(s, i)) then d.(next := NumberEnd(s, i), precision := Denotes(s[i..NumberEnd(s, i)], 10))
      else if At(s, i) == '*' then d.(next := i, ap := d.ap + 1, precision := Max(Signed(args(d.ap).num), 0))
      else d.(next := i, precision := 0)
  }

  function ReadQualifier(s: string, d: Directive): (r: Directive)
    requires d.next <= |s|
    ensures d.next <= r.next <= |s|
  {
    if At(s, d.next) in "hlL" then d.(next := d.next + 1) else d
  }

  /** The directive whose `%` is just before `i`. */
  function Read(s: string, i: nat, args: Args, ap: nat): (d: Directive)
    requires i <= |s|
    ensures i <= d.next <= |s|
  {
    var j := FlagsEnd(s, i);
    ReadQualifier(s, ReadPrecision(s, ReadWidth(s, j, args, ap, FlagsFrom(s, i, j, NO_FLAGS)), args))
  }

  /** The base of a numeric conversion, 0 of any other. */
  function BaseOf(c: char): int {
    match c
    case 'd' => 10
    case 'i' => 10
    case 'u' => 10
    case 'o' => 8
    case 'x' => 16
    case 'X' => 16
    case 'p' => 16
    case 'b' => 2
    case _ => 0
  }

  predicate TakesArg(c: char) {
    BaseOf(c) != 0 || c == 'c' || c == 's' || c == 'n'
  }

  /** The flags and the width as the conversion character changes them. */
  function Adjusted(c: char, d: Directive): Directive {
    if c == 'x' then d.(flags := d.flags.(small := true))
    else if c == 'd' || c == 'i' then d.(flags := d.flags.(sign := true))
    else if c == 'p' && d.width == -1 then d.(width := 8, flags := d.flags.(zeropad := true))
    else d
  }

  function CharText(arg: Arg, d: Directive): string {
    var c := [(arg.num % 256) as char];
    if d.flags.left then c + Repeat(' ', d.width - 1) else Repeat(' ', d.width - 1) + c
  }

  function StringText(arg: Arg, d: Directive): string {
    var len := if d.precision < 0 || |arg.text| <= d.precision then |arg.text| else d.precision;
    if d.flags.left then arg.text[..len] + Repeat(' ', d.width - len) else Repeat(' ', d.width - len) + arg.text[..len]
  }

  /** What the directive prints. */
  function DirectiveText(c: char, d: Directive, arg: Arg): string {
    if BaseOf(c) != 0 then
      var a := Adjusted(c, d);
      NumberText(arg.num, BaseOf(c), a.width, a.precision, a.flags)
    else if c == 'c' then CharText(arg, d)
    else if c == 's' then StringText(arg, d)
    else if c == 'n' then ""
    else if c == '%' || c == '\0' then "%"
    else ['%', c]
  }

  /** What `vsprintf` prints for the format from place `i` on. */
  function Printed(s: string, i: nat, args: Args, ap: nat): string
    requires i <= |s|
    decreases |s| - i
  {
    if i == |s| then ""
    else if s[i] != '%' then [s[i]] + Printed(s, i + 1, args, ap)
    else
      var d := Read(s, i + 1, args, ap);
      var c := At(s, d.next);
      DirectiveText(c, d, args(d.ap))
        + Printed(s, if d.next < |s| then d.next + 1 else d.next, args, if TakesArg(c) then d.ap + 1 else d.ap)
  }

  // ----------------------------------------------------------------------------- the code

  class Printer {
    var out: string
    const tmp: array<char>

    constructor ()
      ensures out == "" && fresh(tmp) && tmp.Length == 36
    {
      out := "";
      tmp := new char[36](_ => ' ');
    }

    /** The loop `while (n-- > 0) *str++ = c`, and what it leaves of `n`. */
    method Fill(c: char, n: int) returns (left: int)
      modifies this`out
      ensures out == old(out) + Repeat(c, n)
      ensures n <= 0 ==> out == old(out)
      ensures left < 0
    {
      left := n;
      ghost var k := 0;
      while left > 0
        invariant k >= 0 && (n <= 0 ==> k == 0 && left == n) && (n > 0 ==> k + left == n && left >= 0)
        invariant out == old(out) + Repeat(c, k)
        decreases left
      {
        RepeatMore(c, k);
        out := out + [c];
        left := left - 1;
        k := k + 1;
      }
      left := left - 1;
    }

    /** The digits of `num`, the last one first. They never overrun `tmp`. */
    method Digits(num: word, base: int, small: bool) returns (i: nat)
      requires tmp.Length == 36 && IsBase(base)
      modifies tmp
      ensures i == |Numeral(num, base, small)| && i <= 32
      ensures forall k | 0 <= k < i :: tmp[k] == Numeral(num, base, small)[i - 1 - k]
    {
      i := 0;
      if num == 0 {
        tmp[0] := '0';
        return 1;
      }
      var n: nat := num;
      Pow2Of32();
      hide Numeral, Pow2, DigitChar;
      ghost var low := "";
      assert Numeral(num, base, small) + low == Numeral(num, base, small);
      while n != 0
        invariant i <= 32 && n < Pow2(32 - i) && |low| == i
        invariant forall k | 0 <= k < i :: tmp[k] == low[i - 1 - k]
        invariant Numeral(num, base, small) == if n == 0 then low else Numeral(n, base, small) + low
        decreases n
      {
        DigitStep(n, base, small, low, 32 - i);
        var rest, c := n / base, DigitChar(n % base, small);
        tmp[i] := c;
        low := [c] + low;
        n := rest;
        i := i + 1;
      }
    }

    /** Returns false for NULL. */
    method Number(num: word, base: int, size: int, precision: int, f: Flags) returns (ok: bool)
      requires tmp.Length == 36
      modifies this`out, tmp
      ensures ok <==> IsBase(base)
      ensures out == if ok then old(out) + NumberText(num, base, size, precision, f) else old(out)
    {
      hide Numeral, Repeat, NumberText, PrefixText, Body, Magnitude;
      if base < 2 || base > 36 { return false; }
      ok := true;
      var zeropad := f.zeropad && !f.left;   // LEFT overrides ZEROPAD
      var n, sign := SignOf(num, f);
      var sz, prec := size, precision;
      if sign != '\0' { sz := sz - 1; }
      if f.special {
        if base == 16 { sz := sz - 2; } else if base == 8 { sz := sz - 1; }
      }
      var i := Digits(n, base, f.small);
      if i > prec { prec := i; }
      sz := sz - prec;
      PadIs(num, base, size, precision, f, sz);
      PutParts(i, prec, sz, zeropad, sign, num, base, size, precision, f);
    }

    /** The output of `number`, when its `i` digits are in `tmp` and `pad` is what remains of the width. */
    method PutParts(i: nat, prec: int, pad: int, zeropad: bool, sign: char, ghost num: word,
                    base: int, ghost size: int, ghost precision: int, f: Flags)
      requires tmp.Length == 36 && IsBase(base) && zeropad == (f.zeropad && !f.left)
      requires SignText(num, f) == if sign == '\0' then "" else [sign]
      requires i == |Numeral(Magnitude(num, f), base, f.small)| <= 36 && prec == Max(precision, i)
      requires forall k | 0 <= k < i :: tmp[k] == Numeral(Magnitude(num, f), base, f.small)[i - 1 - k]
      requires pad == size - |Body(num, base, precision, f, "")|
      modifies this`out
      ensures out == old(out) + NumberText(num, base, size, precision, f)
    {
      hide Numeral, Repeat, NumberText, SignText, PrefixText, Magnitude, Body;
      ghost var out0, digits := out, Numeral(Magnitude(num, f), base, f.small);
      var sz := pad;
      if !zeropad && !f.left { sz := Fill(' ', sz); }
      PutSign(sign, num, base, f);
      if !f.left { sz := Fill(if zeropad then '0' else ' ', sz); }
      var _ := Fill('0', prec - i);
      PutDigits(i, digits);
      var _ := Fill(' ', sz);
      Assembled(out0, num, base, size, precision, f, pad, digits, prec - i, out);
    }

    /** The number whose digits are printed, and its sign character or 0. */
    method SignOf(num: word, f: Flags) returns (n: word, sign: char)
      ensures n == Magnitude(num, f)
      ensures SignText(num, f) == if sign == '\0' then "" else [sign]
    {
      n, sign := num, '\0';
      if f.sign && Signed(num) < 0 {
        sign := '-';
        n := -Signed(num);
      } else if f.plus {
        sign := '+';
      } else if f.space {
        sign := ' ';
      }
    }

    method PutSign(sign: char, ghost num: word, base: int, f: Flags)
      requires IsBase(base) && SignText(num, f) == if sign == '\0' then "" else [sign]
      modifies this`out
      ensures out == old(out) + SignText(num, f) + PrefixText(base, f)
    {
      if sign != '\0' { out := out + [sign]; }
      assert out == old(out) + SignText(num, f);
      ghost var before := out;
      if f.special {
        if base == 8 {
          out := out + ['0'];
        } else if base == 16 {
          out := out + ['0'];
          out := out + [DigitChar(33, f.small)];
          assert out == before + ['0', DigitChar(33, f.small)];
        }
      }
      assert out == before + PrefixText(base, f);
    }

    /** The digits in `tmp`, the last one stored first. */
    method PutDigits(i0: nat, ghost digits: string)
      requires tmp.Length == 36 && i0 == |digits| <= 36 && forall k | 0 <= k < i0 :: tmp[k] == digits[i0 - 1 - k]
      modifies this`out
      ensures out == old(out) + digits
    {
      var i := i0;
      while i > 0
        invariant 0 <= i <= i0 && out == old(out) + digits[..i0 - i]
      {
        i := i - 1;
        assert digits[..i0 - i] == digits[..i0 - i - 1] + [digits[i0 - i - 1]];
        out := out + [tmp[i]];
      }
    }

    // ------------------------------------------------------------------------ vsprintf

    /** The flags loop: from behind the `%` to the first character that is no flag. */
    method ReadFlags(s: string, i: nat) returns (j: nat, f: Flags)
      requires i <= |s|
      ensures j == FlagsEnd(s, i) <= |s| && f == FlagsFrom(s, i, j, NO_FLAGS)
    {
      j, f := i, NO_FLAGS;
      ghost var end := FlagsEnd(s, i);
      while IsFlag(At(s, j))
        invariant i <= j <= end <= |s| && FlagsEnd(s, j) == end
        invariant FlagsFrom(s, j, end, f) == FlagsFrom(s, i, end, NO_FLAGS)
        decreases end - j
      {
        f := WithFlag(f, s[j]);
        j := j + 1;
      }
    }

    method SkipAtoi(s: string, i: nat) returns (v: int, j: nat)
      requires i <= |s|
      ensures j == NumberEnd(s, i) <= |s| && v == Denotes(s[i..j], 10)
    {
      v, j := 0, i;
      ghost var end := NumberEnd(s, i);
      while IsDigit(At(s, j))
        invariant i <= j <= end <= |s| && NumberEnd(s, j) == end
        invariant v == Denotes(s[i..j], 10)
        decreases end - j
      {
        DenotesNext(s, i, j);
        v := v * 10 + (s[j] as int - 48);
        j := j + 1;
      }
    }

    method ReadField(s: string, j: nat, args: Args, ap: nat, f: Flags) returns (d: Directive)
      requires j <= |s|
      ensures d == ReadWidth(s, j, args, ap, f)
    {
      hide NumberEnd;
      d := Directive(j, ap, f, -1, -1);
      if IsDigit(At(s, j)) {
        var w, next := SkipAtoi(s, j);
        d := d.(width := w, next := next);
      } else if At(s, j) == '*' {
        d := d.(width := Signed(args(ap).num), ap := ap + 1);
        if d.width < 0 { d := d.(width := -d.width, flags := d.flags.(left := true)); }
      }
    }

    method ReadPoint(s: string, d0: Directive, args: Args) returns (d: Directive)
      requires d0.next <= |s|
      ensures d == ReadPrecision(s, d0, args)
    {
      hide NumberEnd;
      d := d0;
      if At(s, d.next) == '.' {
        var p := -1;
        d := d.(next := d.next + 1);
        if IsDigit(At(s, d.next)) {
          var v, next := SkipAtoi(s, d.next);
          NumberNotNegative(s, d.next);
          p := v;
          d := d.(next := next);
        } else if At(s, d.next) == '*' {
          p := Signed(args(d.ap).num);
          d := d.(ap := d.ap + 1);
        }
        if p < 0 { p := 0; }
        d := d.(precision := p);
      }
    }

    /** Reads flags, width, precision and qualifier. */
    method ReadDirective(s: string, i: nat, args: Args, ap: nat) returns (d: Directive)
      requires i <= |s|
      ensures d == Read(s, i, args, ap)
    {
      hide FlagsFrom;
      var j, f := ReadFlags(s, i);
      d := ReadField(s, j, args, ap, f);
      d := ReadPoint(s, d, args);
      if At(s, d.next) == 'h' || At(s, d.next) == 'l' || At(s, d.next) == 'L' {
        d := d.(next := d.next + 1);
      }
    }

    /** Prints one directive. */
    method Convert(c: char, d: Directive, arg: Arg)
      requires tmp.Length == 36
      modifies this`out, tmp
      ensures out == old(out) + DirectiveText(c, d, arg)
    {
      hide NumberText;
      ghost var out0 := out;
      var f, width := d.flags, d.width;
      if c == 'c' {
        ConvertChar(d, arg);
      } else if c == 's' {
        ConvertString(d, arg);
      } else if c == 'o' {
        var _ := Number(arg.num, 8, width, d.precision, f);
      } else if c == 'p' {
        if width == -1 {
          width := 8;
          f := f.(zeropad := true);
        }
        var _ := Number(arg.num, 16, width, d.precision, f);
      } else if c == 'x' || c == 'X' {
        if c == 'x' { f := f.(small := true); }
        var _ := Number(arg.num, 16, width, d.precision, f);
      } else if c == 'd' || c == 'i' || c == 'u' {
        if c != 'u' { f := f.(sign := true); }
        var _ := Number(arg.num, 10, width, d.precision, f);
      } else if c == 'b' {
        var _ := Number(arg.num, 2, width, d.precision, f);
      } else if c != 'n' {
        if c != '%' { out := out + ['%']; }
        if c != '\0' { out := out + [c]; }
        assert c != '%' && c != '\0' ==> out == out0 + ['%', c];
      }
    }

    method ConvertChar(d: Directive, arg: Arg)
      modifies this`out
      ensures out == old(out) + CharText(arg, d)
    {
      var width := d.width - 1;
      if !d.flags.left { width := Fill(' ', width); }
      out := out + [(arg.num % 256) as char];
      var _ := Fill(' ', width);
    }

    method ConvertString(d: Directive, arg: Arg)
      modifies this`out
      ensures out == old(out) + StringText(arg, d)
    {
      var len := |arg.text|;
      if d.precision >= 0 && len > d.precision { len := d.precision; }
      var room := d.width - len;
      if !d.flags.left { room := Fill(' ', room); }
      ghost var before := out;
      for i := 0 to len
        invariant out == before + arg.text[..i]
      {
        assert arg.text[..i+1] == arg.text[..i] + [arg.text[i]];
        out := out + [arg.text[i]];
      }
      var _ := Fill(' ', room);
    }

    method Vsprintf(s: string, args: Args)
      requires tmp.Length == 36 && '\0' !in s
      modifies this`out, tmp
      ensures out == Printed(s, 0, args, 0)
    {
      hide Read, DirectiveText;
      out := "";
      var i: nat, ap: nat := 0, 0;
      while i < |s|
        invariant 0 <= i <= |s| && out + Printed(s, i, args, ap) == Printed(s, 0, args, 0)
        decreases |s| - i
      {
        ghost var out0 := out;
        if s[i] != '%' {
          out := out + [s[i]];
          Associative(out0, [s[i]], Printed(s, i + 1, args, ap));
          i := i + 1;
        } else {
          ReadMoves(s, i + 1, args, ap);
          var d := ReadDirective(s, i + 1, args, ap);
          var c := At(s, d.next);
          Convert(c, d, args(d.ap));
          ap := if TakesArg(c) then d.ap + 1 else d.ap;
          ghost var i0 := i;
          i := if c != '\0' then d.next + 1 else d.next;
          Associative(out0, DirectiveText(c, d, args(d.ap)), Printed(s, i, args, ap));
        }
      }
    }
  }

  lemma Associative(a: string, b: string, c: string)
    ensures (a + b) + c == a + (b + c)
  {
  }

  lemma ReadMoves(s: string, i: nat, args: Args, ap: nat)
    requires i <= |s|
    ensures i <= Read(s, i, args, ap).next <= |s|
  {
  }

  lemma DenotesNext(s: string, i: nat, j: nat)
    requires i <= j < |s|
    ensures Denotes(s[i..j+1], 10) == Denotes(s[i..j], 10) * 10 + DigitValue(s[j])
  {
    assert s[i..j+1] == s[i..j] + [s[j]];
    DenotesSnoc(s[i..j], s[j], 10);
  }

  /** One division moves the last digit of the number to the front of those already found. */
  lemma DigitStep(n: nat, base: nat, small: bool, low: string, k: nat)
    requires IsBase(base) && 0 < n < Pow2(k)
    ensures k > 0 && n / base < n && n / base < Pow2(k - 1) && n % base < base
    ensures Numeral(n, base, small) + low ==
            if n / base == 0 then [DigitChar(n % base, small)] + low
            else Numeral(n / base, base, small) + ([DigitChar(n % base, small)] + low)
  {
    Division(n, base);
    Halves(n, base, k);
  }

  lemma BodyLength(num: word, base: int, precision: int, f: Flags)
    requires IsBase(base)
    ensures |Body(num, base, precision, f, "")| ==
            |SignText(num, f)| + |PrefixText(base, f)| + Max(precision, |Numeral(Magnitude(num, f), base, f.small)|)
  {
  }

  /** The width less the room that sign, prefix and digits take is the padding. */
  lemma PadIs(num: word, base: int, size: int, precision: int, f: Flags, pad: int)
    requires IsBase(base)
    requires var s1 := if SignText(num, f) != "" then size - 1 else size;
             var s2 := if !f.special then s1 else if base == 16 then s1 - 2 else if base == 8 then s1 - 1 else s1;
             pad == s2 - Max(precision, |Numeral(Magnitude(num, f), base, f.small)|)
    ensures pad == size - |Body(num, base, precision, f, "")|
  {
    BodyLength(num, base, precision, f);
  }

  /** The parts written one after another are the text. */
  lemma Assembled(out0: string, num: word, base: int, size: int, precision: int, f: Flags, pad: int,
                  digits: string, zeros: int, out: string)
    requires IsBase(base) && digits == Numeral(Magnitude(num, f), base, f.small)
    requires pad == size - |Body(num, base, precision, f, "")|
    requires zeros == Max(precision, |digits|) - |digits|
    requires var zeropad := f.zeropad && !f.left;
             var a := if !zeropad && !f.left then out0 + Repeat(' ', pad) else out0;
             var b := a + SignText(num, f) + PrefixText(base, f);
             var c := if zeropad then b + Repeat('0', pad) else b;
             var d := c + Repeat('0', zeros) + digits;
             out == if f.left then d + Repeat(' ', pad) else d
    ensures out == out0 + NumberText(num, base, size, precision, f)
  {
    hide Numeral, SignText, PrefixText, Repeat;
    SameZeros(precision, |digits|);
    var sgn, pre, z := SignText(num, f), PrefixText(base, f), Repeat('0', zeros);
    if f.left {
      FlattenLeft(out0, sgn, pre, z, digits, Repeat(' ', pad));
    } else if f.zeropad {
      FlattenZero(out0, sgn, pre, Repeat('0', pad), z, digits);
    } else {
      FlattenRight(out0, Repeat(' ', pad), sgn, pre, z, digits);
    }
  }

  lemma SameZeros(precision: int, n: nat)
    ensures Repeat('0', Max(precision, n) - n) == Repeat('0', precision - n)
  {
  }

  lemma FlattenLeft(o: string, a: string, b: string, c: string, d: string, e: string)
    ensures o + a + b + c + d + e == o + ((a + b + "" + c + d) + e)
  {
  }

  lemma FlattenZero(o: string, a: string, b: string, c: string, d: string, e: string)
    ensures o + a + b + c + d + e == o + (a + b + c + d + e)
  {
  }

  lemma FlattenRight(o: string, a: string, b: string, c: string, d: string, e: string)
    ensures o + a + b + c + d + e == o + (a + (b + c + "" + d + e))
  {
  }
}
