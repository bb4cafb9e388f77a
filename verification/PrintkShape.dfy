/**
 What a printed number, string or character looks like: which characters stand where, and what the
 digits denote. Together with module PrintkFormat this says what a written directive prints without
 the functions that compute it.
 */
module PrintkShape {
  import opened Digits
  import opened Printk
  import opened PrintkFormat
  import opened Words

  predicate Blanks(t: string) {
    forall k | 0 <= k < |t| :: t[k] == ' '
  }

  /** A digit of the base, in the small or in the capital alphabet. */
  predicate IsDigitOf(c: char, base: nat, small: bool) {
    && 0 <= DigitValue(c) < base
    && (small ==> !('A' <= c <= 'Z')) && (!small ==> !('a' <= c <= 'z'))
  }

  /**
   Spaces up to `a`, then `front`, then from `b` to `e` digits that denote `value`, then spaces.
   At least `precision` digits, at least `size` characters, and no more of either than needed.
   */
  ghost predicate Shape(t: string, a: nat, b: nat, e: nat, front: string, value: nat, base: nat, small: bool,
                        left: bool, zeros: bool, size: int, precision: int) {
    && a <= b < e <= |t|
    && Blanks(t[..a]) && t[a..b] == front && Blanks(t[e..])
    && (forall k | b <= k < e :: IsDigitOf(t[k], base, small)) && Denotes(t[b..e], base) == value
    && precision <= e - b && size <= |t|
    && (a > 0 || e < |t| ==> |t| == size)
    && (t[b] == '0' && e - b > 1 ==> e - b == precision || (zeros && !left && |t| == size))
    && (if left then a == 0 else e == |t| && (zeros ==> a == 0))
  }

  ghost predicate HasShape(t: string, front: string, value: nat, base: nat, small: bool, left: bool, zeros: bool,
                           size: int, precision: int) {
    exists a, b, e: nat :: Shape(t, a, b, e, front, value, base, small, left, zeros, size, precision)
  }

  // ------------------------------------------------------------------------- numbers

  lemma {:induction false} DenotesZeros(n: nat, base: nat)
    ensures Denotes(Repeat('0', n), base) == 0
  {
    if n > 0 {
      DenotesZeros(n - 1, base);
      RepeatMore('0', n - 1);
      DenotesSnoc(Repeat('0', n - 1), '0', base);
    }
  }

  lemma {:induction false} DenotesLeading(n: nat, s: string, base: nat)
    ensures Denotes(Repeat('0', n) + s, base) == Denotes(s, base)
  {
    if s == "" {
      DenotesZeros(n, base);
      assert Repeat('0', n) + s == Repeat('0', n);
    } else {
      var u, c := s[..|s|-1], s[|s|-1];
      DenotesLeading(n, u, base);
      DenotesSnoc(Repeat('0', n) + u, c, base);
      assert Repeat('0', n) + s == Repeat('0', n) + u + [c];
    }
  }

  lemma NumeralOf(u: nat, base: nat, small: bool)
    requires IsBase(base)
    ensures var s := Numeral(u, base, small);
            && s != "" && Denotes(s, base) == u && (s[0] == '0' ==> |s| == 1)
            && forall k | 0 <= k < |s| :: IsDigitOf(s[k], base, small)
  {
    NumeralDenotes(u, base, small);
    NumeralAlphabet(u, base, small);
    if u == 0 { Division(0, base); }
  }

  lemma {:induction false} NumeralAlphabet(u: nat, base: nat, small: bool)
    requires IsBase(base)
    ensures forall k | 0 <= k < |Numeral(u, base, small)| ::
              var c := Numeral(u, base, small)[k];
              (small ==> !('A' <= c <= 'Z')) && (!small ==> !('a' <= c <= 'z'))
  {
    Division(u, base);
    if u >= base { NumeralAlphabet(u / base, base, small); }
  }

  lemma RepeatTwice(c: char, m: nat, n: nat)
    ensures Repeat(c, m) + Repeat(c, n) == Repeat(c, m + n)
  {
  }

  /** Parts one after another, and where each of them begins. */
  lemma FiveParts(a: string, f: string, z: string, d: string, e: string)
    ensures var t := a + f + z + d + e;
            var b := |a| + |f|;
            var x := b + |z| + |d|;
            && |t| == x + |e| && t[..|a|] == a && t[|a|..b] == f && t[b..x] == z + d && t[x..] == e
  {
  }

  /** The digits with the zeros before them. */
  lemma DigitsShape(n: nat, u: nat, base: nat, small: bool)
    requires IsBase(base)
    ensures var s := Repeat('0', n) + Numeral(u, base, small);
            && Denotes(s, base) == u && |s| == n + |Numeral(u, base, small)|
            && (forall k | 0 <= k < |s| :: IsDigitOf(s[k], base, small))
            && (s[0] == '0' ==> n > 0 || |s| == 1)
  {
    hide Numeral, Denotes;
    NumeralOf(u, base, small);
    DenotesLeading(n, Numeral(u, base, small), base);
  }

  lemma ShapeFrom(t: string, a: nat, b: nat, e: nat, front: string, s: string, n: nat, u: nat, base: nat, small: bool,
                  left: bool, zeros: bool, size: int, precision: int)
    requires a <= b < e <= |t| && Blanks(t[..a]) && t[a..b] == front && t[b..e] == s && Blanks(t[e..])
    requires Denotes(s, base) == u && (forall k | 0 <= k < |s| :: IsDigitOf(s[k], base, small))
    requires s[0] == '0' ==> n > 0 || |s| == 1
    requires n > 0 ==> e - b == precision || (zeros && !left && |t| == size)
    requires precision <= e - b && size <= |t| && (a > 0 || e < |t| ==> |t| == size)
    requires if left then a == 0 else e == |t| && (zeros ==> a == 0)
    ensures Shape(t, a, b, e, front, u, base, small, left, zeros, size, precision)
  {
    hide Denotes, IsDigitOf;
    assert t[b] == s[0];
    forall k | b <= k < e ensures IsDigitOf(t[k], base, small) { assert t[k] == s[k - b]; }
  }

  /** Five parts of the right lengths, the third and fourth being zeros and a numeral. */
  lemma ShapeOfFive(w: string, front: string, n: nat, u: nat, y: string, base: nat, small: bool,
                    left: bool, zeros: bool, size: int, precision: int)
    requires IsBase(base) && Blanks(w) && Blanks(y)
    requires if left then w == "" else y == "" && (zeros ==> w == "")
    requires var m := n + |Numeral(u, base, small)|;
             var all := |w| + |front| + m + |y|;
             && precision <= m && size <= all && (w != "" || y != "" ==> all == size)
             && (n > 0 ==> m == precision || (zeros && !left && all == size))
    ensures HasShape(w + front + Repeat('0', n) + Numeral(u, base, small) + y,
                     front, u, base, small, left, zeros, size, precision)
  {
    hide Numeral, Denotes, Shape, Repeat;
    var z, d := Repeat('0', n), Numeral(u, base, small);
    var t := w + front + z + d + y;
    var b := |w| + |front|;
    var e := b + n + |d|;
    DigitsShape(n, u, base, small);
    FiveParts(w, front, z, d, y);
    ShapeFrom(t, |w|, b, e, front, z + d, n, u, base, small, left, zeros, size, precision);
    assert Shape(t, |w|, b, e, front, u, base, small, left, zeros, size, precision);
  }

  /** The text of a number in its parts: `pad` characters more than it needs, `more` digits more than it has. */
  lemma ShapeOfParts(pad: nat, left: bool, zeros: bool, front: string, more: nat, u: nat, base: nat, small: bool,
                     size: int, precision: int)
    requires IsBase(base)
    requires var n, m := |Numeral(u, base, small)|, |front|;
             more == (if precision > n then precision - n else 0)
             && pad == if size > m + more + n then size - (m + more + n) else 0
    ensures HasShape(Repeat(' ', if left || zeros then 0 else pad) + front
                     + Repeat('0', (if zeros && !left then pad else 0) + more) + Numeral(u, base, small)
                     + Repeat(' ', if left then pad else 0),
                     front, u, base, small, left, zeros, size, precision)
  {
    hide Numeral, HasShape;
    ShapeOfFive(Repeat(' ', if left || zeros then 0 else pad), front, (if zeros && !left then pad else 0) + more, u,
                Repeat(' ', if left then pad else 0), base, small, left, zeros, size, precision);
  }

  /** What `number` prints: see `Shape`. */
  lemma NumberMeans(num: word, base: int, size: int, precision: int, f: Flags)
    requires IsBase(base)
    ensures HasShape(NumberText(num, base, size, precision, f), SignText(num, f) + PrefixText(base, f),
                     Magnitude(num, f), base, f.small, f.left, f.zeropad, size, precision)
  {
    hide Numeral, SignText, PrefixText, Magnitude, HasShape;
    var u, front := Magnitude(num, f), SignText(num, f) + PrefixText(base, f);
    var d := Numeral(u, base, f.small);
    var more: nat := if precision > |d| then precision - |d| else 0;
    var m: nat := |front| + more + |d|;
    var pad: nat := if size > m then size - m else 0;
    ShapeOfParts(pad, f.left, f.zeropad, front, more, u, base, f.small, size, precision);
    TextInParts(num, base, size, precision, f, pad, more);
  }

  lemma TextInParts(num: word, base: int, size: int, precision: int, f: Flags, pad: nat, more: nat)
    requires IsBase(base)
    requires var n, m := |Numeral(Magnitude(num, f), base, f.small)|, |SignText(num, f) + PrefixText(base, f)|;
             more == (if precision > n then precision - n else 0)
             && pad == if size > m + more + n then size - (m + more + n) else 0
    ensures NumberText(num, base, size, precision, f) ==
            Repeat(' ', if f.left || f.zeropad then 0 else pad) + (SignText(num, f) + PrefixText(base, f))
            + Repeat('0', (if f.zeropad && !f.left then pad else 0) + more)
            + Numeral(Magnitude(num, f), base, f.small) + Repeat(' ', if f.left then pad else 0)
  {
    hide Numeral, SignText, PrefixText, Magnitude;
    var d, s, p := Numeral(Magnitude(num, f), base, f.small), SignText(num, f), PrefixText(base, f);
    BodyLength(num, base, precision, f);
    SameRepeat('0', precision - |d|, more);
    SameRepeat(' ', size - |Body(num, base, precision, f, "")|, pad);
    SameRepeat('0', size - |Body(num, base, precision, f, "")|, pad);
    RepeatTwice('0', pad, more);
    Regroup(s, p, Repeat('0', pad), Repeat('0', more), d, Repeat(' ', pad));
  }

  lemma SameRepeat(c: char, m: int, n: nat)
    requires n == if m > 0 then m else 0
    ensures Repeat(c, m) == Repeat(c, n)
  {
  }

  lemma Regroup(s: string, p: string, f: string, z: string, d: string, w: string)
    ensures s + p + "" + z + d + w == "" + (s + p) + z + d + w
    ensures s + p + f + z + d == "" + (s + p) + (f + z) + d + ""
    ensures w + (s + p + "" + z + d) == w + (s + p) + z + d + ""
  {
  }

  lemma ShownText(x: Form, arg: Arg, d: Directive)
    requires IsForm(x)
    requires d == Adjusted(x.conv, Directive(0, 0, FlagsOf(x.flags), CountOf(x.width), CountOf(x.precision)))
    ensures Shown(x, arg) == NumberText(arg.num, BaseOf(x.conv), d.width, d.precision, d.flags)
  {
    hide NumberText;
  }

  /**
   What a written numeric directive prints, by the characters it is written with: sign, prefix,
   base and alphabet, value, width and precision.
   */
  lemma NumberShown(x: Form, arg: Arg)
    requires IsForm(x) && !HasStar(x)
    ensures var minus := (x.conv == 'd' || x.conv == 'i') && arg.num >= 0x8000_0000;
            var sign := if minus then "-" else if '+' in x.flags then "+" else if ' ' in x.flags then " " else "";
            var hex := x.conv == 'x' || x.conv == 'X' || x.conv == 'p';
            var base := if x.conv == 'o' then 8 else if x.conv == 'b' then 2 else if hex then 16 else 10;
            var prefix := if '#' !in x.flags then "" else if x.conv == 'o' then "0" else if x.conv == 'x' then "0x"
                          else if x.conv == 'X' || x.conv == 'p' then "0X" else "";
            var value := if minus then 0x1_0000_0000 - arg.num else arg.num;
            var address := x.conv == 'p' && x.width.Absent?;
            var width := if address then 8 else if x.width.Written? then Denotes(x.width.digits, 10) else -1;
            var precision := if x.precision.Written? then Denotes(x.precision.digits, 10) else -1;
            HasShape(Shown(x, arg), sign + prefix, value, base, x.conv == 'x', '-' in x.flags,
                     '0' in x.flags || address, width, precision)
  {
    hide HasShape, NumberText, Denotes, Shown;
    if x.width.Written? { DigitsNotNegative(x.width.digits); }
    var d := Adjusted(x.conv, Directive(0, 0, FlagsOf(x.flags), CountOf(x.width), CountOf(x.precision)));
    NumberMeans(arg.num, BaseOf(x.conv), d.width, d.precision, d.flags);
    ShownText(x, arg, d);
  }

  // ------------------------------------------------------------ strings and characters

  /** `u`, on the left or on the right of as many spaces as the width asks for. */
  predicate Padded(t: string, u: string, left: bool, width: int) {
    && |t| == (if width > |u| then width else |u|)
    && if left then t[..|u|] == u && Blanks(t[|u|..]) else Blanks(t[..|t| - |u|]) && t[|t| - |u|..] == u
  }

  lemma PaddedIs(u: string, left: bool, width: int)
    ensures Padded(if left then u + Repeat(' ', width - |u|) else Repeat(' ', width - |u|) + u, u, left, width)
  {
  }

  /** `%s` prints the text, cut off at the precision if one is written, padded to the width. */
  lemma StringShown(x: Form, arg: Arg)
    requires IsWritten(x) && x.conv == 's' && !HasStar(x)
    ensures x.precision.Written? ==> Denotes(x.precision.digits, 10) >= 0
    ensures var n := if x.precision.Absent? || |arg.text| <= Denotes(x.precision.digits, 10) then |arg.text|
                     else Denotes(x.precision.digits, 10);
            var width := if x.width.Written? then Denotes(x.width.digits, 10) else -1;
            Padded(Shown(x, arg), arg.text[..n], '-' in x.flags, width)
  {
    hide Denotes, Padded, Repeat;
    if x.precision.Written? { DigitsNotNegative(x.precision.digits); }
    var n := if x.precision.Absent? || |arg.text| <= CountOf(x.precision) then |arg.text| else CountOf(x.precision);
    PaddedIs(arg.text[..n], '-' in x.flags, CountOf(x.width));
  }

  /** `%c` prints the lowest byte of its argument as a character, padded to the width. */
  lemma CharShown(x: Form, arg: Arg)
    requires IsWritten(x) && x.conv == 'c' && !HasStar(x)
    ensures var width := if x.width.Written? then Denotes(x.width.digits, 10) else -1;
            Padded(Shown(x, arg), [(arg.num % 256) as char], '-' in x.flags, width)
  {
    hide Denotes, Padded, Repeat;
    PaddedIs([(arg.num % 256) as char], '-' in x.flags, CountOf(x.width));
  }

  /** Plain `%s` prints just the text. */
  lemma PlainString(args: Args)
    ensures Printed("%s", 0, args, 0) == args(0).text
  {
    hide Printed, Shown;
    var x, text := Form("", Absent, Absent, "", 's'), args(0).text;
    assert Render(x) == "%s";
    AlonePrints(x, args);
    StringShown(x, args(0));
    assert text[..|text|] == text;
    var t := Shown(x, args(0));
    assert t == t[..|t| - |text|] + t[|t| - |text|..];
  }
}
