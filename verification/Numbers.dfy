/**
 The parsers of libs/number.c, under 32-bit wrap-around, and that they undo `%u` and `%d`.
 */
module Numbers {
  import opened Digits
  import opened Printk
  import opened PrintkFormat
  import opened Words

  /** The value of a string read digit by digit from the left, with no wrap-around. */
  function ValueOf(s: string): int {
    if s == [] then 0 else ValueOf(s[..|s|-1]) * 10 + (s[|s|-1] as int - 48)
  }

  /** The 32-bit signed number congruent to `x`. */
  function Wrapped(x: int): (r: int)
    ensures -0x8000_0000 <= r < 0x8000_0000
  {
    var u: word := x % WORD;
    Signed(u)
  }

  lemma WrappedIs(x: int)
    requires -0x8000_0000 <= x < 0x8000_0000
    ensures Wrapped(x) == x
  {
  }

  lemma ModStep(a: int, b: int)
    ensures (a % WORD * 10 + b) % WORD == (a * 10 + b) % WORD
  {
    assert a == a / WORD * WORD + a % WORD;
    AddMultiple(a % WORD * 10 + b, a / WORD * 10);
  }

  lemma AddMultiple(x: int, k: int)
    ensures (x + k * WORD) % WORD == x % WORD
  {
    assert x == x / WORD * WORD + x % WORD;
    assert x + k * WORD == (x / WORD + k) * WORD + x % WORD;
    RemainderIs(x + k * WORD, x / WORD + k, x % WORD);
  }

  lemma RemainderIs(x: int, q: int, r: int)
    requires x == q * WORD + r && 0 <= r < WORD
    ensures x % WORD == r
  {
  }

  lemma WrapStep(a: int, b: int)
    ensures Wrapped(Wrapped(a) * 10 + b) == Wrapped(a * 10 + b)
  {
    var w := Wrapped(a);
    if w != a % WORD {
      AddMultiple(w * 10 + b, 10);
      assert w * 10 + b + 10 * WORD == a % WORD * 10 + b;
    }
    ModStep(a, b);
  }

  lemma WrapNegative(a: int)
    ensures Wrapped(-Wrapped(a)) == Wrapped(-a)
  {
    var w := Wrapped(a);
    assert a == a / WORD * WORD + a % WORD;
    if w == a % WORD {
      assert -w == -a + a / WORD * WORD;
      AddMultiple(-a, a / WORD);
    } else {
      assert -w == -a + (a / WORD + 1) * WORD;
      AddMultiple(-a, a / WORD + 1);
    }
  }

  lemma ValueNext(s: string, i: nat, j: nat)
    requires i <= j < |s|
    ensures ValueOf(s[i..j+1]) == ValueOf(s[i..j]) * 10 + (s[j] as int - 48)
  {
    assert s[i..j+1][..|s[i..j+1]| - 1] == s[i..j];
  }

  /** For every string, the value of its characters read as digits, modulo 2^32. */
  method CstrToUint32(cstr: string) returns (ret: word)
    ensures ret == ValueOf(cstr) % WORD
  {
    ret := 0;
    for i := 0 to |cstr|
      invariant ret == ValueOf(cstr[0..i]) % WORD
    {
      ValueNext(cstr, 0, i);
      ModStep(ValueOf(cstr[0..i]), cstr[i] as int - 48);
      ret := (ret * 10 + (cstr[i] as int - 48)) % WORD;
    }
    assert cstr[0..|cstr|] == cstr;
  }

  predicate HasMinus(s: string) {
    s != "" && s[0] == '-'
  }

  method CstrToInt32(cstr: string) returns (ret: int)
    ensures ret == if HasMinus(cstr) then Wrapped(-ValueOf(cstr[1..])) else Wrapped(ValueOf(cstr))
  {
    hide Wrapped, ValueOf;
    var start, flag := 0, 1;
    if At(cstr, 0) == '-' {
      start, flag := 1, -1;
    }
    ret := 0;
    WrapNothing();
    assert cstr[start..start] == "";
    for i := start to |cstr|
      invariant ret == Wrapped(ValueOf(cstr[start..i]))
    {
      ValueNext(cstr, start, i);
      WrapStep(ValueOf(cstr[start..i]), cstr[i] as int - 48);
      ret := Wrapped(ret * 10 + (cstr[i] as int - 48));
    }
    assert cstr[start..|cstr|] == if start == 1 then cstr[1..] else cstr;
    WrapNegative(ValueOf(cstr[start..|cstr|]));
    WrapTwice(ValueOf(cstr[start..|cstr|]));
    ret := Wrapped(flag * ret);
  }

  lemma WrapNothing()
    ensures Wrapped(ValueOf("")) == 0
  {
  }

  lemma WrapTwice(a: int)
    ensures Wrapped(Wrapped(a)) == Wrapped(a)
  {
    WrappedIs(Wrapped(a));
  }

  /** On digits the two readings of a string agree. */
  lemma {:induction false} ValueOfDigits(s: string)
    requires forall k | 0 <= k < |s| :: IsDigit(s[k])
    ensures ValueOf(s) == Denotes(s, 10)
  {
    if s != [] { ValueOfDigits(s[..|s|-1]); }
  }

  lemma NumeralValue(u: nat)
    ensures ValueOf(Numeral(u, 10, false)) == u
    ensures !HasMinus(Numeral(u, 10, false))
  {
    NumeralDigits(u);
    ValueOfDigits(Numeral(u, 10, false));
  }

  /** What a plain `%u` or `%d` prints. */
  lemma PlainPrints(c: char, args: Args)
    requires c == 'u' || c == 'd'
    ensures var num := args(0).num;
            Printed(['%', c], 0, args, 0) ==
              if c == 'd' && Signed(num) < 0 then "-" + Numeral(-Signed(num), 10, false) else Numeral(num, 10, false)
  {
    hide NumberText;
    var x := Form("", Absent, Absent, "", c);
    AlonePrints(x, args);
    assert Render(x) == ['%', c];
    PlainText(args(0).num, Adjusted(c, Directive(0, 0, FlagsOf(""), -1, -1)).flags);
  }

  /** Printing with `%u` and parsing gives every 32-bit word back. */
  lemma UnsignedRoundTrip(args: Args)
    ensures ValueOf(Printed("%u", 0, args, 0)) % WORD == args(0).num
  {
    PlainPrints('u', args);
    NumeralValue(args(0).num);
  }

  /** Printing with `%d` and parsing gives every 32-bit integer back, the least one by wrap-around. */
  lemma SignedRoundTrip(args: Args)
    ensures var s := Printed("%d", 0, args, 0);
            Signed(args(0).num) == if HasMinus(s) then Wrapped(-ValueOf(s[1..])) else Wrapped(ValueOf(s))
  {
    hide Printed, Wrapped, ValueOf, Numeral;
    var num := args(0).num;
    PlainPrints('d', args);
    if Signed(num) < 0 {
      NumeralValue(-Signed(num));
      AfterMinus(Numeral(-Signed(num), 10, false));
    } else {
      NumeralValue(num);
    }
    WrappedIs(Signed(num));
  }

  lemma AfterMinus(t: string)
    ensures HasMinus("-" + t) && ("-" + t)[1..] == t
  {
  }

  /** A word and its parsed value agree exactly as long as the digits denote less than 2^32. */
  lemma UnsignedWrapsIff(s: string)
    requires forall k | 0 <= k < |s| :: IsDigit(s[k])
    ensures ValueOf(s) % WORD == Denotes(s, 10) <==> Denotes(s, 10) < WORD
  {
    ValueOfDigits(s);
    DigitsNotNegative(s);
  }
}
