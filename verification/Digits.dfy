/**
 Numerals: the digits of a number in a base from 2 to 36, most significant first, and the number
 that a string of digits denotes.
 */
module Digits {
  import opened Words

  predicate IsBase(base: int) {
    2 <= base <= 36
  }

  /** `digits[d]` in `number`: the small or the capital alphabet. */
  function DigitChar(d: nat, small: bool): char
    requires d < 36
  {
    if d < 10 then '0' + d as char else if small then 'a' + (d - 10) as char else 'A' + (d - 10) as char
  }

  /** The two alphabets, as the source writes them. */
  lemma DigitCharIs(d: nat, small: bool)
    requires d < 36
    ensures DigitChar(d, small) ==
            if small then "0123456789abcdefghijklmnopqrstuvwxyz"[d] else "0123456789ABCDEFGHIJKLMNOPQRSTUVWXYZ"[d]
  {
  }

  function DigitValue(c: char): int {
    if '0' <= c <= '9' then c as int - 48
    else if 'a' <= c <= 'z' then c as int - 87
    else if 'A' <= c <= 'Z' then c as int - 55
    else -1
  }

  lemma Division(u: nat, base: nat)
    requires base >= 2
    ensures 0 <= u / base && 0 <= u % base < base && u == u / base * base + u % base
    ensures u >= base ==> 0 < u / base < u
    ensures u < base ==> u / base == 0 && u % base == u
  {
    QuotientBounds(u, base, u / base, u % base);
  }

  lemma QuotientBounds(u: nat, base: nat, q: int, r: int)
    requires base >= 2 && u == q * base + r && 0 <= r < base
    ensures q >= 0
    ensures u >= base ==> 0 < q < u
    ensures u < base ==> q == 0
  {
    if q < 0 { Monotone(q, -1, base); }
    if q > 0 { Monotone(1, q, base); Monotone(2, base, q); }
  }

  lemma Monotone(a: int, b: int, c: nat)
    requires a <= b
    ensures a * c <= b * c
  {
  }

  function Numeral(u: nat, base: nat, small: bool): (s: string)
    requires IsBase(base)
    ensures s != []
  {
    Division(u, base);
    if u < base then [DigitChar(u, small)] else Numeral(u / base, base, small) + [DigitChar(u % base, small)]
  }

  /** What a string denotes, as the sum of its digits times powers of the base. */
  function Denotes(s: string, base: nat): int {
    if s == [] then 0 else Denotes(s[..|s|-1], base) * base + DigitValue(s[|s|-1])
  }

  lemma DigitRoundTrip(d: nat, small: bool)
    requires d < 36
    ensures DigitValue(DigitChar(d, small)) == d
  {
  }

  lemma DenotesSnoc(s: string, c: char, base: nat)
    ensures Denotes(s + [c], base) == Denotes(s, base) * base + DigitValue(c)
  {
    assert (s + [c])[..|s|] == s;
  }

  /** In every base the numeral denotes its number, with digits of that base only and no leading zero. */
  lemma {:induction false} NumeralDenotes(u: nat, base: nat, small: bool)
    requires IsBase(base)
    ensures Denotes(Numeral(u, base, small), base) == u
    ensures forall k | 0 <= k < |Numeral(u, base, small)| :: 0 <= DigitValue(Numeral(u, base, small)[k]) < base
    ensures u > 0 ==> DigitValue(Numeral(u, base, small)[0]) > 0
  {
    Division(u, base);
    if u < base {
      DigitRoundTrip(u, small);
      DenotesSnoc([], DigitChar(u, small), base);
      assert [] + [DigitChar(u, small)] == [DigitChar(u, small)];
    } else {
      NumeralDenotes(u / base, base, small);
      DigitRoundTrip(u % base, small);
      DenotesSnoc(Numeral(u / base, base, small), DigitChar(u % base, small), base);
    }
  }

  /** Different numbers have different numerals. */
  lemma NumeralInjective(u: nat, v: nat, base: nat, small: bool)
    requires IsBase(base) && Numeral(u, base, small) == Numeral(v, base, small)
    ensures u == v
  {
    NumeralDenotes(u, base, small);
    NumeralDenotes(v, base, small);
  }

  /** Dividing by a base at least halves. */
  lemma Halves(x: nat, base: nat, k: nat)
    requires base >= 2 && x < Pow2(k) && x > 0
    ensures k > 0 && x / base < Pow2(k - 1)
  {
    assert Pow2(0) == 1;
    Division(x, base);
    Monotone(2, base, x / base);
  }

  /** A number below 2^k has at most k digits in any base. */
  lemma {:induction false} NumeralLength(u: nat, base: nat, small: bool, k: nat)
    requires IsBase(base) && u < Pow2(k) && k > 0
    ensures |Numeral(u, base, small)| <= k
  {
    if u >= base {
      Halves(u, base, k);
      Division(u, base);
      assert Pow2(0) == 1;
      NumeralLength(u / base, base, small, k - 1);
    }
  }

  function Repeat(c: char, n: int): (s: string)
    ensures |s| == if n > 0 then n else 0
    ensures forall i | 0 <= i < |s| :: s[i] == c
  {
    if n > 0 then seq(n, _ => c) else []
  }

  lemma RepeatMore(c: char, n: nat)
    ensures Repeat(c, n + 1) == Repeat(c, n) + [c]
  {
  }
}
