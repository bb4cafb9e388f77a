/**
 Directives as they are written, and what `vsprintf` makes of them: one without `*` prints its
 argument with the flags, width and precision it was written with; one with `*` prints itself.
 */
module PrintkFormat {
  import opened Digits
  import opened Printk
  import Words

  // ------------------------------------------------------------------ the written form

  /** A width or a precision: left out, a string of digits, or `*`. */
  datatype Count = Absent | Written(digits: string) | Star

  /** `%`, flags in any order and number, width, precision, qualifier, conversion character. */
  datatype Form = Form(flags: string, width: Count, precision: Count, qualifier: string, conv: char)

  predicate AllDigits(t: string) {
    forall k | 0 <= k < |t| :: IsDigit(t[k])
  }

  predicate IsConversion(c: char) {
    c in "diuoxXpb"
  }

  /** A width does not start with 0, which is a flag; the digits of a precision may be missing. */
  predicate IsWidth(w: Count) {
    w.Written? ==> w.digits != "" && AllDigits(w.digits) && w.digits[0] != '0'
  }

  predicate IsWritten(x: Form) {
    && (forall k | 0 <= k < |x.flags| :: IsFlag(x.flags[k]))
    && IsWidth(x.width)
    && (x.precision.Written? ==> AllDigits(x.precision.digits))
    && x.qualifier in ["", "h", "l", "L"]
    && (IsConversion(x.conv) || x.conv == 'c' || x.conv == 's')
  }

  /** A directive that prints a number. */
  predicate IsForm(x: Form) {
    IsWritten(x) && IsConversion(x.conv)
  }

  predicate HasStar(x: Form) {
    x.width.Star? || x.precision.Star?
  }

  function WidthChars(w: Count): string {
    match w
    case Absent => ""
    case Written(digits) => digits
    case Star => "*"
  }

  function PrecisionChars(p: Count): string {
    match p
    case Absent => ""
    case Written(digits) => "." + digits
    case Star => ".*"
  }

  function Render(x: Form): string {
    "%" + x.flags + WidthChars(x.width) + PrecisionChars(x.precision) + x.qualifier + [x.conv]
  }

  /** The flags that the characters stand for. */
  function FlagsOf(t: string): Flags {
    Flags('0' in t, false, '+' in t, ' ' in t, '-' in t, '#' in t, false)
  }

  /** What the digits stand for, -1 where nothing is written. */
  function CountOf(w: Count): int {
    if w.Written? then Denotes(w.digits, 10) else -1
  }

  // -------------------------------------------------------------------------- reading

  lemma FlagsEndIs(s: string, i: nat, j: nat)
    requires i <= j <= |s| && !IsFlag(At(s, j)) && forall k | i <= k < j :: IsFlag(s[k])
    ensures FlagsEnd(s, i) == j
  {
    assert forall k | i <= k < j :: IsFlag(At(s, k));
  }

  lemma NumberEndIs(s: string, i: nat, j: nat)
    requires i <= j <= |s| && !IsDigit(At(s, j)) && forall k | i <= k < j :: IsDigit(s[k])
    ensures NumberEnd(s, i) == j
  {
    assert forall k | i <= k < j :: IsDigit(At(s, k));
  }

  /** `r` is `f` with the flags set whose characters are in `t`. */
  ghost predicate FlagsSet(r: Flags, f: Flags, t: string) {
    && (r.left <==> f.left || '-' in t) && (r.plus <==> f.plus || '+' in t)
    && (r.space <==> f.space || ' ' in t) && (r.special <==> f.special || '#' in t)
    && (r.zeropad <==> f.zeropad || '0' in t) && r.sign == f.sign && r.small == f.small
  }

  lemma Joined(c: char, t: string, x: char)
    ensures x in [c] + t <==> x == c || x in t
  {
  }

  lemma WithFlagIs(f: Flags, c: char)
    requires IsFlag(c)
    ensures var r := WithFlag(f, c);
            && (r.left <==> f.left || c == '-') && (r.plus <==> f.plus || c == '+')
            && (r.space <==> f.space || c == ' ') && (r.special <==> f.special || c == '#')
            && (r.zeropad <==> f.zeropad || c == '0') && r.sign == f.sign && r.small == f.small
  {
  }

  lemma FlagsStep(r: Flags, f: Flags, c: char, t: string)
    requires IsFlag(c) && FlagsSet(r, WithFlag(f, c), t)
    ensures FlagsSet(r, f, [c] + t)
  {
    hide WithFlag;
    WithFlagIs(f, c);
    Joined(c, t, '-');
    Joined(c, t, '+');
    Joined(c, t, ' ');
    Joined(c, t, '#');
    Joined(c, t, '0');
  }

  lemma FlagsFromNext(s: string, i: nat, j: nat, f: Flags)
    requires i < j <= |s|
    ensures FlagsFrom(s, i, j, f) == FlagsFrom(s, i + 1, j, WithFlag(f, s[i])) && s[i..j] == [s[i]] + s[i+1..j]
  {
  }

  /** The flags read are those whose characters occur. */
  lemma {:induction false} FlagsAre(s: string, i: nat, j: nat, f: Flags)
    requires i <= j <= |s| && forall k | i <= k < j :: IsFlag(s[k])
    ensures FlagsSet(FlagsFrom(s, i, j, f), f, s[i..j])
    decreases j - i
  {
    if i < j {
      hide FlagsFrom, FlagsSet, WithFlag;
      FlagsAre(s, i + 1, j, WithFlag(f, s[i]));
      FlagsFromNext(s, i, j, f);
      FlagsStep(FlagsFrom(s, i, j, f), f, s[i], s[i+1..j]);
    }
  }

  lemma NumeralDigits(u: nat)
    ensures var n := Numeral(u, 10, false);
            && (forall k | 0 <= k < |n| :: IsDigit(n[k]))
            && (u > 0 ==> !IsFlag(n[0]))
            && Denotes(n, 10) == u
  {
    NumeralDenotes(u, 10, false);
    var n := Numeral(u, 10, false);
    forall k | 0 <= k < |n| ensures IsDigit(n[k]) { assert 0 <= DigitValue(n[k]) < 10; }
  }

  /** `s` has the text `t` at place `i`. */
  ghost predicate HasAt(s: string, i: nat, t: string) {
    i + |t| <= |s| && s[i..i + |t|] == t
  }

  lemma HasChars(s: string, i: nat, t: string, k: nat)
    requires HasAt(s, i, t) && k < |t|
    ensures At(s, i + k) == t[k] && s[i + k] == t[k]
  {
    assert s[i..i + |t|][k] == t[k];
  }

  /** Flags at `i` followed by something that is no flag are read as they were written. */
  lemma FlagsRead(s: string, i: nat, t: string)
    requires HasAt(s, i, t) && !IsFlag(At(s, i + |t|)) && forall k | 0 <= k < |t| :: IsFlag(t[k])
    ensures FlagsEnd(s, i) == i + |t| && FlagsFrom(s, i, i + |t|, NO_FLAGS) == FlagsOf(t)
  {
    var j := i + |t|;
    forall k | i <= k < j ensures IsFlag(s[k]) { HasChars(s, i, t, k - i); }
    FlagsEndIs(s, i, j);
    FlagsAre(s, i, j, NO_FLAGS);
  }

  /** Digits at `i` followed by something that is no digit are read as they were written. */
  lemma DigitsRead(s: string, i: nat, t: string)
    requires HasAt(s, i, t) && AllDigits(t) && !IsDigit(At(s, i + |t|))
    ensures NumberEnd(s, i) == i + |t| && s[i..i + |t|] == t
  {
    forall k | i <= k < i + |t| ensures IsDigit(s[k]) { HasChars(s, i, t, k - i); }
    NumberEndIs(s, i, i + |t|);
  }

  lemma WidthRead(s: string, i: nat, w: Count, args: Args, ap: nat, f: Flags)
    requires IsWidth(w) && !w.Star? && HasAt(s, i, WidthChars(w))
    requires !IsDigit(At(s, i + |WidthChars(w)|)) && At(s, i + |WidthChars(w)|) != '*'
    ensures ReadWidth(s, i, args, ap, f) == Directive(i + |WidthChars(w)|, ap, f, CountOf(w), -1)
  {
    if w.Written? {
      HasChars(s, i, w.digits, 0);
      DigitsRead(s, i, w.digits);
    }
  }

  lemma PrecisionRead(s: string, d: Directive, p: Count, args: Args)
    requires d.precision == -1 && !p.Star? && (p.Written? ==> AllDigits(p.digits))
    requires HasAt(s, d.next, PrecisionChars(p))
    requires var c := At(s, d.next + |PrecisionChars(p)|); !IsDigit(c) && c != '.' && c != '*'
    ensures ReadPrecision(s, d, args) == d.(next := d.next + |PrecisionChars(p)|, precision := CountOf(p))
  {
    if p.Written? {
      HasChars(s, d.next, PrecisionChars(p), 0);
      HasTail(s, d.next, '.', p.digits);
      if p.digits != "" { HasChars(s, d.next + 1, p.digits, 0); }
      DigitsRead(s, d.next + 1, p.digits);
    }
  }

  lemma HasTail(s: string, i: nat, c: char, t: string)
    requires HasAt(s, i, [c] + t)
    ensures HasAt(s, i + 1, t)
  {
    forall k | 0 <= k < |t| ensures s[i+1..i+1 + |t|][k] == t[k] { HasChars(s, i, [c] + t, k + 1); }
  }

  // --------------------------------------------------------------- a directive without `*`

  /** Where the parts of a written directive lie. */
  lemma RenderedParts(x: Form)
    ensures var s := Render(x);
            var j := 1 + |x.flags|;
            var k := j + |WidthChars(x.width)|;
            var l := k + |PrecisionChars(x.precision)|;
            && |s| == l + |x.qualifier| + 1 && s[0] == '%' && s[|s|-1] == x.conv
            && HasAt(s, 1, x.flags) && HasAt(s, j, WidthChars(x.width)) && HasAt(s, k, PrecisionChars(x.precision))
            && HasAt(s, l, x.qualifier)
  {
    hide WidthChars, PrecisionChars;
    Parts(x.flags, WidthChars(x.width), PrecisionChars(x.precision), x.qualifier, x.conv);
  }

  lemma Parts(b: string, c: string, d: string, e: string, z: char)
    ensures var s := "%" + b + c + d + e + [z];
            && |s| == |b| + |c| + |d| + |e| + 2 && s[0] == '%' && s[|s|-1] == z
            && HasAt(s, 1, b) && HasAt(s, 1 + |b|, c) && HasAt(s, 1 + |b| + |c|, d) && HasAt(s, 1 + |b| + |c| + |d|, e)
  {
    InTheMiddle("%", b, c + d + e + [z]);
    InTheMiddle("%" + b, c, d + e + [z]);
    InTheMiddle("%" + b + c, d, e + [z]);
    InTheMiddle("%" + b + c + d, e, [z]);
    var s := "%" + b + c + d + e + [z];
    assert s == "%" + b + (c + d + e + [z]);
    assert s == "%" + b + c + (d + e + [z]);
    assert s == "%" + b + c + d + (e + [z]);
  }

  /** What is in a part is in the whole. */
  lemma HasWithin(s: string, i: nat, r: string, j: nat, t: string)
    requires HasAt(s, i, r) && HasAt(r, j, t)
    ensures HasAt(s, i + j, t)
  {
    forall k | 0 <= k < |t| ensures s[i+j..i+j + |t|][k] == t[k] {
      HasChars(s, i, r, j + k);
      HasChars(r, j, t, k);
    }
  }

  /** Where its parts lie when it is written at place `i` of a format. */
  lemma PartsAt(s: string, i: nat, x: Form)
    requires HasAt(s, i, Render(x))
    ensures var j := i + 1 + |x.flags|;
            var k := j + |WidthChars(x.width)|;
            var l := k + |PrecisionChars(x.precision)|;
            && i + |Render(x)| == l + |x.qualifier| + 1 <= |s| && s[i] == '%' && s[l + |x.qualifier|] == x.conv
            && HasAt(s, i + 1, x.flags) && HasAt(s, j, WidthChars(x.width)) && HasAt(s, k, PrecisionChars(x.precision))
            && HasAt(s, l, x.qualifier)
  {
    hide HasAt, Render, WidthChars, PrecisionChars;
    var r := Render(x);
    RenderedParts(x);
    var j := 1 + |x.flags|;
    var k := j + |WidthChars(x.width)|;
    HasWithin(s, i, r, 1, x.flags);
    HasWithin(s, i, r, j, WidthChars(x.width));
    HasWithin(s, i, r, k, PrecisionChars(x.precision));
    HasWithin(s, i, r, k + |PrecisionChars(x.precision)|, x.qualifier);
    HasChars(s, i, r, 0);
    HasChars(s, i, r, |r| - 1);
    HasFits(s, i, r);
  }

  lemma HasFits(s: string, i: nat, t: string)
    requires HasAt(s, i, t)
    ensures i + |t| <= |s|
  {
  }

  lemma InTheMiddle(a: string, t: string, b: string)
    ensures HasAt(a + t + b, |a|, t)
  {
    assert (a + t + b)[|a|..|a| + |t|] == t;
  }

  /** What follows each part of a written directive does not belong to it. */
  lemma Boundaries(x: Form, s: string, j: nat, k: nat, l: nat)
    requires IsWritten(x) && |s| >= l + |x.qualifier| + 1 && s[l + |x.qualifier|] == x.conv
    requires k == j + |WidthChars(x.width)| && l == k + |PrecisionChars(x.precision)|
    requires HasAt(s, j, WidthChars(x.width)) && HasAt(s, k, PrecisionChars(x.precision)) && HasAt(s, l, x.qualifier)
    ensures !IsDigit(At(s, l)) && At(s, l) != '.' && At(s, l) != '*' && !IsFlag(At(s, l))
    ensures !IsFlag(At(s, k)) && !IsDigit(At(s, k)) && At(s, k) != '*'
    ensures !IsFlag(At(s, j))
    ensures if x.qualifier == "" then At(s, l) == x.conv else At(s, l) in "hlL" && At(s, l + 1) == x.conv
  {
    if x.qualifier != "" { HasChars(s, l, x.qualifier, 0); }
    if !x.precision.Absent? { HasChars(s, k, PrecisionChars(x.precision), 0); }
    if !x.width.Absent? { HasChars(s, j, WidthChars(x.width), 0); }
  }

  /** A written directive, anywhere in a format, is read back as it was written. */
  lemma RenderedRead(s: string, i: nat, x: Form, args: Args, ap: nat)
    requires IsWritten(x) && !HasStar(x) && HasAt(s, i, Render(x))
    ensures i + |Render(x)| <= |s|
    ensures Read(s, i + 1, args, ap) ==
            Directive(i + |Render(x)| - 1, ap, FlagsOf(x.flags), CountOf(x.width), CountOf(x.precision))
  {
    hide Render, WidthChars, PrecisionChars, FlagsEnd, FlagsFrom, NumberEnd, CountOf;
    hide ReadWidth, ReadPrecision, ReadQualifier;
    var j := i + 1 + |x.flags|;
    var k := j + |WidthChars(x.width)|;
    var l := k + |PrecisionChars(x.precision)|;
    PartsAt(s, i, x);
    Boundaries(x, s, j, k, l);
    FlagsRead(s, i + 1, x.flags);
    WidthRead(s, j, x.width, args, ap, FlagsOf(x.flags));
    var d := Directive(k, ap, FlagsOf(x.flags), CountOf(x.width), -1);
    PrecisionRead(s, d, x.precision, args);
    QualifierRead(s, d.(next := l, precision := CountOf(x.precision)), x.qualifier);
  }

  lemma QualifierRead(s: string, d: Directive, q: string)
    requires d.next <= |s| && d.next + |q| < |s| && |q| <= 1 && (At(s, d.next) in "hlL" <==> q != "")
    ensures ReadQualifier(s, d) == d.(next := d.next + |q|)
  {
  }

  /** What a written directive prints for its argument; see module PrintkShape. */
  function Shown(x: Form, arg: Arg): string {
    DirectiveText(x.conv, Directive(0, 0, FlagsOf(x.flags), CountOf(x.width), CountOf(x.precision)), arg)
  }

  /** It does not depend on where the directive stands. */
  lemma SameText(c: char, d: Directive, arg: Arg)
    ensures DirectiveText(c, d, arg) == DirectiveText(c, d.(next := 0, ap := 0), arg)
  {
    hide NumberText, Repeat;
  }

  lemma OneDirective(s: string, i: nat, c: char, args: Args, ap: nat)
    requires i < |s| && s[i] == '%'
    requires Read(s, i + 1, args, ap).next < |s| && s[Read(s, i + 1, args, ap).next] == c
    ensures var d := Read(s, i + 1, args, ap);
            Printed(s, i, args, ap) ==
            DirectiveText(c, d, args(d.ap)) + Printed(s, d.next + 1, args, if TakesArg(c) then d.ap + 1 else d.ap)
  {
    hide Read, DirectiveText;
  }

  /**
   A directive without `*`, anywhere in a format, prints the next argument with what it was written
   with, and the rest of the format goes on with the argument behind it.
   */
  lemma RenderedPrints(s: string, i: nat, x: Form, args: Args, ap: nat)
    requires IsWritten(x) && !HasStar(x) && HasAt(s, i, Render(x))
    ensures i + |Render(x)| <= |s|
    ensures Printed(s, i, args, ap) == Shown(x, args(ap)) + Printed(s, i + |Render(x)|, args, ap + 1)
  {
    hide Render, WidthChars, PrecisionChars, Read, CountOf, Printed, DirectiveText;
    RenderedRead(s, i, x, args, ap);
    PartsAt(s, i, x);
    OneDirective(s, i, x.conv, args, ap);
    SameText(x.conv, Read(s, i + 1, args, ap), args(ap));
  }

  // -------------------------------------------------------------------- whole formats

  /** A format is text without `%` and written directives. */
  datatype Item = Text(t: string) | Dir(x: Form)

  predicate IsItem(item: Item) {
    match item
    case Text(t) => '%' !in t
    case Dir(x) => IsWritten(x) && !HasStar(x)
  }

  function ItemChars(item: Item): string {
    match item
    case Text(t) => t
    case Dir(x) => Render(x)
  }

  function FormatOf(items: seq<Item>): string {
    if items == [] then "" else ItemChars(items[0]) + FormatOf(items[1..])
  }

  /** The text as it is, and each directive with an argument of its own, in order. */
  function Expected(items: seq<Item>, args: Args, ap: nat): string {
    if items == [] then ""
    else
      match items[0]
      case Text(t) => t + Expected(items[1..], args, ap)
      case Dir(x) => Shown(x, args(ap)) + Expected(items[1..], args, ap + 1)
  }

  lemma {:induction false} TextPrints(s: string, i: nat, t: string, args: Args, ap: nat)
    requires HasAt(s, i, t) && '%' !in t
    ensures i + |t| <= |s| && Printed(s, i, args, ap) == t + Printed(s, i + |t|, args, ap)
    decreases |t|
  {
    if t == "" {
    } else {
      HasChars(s, i, t, 0);
      assert t == [t[0]] + t[1..];
      HasTail(s, i, t[0], t[1..]);
      TextPrints(s, i + 1, t[1..], args, ap);
      Associative([t[0]], t[1..], Printed(s, i + |t|, args, ap));
    }
  }

  lemma {:induction false} ItemsPrint(before: string, items: seq<Item>, args: Args, ap: nat)
    requires forall k | 0 <= k < |items| :: IsItem(items[k])
    ensures Printed(before + FormatOf(items), |before|, args, ap) == Expected(items, args, ap)
    decreases |items|
  {
    hide Render, IsItem, HasAt, Printed, FormatOf, Expected;
    if items == [] {
      NothingLeft(before, args, ap);
      EmptyFormat(before);
      NothingExpected(args, ap);
    } else {
      var u := ItemChars(items[0]);
      var next := if items[0].Dir? then ap + 1 else ap;
      FirstItem(before, items);
      ItemsPrint(before + u, items[1..], args, next);
      ItemPrints(before + u + FormatOf(items[1..]), |before|, items, args, ap);
    }
  }

  lemma NothingExpected(args: Args, ap: nat)
    ensures Expected([], args, ap) == ""
  {
  }

  lemma ItemPrints(s: string, i: nat, items: seq<Item>, args: Args, ap: nat)
    requires items != [] && IsItem(items[0]) && HasAt(s, i, ItemChars(items[0]))
    ensures i + |ItemChars(items[0])| <= |s|
    ensures var next := if items[0].Dir? then ap + 1 else ap;
            Printed(s, i + |ItemChars(items[0])|, args, next) == Expected(items[1..], args, next)
            ==> Printed(s, i, args, ap) == Expected(items, args, ap)
  {
    hide Render, Shown, IsWritten, HasAt, Printed;
    match items[0] {
      case Text(t) => TextPrints(s, i, t, args, ap);
      case Dir(x) => RenderedPrints(s, i, x, args, ap);
    }
  }

  lemma EmptyFormat(before: string)
    ensures before + FormatOf([]) == before
  {
  }

  lemma FirstItem(before: string, items: seq<Item>)
    requires items != []
    ensures var u := ItemChars(items[0]);
            && before + FormatOf(items) == before + u + FormatOf(items[1..])
            && HasAt(before + FormatOf(items), |before|, u)
  {
    hide HasAt, ItemChars;
    var u, rest := ItemChars(items[0]), FormatOf(items[1..]);
    InTheMiddle(before, u, rest);
    assert before + (u + rest) == before + u + rest;
  }

  lemma NothingLeft(s: string, args: Args, ap: nat)
    ensures Printed(s, |s|, args, ap) == ""
  {
  }

  /** Every format of text and directives without `*` prints its text and its arguments in order. */
  lemma FormatPrints(items: seq<Item>, args: Args)
    requires forall k | 0 <= k < |items| :: IsItem(items[k])
    ensures Printed(FormatOf(items), 0, args, 0) == Expected(items, args, 0)
  {
    hide Printed, Expected, FormatOf, IsItem;
    ItemsPrint("", items, args, 0);
    assert "" + FormatOf(items) == FormatOf(items);
  }

  lemma AloneHasAt(x: Form)
    ensures HasAt(Render(x), 0, Render(x))
  {
    assert Render(x)[0..|Render(x)|] == Render(x);
  }

  /** A format that is one directive. */
  lemma AlonePrints(x: Form, args: Args)
    requires IsWritten(x) && !HasStar(x)
    ensures Printed(Render(x), 0, args, 0) == Shown(x, args(0))
  {
    hide Render, Printed, Shown, HasAt;
    AloneHasAt(x);
    RenderedPrints(Render(x), 0, x, args, 0);
    NothingLeft(Render(x), args, 1);
  }

  // ------------------------------------------------------------- other directives

  /** A conversion character right behind the `%`, which is not one of a number, character or string. */
  lemma OneCharacter(s: string, i: nat, args: Args, ap: nat)
    requires i + 1 < |s| && s[i] == '%' && s[i+1] != '\0'
    requires !IsFlag(s[i+1]) && !IsDigit(s[i+1]) && s[i+1] !in "diuoxXpbcs*.hlL"
    ensures Printed(s, i, args, ap) == (if s[i+1] == '%' then "%" else if s[i+1] == 'n' then "" else ['%', s[i+1]])
                                       + Printed(s, i + 2, args, if s[i+1] == 'n' then ap + 1 else ap)
  {
    hide Printed, Read, DirectiveText, TakesArg;
    PlainRead(s, i + 1, args, ap);
    OneDirective(s, i, s[i+1], args, ap);
    OtherText(s[i+1], Directive(i + 1, ap, NO_FLAGS, -1, -1), args(ap));
  }

  lemma OtherText(c: char, d: Directive, arg: Arg)
    requires c !in "diuoxXpbcs" && c != '\0'
    ensures DirectiveText(c, d, arg) == if c == '%' then "%" else if c == 'n' then "" else ['%', c]
    ensures TakesArg(c) <==> c == 'n'
  {
    hide NumberText, CharText, StringText;
  }

  lemma PlainRead(s: string, i: nat, args: Args, ap: nat)
    requires i < |s| && !IsFlag(s[i]) && !IsDigit(s[i]) && s[i] !in "*.hlL"
    ensures Read(s, i, args, ap) == Directive(i, ap, NO_FLAGS, -1, -1)
  {
  }

  /** A `%` that ends the format prints itself. */
  lemma PlainEnd(s: string, args: Args, ap: nat)
    requires s != "" && s[|s|-1] == '%'
    ensures Printed(s, |s| - 1, args, ap) == "%"
  {
    assert Read(s, |s|, args, ap) == Directive(|s|, ap, NO_FLAGS, -1, -1);
  }

  // ------------------------------------------------------------------ a directive with `*`

  /** Reading `*` for a width takes an argument and stays at the `*`. */
  lemma StarWidthRead(s: string, i: nat, j: nat, args: Args)
    requires i <= j < |s| && FlagsEnd(s, i) == j && s[j] == '*'
    ensures Read(s, i, args, 0).next == j && Read(s, i, args, 0).ap == 1
  {
    hide FlagsEnd, FlagsFrom, NumberEnd;
  }

  /** So does reading `.*` for a precision. */
  lemma StarPrecisionRead(s: string, i: nat, j: nat, k: nat, args: Args)
    requires i <= j <= k && k + 1 < |s| && FlagsEnd(s, i) == j && s[k] == '.' && s[k+1] == '*'
    requires forall f: Flags :: ReadWidth(s, j, args, 0, f).next == k && ReadWidth(s, j, args, 0, f).ap == 0
    ensures Read(s, i, args, 0).next == k + 1 && Read(s, i, args, 0).ap == 1
  {
    hide FlagsEnd, FlagsFrom, NumberEnd, ReadWidth;
  }

  /** The directive ends at the `*`, and the format goes on behind it. */
  lemma StarEnds(s: string, i: nat, args: Args)
    requires 1 <= i < |s| && s[0] == '%' && s[i] == '*'
    requires Read(s, 1, args, 0).next == i && Read(s, 1, args, 0).ap == 1
    ensures Printed(s, 0, args, 0) == "%*" + Printed(s, i + 1, args, 1)
  {
    hide Read, DirectiveText;
    StarText(Read(s, 1, args, 0), args(1));
  }

  lemma StarText(d: Directive, arg: Arg)
    ensures DirectiveText('*', d, arg) == "%*" && !TakesArg('*')
  {
    hide NumberText;
  }

  /** Behind flags, `*` as a width takes an argument and then ends the directive. */
  lemma StarWidthPrints(t: string, rest: string, args: Args)
    requires forall k | 0 <= k < |t| :: IsFlag(t[k])
    ensures var s := "%" + t + "*" + rest;
            Printed(s, 0, args, 0) == "%*" + Printed(s, |t| + 2, args, 1)
  {
    hide FlagsEnd, FlagsFrom, Printed, Read, FlagsOf;
    var s := "%" + t + "*" + rest;
    StarParts("%", t, "*", rest);
    FlagsRead(s, 1, t);
    StarWidthRead(s, 1, 1 + |t|, args);
    StarEnds(s, 1 + |t|, args);
  }

  /** `u` behind `t` behind `a` is where it is expected. */
  lemma StarParts(a: string, t: string, u: string, b: string)
    requires |a| > 0 && u != ""
    ensures var s := a + t + u + b;
            && s[0] == a[0] && HasAt(s, |a|, t) && HasAt(s, |a| + |t|, u)
            && At(s, |a| + |t|) == u[0] && s[|a| + |t|] == u[0]
  {
    InTheMiddle(a, t, u + b);
    assert a + t + u + b == a + t + (u + b);
    InTheMiddle(a + t, u, b);
    HasChars(a + t + u + b, |a| + |t|, u, 0);
  }

  /** So does `.*` as a precision behind flags and a width in digits. */
  lemma StarPrecisionPrints(t: string, w: Count, rest: string, args: Args)
    requires forall k | 0 <= k < |t| :: IsFlag(t[k])
    requires IsWidth(w) && !w.Star?
    ensures var s := "%" + t + WidthChars(w) + ".*" + rest;
            Printed(s, 0, args, 0) == "%*" + Printed(s, |t| + |WidthChars(w)| + 3, args, 1)
  {
    hide FlagsEnd, FlagsFrom, Printed, Read, FlagsOf, ReadWidth, CountOf, WidthChars, HasAt, IsFlag, IsDigit;
    var u, j := WidthChars(w), 1 + |t|;
    var s, k := "%" + t + u + ".*" + rest, j + |u|;
    PointParts(t, u, rest);
    AfterFlags(w);
    FlagsRead(s, 1, t);
    forall f: Flags ensures ReadWidth(s, j, args, 0, f).next == k && ReadWidth(s, j, args, 0, f).ap == 0 {
      WidthRead(s, j, w, args, 0, f);
    }
    StarPrecisionRead(s, 1, j, k, args);
    StarEnds(s, k + 1, args);
  }

  lemma PointParts(t: string, u: string, rest: string)
    ensures var s, j := "%" + t + u + ".*" + rest, 1 + |t|;
            var k := j + |u|;
            && |s| == k + 2 + |rest| && s[0] == '%' && HasAt(s, 1, t) && HasAt(s, j, u)
            && At(s, j) == (u + ".*")[0] && At(s, k) == s[k] == '.' && s[k+1] == '*'
  {
    hide HasAt;
    var s, k := "%" + t + u + ".*" + rest, 1 + |t| + |u|;
    StarParts("%" + t, u, ".*", rest);
    HasChars(s, k, ".*", 1);
    StarParts("%", t, u + ".*", rest);
    assert s == "%" + t + (u + ".*") + rest;
  }

  lemma AfterFlags(w: Count)
    requires IsWidth(w) && !w.Star?
    ensures !IsFlag((WidthChars(w) + ".*")[0]) && !IsDigit('.')
  {
  }

  /** A number is never printed with a `%`. */
  lemma NumberHasNoPercent(num: Words.word, base: int, size: int, precision: int, f: Flags)
    requires IsBase(base)
    ensures NumberText(num, base, size, precision, f) != "" && NumberText(num, base, size, precision, f)[0] != '%'
  {
    hide Numeral, Repeat;
    var digits := Numeral(Magnitude(num, f), base, f.small);
    NumeralNoPercent(Magnitude(num, f), base, f.small);
    var pad := size - |Body(num, base, precision, f, "")|;
    NoPercent(' ', pad);
    NoPercent('0', pad);
    NoPercent('0', precision - |digits|);
    if f.left {
      FirstOf(SignText(num, f), PrefixText(base, f), "", Repeat('0', precision - |digits|), digits);
    } else if f.zeropad {
      FirstOf(SignText(num, f), PrefixText(base, f), Repeat('0', pad), Repeat('0', precision - |digits|), digits);
    } else {
      FirstOf(SignText(num, f), PrefixText(base, f), "", Repeat('0', precision - |digits|), digits);
    }
  }

  predicate Plain(t: string) {
    t != "" ==> t[0] != '%'
  }

  lemma NoPercent(c: char, n: int)
    requires c != '%'
    ensures Plain(Repeat(c, n))
  {
  }

  lemma NumeralNoPercent(u: nat, base: nat, small: bool)
    requires IsBase(base)
    ensures Numeral(u, base, small) != "" && Plain(Numeral(u, base, small))
  {
    NumeralDenotes(u, base, small);
    assert 0 <= DigitValue(Numeral(u, base, small)[0]);
  }

  lemma FirstOf(a: string, b: string, c: string, d: string, e: string)
    requires Plain(a) && Plain(b) && Plain(c) && Plain(d) && Plain(e) && e != ""
    ensures a + b + c + d + e != "" && Plain(a + b + c + d + e)
  {
  }

  /** A directive with `*` prints something that starts with the directive's own `%*`. */
  lemma StarPrintsItself(x: Form, args: Args)
    requires IsForm(x) && (x.width.Star? || x.precision.Star?)
    ensures |Printed(Render(x), 0, args, 0)| >= 2 && Printed(Render(x), 0, args, 0)[..2] == "%*"
  {
    hide Printed;
    var tail := x.qualifier + [x.conv];
    if x.width.Star? {
      var rest := PrecisionChars(x.precision) + tail;
      assert Render(x) == "%" + x.flags + "*" + rest;
      StarWidthPrints(x.flags, rest, args);
    } else {
      assert Render(x) == "%" + x.flags + WidthChars(x.width) + ".*" + tail;
      StarPrecisionPrints(x.flags, x.width, tail, args);
    }
  }

  /**
   A written directive prints its argument as it was written, and indeed any number at all, if and
   only if neither its width nor its precision is `*`.
   */
  lemma PrintsItsArgumentIff(x: Form, args: Args)
    requires IsForm(x)
    ensures (exists num: Words.word, size: int, precision: int, f: Flags ::
               Printed(Render(x), 0, args, 0) == NumberText(num, BaseOf(x.conv), size, precision, f))
       <==> !x.width.Star? && !x.precision.Star?
    ensures !x.width.Star? && !x.precision.Star? ==> Printed(Render(x), 0, args, 0) == Shown(x, args(0))
  {
    hide Printed, Render, NumberText;
    if x.width.Star? || x.precision.Star? {
      StarPrintsItself(x, args);
      var t := Printed(Render(x), 0, args, 0);
      assert t[..2][0] == t[0];
      forall num: Words.word, size: int, precision: int, f: Flags
        ensures t != NumberText(num, BaseOf(x.conv), size, precision, f)
      {
        NumberHasNoPercent(num, BaseOf(x.conv), size, precision, f);
      }
    } else {
      AlonePrints(x, args);
      ShownIsNumber(x, args(0));
    }
  }

  lemma ShownIsNumber(x: Form, arg: Arg)
    requires IsForm(x)
    ensures exists size: int, precision: int, f: Flags ::
              Shown(x, arg) == NumberText(arg.num, BaseOf(x.conv), size, precision, f)
  {
    hide NumberText;
    var d := Adjusted(x.conv, Directive(0, 0, FlagsOf(x.flags), CountOf(x.width), CountOf(x.precision)));
    assert Shown(x, arg) == NumberText(arg.num, BaseOf(x.conv), d.width, d.precision, d.flags);
  }

  /** The shortest case: `%*d` prints `%*d`. */
  lemma StarPrintsStar(args: Args)
    ensures Printed("%*d", 0, args, 0) == "%*d"
  {
    var s := "%*d";
    assert s == "%" + "" + "*" + "d";
    StarWidthPrints("", "d", args);
    assert Printed(s, 3, args, 1) == "";
    assert Printed(s, 2, args, 1) == "d";
  }
}
