/**
 Printing against parsing: exactly when `strtol` reads back what the number conversions of
 `vprintfmt` print.
 */
module RoundTrip {
  import opened Types
  import opened CStrings
  import opened Format
  import opened Strtol
  import Printfmt

  // ----- Digits -----

  /** Text that is a run of digits of the base. */
  predicate AllDigits(t: string, base: int) {
    forall k :: 0 <= k < |t| ==> IsDigitIn(t[k], base)
  }

  lemma DigitReads(d: int)
    requires 0 <= d < 16
    ensures DigitValue(Digit(d)) == d && Digit(d) != 'x'
  {
  }

  /** The printed digits are digits of the base, and worth the number. */
  lemma {:induction false} DigitsRead(num: nat, base: nat)
    requires 2 <= base <= 16
    ensures AllDigits(Digits(num, base), base) && Value(Digits(num, base), base) == num
  {
    hide Digit;
    hide DigitValue;
    hide Digits;
    DigitsStep(num, base);
    DigitReads(num % base);
    var t, last := Digits(num, base), [Digit(num % base)];
    if num < base {
      assert t[..0] == "";
    } else {
      QuotientFalls(num, base);
      DigitsRead(num / base, base);
      var front := Digits(num / base, base);
      assert t[..|t| - 1] == front;
    }
  }

  /** Leading zeros are worth nothing. */
  lemma {:induction false} LeadingZeros(m: int, t: string, base: int)
    requires base >= 2 && AllDigits(t, base)
    ensures AllDigits(Repeat('0', m) + t, base) && Value(Repeat('0', m) + t, base) == Value(t, base)
    decreases |t| + Max(m, 0)
  {
    hide DigitValue;
    var z := Repeat('0', m) + t;
    assert DigitValue('0') == 0 by { DigitReads(0); }
    if t != "" {
      LeadingZeros(m, t[..|t| - 1], base);
      assert z[..|z| - 1] == Repeat('0', m) + t[..|t| - 1];
    } else if m > 0 {
      LeadingZeros(m - 1, "", base);
      assert z[..|z| - 1] == Repeat('0', m - 1) + "";
    } else {
      assert z == "";
    }
  }

  /** The representation is minimal: only zero starts with a zero. */
  lemma {:induction false} DigitsMinimal(num: nat, base: nat)
    requires 2 <= base <= 16
    ensures Digits(num, base)[0] == '0' <==> num == 0
    ensures num == 0 ==> Digits(num, base) == "0"
  {
    hide Digits;
    hide Digit;
    DigitsStep(num, base);
    DigitReads(num % base);
    DigitReads(0);
    if num >= base {
      QuotientFalls(num, base);
      DigitsMinimal(num / base, base);
    }
  }

  // ----- Reading a text back -----

  lemma {:induction false} RunAll(t: string, i: nat, base: int)
    requires i <= |t| && AllDigits(t[i..], base)
    ensures RunEnd(t, i, base) == |t|
    decreases |t| - i
  {
    hide DigitValue;
    if i < |t| {
      assert t[i] == t[i..][0] && t[i + 1..] == t[i..][1..];
      RunAll(t, i + 1, base);
    }
  }

  /** `j` is where the digits of `t` should start. */
  predicate Starts(t: string, j: nat, neg: bool) {
    SignOf(t, SkipBlanks(t, 0)) == (j, neg)
  }

  lemma ReadsAll(t: string, base: int, j: nat, neg: bool)
    requires 2 <= base <= 16 && Starts(t, j, neg) && j < |t| && AllDigits(t[j..], base)
    ensures Parsed(t, base) == (if neg then -Value(t[j..], base) else Value(t[j..], base), |t|)
  {
    hide RunEnd;
    hide Value;
    hide SignOf;
    hide SkipBlanks;
    RunAll(t, j, base);
    assert base == 16 && j + 1 < |t| ==> IsDigitIn(t[j..][1], 16);
    assert t[j..|t|] == t[j..];
  }

  lemma StopsAt(t: string, base: int, j: nat, neg: bool)
    requires 2 <= base <= 16 && Starts(t, j, neg) && j < |t| && DigitValue(t[j]) < 0
    ensures Parsed(t, base) == (0, j)
  {
    hide SignOf;
    hide SkipBlanks;
    assert RunEnd(t, j, base) == j && t[j..j] == "";
  }

  /** Blanks are skipped up to the first digit or minus sign. */
  lemma {:induction false} SkipsTo(t: string, i: nat, m: nat)
    requires i <= m < |t| && t[m] != ' ' && t[m] != '\t' && forall k :: i <= k < m ==> t[k] == ' '
    ensures SkipBlanks(t, i) == m
    decreases m - i
  {
    if i < m {
      SkipsTo(t, i + 1, m);
    }
  }

  // ----- Every text: blanks up to `i`, a sign up to `k`, a prefix up to `j`, digits up to `e` -----

  predicate HasBlanks(t: string, i: nat) {
    i <= |t| && forall x :: 0 <= x < i ==> t[x] == ' ' || t[x] == '\t'
  }

  predicate HasSign(t: string, i: nat, k: nat) {
    k <= |t| && (k == i || (k == i + 1 && (t[i] == '+' || t[i] == '-')))
  }

  /** The base that is chosen: the given one, or with the base left open 16 behind "0x", 8 behind "0", and else 10. */
  predicate HasPrefix(t: string, k: nat, j: nat, base0: int, base: int) {
    && j <= |t|
    && (|| (base0 == 0 && base == 10 && j == k && j < |t| && t[j] != '0')
        || (base0 == 0 && base == 8 && j == k + 1 && t[k] == '0' && (j < |t| ==> t[j] != 'x'))
        || ((base0 == 0 || base0 == 16) && base == 16 && j == k + 2 && t[k] == '0' && t[k + 1] == 'x')
        || (base0 == base && j == k && !(base == 16 && k + 1 < |t| && t[k] == '0' && t[k + 1] == 'x')))
  }

  predicate HasDigits(t: string, j: nat, e: nat, base: int) {
    j <= e <= |t| && (forall x :: j <= x < e ==> IsDigitIn(t[x], base)) && (e < |t| ==> !IsDigitIn(t[e], base))
  }

  lemma {:induction false} SkipsBlanks(t: string, x: nat, i: nat)
    requires x <= i && HasBlanks(t, i) && (i < |t| ==> t[i] != ' ' && t[i] != '\t')
    ensures SkipBlanks(t, x) == i
    decreases i - x
  {
    if x < i {
      SkipsBlanks(t, x + 1, i);
    }
  }

  lemma {:induction false} RunStops(t: string, x: nat, e: nat, base: int)
    requires HasDigits(t, x, e, base)
    ensures RunEnd(t, x, base) == e
    decreases e - x
  {
    hide DigitValue;
    if x < e {
      RunStops(t, x + 1, e, base);
    }
  }

  lemma DigitIsNoSign(ch: char, base: int)
    requires IsDigitIn(ch, base)
    ensures ch != ' ' && ch != '\t' && ch != '+' && ch != '-'
  {
  }

  lemma PrefixRead(t: string, k: nat, j: nat, base0: int, base: int)
    requires HasPrefix(t, k, j, base0, base) && 2 <= base
    ensures PrefixOf(t, k, base0) == (j, base)
  {
  }

  lemma SignRead(t: string, i: nat, k: nat)
    requires HasSign(t, i, k) && (k == i && i < |t| ==> t[i] != '+' && t[i] != '-')
    ensures SignOf(t, i) == (k, k > i && t[i] == '-')
  {
  }

  /** The value of every text, and where it ends: the digits' worth, negated behind a minus sign. */
  lemma TextParsed(t: string, i: nat, k: nat, j: nat, e: nat, base0: int, base: int)
    requires HasBlanks(t, i) && HasSign(t, i, k) && HasPrefix(t, k, j, base0, base) && HasDigits(t, j, e, base)
    requires 2 <= base <= 36 && i < e
    ensures Parsed(t, base0) == (if k > i && t[i] == '-' then 0 - Value(t[j..e], base) else Value(t[j..e], base), e)
  {
    if k == i && j == k {
      DigitIsNoSign(t[i], base);
    }
    SkipsBlanks(t, 0, i);
    SignRead(t, i, k);
    PrefixRead(t, k, j, base0, base);
    RunStops(t, j, e, base);
    hide SkipBlanks;
    hide SignOf;
    hide PrefixOf;
    hide RunEnd;
    hide Value;
    hide HasDigits;
    hide HasPrefix;
  }

  /** In base 10 the digits are worth the number they write. */
  lemma {:induction false} ValueIsDecimal(ds: string)
    requires forall k :: 0 <= k < |ds| ==> IsDigit(ds[k])
    ensures AllDigits(ds, 10) && Value(ds, 10) == Decimal(ds)
    decreases |ds|
  {
    if ds != "" {
      ValueIsDecimal(ds[..|ds| - 1]);
      assert IsDigit(ds[|ds| - 1]);
      assert forall k :: 0 <= k < |ds| - 1 ==> ds[..|ds| - 1][k] == ds[k];
    }
  }

  /** With the base left open, a text of decimal digits from `k` on is the decimal number, whatever its sign. */
  lemma DecimalParsed(t: string, k: nat)
    requires HasSign(t, 0, k) && k < |t| && t[k] != '0' && forall x :: k <= x < |t| ==> IsDigit(t[x])
    ensures forall x :: 0 <= x < |t[k..]| ==> IsDigit(t[k..][x])
    ensures Parsed(t, 0) == (if t[0] == '-' then 0 - Decimal(t[k..]) else Decimal(t[k..]), |t|)
  {
    hide Parsed;
    hide Value;
    ValueIsDecimal(t[k..]);
    TextParsed(t, 0, k, k, |t|, 0, 10);
    assert t[k..|t|] == t[k..];
  }

  /** A letter is worth ten and its place in the alphabet, as a capital and as a small letter. */
  lemma LetterDigits(k: nat)
    requires k < 26
    ensures DigitValue(('a' as int + k) as char) == 10 + k == DigitValue(('A' as int + k) as char)
  {
  }

  /** A number as the conversions print it: sign, then padding, then digits. */
  function Printed(neg: bool, mag: nat, base: nat, width: int, padc: char): string
    requires 2 <= base <= 16
  {
    (if neg then "-" else "") + NumberText(mag, base, width, padc)
  }

  function Signed(neg: bool, mag: nat): int {
    if neg then 0 - mag else mag
  }

  predicate IsPad(padc: char) {
    padc == ' ' || padc == '0' || padc == '-'
  }

  /** The padded texts that parse back: no padding, zeros, blanks before an unsigned number, and "-0". */
  predicate Readable(neg: bool, mag: nat, width: int, padc: char, digits: nat) {
    Clean(neg, width, padc, digits) || (padc == '-' && !neg && mag == 0 && width == digits + 1)
  }

  predicate Clean(neg: bool, width: int, padc: char, digits: nat) {
    width <= digits || padc == '0' || (padc == ' ' && !neg)
  }

  /** The numbers that fit the `long` of `strtol` on both sides of its final negation. */
  predicate FitsLong(v: int) {
    -0x8000_0000 < v < 0x8000_0000
  }

  /** The first character of the digits is neither a blank nor a sign. */
  lemma DigitIsPlain(ch: char, base: int)
    requires IsDigitIn(ch, base)
    ensures ch != ' ' && ch != '\t' && ch != '+' && ch != '-'
  {
  }

  lemma UnpaddedReads(neg: bool, ds: string, base: int)
    requires 2 <= base <= 16 && ds != "" && AllDigits(ds, base)
    ensures var t := (if neg then "-" else "") + ds;
      Parsed(t, base) == (if neg then -Value(ds, base) else Value(ds, base), |t|)
  {
    hide DigitValue;
    hide Value;
    hide Parsed;
    var t := (if neg then "-" else "") + ds;
    var j := if neg then 1 else 0;
    DigitIsPlain(ds[0], base);
    assert t[j..] == ds;
    assert Starts(t, j, neg);
    ReadsAll(t, base, j, neg);
  }

  lemma BlankPaddedReads(m: nat, ds: string, base: int)
    requires 2 <= base <= 16 && ds != "" && AllDigits(ds, base)
    ensures Parsed(Repeat(' ', m) + ds, base) == (Value(ds, base), m + |ds|)
  {
    hide DigitValue;
    hide Value;
    hide Parsed;
    var t := Repeat(' ', m) + ds;
    DigitIsPlain(ds[0], base);
    SkipsTo(t, 0, m);
    assert t[m..] == ds;
    ReadsAll(t, base, m, false);
  }

  /** Padding that is not a digit stops the parse before the digits, except for one dash taken as a sign. */
  lemma OddPaddingStops(neg: bool, m: nat, ds: string, padc: char, base: int)
    requires 2 <= base <= 16 && m > 0 && (padc == '-' || (padc == ' ' && neg))
    requires !neg && m == 1 ==> ds != "" && AllDigits(ds, base)
    ensures var t := (if neg then "-" else "") + Repeat(padc, m) + ds;
      Parsed(t, base) == if neg || m > 1 then (0, 1) else (-Value(ds, base), 1 + |ds|)
  {
    hide Value;
    hide Parsed;
    var t := (if neg then "-" else "") + Repeat(padc, m) + ds;
    if neg || m > 1 {
      StopsAt(t, base, 1, true);
    } else {
      assert t[1..] == ds;
      ReadsAll(t, base, 1, true);
    }
  }

  /** What is read of any printed number: the number, its negation behind one dash, or nothing but a sign or a blank. */
  lemma PrintedParsed(neg: bool, mag: nat, base: nat, width: int, padc: char)
    requires 2 <= base <= 16 && IsPad(padc)
    ensures var t, digits := Printed(neg, mag, base, width, padc), |Digits(mag, base)|;
      Parsed(t, base) ==
      if Clean(neg, width, padc, digits) then (Signed(neg, mag), |t|)
      else if !neg && width == digits + 1 then (0 - mag, |t|)
      else (0, 1)
  {
    hide Digits;
    hide Parsed;
    hide Value;
    hide DigitValue;
    var ds := Digits(mag, base);
    DigitsRead(mag, base);
    var t := Printed(neg, mag, base, width, padc);
    var m := width - |ds|;
    var sign := if neg then "-" else "";
    if m <= 0 {
      assert Repeat(padc, m) + ds == ds;
      UnpaddedReads(neg, ds, base);
    } else if padc == '0' {
      LeadingZeros(m, ds, base);
      UnpaddedReads(neg, Repeat('0', m) + ds, base);
    } else if padc == ' ' && !neg {
      assert t == Repeat(' ', m) + ds;
      BlankPaddedReads(m, ds, base);
    } else {
      assert t == sign + Repeat(padc, m) + ds;
      OddPaddingStops(neg, m, ds, padc, base);
    }
  }

  /** Exactly when a printed number is read back in full: when its padding is readable and it fits a `long`. */
  lemma RoundTripIff(neg: bool, mag: nat, base: nat, width: int, padc: char)
    requires 2 <= base <= 16 && IsPad(padc) && (neg ==> mag > 0)
    ensures var t := Printed(neg, mag, base, width, padc);
      Reading(t, base) == Read(Signed(neg, mag), |t|)
      <==> FitsLong(Signed(neg, mag)) && Readable(neg, mag, width, padc, |Digits(mag, base)|)
    ensures FitsLong(Signed(neg, mag)) ==> Reading(Printed(neg, mag, base, width, padc), base) != Overflow
    ensures !FitsLong(Signed(neg, mag)) && Clean(neg, width, padc, |Digits(mag, base)|) ==>
              Reading(Printed(neg, mag, base, width, padc), base) == Overflow
  {
    hide Digits;
    hide Parsed;
    PrintedParsed(neg, mag, base, width, padc);
  }

  /** What is read of a pointer, in base 16 or with the base left open: all of it, or nothing behind "0x". */
  lemma PointerParsed(mag: nat, width: int, padc: char, base: int)
    requires IsPad(padc) && (base == 0 || base == 16)
    ensures var t := "0x" + NumberText(mag, 16, width, padc);
      Parsed(t, base) == if width <= |Digits(mag, 16)| || padc == '0' then (mag, |t|) else (0, 2)
  {
    hide Digits;
    hide Value;
    hide DigitValue;
    var ds := Digits(mag, 16);
    DigitsRead(mag, 16);
    var m := width - |ds|;
    var t := "0x" + NumberText(mag, 16, width, padc);
    assert t[2..] == Repeat(padc, m) + ds;
    assert SkipBlanks(t, 0) == 0 && HeadOf(t, base) == Head(2, false, 16);
    if m <= 0 || padc == '0' {
      LeadingZeros(m, ds, 16);
      assert m <= 0 ==> Repeat(padc, m) + ds == ds;
      RunAll(t, 2, 16);
      assert t[2..|t|] == t[2..];
    } else {
      assert t[2] == padc;
      assert DigitValue(padc) < 0 by { PadIsNoDigit(padc); }
      EmptyRun(16);
      assert t[2..2] == "";
    }
  }

  /** A pointer is read back unless blanks or dashes follow its "0x", or it is 0x80000000 or more. */
  lemma PointerRoundTripIff(mag: nat, width: int, padc: char, base: int)
    requires IsPad(padc) && (base == 0 || base == 16)
    ensures var t := "0x" + NumberText(mag, 16, width, padc);
      Reading(t, base) == Read(mag, |t|) <==> mag < 0x8000_0000 && (width <= |Digits(mag, 16)| || padc == '0')
    ensures mag < 0x8000_0000 ==> Reading("0x" + NumberText(mag, 16, width, padc), base) != Overflow
  {
    hide Digits;
    hide Parsed;
    PointerParsed(mag, width, padc, base);
  }

  /** The kernel's own load address, printed with `%p`, is too large for `strtol`. */
  lemma KernelAddressOverflows()
    ensures Reading("0x" + NumberText(0xF010_0000, 16, -1, ' '), 0) == Overflow
  {
    hide NumberText;
    hide Digits;
    PointerParsed(0xF010_0000, -1, ' ', 0);
  }

  lemma PadIsNoDigit(padc: char)
    requires padc == ' ' || padc == '-'
    ensures DigitValue(padc) == -1
  {
  }

  // ----- Whole formats that are one number conversion -----

  /** The format is one escape and nothing else. */
  predicate IsLone(t: string, conv: char) {
    t != "" && t[0] == '%' && Lex(t, 1).conv == |t| - 1 && t[|t| - 1] == conv
  }

  /** The fields its modifiers set. */
  function LoneFields(t: string, args: nat -> uint32): Fields
    requires t != ""
  {
    ApplyAll(Start(0), Lex(t, 1).mods, args)
  }

  lemma {:induction false} PadStaysPad(s: Fields, mods: seq<Modifier>, args: nat -> uint32)
    requires IsPad(s.padc)
    ensures IsPad(ApplyAll(s, mods, args).padc)
    decreases |mods|
  {
    if mods != [] {
      PadStaysPad(Apply(s, mods[0], args), mods[1..], args);
    }
  }

  lemma LoneFormat(t: string, conv: char, args: nat -> uint32, strs: uint32 -> CText)
    requires IsLone(t, conv) && IsConversion(conv)
    ensures FormatFrom(t, 0, args, strs, 0) == Convert(conv, LoneFields(t, args), args, strs).0
    ensures conv != 'e' ==> FormatDefined(t, 0, args, strs, 0)
    ensures IsPad(LoneFields(t, args).padc)
  {
    hide FormatFrom;
    hide FormatDefined;
    hide Convert;
    hide Lex;
    hide ApplyAll;
    FormatStep(t, 0, args, strs, 0);
    DefinedStep(t, 0, args, strs, 0);
    var (text, next) := Convert(conv, LoneFields(t, args), args, strs);
    FormatStep(t, |t|, args, strs, next);
    DefinedStep(t, |t|, args, strs, next);
    PadStaysPad(Start(0), Lex(t, 1).mods, args);
  }

  /** The conversions that print a number. */
  predicate IsNumeric(conv: char) {
    conv == 'd' || conv == 'u' || conv == 'o' || conv == 'x' || conv == 'p'
  }

  lemma NumericIsPlain(conv: char)
    requires IsNumeric(conv)
    ensures IsConversion(conv) && conv != 'e'
  {
  }

  /** The number that a conversion prints. */
  function NumberArg(conv: char, s: Fields, args: nat -> uint32): (v: int)
    ensures conv != 'd' ==> v >= 0
  {
    if conv == 'd' then GetInt(args, s) else if conv == 'p' then args(s.ap) else GetUint(args, s)
  }

  /** The base that a conversion prints in. */
  function BaseOf(conv: char): nat {
    if conv == 'o' then 8 else if conv == 'x' || conv == 'p' then 16 else 10
  }

  /** The bases to read it in: its own, or none for the "0x" of a pointer. */
  predicate ReadIn(conv: char, base: int) {
    base == BaseOf(conv) || (conv == 'p' && base == 0)
  }

  /** When `strtol` reads back what a conversion prints: no harmful padding, and a number that fits a `long`. */
  predicate ReadsBack(conv: char, v: int, s: Fields) {
    FitsLong(v) &&
    var digits := |Digits(Abs(v), BaseOf(conv))|;
    if conv == 'p' then s.width <= digits || s.padc == '0' else Readable(v < 0, Abs(v), s.width, s.padc, digits)
  }

  /** What a lone number conversion prints. */
  lemma LoneNumber(t: string, conv: char, args: nat -> uint32, strs: uint32 -> CText)
    requires IsLone(t, conv) && IsNumeric(conv)
    ensures var s := LoneFields(t, args);
      var v := NumberArg(conv, s, args);
      && IsPad(s.padc)
      && FormatFrom(t, 0, args, strs, 0) ==
         if conv == 'p' then "0x" + NumberText(v, 16, s.width, s.padc)
         else Printed(v < 0, Abs(v), BaseOf(conv), s.width, s.padc)
  {
    hide FormatFrom;
    hide Digits;
    hide NumberText;
    hide GetInt;
    hide GetUint;
    hide Lex;
    hide ApplyAll;
    LoneFormat(t, conv, args, strs);
    var s := LoneFields(t, args);
    var v := NumberArg(conv, s, args);
    assert "" + NumberText(Abs(v), BaseOf(conv), s.width, s.padc) == NumberText(Abs(v), BaseOf(conv), s.width, s.padc);
  }

  /** Every number conversion with any flags, width and size, against `strtol` in its base. */
  lemma NumberRoundTripIff(t: string, conv: char, base: int, args: nat -> uint32, strs: uint32 -> CText)
    requires IsLone(t, conv) && IsNumeric(conv) && ReadIn(conv, base)
    ensures var s, out := LoneFields(t, args), FormatFrom(t, 0, args, strs, 0);
      var v := NumberArg(conv, s, args);
      && (Reading(out, base) == Read(v, |out|) <==> ReadsBack(conv, v, s))
      && (FitsLong(v) ==> Reading(out, base) != Overflow)
  {
    hide FormatFrom;
    hide Reading;
    hide Digits;
    hide NumberText;
    hide GetInt;
    hide GetUint;
    hide LoneFields;
    hide Lex;
    hide Printed;
    hide Readable;
    LoneNumber(t, conv, args, strs);
    var s := LoneFields(t, args);
    var v := NumberArg(conv, s, args);
    if conv == 'p' {
      PointerRoundTripIff(v, s.width, s.padc, base);
    } else {
      RoundTripIff(v < 0, Abs(v), BaseOf(conv), s.width, s.padc);
    }
  }

  /** `%d` with any flags, width and size, against `strtol` in base 10. */
  lemma SignedRoundTripIff(t: string, args: nat -> uint32, strs: uint32 -> CText)
    requires IsLone(t, 'd')
    ensures var s, out := LoneFields(t, args), FormatFrom(t, 0, args, strs, 0);
      var v := GetInt(args, s);
      Reading(out, 10) == Read(v, |out|)
      <==> -0x8000_0000 < v < 0x8000_0000 && Readable(v < 0, Abs(v), s.width, s.padc, |Digits(Abs(v), 10)|)
  {
    hide FormatFrom;
    hide Reading;
    hide Digits;
    hide GetInt;
    hide Lex;
    hide ApplyAll;
    hide Readable;
    NumberRoundTripIff(t, 'd', 10, args, strs);
  }

  /** `%u`, `%o` and `%x`, against `strtol` in their own base. */
  lemma UnsignedRoundTripIff(t: string, conv: char, args: nat -> uint32, strs: uint32 -> CText)
    requires IsLone(t, conv) && (conv == 'u' || conv == 'o' || conv == 'x')
    ensures var s, out := LoneFields(t, args), FormatFrom(t, 0, args, strs, 0);
      var base := if conv == 'u' then 10 else if conv == 'o' then 8 else 16;
      var v := GetUint(args, s);
      Reading(out, base) == Read(v, |out|)
      <==> v < 0x8000_0000 && Readable(false, v, s.width, s.padc, |Digits(v, base)|)
  {
    hide FormatFrom;
    hide Reading;
    hide Digits;
    hide GetUint;
    hide Lex;
    hide ApplyAll;
    hide Readable;
    NumberRoundTripIff(t, conv, BaseOf(conv), args, strs);
  }

  lemma DigitsHaveNoNul(mag: nat, base: nat, width: int, padc: char)
    requires 2 <= base <= 16 && IsPad(padc)
    ensures '\0' !in NumberText(mag, base, width, padc)
  {
    hide Digits;
    hide DigitValue;
    NulIsNoDigit();
    DigitsRead(mag, base);
    var ds := Digits(mag, base);
    forall k | 0 <= k < |ds| ensures ds[k] != '\0' {
      assert IsDigitIn(ds[k], base);
    }
  }

  lemma NumberHasNoNul(t: string, conv: char, args: nat -> uint32, strs: uint32 -> CText)
    requires IsLone(t, conv) && IsNumeric(conv)
    ensures '\0' !in FormatFrom(t, 0, args, strs, 0)
  {
    hide FormatFrom;
    hide NumberText;
    hide Digits;
    hide GetInt;
    hide GetUint;
    hide LoneFields;
    hide Lex;
    LoneNumber(t, conv, args, strs);
    var s := LoneFields(t, args);
    DigitsHaveNoNul(Abs(NumberArg(conv, s, args)), BaseOf(conv), s.width, s.padc);
  }

  /** What `vsnprintf` leaves in a buffer with room for all of `out`, read as a C string. */
  lemma BufferText(out: string, n: nat, before: string, buf: string)
    requires |out| < n <= |before| && '\0' !in out
    requires var k := Min(|out|, n - 1); buf == out[..k] + "\0" + before[k + 1..]
    ensures Terminated(buf, 0) && Text(buf, 0) == out
  {
    assert out[..Min(|out|, n - 1)] == out;
    assert buf[|out|] == '\0';
    assert forall k :: 0 <= k < |out| ==> buf[k] == out[k];
  }

  /** A buffer with room for a printed number, as `vsnprintf` leaves it, holds what `strtol` reads back. */
  lemma BufferRoundTripIff(t: string, conv: char, base: int, args: nat -> uint32, strs: uint32 -> CText, n: nat,
                           before: string, buf: string)
    requires IsLone(t, conv) && IsNumeric(conv) && ReadIn(conv, base)
    requires |FormatFrom(t, 0, args, strs, 0)| < n <= |before|
    requires var out := FormatFrom(t, 0, args, strs, 0);
      var k := Min(|out|, n - 1);
      buf == out[..k] + "\0" + before[k + 1..]
    ensures var s, out := LoneFields(t, args), FormatFrom(t, 0, args, strs, 0);
      var v := NumberArg(conv, s, args);
      && Terminated(buf, 0)
      && (Reading(Text(buf, 0), base) == Read(v, |out|) <==> ReadsBack(conv, v, s))
      && (FitsLong(v) ==> Reading(Text(buf, 0), base) != Overflow)
  {
    hide FormatFrom;
    hide Reading;
    hide NumberArg;
    hide ReadsBack;
    hide LoneFields;
    hide IsLone;
    hide Text;
    NumberHasNoNul(t, conv, args, strs);
    BufferText(FormatFrom(t, 0, args, strs, 0), n, before, buf);
    NumberRoundTripIff(t, conv, base, args, strs);
  }

  /** `vsnprintf` with one number conversion, then `strtol` on the buffer that it filled. */
  method PrintAndRead(buf: array<char>, n: int, fmt: string, conv: char, base: int, args: nat -> uint32,
                      strs: uint32 -> CText)
    returns (rc: int, val: int32, end: nat)
    requires Terminated(fmt, 0) && IsLone(Text(fmt, 0), conv) && IsNumeric(conv) && ReadIn(conv, base)
    requires |FormatFrom(Text(fmt, 0), 0, args, strs, 0)| < n <= buf.Length
    requires FitsLong(NumberArg(conv, LoneFields(Text(fmt, 0), args), args))
    modifies buf
    ensures var s := LoneFields(Text(fmt, 0), args);
      var v := NumberArg(conv, s, args);
      (val, end) == (v, rc) <==> ReadsBack(conv, v, s)
  {
    hide FormatFrom;
    hide FormatDefined;
    hide Reading;
    hide NumberArg;
    hide ReadsBack;
    hide LoneFields;
    hide IsLone;
    hide IsNumeric;
    hide ReadIn;
    hide Text;
    hide FitsLong;
    NumericIsPlain(conv);
    ghost var t, before := Text(fmt, 0), buf[..];
    LoneFormat(t, conv, args, strs);
    rc := Printfmt.Vsnprintf(buf, n, fmt, args, strs);
    BufferRoundTripIff(t, conv, base, args, strs, n, before, buf[..]);
    val, end := Strtol.Strtol(buf[..], base);
  }
}
