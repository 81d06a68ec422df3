/**
 What `vprintfmt` prints for a directive, in terms of its argument words: every conversion, with any
 flags, width, precision and size letters, wherever it is written in a format.
 */
module Output {
  import opened Types
  import opened CStrings
  import opened Format

  /** The `n` characters of the format at `i` print `text`; the rest follows, with its arguments from `next` on. */
  predicate Prints(t: string, i: nat, n: nat, args: nat -> uint32, strs: uint32 -> CText, ap: nat,
                   text: string, next: nat)
  {
    i + n <= |t| && FormatFrom(t, i, args, strs, ap) == text + FormatFrom(t, i + n, args, strs, next)
  }

  // ----- Numbers -----

  /** Pad characters up to the width, which counts the digits only, and the digits. */
  function Numeral(v: nat, base: nat, pad: char, width: int): string
    requires 2 <= base <= 16
  {
    Repeat(pad, width - |Digits(v, base)|) + Digits(v, base)
  }

  /** The two's complement reading of a word, or of two words with the low one first. */
  function SignedValue(low: uint32, high: uint32, wide: bool): int {
    if wide then
      low + 0x1_0000_0000 * high - (if high < 0x8000_0000 then 0 else 0x1_0000_0000_0000_0000)
    else
      low - (if low < 0x8000_0000 then 0 else 0x1_0000_0000)
  }

  function SignedNumeral(v: int, pad: char, width: int): string {
    if v < 0 then "-" + Numeral(0 - v, 10, pad, width) else Numeral(v, 10, pad, width)
  }

  lemma SignedConverts(s: Fields, args: nat -> uint32, strs: uint32 -> CText)
    ensures Convert('d', s, args, strs)
         == (SignedNumeral(SignedValue(args(s.ap), args(s.ap + 1), s.lflag >= 2), s.padc, s.width),
             if s.lflag >= 2 then s.ap + 2 else s.ap + 1)
  {
    hide Digits;
    hide Repeat;
    var v := SignedValue(args(s.ap), args(s.ap + 1), s.lflag >= 2);
    assert "" + Numeral(Abs(v), 10, s.padc, s.width) == Numeral(Abs(v), 10, s.padc, s.width);
  }

  /** `%d`: a minus sign for a negative number, padding, digits; two words with two size letters, else one. */
  lemma SignedPrinted(t: string, i: nat, shape: Shape, args: nat -> uint32, strs: uint32 -> CText, ap: nat)
    requires Writable(shape) && WrittenAt(t, i, DirectiveText(shape, 'd'))
    ensures var a, wide := ArgumentAt(shape, ap), shape.longs >= 2;
      Prints(t, i, |DirectiveText(shape, 'd')|, args, strs, ap,
             SignedNumeral(SignedValue(args(a), args(a + 1), wide), Pad(shape), Width(shape, args, ap)),
             if wide then a + 2 else a + 1)
  {
    hide FormatFrom;
    hide DirectiveText;
    hide Convert;
    hide Digits;
    hide Width;
    hide Precision;
    hide ArgumentAt;
    hide Pad;
    hide WrittenAt;
    hide SignedValue;
    hide SignedNumeral;
    StandardFormat(t, i, shape, 'd', args, strs, ap);
    SignedConverts(FieldsOf(shape, args, ap), args, strs);
  }

  predicate IsUnsigned(conv: char, base: nat) {
    (conv == 'u' && base == 10) || (conv == 'o' && base == 8) || (conv == 'x' && base == 16)
  }

  lemma UnsignedConverts(conv: char, base: nat, s: Fields, args: nat -> uint32, strs: uint32 -> CText)
    requires IsUnsigned(conv, base)
    ensures Convert(conv, s, args, strs)
         == (Numeral(if s.lflag >= 2 then args(s.ap) + 0x1_0000_0000 * args(s.ap + 1) else args(s.ap),
                     base, s.padc, s.width),
             if s.lflag >= 2 then s.ap + 2 else s.ap + 1)
  {
    hide Digits;
    hide Repeat;
  }

  /** `%u`, `%o` and `%x` in bases 10, 8 and 16. */
  lemma UnsignedPrinted(t: string, i: nat, shape: Shape, conv: char, base: nat, args: nat -> uint32,
                        strs: uint32 -> CText, ap: nat)
    requires IsUnsigned(conv, base) && Writable(shape) && WrittenAt(t, i, DirectiveText(shape, conv))
    ensures var a, wide := ArgumentAt(shape, ap), shape.longs >= 2;
      var v := if wide then args(a) + 0x1_0000_0000 * args(a + 1) else args(a);
      Prints(t, i, |DirectiveText(shape, conv)|, args, strs, ap,
             Numeral(v, base, Pad(shape), Width(shape, args, ap)), if wide then a + 2 else a + 1)
  {
    hide FormatFrom;
    hide DirectiveText;
    hide Convert;
    hide Digits;
    hide Width;
    hide Precision;
    hide ArgumentAt;
    hide Pad;
    hide WrittenAt;
    hide Numeral;
    StandardFormat(t, i, shape, conv, args, strs, ap);
    UnsignedConverts(conv, base, FieldsOf(shape, args, ap), args, strs);
  }

  lemma PointerConverts(s: Fields, args: nat -> uint32, strs: uint32 -> CText)
    ensures Convert('p', s, args, strs) == ("0x" + Numeral(args(s.ap), 16, s.padc, s.width), s.ap + 1)
  {
    hide Digits;
    hide Repeat;
  }

  /** `%p`: "0x" and the hexadecimal number of one word, size letters or not. */
  lemma PointerPrinted(t: string, i: nat, shape: Shape, args: nat -> uint32, strs: uint32 -> CText, ap: nat)
    requires Writable(shape) && WrittenAt(t, i, DirectiveText(shape, 'p'))
    ensures var a := ArgumentAt(shape, ap);
      Prints(t, i, |DirectiveText(shape, 'p')|, args, strs, ap,
             "0x" + Numeral(args(a), 16, Pad(shape), Width(shape, args, ap)), a + 1)
  {
    hide FormatFrom;
    hide DirectiveText;
    hide Convert;
    hide Digits;
    hide Width;
    hide Precision;
    hide ArgumentAt;
    hide Pad;
    hide WrittenAt;
    hide Numeral;
    StandardFormat(t, i, shape, 'p', args, strs, ap);
    PointerConverts(FieldsOf(shape, args, ap), args, strs);
  }

  // ----- Characters, texts and errors -----

  lemma CharConverts(s: Fields, args: nat -> uint32, strs: uint32 -> CText)
    ensures Convert('c', s, args, strs) == ([(args(s.ap) % 0x100) as char], s.ap + 1)
    ensures Convert('%', s, args, strs) == ("%", s.ap)
  {
  }

  /** `%c` prints the low byte of a word, and `%%` a percent sign; neither is padded. */
  lemma CharPrinted(t: string, i: nat, shape: Shape, conv: char, args: nat -> uint32, strs: uint32 -> CText, ap: nat)
    requires (conv == 'c' || conv == '%') && Writable(shape) && WrittenAt(t, i, DirectiveText(shape, conv))
    ensures var a := ArgumentAt(shape, ap);
      Prints(t, i, |DirectiveText(shape, conv)|, args, strs, ap,
             if conv == 'c' then [(args(a) % 0x100) as char] else "%", if conv == 'c' then a + 1 else a)
  {
    hide FormatFrom;
    hide DirectiveText;
    hide Convert;
    hide Digits;
    hide Width;
    hide Precision;
    hide ArgumentAt;
    hide Pad;
    hide WrittenAt;
    StandardFormat(t, i, shape, conv, args, strs, ap);
    CharConverts(FieldsOf(shape, args, ap), args, strs);
  }

  /** How many characters of a text a precision lets through. */
  function CutAt(p: string, precision: int): nat {
    if 0 <= precision < |p| then precision else |p|
  }

  /**
   `out` is the text cut at the precision, with everything unprintable masked if `masked`, and padded
   up to the width: with blanks behind it if the padding is a dash, else in front.
   */
  predicate IsStringText(out: string, p: string, pad: char, width: int, precision: int, masked: bool) {
    var n := CutAt(p, precision);
    var front := if pad == '-' then 0 else Max(width - n, 0);
    && |out| == Max(width, n)
    && (forall k :: 0 <= k < front ==> out[k] == pad)
    && (forall k :: front <= k < front + n ==> out[k] == Shown(p[k - front], masked))
    && (forall k :: front + n <= k < |out| ==> out[k] == ' ')
  }

  function Shown(ch: char, masked: bool): char {
    if masked && !(' ' <= ch <= '~') then '?' else ch
  }

  lemma BodyShown(p: string, precision: int, masked: bool)
    ensures var body := MaskAll(masked, Clip(p, precision));
      |body| == CutAt(p, precision) && forall k :: 0 <= k < |body| ==> body[k] == Shown(p[k], masked)
  {
  }

  /** The precision is an `int`, and a text with a negative one, or none, is not longer than that reads unsigned. */
  predicate InMemory(p: string, precision: int) {
    -0x8000_0000 <= precision < 0x8000_0000 && (precision < 0 ==> |p| <= 0x1_0000_0000 + precision)
  }

  lemma UnsignedPrecision(p: string, precision: int)
    requires InMemory(p, precision)
    ensures Min(|p|, ToUint32(precision)) == CutAt(p, precision)
  {
    if precision < 0 {
      assert ToUint32(precision) == 0x1_0000_0000 + precision;
    }
  }

  lemma StringIsText(p: string, s: Fields)
    requires InMemory(p, s.precision)
    ensures IsStringText(StringText(p, s), p, s.padc, s.width, s.precision, s.alt)
  {
    hide MaskAll;
    hide Clip;
    hide Shown;
    hide CutAt;
    hide ToUint32;
    hide Repeat;
    BodyShown(p, s.precision, s.alt);
    UnsignedPrecision(p, s.precision);
    var body, n := MaskAll(s.alt, Clip(p, s.precision)), CutAt(p, s.precision);
    var out := StringText(p, s);
    if s.width > 0 && s.padc != '-' {
      assert out == Repeat(s.padc, s.width - n) + body;
    } else {
      assert out == body + Repeat(' ', s.width - n);
    }
    hide StringText;
  }

  /** The text of a string argument. */
  function StringArgument(strs: uint32 -> CText, p: uint32): string {
    if p == 0 then "(null)" else Text(strs(p), 0)
  }

  lemma StringConverts(s: Fields, args: nat -> uint32, strs: uint32 -> CText) returns (text: string)
    requires InMemory(StringArgument(strs, args(s.ap)), s.precision)
    ensures Convert('s', s, args, strs) == (text, s.ap + 1)
    ensures IsStringText(text, StringArgument(strs, args(s.ap)), s.padc, s.width, s.precision, s.alt)
  {
    hide StringText;
    hide Text;
    hide IsStringText;
    text := StringText(StringArgument(strs, args(s.ap)), s);
    StringIsText(StringArgument(strs, args(s.ap)), s);
  }

  /** `%s`. */
  lemma StringPrinted(t: string, i: nat, shape: Shape, args: nat -> uint32, strs: uint32 -> CText, ap: nat)
    returns (text: string)
    requires Writable(shape) && WrittenAt(t, i, DirectiveText(shape, 's'))
    requires InMemory(StringArgument(strs, args(ArgumentAt(shape, ap))), Precision(shape, args, ap))
    ensures var a := ArgumentAt(shape, ap);
      && Prints(t, i, |DirectiveText(shape, 's')|, args, strs, ap, text, a + 1)
      && IsStringText(text, StringArgument(strs, args(a)), Pad(shape), Width(shape, args, ap),
                      Precision(shape, args, ap), Alternate in shape.flags)
  {
    hide FormatFrom;
    hide DirectiveText;
    hide Convert;
    hide Digits;
    hide Width;
    hide Precision;
    hide ArgumentAt;
    hide Pad;
    hide WrittenAt;
    hide StringArgument;
    hide IsStringText;
    StandardFormat(t, i, shape, 's', args, strs, ap);
    text := StringConverts(FieldsOf(shape, args, ap), args, strs);
  }

  /** The names of the error codes, which may be given with either sign. */
  predicate IsErrorText(text: string, code: nat) {
    && (code == 1 ==> text == "unspecified error")
    && (code == 2 ==> text == "bad environment")
    && (code == 3 ==> text == "invalid parameter")
    && (code == 4 ==> text == "out of memory")
    && (code == 5 ==> text == "out of environments")
    && (code == 6 ==> text == "segmentation fault")
    && (code == 0 || code > 6 ==> text == "error " + Digits(code, 10))
  }

  lemma ErrorTextIs(code: int32)
    requires code > -0x8000_0000
    ensures IsErrorText(ErrorText(code), if code < 0 then 0 - code else code)
  {
    hide Digits;
    var e := Abs(code);
    assert Repeat(' ', -1 - |Digits(e, 10)|) + Digits(e, 10) == Digits(e, 10);
    assert "" + Digits(e, 10) == Digits(e, 10);
  }

  lemma ErrorConverts(s: Fields, args: nat -> uint32, strs: uint32 -> CText) returns (text: string)
    requires args(s.ap) != 0x8000_0000
    ensures Convert('e', s, args, strs) == (text, s.ap + 1)
    ensures IsErrorText(text, if args(s.ap) < 0x8000_0000 then args(s.ap) else 0x1_0000_0000 - args(s.ap))
  {
    hide ErrorText;
    hide IsErrorText;
    text := ErrorText(ToInt32(args(s.ap)));
    ErrorTextIs(ToInt32(args(s.ap)));
  }

  /** `%e`: the name of the error or its number, without padding. */
  lemma ErrorPrinted(t: string, i: nat, shape: Shape, args: nat -> uint32, strs: uint32 -> CText, ap: nat)
    returns (text: string)
    requires Writable(shape) && WrittenAt(t, i, DirectiveText(shape, 'e')) && args(ArgumentAt(shape, ap)) != 0x8000_0000
    ensures var a := ArgumentAt(shape, ap);
      && Prints(t, i, |DirectiveText(shape, 'e')|, args, strs, ap, text, a + 1)
      && IsErrorText(text, if args(a) < 0x8000_0000 then args(a) else 0x1_0000_0000 - args(a))
  {
    hide FormatFrom;
    hide DirectiveText;
    hide Convert;
    hide Digits;
    hide Width;
    hide Precision;
    hide ArgumentAt;
    hide Pad;
    hide WrittenAt;
    hide IsErrorText;
    StandardFormat(t, i, shape, 'e', args, strs, ap);
    text := ErrorConverts(FieldsOf(shape, args, ap), args, strs);
  }

  // ----- Formats of the kernel -----

  lemma PlainDirective(conv: char)
    ensures DirectiveText(Shape([], Absent, Absent, 0), conv) == "%" + [conv]
  {
    assert Mods(Shape([], Absent, Absent, 0)) == [];
  }

  lemma StarDirective(conv: char)
    ensures DirectiveText(Shape([], Absent, Starred, 0), conv) == "%.*" + [conv]
  {
    var mods := Mods(Shape([], Absent, Starred, 0));
    assert mods == [Dot, Star] && mods[1..] == [Star] && mods[1..][1..] == [];
    assert ShowModifiers(mods) == "." + ShowModifiers([Star]) && ShowModifiers([Star]) == "*" + ShowModifiers([]);
  }

  lemma Unpadded(v: nat, base: nat, pad: char)
    requires 2 <= base <= 16
    ensures Numeral(v, base, pad, -1) == Digits(v, base)
  {
    assert Repeat(pad, -1 - |Digits(v, base)|) == "";
  }

  /** A word as `%d` prints it: from 0x80000000 on it stands for itself less 2^32. */
  function SignedDigits(w: uint32): string {
    if w < 0x8000_0000 then Digits(w, 10) else "-" + Digits(0x1_0000_0000 - w, 10)
  }

  lemma SignedIsDigits(low: uint32, high: uint32)
    ensures SignedNumeral(SignedValue(low, high, false), ' ', -1) == SignedDigits(low)
  {
    hide Digits;
    hide Repeat;
    var v := SignedValue(low, high, false);
    Unpadded(Abs(v), 10, ' ');
  }

  lemma PlainSigned(t: string, i: nat, args: nat -> uint32, strs: uint32 -> CText, ap: nat)
    requires i + 2 <= |t| && t[i] == '%' && t[i + 1] == 'd'
    ensures Prints(t, i, 2, args, strs, ap, SignedDigits(args(ap)), ap + 1)
  {
    hide FormatFrom;
    hide SignedNumeral;
    hide SignedValue;
    hide SignedDigits;
    PlainDirective('d');
    SignedPrinted(t, i, Shape([], Absent, Absent, 0), args, strs, ap);
    SignedIsDigits(args(ap), args(ap + 1));
  }

  lemma PlainUnsigned(t: string, i: nat, args: nat -> uint32, strs: uint32 -> CText, ap: nat)
    requires i + 2 <= |t| && t[i] == '%' && t[i + 1] == 'u'
    ensures Prints(t, i, 2, args, strs, ap, Digits(args(ap), 10), ap + 1)
  {
    hide FormatFrom;
    hide Digits;
    PlainDirective('u');
    UnsignedPrinted(t, i, Shape([], Absent, Absent, 0), 'u', 10, args, strs, ap);
    Unpadded(args(ap), 10, ' ');
  }

  lemma StringIsWhole(out: string, p: string)
    requires IsStringText(out, p, ' ', -1, -1, false)
    ensures out == p
  {
  }

  lemma PlainString(t: string, i: nat, args: nat -> uint32, strs: uint32 -> CText, ap: nat)
    requires i + 2 <= |t| && t[i] == '%' && t[i + 1] == 's'
    requires |StringArgument(strs, args(ap))| < 0x1_0000_0000
    ensures Prints(t, i, 2, args, strs, ap, StringArgument(strs, args(ap)), ap + 1)
  {
    hide FormatFrom;
    hide StringArgument;
    PlainDirective('s');
    var text := StringPrinted(t, i, Shape([], Absent, Absent, 0), args, strs, ap);
    StringIsWhole(text, StringArgument(strs, args(ap)));
  }

  lemma StringIsCut(out: string, p: string, n: nat)
    requires IsStringText(out, p, ' ', 0, n, false) && n <= |p|
    ensures out == p[..n]
  {
  }

  /** `%.*s` prints as many characters of a text as its first word says: the way a name up to its colon is printed. */
  lemma CutString(t: string, i: nat, args: nat -> uint32, strs: uint32 -> CText, ap: nat)
    requires i + 4 <= |t| && t[i..i + 4] == "%.*s"
    requires args(ap) <= |StringArgument(strs, args(ap + 1))| && args(ap) < 0x8000_0000
    ensures Prints(t, i, 4, args, strs, ap, StringArgument(strs, args(ap + 1))[..args(ap)], ap + 2)
  {
    hide FormatFrom;
    hide StringArgument;
    StarDirective('s');
    var text := StringPrinted(t, i, Shape([], Absent, Starred, 0), args, strs, ap);
    StringIsCut(text, StringArgument(strs, args(ap + 1)), args(ap));
  }

  /** `%d %d` prints its two words one after the other. */
  lemma TwoNumbers(args: nat -> uint32, strs: uint32 -> CText)
    ensures FormatFrom("%d %d", 0, args, strs, 0) == SignedDigits(args(0)) + " " + SignedDigits(args(1))
  {
    hide FormatFrom;
    hide SignedDigits;
    var t := "%d %d";
    PlainSigned(t, 0, args, strs, 0);
    FormatStep(t, 2, args, strs, 1);
    PlainSigned(t, 3, args, strs, 1);
    FormatStep(t, 5, args, strs, 2);
  }

  const FRAME_FORMAT := "%s:%u: %.*s+%d\n"

  lemma NamePrinted(args: nat -> uint32, strs: uint32 -> CText)
    requires args(2) <= |StringArgument(strs, args(3))| && args(2) < 0x8000_0000
    ensures FormatFrom(FRAME_FORMAT, 7, args, strs, 2)
         == StringArgument(strs, args(3))[..args(2)] + ("+" + (SignedDigits(args(4)) + "\n"))
  {
    hide FormatFrom;
    hide SignedDigits;
    hide StringArgument;
    hide IsConversion;
    hide Lex;
    var t := FRAME_FORMAT;
    CutString(t, 7, args, strs, 2);
    FormatStep(t, 11, args, strs, 4);
    PlainSigned(t, 12, args, strs, 4);
    FormatStep(t, 14, args, strs, 5);
    FormatStep(t, 15, args, strs, 5);
  }

  /**
   A line of the backtrace: file, line, the name up to its length, and the distance to the function's
   start, each from its own word.
   */
  lemma FramePrinted(args: nat -> uint32, strs: uint32 -> CText)
    requires |StringArgument(strs, args(0))| < 0x1_0000_0000
    requires args(2) <= |StringArgument(strs, args(3))| && args(2) < 0x8000_0000
    ensures FormatFrom(FRAME_FORMAT, 0, args, strs, 0)
         == StringArgument(strs, args(0)) + ":" + Digits(args(1), 10) + ": "
          + StringArgument(strs, args(3))[..args(2)] + "+" + SignedDigits(args(4)) + "\n"
  {
    hide FormatFrom;
    hide SignedDigits;
    hide StringArgument;
    hide Digits;
    hide IsConversion;
    hide Lex;
    var t := FRAME_FORMAT;
    PlainString(t, 0, args, strs, 0);
    FormatStep(t, 2, args, strs, 1);
    PlainUnsigned(t, 3, args, strs, 1);
    FormatStep(t, 5, args, strs, 2);
    FormatStep(t, 6, args, strs, 2);
    NamePrinted(args, strs);
  }
}
