/** lib/printfmt.c as it runs: the escape loop, the digit printer and the truncating sink. */
module Printfmt {
  import opened Types
  import opened CStrings
  import opened Format

  /** The sink of `sprintputch`: `emitted` is everything ever put, `buf` holds what fits below `ebuf`. */
  class Sprintbuf {
    const buf: array<char>
    const ebuf: nat
    var next: nat
    var cnt: nat
    ghost var emitted: string
    ghost const before: string

    ghost predicate Valid()
      reads this, buf
    {
      && ebuf < buf.Length == |before|
      && cnt == |emitted| && next == Min(cnt, ebuf)
      && buf[..next] == emitted[..next] && buf[next..] == before[next..]
    }

    constructor (buf: array<char>, n: nat)
      requires 1 <= n <= buf.Length
      ensures Valid() && this.buf == buf && ebuf == n - 1
      ensures emitted == "" && before == buf[..]
    {
      this.buf, ebuf, next, cnt := buf, n - 1, 0, 0;
      emitted, before := "", buf[..];
    }

    /** `sprintputch`: counts every character, stores while there is room. */
    method Put(ch: char)
      requires Valid()
      modifies this, buf
      ensures Valid() && emitted == old(emitted) + [ch]
    {
      cnt := cnt + 1;
      if next < ebuf {
        buf[next] := ch;
        next := next + 1;
      }
      emitted := emitted + [ch];
    }

    method PutTimes(ch: char, count: int)
      requires Valid()
      modifies this, buf
      ensures Valid() && emitted == old(emitted) + Repeat(ch, count)
    {
      var width := count;
      while width > 0
        invariant Valid() && emitted + Repeat(ch, width) == old(emitted) + Repeat(ch, count)
      {
        assert Repeat(ch, width) == [ch] + Repeat(ch, width - 1);
        Put(ch);
        width := width - 1;
      }
    }
  }

  lemma NumberTextStep(num: nat, base: nat, width: int, padc: char)
    requires 2 <= base <= 16
    ensures NumberText(num, base, width, padc) ==
            (if num < base then Repeat(padc, width - 1) else NumberText(num / base, base, width - 1, padc))
            + [Digit(num % base)]
  {
    hide Digits;
    hide Digit;
    DigitsStep(num, base);
    if num >= base {
      var front, last := Digits(num / base, base), [Digit(num % base)];
      var pad := Repeat(padc, width - |front| - 1);
      assert pad + (front + last) == (pad + front) + last;
    }
  }

  /** The digits of a number, most significant first; the padding is put by the innermost call. */
  method PrintNum(b: Sprintbuf, num: nat, base: nat, width: int, padc: char)
    requires b.Valid() && 2 <= base <= 16
    modifies b, b.buf
    ensures b.Valid() && b.emitted == old(b.emitted) + NumberText(num, base, width, padc)
    decreases num
  {
    hide NumberText;
    hide Repeat;
    NumberTextStep(num, base, width, padc);
    if num >= base {
      QuotientFalls(num, base);
      PrintNum(b, num / base, base, width - 1, padc);
    } else {
      b.PutTimes(padc, width - 1);
    }
    b.Put(Digit(num % base));
  }

  // ----- The escape loop -----

  /** The text of a format is everything before its first NUL; that NUL ends every kind of token. */
  lemma TextEnds(fmt: string, i: nat)
    requires Terminated(fmt, 0) && i <= |Text(fmt, 0)|
    ensures i < |fmt|
    ensures i < |Text(fmt, 0)| ==> fmt[i] == Text(fmt, 0)[i] && fmt[i] != '\0'
    ensures i == |Text(fmt, 0)| ==> fmt[i] == '\0'
  {
  }

  lemma NoDigits()
    ensures Decimal("") == 0
  {
  }

  /** One more digit. */
  lemma DecimalStep(t: string, start: nat, f: nat)
    requires start <= f < |t| && f < DigitsEnd(t, start)
    ensures DigitsEnd(t, f) == DigitsEnd(t, start) == DigitsEnd(t, f + 1)
    ensures Decimal(t[start..f + 1]) == Decimal(t[start..f]) * 10 + (t[f] as int - '0' as int)
  {
    RunEndsOnce(t, start, f);
    assert t[start..f + 1][..f - start] == t[start..f] && t[start..f + 1][f - start] == t[f];
  }

  lemma {:induction false} RunEndsOnce(t: string, start: nat, f: nat)
    requires start <= f < |t| && f < DigitsEnd(t, start)
    ensures DigitsEnd(t, f) == DigitsEnd(t, start)
    decreases f - start
  {
    if start < f {
      RunEndsOnce(t, start + 1, f);
    }
  }

  /** The digit loop of a width field. */
  method ReadNumber(fmt: string, start: nat) returns (n: nat, f: nat)
    requires Terminated(fmt, 0) && start < |Text(fmt, 0)| && IsDigit(fmt[start])
    ensures f == DigitsEnd(Text(fmt, 0), start) && n == Decimal(Text(fmt, 0)[start..f])
  {
    ghost var t := Text(fmt, 0);
    ghost var end := DigitsEnd(t, start);
    TextEnds(fmt, start);
    f := start;
    n := 0;
    assert t[start..start] == "";
    hide Text;
    hide Decimal;
    NoDigits();
    while true
      invariant start <= f < end && n == Decimal(t[start..f])
      decreases end - f
    {
      TextEnds(fmt, f);
      TextEnds(fmt, f + 1);
      DecimalStep(t, start, f);
      n := n * 10 + (fmt[f] as int - '0' as int);
      f := f + 1;
      if fmt[f] < '0' || fmt[f] > '9' {
        break;
      }
    }
  }

  /** One pass through the `reswitch` label: takes in the modifier at `f0`, if there is one. */
  method ReadModifier(fmt: string, f0: nat, s0: Fields, args: nat -> uint32)
    returns (more: bool, f: nat, s: Fields)
    requires Terminated(fmt, 0) && f0 <= |Text(fmt, 0)|
    ensures match TokenAt(Text(fmt, 0), f0)
            case NotModifier => !more && f == f0 && s == s0
            case IsModifier(m, next) => more && f == next && s == Apply(s0, m, args)
  {
    TextEnds(fmt, f0);
    more, f, s := true, f0 + 1, s0;
    var ch := fmt[f0];
    if ch == '-' {
      s := s.(padc := '-');
    } else if ch == '0' {
      s := s.(padc := '0');
    } else if '1' <= ch <= '9' {
      var n;
      n, f := ReadNumber(fmt, f0);
      s := ProcessPrecision(s.(precision := n));
    } else if ch == '*' {
      s := s.(precision := ToInt32(args(s.ap)), ap := s.ap + 1);
      s := ProcessPrecision(s);
    } else if ch == '.' {
      if s.width < 0 {
        s := s.(width := 0);
      }
    } else if ch == '#' {
      s := s.(alt := true);
    } else if ch == 'l' {
      s := s.(lflag := s.lflag + 1);
    } else {
      more, f := false, f0;
    }
  }

  /** `process_precision`: the number just read becomes the width if none is known yet. */
  function ProcessPrecision(s: Fields): Fields {
    if s.width < 0 then s.(width := s.precision, precision := -1) else s
  }

  /** All modifiers of an escape, up to the character that ends them. */
  method ReadModifiers(fmt: string, start: nat, ap: nat, args: nat -> uint32) returns (f: nat, s: Fields)
    requires Terminated(fmt, 0) && start <= |Text(fmt, 0)|
    ensures f == Lex(Text(fmt, 0), start).conv
    ensures s == ApplyAll(Start(ap), Lex(Text(fmt, 0), start).mods, args)
    ensures forall k :: start <= k < f ==> fmt[k] != '%'
  {
    hide TokenAt;
    hide Apply;
    ghost var t := Text(fmt, 0);
    f, s := start, Fields(' ', -1, -1, 0, false, ap);
    var more := true;
    while more
      invariant start <= f <= |t|
      invariant !more ==> Lex(t, f) == Lexed([], f)
      invariant Lex(t, f).conv == Lex(t, start).conv
      invariant ApplyAll(s, Lex(t, f).mods, args) == ApplyAll(Start(ap), Lex(t, start).mods, args)
      decreases |t| - f, more
    {
      ghost var mods := Lex(t, f).mods;
      more, f, s := ReadModifier(fmt, f, s, args);
      assert more ==> mods[1..] == Lex(t, f).mods;
    }
  }

  /** The character loop of the string conversion. */
  method PutBody(b: Sprintbuf, p: string, width0: int, precision0: int, altflag: bool) returns (width: int)
    requires b.Valid() && Terminated(p, 0)
    modifies b, b.buf
    ensures b.Valid() && b.emitted == old(b.emitted) + MaskAll(altflag, Clip(Text(p, 0), precision0))
    ensures width == width0 - |Clip(Text(p, 0), precision0)|
  {
    ghost var t := Text(p, 0);
    ghost var clip := Clip(t, precision0);
    ghost var body := MaskAll(altflag, clip);
    var precision := precision0;
    width := width0;
    var i := 0;
    while p[i] != '\0' && (precision < 0 || precision > 0)
      invariant b.Valid() && 0 <= i <= |clip| && width == width0 - i
      invariant precision == if precision0 < 0 then precision0 else precision0 - i
      invariant b.emitted == old(b.emitted) + body[..i]
      decreases |t| - i
    {
      TextEnds(p, i);
      assert body[..i + 1] == body[..i] + [Mask(altflag, t[i])];
      if altflag && (p[i] < ' ' || p[i] > '~') {
        b.Put('?');
      } else {
        b.Put(p[i]);
      }
      precision := if precision < 0 then precision else precision - 1;
      width := width - 1;
      i := i + 1;
    }
    TextEnds(p, i);
    assert i == |clip| && body[..i] == body;
  }

  /** The string conversion. */
  method PutString(b: Sprintbuf, p: string, s: Fields)
    requires b.Valid() && Terminated(p, 0)
    modifies b, b.buf
    ensures b.Valid() && b.emitted == old(b.emitted) + StringText(Text(p, 0), s)
  {
    hide Text;
    hide Clip;
    hide Mask;
    hide Repeat;
    hide Terminated;
    var width := s.width;
    if width > 0 && s.padc != '-' {
      var n := Strnlen(p, 0, ToUint32(s.precision));
      b.PutTimes(s.padc, width - n);
      width := Min(width - n, 0);
    }
    width := PutBody(b, p, width, s.precision, s.alt);
    b.PutTimes(' ', width);
  }

  // ----- Conversions and whole formats -----

  const ERROR_FMT := "error %d\0"
  const STRING_FMT := "%s\0"
  const NULL_TEXT := "(null)\0"

  lemma FixedTexts()
    ensures Terminated(ERROR_FMT, 0) && Text(ERROR_FMT, 0) == "error %d"
    ensures Terminated(STRING_FMT, 0) && Text(STRING_FMT, 0) == "%s"
    ensures Terminated(NULL_TEXT, 0) && Text(NULL_TEXT, 0) == "(null)"
  {
    assert ERROR_FMT[8] == '\0' && STRING_FMT[2] == '\0' && NULL_TEXT[6] == '\0';
  }

  /** The nested calls behind `%e` contain no `%e` themselves. */
  lemma ErrorFormat(args: nat -> uint32, strs: uint32 -> CText)
    ensures FormatFrom("error %d", 0, args, strs, 0) == "error " + SignedText(ToInt32(args(0)), -1, ' ')
    ensures FormatDefined("error %d", 0, args, strs, 0)
  {
    hide FormatFrom;
    hide FormatDefined;
    hide SignedText;
    var t := "error %d";
    assert t[0..6] == "error ";
    LiteralText(t, 0, 6, args, strs, 0);
    assert Lex(t, 7) == Lexed([], 7);
    FormatStep(t, 6, args, strs, 0);
    FormatStep(t, 8, args, strs, 1);
    DefinedStep(t, 6, args, strs, 0);
    DefinedStep(t, 8, args, strs, 1);
  }

  lemma StringFormat(args: nat -> uint32, strs: uint32 -> CText)
    ensures FormatFrom("%s", 0, args, strs, 0) == PointerText(strs, args(0))
    ensures FormatDefined("%s", 0, args, strs, 0)
  {
    hide FormatFrom;
    hide FormatDefined;
    hide StringText;
    var t := "%s";
    assert Lex(t, 1) == Lexed([], 1);
    FormatStep(t, 0, args, strs, 0);
    FormatStep(t, 2, args, strs, 1);
    DefinedStep(t, 0, args, strs, 0);
    DefinedStep(t, 2, args, strs, 1);
    hide PointerText;
    PlainString(PointerText(strs, args(0)), Start(0));
  }

  lemma PlainString(p: string, s: Fields)
    requires s.width <= 0 && s.precision < 0 && !s.alt
    ensures StringText(p, s) == p
  {
    assert MaskAll(false, Clip(p, s.precision)) == p;
  }

  /** How deep a format can nest: only `%e` calls the formatter again, with one of the two fixed formats. */
  function Rank(t: string): nat {
    if t == "error %d" || t == "%s" then 0 else 1
  }

  lemma FixedFormatsDoNotNest(t: string, i: nat)
    requires i < |t| && t[i] == '%' && Rank(t) == 0
    ensures var x := Lex(t, i + 1); x.conv < |t| && t[x.conv] != 'e'
  {
    if t == "error %d" {
      assert i == 6 && Lex(t, 7) == Lexed([], 7);
    } else {
      assert i == 0 && Lex(t, 1) == Lexed([], 1);
    }
  }

  /** The conversion switch of the escape loop. */
  method PutConversion(b: Sprintbuf, ch: char, s: Fields, args: nat -> uint32, strs: uint32 -> CText, ghost rank: nat)
    returns (ap: nat)
    requires b.Valid() && IsConversion(ch) && (ch == 'e' ==> rank > 0 && ErrorDefined(args(s.ap)))
    modifies b, b.buf
    ensures b.Valid()
    ensures var (text, next) := Convert(ch, s, args, strs); ap == next && b.emitted == old(b.emitted) + text
    decreases rank, 1
  {
    hide NumberText;
    hide StringText;
    hide ErrorText;
    hide Text;
    hide GetInt;
    hide GetUint;
    ap := s.ap + 1;
    match ch
    case 'c' =>
      b.Put((args(s.ap) % 0x100) as char);
    case 'e' =>
      PutError(b, ToInt32(args(s.ap)), rank);
    case 's' =>
      PutPointer(b, args(s.ap), strs, s);
    case 'd' =>
      PutSigned(b, GetInt(args, s), s.width, s.padc);
      ap := s.ap + NumberWords(s);
    case 'u' =>
      PrintNum(b, GetUint(args, s), 10, s.width, s.padc);
      ap := s.ap + NumberWords(s);
    case 'o' =>
      PrintNum(b, GetUint(args, s), 8, s.width, s.padc);
      ap := s.ap + NumberWords(s);
    case 'p' =>
      b.Put('0');
      b.Put('x');
      PrintNum(b, args(s.ap), 16, s.width, s.padc);
    case 'x' =>
      PrintNum(b, GetUint(args, s), 16, s.width, s.padc);
      ap := s.ap + NumberWords(s);
    case '%' =>
      b.Put('%');
      ap := s.ap;
  }

  method PutPointer(b: Sprintbuf, p: uint32, strs: uint32 -> CText, s: Fields)
    requires b.Valid()
    modifies b, b.buf
    ensures b.Valid() && b.emitted == old(b.emitted) + StringText(PointerText(strs, p), s)
  {
    hide StringText;
    hide Text;
    if p == 0 {
      FixedTexts();
      PutString(b, NULL_TEXT, s);
    } else {
      PutString(b, strs(p), s);
    }
  }

  method PutSigned(b: Sprintbuf, v: int, width: int, padc: char)
    requires b.Valid()
    modifies b, b.buf
    ensures b.Valid() && b.emitted == old(b.emitted) + SignedText(v, width, padc)
  {
    hide NumberText;
    var num := v;
    if num < 0 {
      b.Put('-');
      num := -num;
    }
    PrintNum(b, num, 10, width, padc);
  }

  /** The error conversion: a name from the table, or the number itself. */
  method PutError(b: Sprintbuf, code: int32, ghost rank: nat)
    requires b.Valid() && rank > 0 && code > -0x8000_0000
    modifies b, b.buf
    ensures b.Valid() && b.emitted == old(b.emitted) + ErrorText(code)
    decreases rank, 0
  {
    hide FormatFrom;
    hide FormatDefined;
    hide SignedText;
    hide ErrorString;
    hide Text;
    hide Terminated;
    FixedTexts();
    var err := Abs(code);
    if err >= MAXERROR || err == 0 {
      ErrorFormat((_: nat) => err, (_: uint32) => "\0");
      PrintFmt(b, ERROR_FMT, err, "\0", rank);
    } else {
      var name := ErrorString(err) + "\0";
      ErrorNameText(err);
      StringFormat((_: nat) => 1, (_: uint32) => name);
      PrintFmt(b, STRING_FMT, 1, name, rank);
    }
  }

  lemma ErrorNameText(err: nat)
    requires 1 <= err < MAXERROR
    ensures Terminated(ErrorString(err) + "\0", 0) && Text(ErrorString(err) + "\0", 0) == ErrorString(err)
  {
    ErrorStringHasNoNul(err);
    hide ErrorString;
    NulEnds(ErrorString(err));
  }

  lemma ErrorStringHasNoNul(err: nat)
    requires 1 <= err < MAXERROR
    ensures '\0' !in ErrorString(err)
  {
  }

  /** `printfmt` with one argument word, which the string conversion takes for a pointer to `text`. */
  method PrintFmt(b: Sprintbuf, fmt: string, word: uint32, text: CText, ghost rank: nat)
    requires b.Valid() && Terminated(fmt, 0) && Rank(Text(fmt, 0)) < rank
    requires FormatDefined(Text(fmt, 0), 0, (_: nat) => word, (_: uint32) => text, 0)
    modifies b, b.buf
    ensures b.Valid()
    ensures b.emitted == old(b.emitted) + FormatFrom(Text(fmt, 0), 0, (_: nat) => word, (_: uint32) => text, 0)
    decreases Rank(Text(fmt, 0)), 4
  {
    VPrintFmt(b, fmt, (_: nat) => word, (_: uint32) => text);
  }

  /** The rewind of an unknown escape, back to the character behind its own '%'. */
  method Rewind(fmt: string, f0: nat, ghost start: nat) returns (f: nat)
    requires 0 < start <= f0 <= |fmt| && fmt[start - 1] == '%'
    requires forall k :: start <= k < f0 ==> fmt[k] != '%'
    ensures f == start
  {
    f := f0;
    while fmt[f - 1] != '%'
      invariant start <= f <= f0
      decreases f
    {
      f := f - 1;
    }
  }

  /** One escape, from its '%' at `f0`: the outer position always advances, even behind a rewind. */
  method PutEscape(b: Sprintbuf, fmt: string, f0: nat, ap0: nat, args: nat -> uint32, strs: uint32 -> CText)
    returns (f: nat, ap: nat)
    requires b.Valid() && Terminated(fmt, 0) && f0 < |Text(fmt, 0)| && fmt[f0] == '%'
    requires FormatDefined(Text(fmt, 0), f0, args, strs, ap0)
    modifies b, b.buf
    ensures b.Valid() && f0 < f <= |Text(fmt, 0)| && FormatDefined(Text(fmt, 0), f, args, strs, ap)
    ensures b.emitted + FormatFrom(Text(fmt, 0), f, args, strs, ap)
         == old(b.emitted) + FormatFrom(Text(fmt, 0), f0, args, strs, ap0)
    decreases Rank(Text(fmt, 0)), 2
  {
    hide FormatFrom;
    hide FormatDefined;
    hide ErrorDefined;
    hide Text;
    hide Convert;
    hide Lex;
    hide ApplyAll;
    ghost var t := Text(fmt, 0);
    TextEnds(fmt, f0);
    FormatStep(t, f0, args, strs, ap0);
    DefinedStep(t, f0, args, strs, ap0);
    var s;
    f, s := ReadModifiers(fmt, f0 + 1, ap0, args);
    TextEnds(fmt, f);
    if IsConversion(fmt[f]) {
      if Rank(t) == 0 {
        FixedFormatsDoNotNest(t, f0);
      }
      ap := PutConversion(b, fmt[f], s, args, strs, Rank(t));
      f := f + 1;
    } else {
      b.Put('%');
      f := Rewind(fmt, f, f0 + 1);
      ap := s.ap;
    }
  }

  /** The formatter: emits the rendering of the format, and reads no character behind its NUL. */
  method VPrintFmt(b: Sprintbuf, fmt: string, args: nat -> uint32, strs: uint32 -> CText)
    requires b.Valid() && Terminated(fmt, 0) && FormatDefined(Text(fmt, 0), 0, args, strs, 0)
    modifies b, b.buf
    ensures b.Valid() && b.emitted == old(b.emitted) + FormatFrom(Text(fmt, 0), 0, args, strs, 0)
    decreases Rank(Text(fmt, 0)), 3
  {
    hide FormatFrom;
    hide FormatDefined;
    hide Text;
    ghost var t := Text(fmt, 0);
    ghost var goal := old(b.emitted) + FormatFrom(t, 0, args, strs, 0);
    var f, ap := 0, 0;
    while true
      invariant b.Valid() && f <= |t| && FormatDefined(t, f, args, strs, ap)
      invariant b.emitted + FormatFrom(t, f, args, strs, ap) == goal
      decreases |t| - f
    {
      while fmt[f] != '%'
        invariant b.Valid() && f <= |t| && FormatDefined(t, f, args, strs, ap)
        invariant b.emitted + FormatFrom(t, f, args, strs, ap) == goal
        decreases |t| - f
      {
        TextEnds(fmt, f);
        FormatStep(t, f, args, strs, ap);
        DefinedStep(t, f, args, strs, ap);
        if fmt[f] == '\0' {
          return;
        }
        b.Put(fmt[f]);
        f := f + 1;
      }
      TextEnds(fmt, f);
      f, ap := PutEscape(b, fmt, f, ap, args, strs);
    }
  }

  const E_INVAL := 3

  /**
   Formatting into `n` bytes: the first `n - 1` characters at most, then a NUL, and nothing behind
   it; the result counts what an unbounded buffer would have received.
   */
  method Vsnprintf(buf: array?<char>, n: int, fmt: string, args: nat -> uint32, strs: uint32 -> CText)
    returns (rc: int)
    requires Terminated(fmt, 0) && (buf != null ==> n <= buf.Length)
    requires FormatDefined(Text(fmt, 0), 0, args, strs, 0)
    modifies buf
    ensures buf == null || n < 1 ==> rc == -E_INVAL && (buf != null ==> buf[..] == old(buf[..]))
    ensures buf != null && n >= 1 ==>
              var out := FormatFrom(Text(fmt, 0), 0, args, strs, 0);
              var k := Min(|out|, n - 1);
              rc == |out| && buf[..] == out[..k] + "\0" + old(buf[..])[k + 1..]
  {
    hide FormatFrom;
    hide FormatDefined;
    hide Text;
    if buf == null || n < 1 {
      return -E_INVAL;
    }
    var b := new Sprintbuf(buf, n);
    VPrintFmt(b, fmt, args, strs);
    ghost var full := buf[..];
    NulStored(full, b.emitted, b.before, b.next);
    buf[b.next] := '\0';
    assert buf[..] == full[b.next := '\0'];
    return b.cnt;
  }

  lemma NulStored(full: string, out: string, before: string, k: nat)
    requires k < |full| == |before| && k <= |out| && full[..k] == out[..k] && full[k..] == before[k..]
    ensures full[k := '\0'] == out[..k] + "\0" + before[k + 1..]
  {
    assert full[k..][1..] == before[k..][1..];
    assert full[k := '\0'] == full[..k] + "\0" + full[k..][1..];
  }
}
