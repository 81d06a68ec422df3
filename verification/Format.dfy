/**
 What lib/printfmt.c prints, as functions.  A format is first parsed into literal characters,
 directives and broken escapes, without looking at any argument; the items are then rendered in
 order, each consuming its argument words from where the previous one stopped.
 */
module Format {
  import opened Types
  import opened CStrings

  /** Memory at a string pointer: readable up to a NUL. */
  type CText = s: string | |s| > 0 && s[|s| - 1] == '\0' witness "\0"

  // ----- Parsing -----

  datatype Modifier = PadDash | PadZero | Number(n: nat) | Star | Dot | Alternate | Long

  datatype Item = Literal(ch: char) | Directive(mods: seq<Modifier>, conv: char) | Broken(mods: seq<Modifier>)

  predicate IsDigit(ch: char) {
    '0' <= ch <= '9'
  }

  predicate IsConversion(ch: char) {
    ch in "cesduopx%"
  }

  /** The end of the longest run of digits from `i`. */
  function DigitsEnd(t: string, i: nat): (e: nat)
    requires i <= |t|
    ensures i <= e <= |t| && (e < |t| ==> !IsDigit(t[e]))
    ensures forall k :: i <= k < e ==> IsDigit(t[k])
    decreases |t| - i
  {
    if i < |t| && IsDigit(t[i]) then DigitsEnd(t, i + 1) else i
  }

  /** The number written by a run of decimal digits. */
  function Decimal(t: string): nat
    requires forall k :: 0 <= k < |t| ==> IsDigit(t[k])
  {
    if t == "" then 0 else assert IsDigit(t[|t| - 1]); 10 * Decimal(t[..|t| - 1]) + (t[|t| - 1] as int - '0' as int)
  }

  datatype Token = NotModifier | IsModifier(m: Modifier, next: nat)

  /** The modifier that starts at `i`, if one does. */
  function TokenAt(t: string, i: nat): (tok: Token)
    requires i <= |t|
    ensures tok.IsModifier? ==> i < tok.next <= |t| && forall k :: i <= k < tok.next ==> t[k] != '%'
  {
    if i == |t| then NotModifier
    else if t[i] == '-' then IsModifier(PadDash, i + 1)
    else if t[i] == '0' then IsModifier(PadZero, i + 1)
    else if IsDigit(t[i]) then IsModifier(Number(Decimal(t[i..DigitsEnd(t, i)])), DigitsEnd(t, i))
    else if t[i] == '*' then IsModifier(Star, i + 1)
    else if t[i] == '.' then IsModifier(Dot, i + 1)
    else if t[i] == '#' then IsModifier(Alternate, i + 1)
    else if t[i] == 'l' then IsModifier(Long, i + 1)
    else NotModifier
  }

  /** The modifiers from `i` on, and the index of the character that ends them. */
  datatype Lexed = Lexed(mods: seq<Modifier>, conv: nat)

  function Lex(t: string, i: nat): (x: Lexed)
    requires i <= |t|
    ensures i <= x.conv <= |t| && forall k :: i <= k < x.conv ==> t[k] != '%'
    decreases |t| - i
  {
    match TokenAt(t, i)
    case NotModifier => Lexed([], i)
    case IsModifier(m, next) => var rest := Lex(t, next); Lexed([m] + rest.mods, rest.conv)
  }

  /** The items of a format from `i` on; after a broken escape, parsing resumes right behind its '%'. */
  function Parse(t: string, i: nat): seq<Item>
    requires i <= |t|
    decreases |t| - i
  {
    if i == |t| then []
    else if t[i] != '%' then [Literal(t[i])] + Parse(t, i + 1)
    else
      var x := Lex(t, i + 1);
      if x.conv < |t| && IsConversion(t[x.conv]) then
        [Directive(x.mods, t[x.conv])] + Parse(t, x.conv + 1)
      else
        [Broken(x.mods)] + Parse(t, i + 1)
  }

  lemma ParseStep(t: string, i: nat)
    requires i < |t|
    ensures t[i] != '%' ==> Parse(t, i) == [Literal(t[i])] + Parse(t, i + 1)
    ensures t[i] == '%' ==>
              var x := Lex(t, i + 1);
              if x.conv < |t| && IsConversion(t[x.conv]) then
                Parse(t, i) == [Directive(x.mods, t[x.conv])] + Parse(t, x.conv + 1)
              else
                Parse(t, i) == [Broken(x.mods)] + Parse(t, i + 1)
  {
    hide Lex;
    hide IsConversion;
  }

  // ----- Modifiers -----

  /** The formatter's variables within one escape; `ap` counts the argument words consumed. */
  datatype Fields = Fields(padc: char, width: int, precision: int, lflag: nat, alt: bool, ap: nat)

  function Start(ap: nat): Fields {
    Fields(' ', -1, -1, 0, false, ap)
  }

  /** A number is the width while none is known, and the precision from then on. */
  function HandOff(s: Fields, n: int): Fields {
    if s.width < 0 then s.(width := n, precision := -1) else s.(precision := n)
  }

  function Apply(s: Fields, m: Modifier, args: nat -> uint32): Fields {
    match m
    case PadDash => s.(padc := '-')
    case PadZero => s.(padc := '0')
    case Number(n) => HandOff(s, n)
    case Star => HandOff(s.(ap := s.ap + 1), ToInt32(args(s.ap)))
    case Dot => if s.width < 0 then s.(width := 0) else s
    case Alternate => s.(alt := true)
    case Long => s.(lflag := s.lflag + 1)
  }

  function ApplyAll(s: Fields, mods: seq<Modifier>, args: nat -> uint32): Fields
    decreases |mods|
  {
    if mods == [] then s else ApplyAll(Apply(s, mods[0], args), mods[1..], args)
  }

  // ----- Conversions -----

  function Repeat(c: char, n: int): (t: string)
    ensures |t| == Max(n, 0) && forall k :: 0 <= k < |t| ==> t[k] == c
  {
    if n <= 0 then "" else seq(n, _ => c)
  }

  function Digit(d: int): char
    requires 0 <= d < 16
  {
    "0123456789abcdef"[d]
  }

  function Digits(num: nat, base: nat): (t: string)
    requires 2 <= base <= 16
    ensures |t| > 0
  {
    if num < base then [Digit(num)] else QuotientFalls(num, base); Digits(num / base, base) + [Digit(num % base)]
  }

  lemma QuotientFalls(num: nat, base: nat)
    requires 2 <= base <= num
    ensures 1 <= num / base < num
    ensures num == num / base * base + num % base
  {
    var q, r := num / base, num % base;
    assert num == q * base + r && 0 <= r < base;
    QuotientBounds(num, base, q, r);
  }

  lemma QuotientBounds(num: nat, base: nat, q: int, r: int)
    requires 2 <= base <= num && num == q * base + r && 0 <= r < base
    ensures 1 <= q < num
  {
    if q <= 0 {
      ProductSign(-q, base);
    } else {
      ProductSign(q, base - 2);
      assert q * base == q * 2 + q * (base - 2);
    }
  }

  lemma ProductSign(a: int, b: int)
    requires 0 <= a && 0 <= b
    ensures 0 <= a * b
  {
  }

  lemma DigitsStep(num: nat, base: nat)
    requires 2 <= base <= 16
    ensures num < base ==> num % base == num && Digits(num, base) == [Digit(num % base)]
    ensures num >= base ==> Digits(num, base) == Digits(num / base, base) + [Digit(num % base)]
  {
    if num < base {
      SmallModulus(num, base);
    }
  }

  lemma SmallModulus(num: nat, base: nat)
    requires num < base
    ensures num % base == num
  {
  }

  /** Padding counts the digits only, and stands directly before them. */
  function NumberText(num: nat, base: nat, width: int, padc: char): string
    requires 2 <= base <= 16
  {
    Repeat(padc, width - |Digits(num, base)|) + Digits(num, base)
  }

  /** `long` is 32 bits wide; `long long` takes two words, the low one first. */
  function Wide(args: nat -> uint32, ap: nat): nat {
    args(ap) + 0x1_0000_0000 * args(ap + 1)
  }

  function GetUint(args: nat -> uint32, s: Fields): nat {
    if s.lflag >= 2 then Wide(args, s.ap) else args(s.ap)
  }

  function GetInt(args: nat -> uint32, s: Fields): int {
    if s.lflag >= 2 then
      var v := Wide(args, s.ap);
      if v < 0x8000_0000_0000_0000 then v else v - 0x1_0000_0000_0000_0000
    else
      ToInt32(args(s.ap))
  }

  function NumberWords(s: Fields): nat {
    if s.lflag >= 2 then 2 else 1
  }

  function Abs(v: int): nat {
    if v < 0 then -v else v
  }

  function SignedText(v: int, width: int, padc: char): string {
    (if v < 0 then "-" else "") + NumberText(Abs(v), 10, width, padc)
  }

  function Mask(alt: bool, ch: char): char {
    if alt && (ch < ' ' || ch > '~') then '?' else ch
  }

  function MaskAll(alt: bool, p: string): (t: string)
    ensures |t| == |p|
  {
    seq(|p|, i requires 0 <= i < |p| => Mask(alt, p[i]))
  }

  /** The characters of a string argument that are printed. */
  function Clip(p: string, precision: int): string {
    if 0 <= precision < |p| then p[..precision] else p
  }

  function StringText(p: string, s: Fields): string {
    var body := MaskAll(s.alt, Clip(p, s.precision));
    if s.width > 0 && s.padc != '-' then
      Repeat(s.padc, s.width - Min(|p|, ToUint32(s.precision))) + body
    else
      body + Repeat(' ', s.width - |body|)
  }

  const MAXERROR := 7

  function ErrorString(err: nat): string
    requires 1 <= err < MAXERROR
  {
    ["unspecified error", "bad environment", "invalid parameter", "out of memory",
     "out of environments", "segmentation fault"][err - 1]
  }

  function ErrorText(code: int32): string {
    var err := Abs(code);
    if 1 <= err < MAXERROR then ErrorString(err) else "error " + SignedText(ToInt32(err), -1, ' ')
  }

  function PointerText(strs: uint32 -> CText, p: uint32): string {
    if p == 0 then "(null)" else Text(strs(p), 0)
  }

  /** What a conversion prints, and where its arguments end. */
  function Convert(conv: char, s: Fields, args: nat -> uint32, strs: uint32 -> CText): (string, nat)
    requires IsConversion(conv)
  {
    match conv
    case 'c' => ([(args(s.ap) % 0x100) as char], s.ap + 1)
    case 'e' => (ErrorText(ToInt32(args(s.ap))), s.ap + 1)
    case 's' => (StringText(PointerText(strs, args(s.ap)), s), s.ap + 1)
    case 'd' => (SignedText(GetInt(args, s), s.width, s.padc), s.ap + NumberWords(s))
    case 'u' => (NumberText(GetUint(args, s), 10, s.width, s.padc), s.ap + NumberWords(s))
    case 'o' => (NumberText(GetUint(args, s), 8, s.width, s.padc), s.ap + NumberWords(s))
    case 'p' => ("0x" + NumberText(args(s.ap), 16, s.width, s.padc), s.ap + 1)
    case 'x' => (NumberText(GetUint(args, s), 16, s.width, s.padc), s.ap + NumberWords(s))
    case _ => ("%", s.ap)
  }

  // ----- Whole formats -----

  predicate WellFormed(item: Item) {
    item.Directive? ==> IsConversion(item.conv)
  }

  /** A broken escape prints its '%' only, but the arguments its stars consumed stay consumed. */
  function Render(item: Item, args: nat -> uint32, strs: uint32 -> CText, ap: nat): (string, nat)
    requires WellFormed(item)
  {
    match item
    case Literal(ch) => ([ch], ap)
    case Directive(mods, conv) => Convert(conv, ApplyAll(Start(ap), mods, args), args, strs)
    case Broken(mods) => ("%", ApplyAll(Start(ap), mods, args).ap)
  }

  function RenderAll(items: seq<Item>, args: nat -> uint32, strs: uint32 -> CText, ap: nat): string
    requires forall k :: 0 <= k < |items| ==> WellFormed(items[k])
  {
    if items == [] then ""
    else
      var (t, next) := Render(items[0], args, strs, ap);
      t + RenderAll(items[1..], args, strs, next)
  }

  lemma ParseWellFormed(t: string, i: nat)
    requires i <= |t|
    ensures forall k :: 0 <= k < |Parse(t, i)| ==> WellFormed(Parse(t, i)[k])
    decreases |t| - i
  {
  }

  /** Everything a format prints. */
  function FormatFrom(t: string, i: nat, args: nat -> uint32, strs: uint32 -> CText, ap: nat): string
    requires i <= |t|
  {
    ParseWellFormed(t, i);
    RenderAll(Parse(t, i), args, strs, ap)
  }

  /** The error conversion negates its code, which C does not define for the most negative one. */
  predicate ErrorDefined(word: uint32) {
    ToInt32(word) > -0x8000_0000
  }

  predicate ItemDefined(item: Item, args: nat -> uint32, ap: nat) {
    item.Directive? && item.conv == 'e' ==> ErrorDefined(args(ApplyAll(Start(ap), item.mods, args).ap))
  }

  predicate AllDefined(items: seq<Item>, args: nat -> uint32, strs: uint32 -> CText, ap: nat)
    requires forall k :: 0 <= k < |items| ==> WellFormed(items[k])
  {
    items != [] ==>
      ItemDefined(items[0], args, ap) && AllDefined(items[1..], args, strs, Render(items[0], args, strs, ap).1)
  }

  /** No error conversion from `i` on meets the most negative code. */
  predicate FormatDefined(t: string, i: nat, args: nat -> uint32, strs: uint32 -> CText, ap: nat)
    requires i <= |t|
  {
    ParseWellFormed(t, i);
    AllDefined(Parse(t, i), args, strs, ap)
  }

  lemma DefinedStep(t: string, i: nat, args: nat -> uint32, strs: uint32 -> CText, ap: nat)
    requires i <= |t|
    ensures i == |t| ==> FormatDefined(t, i, args, strs, ap)
    ensures i < |t| && t[i] != '%' ==>
              FormatDefined(t, i, args, strs, ap) == FormatDefined(t, i + 1, args, strs, ap)
    ensures i < |t| && t[i] == '%' ==>
              var x := Lex(t, i + 1);
              var s := ApplyAll(Start(ap), x.mods, args);
              if x.conv < |t| && IsConversion(t[x.conv]) then
                FormatDefined(t, i, args, strs, ap) ==
                ((t[x.conv] == 'e' ==> ErrorDefined(args(s.ap))) &&
                 FormatDefined(t, x.conv + 1, args, strs, Convert(t[x.conv], s, args, strs).1))
              else
                FormatDefined(t, i, args, strs, ap) == FormatDefined(t, i + 1, args, strs, s.ap)
  {
    hide Convert;
    hide Lex;
    hide ApplyAll;
    hide ErrorDefined;
    ParseWellFormed(t, i);
  }

  /** One item of a format at a time. */
  lemma FormatStep(t: string, i: nat, args: nat -> uint32, strs: uint32 -> CText, ap: nat)
    requires i <= |t|
    ensures i == |t| ==> FormatFrom(t, i, args, strs, ap) == ""
    ensures i < |t| && t[i] != '%' ==>
              FormatFrom(t, i, args, strs, ap) == [t[i]] + FormatFrom(t, i + 1, args, strs, ap)
    ensures i < |t| && t[i] == '%' ==>
              var x := Lex(t, i + 1);
              var s := ApplyAll(Start(ap), x.mods, args);
              if x.conv < |t| && IsConversion(t[x.conv]) then
                var (text, next) := Convert(t[x.conv], s, args, strs);
                FormatFrom(t, i, args, strs, ap) == text + FormatFrom(t, x.conv + 1, args, strs, next)
              else
                FormatFrom(t, i, args, strs, ap) == "%" + FormatFrom(t, i + 1, args, strs, s.ap)
  {
    hide Convert;
    hide Lex;
    hide ApplyAll;
    ParseWellFormed(t, i);
  }

  /** Text without a '%' is printed as it stands. */
  lemma {:induction false} LiteralText(t: string, i: nat, j: nat, args: nat -> uint32, strs: uint32 -> CText, ap: nat)
    requires i <= j <= |t| && '%' !in t[i..j]
    ensures FormatFrom(t, i, args, strs, ap) == t[i..j] + FormatFrom(t, j, args, strs, ap)
    ensures FormatDefined(t, i, args, strs, ap) == FormatDefined(t, j, args, strs, ap)
    decreases j - i
  {
    hide FormatFrom;
    hide FormatDefined;
    if i < j {
      assert t[i] == t[i..j][0] && t[i + 1..j] == t[i..j][1..];
      FormatStep(t, i, args, strs, ap);
      DefinedStep(t, i, args, strs, ap);
      LiteralText(t, i + 1, j, args, strs, ap);
    } else {
      assert t[i..j] == "";
    }
  }

  function Stars(mods: seq<Modifier>): nat {
    if mods == [] then 0 else (if mods[0].Star? then 1 else 0) + Stars(mods[1..])
  }

  lemma {:induction false} StarsConsume(s: Fields, mods: seq<Modifier>, args: nat -> uint32)
    ensures ApplyAll(s, mods, args).ap == s.ap + Stars(mods)
    decreases |mods|
  {
    if mods != [] {
      StarsConsume(Apply(s, mods[0], args), mods[1..], args);
    }
  }

  /**
   An unknown escape is printed as it stands, but its stars have consumed their arguments: what
   follows sees the argument list moved on by their number.
   */
  lemma BrokenEscape(t: string, i: nat, args: nat -> uint32, strs: uint32 -> CText, ap: nat)
    requires i < |t| && t[i] == '%'
    requires var x := Lex(t, i + 1); x.conv == |t| || !IsConversion(t[x.conv])
    ensures var x := Lex(t, i + 1);
      FormatFrom(t, i, args, strs, ap) == t[i..x.conv] + FormatFrom(t, x.conv, args, strs, ap + Stars(x.mods))
  {
    hide FormatFrom;
    hide Lex;
    hide Convert;
    hide ApplyAll;
    hide IsConversion;
    hide Stars;
    var x := Lex(t, i + 1);
    FormatStep(t, i, args, strs, ap);
    StarsConsume(Start(ap), x.mods, args);
    LiteralText(t, i + 1, x.conv, args, strs, ap + Stars(x.mods));
    assert t[i..x.conv] == "%" + t[i + 1..x.conv];
  }

  // ----- Parsing loses nothing -----

  function ShowModifier(m: Modifier): string {
    match m
    case PadDash => "-"
    case PadZero => "0"
    case Number(n) => Digits(n, 10)
    case Star => "*"
    case Dot => "."
    case Alternate => "#"
    case Long => "l"
  }

  function ShowModifiers(mods: seq<Modifier>): string {
    if mods == [] then "" else ShowModifier(mods[0]) + ShowModifiers(mods[1..])
  }

  /** How an item is written in a format. */
  function Show(item: Item): string {
    match item
    case Literal(ch) => [ch]
    case Directive(mods, conv) => "%" + ShowModifiers(mods) + [conv]
    case Broken(_) => "%"
  }

  function ShowAll(items: seq<Item>): string {
    if items == [] then "" else Show(items[0]) + ShowAll(items[1..])
  }

  lemma LastDigit(a: nat, d: nat)
    requires d < 10
    ensures (10 * a + d) / 10 == a && (10 * a + d) % 10 == d
  {
  }

  lemma DigitChar(ch: char)
    requires IsDigit(ch)
    ensures Digit(ch as int - '0' as int) == ch
  {
  }

  /** A number without a leading zero is written back as it was read. */
  lemma {:induction false} DecimalShow(s: string)
    requires s != "" && s[0] != '0' && forall k :: 0 <= k < |s| ==> IsDigit(s[k])
    ensures Decimal(s) > 0 && Digits(Decimal(s), 10) == s
  {
    hide Digits;
    hide Digit;
    var front, d := s[..|s| - 1], s[|s| - 1] as int - '0' as int;
    assert IsDigit(s[|s| - 1]);
    DigitChar(s[|s| - 1]);
    LastDigit(Decimal(front), d);
    DigitsStep(Decimal(s), 10);
    if front == "" {
      assert s == [s[0]];
    } else {
      DecimalShow(front);
      assert s == front + [s[|s| - 1]];
    }
  }

  lemma TokenShow(t: string, i: nat)
    requires i <= |t|
    ensures match TokenAt(t, i)
            case NotModifier => true
            case IsModifier(m, next) => ShowModifier(m) == t[i..next]
  {
    hide Digits;
    hide Decimal;
    if i < |t| {
      assert t[i..i + 1] == [t[i]];
      if IsDigit(t[i]) && t[i] != '0' {
        DecimalShow(t[i..DigitsEnd(t, i)]);
      }
    }
  }

  lemma {:induction false} LexShow(t: string, i: nat)
    requires i <= |t|
    ensures ShowModifiers(Lex(t, i).mods) == t[i..Lex(t, i).conv]
    decreases |t| - i
  {
    hide TokenAt;
    hide ShowModifier;
    TokenShow(t, i);
    match TokenAt(t, i)
    case NotModifier =>
    case IsModifier(m, next) =>
      LexShow(t, next);
      var rest := Lex(t, next);
      assert ([m] + rest.mods)[1..] == rest.mods;
      assert t[i..rest.conv] == t[i..next] + t[next..rest.conv];
  }

  lemma ShowCons(item: Item, rest: seq<Item>)
    ensures ShowAll([item] + rest) == Show(item) + ShowAll(rest)
  {
    assert ([item] + rest)[1..] == rest;
  }

  lemma DirectiveShow(t: string, i: nat)
    requires i < |t| && t[i] == '%' && Lex(t, i + 1).conv < |t|
    ensures var x := Lex(t, i + 1); Show(Directive(x.mods, t[x.conv])) == t[i..x.conv + 1]
  {
    hide Lex;
    hide ShowModifiers;
    LexShow(t, i + 1);
    var x := Lex(t, i + 1);
    assert t[i..x.conv + 1] == "%" + t[i + 1..x.conv] + [t[x.conv]];
  }

  /** The first item of a format is written exactly as the characters it was parsed from. */
  lemma FirstItem(t: string, i: nat) returns (item: Item, next: nat)
    requires i < |t|
    ensures i < next <= |t| && Parse(t, i) == [item] + Parse(t, next) && Show(item) == t[i..next]
  {
    hide Parse;
    hide Lex;
    hide ShowModifiers;
    hide IsConversion;
    ParseStep(t, i);
    if t[i] != '%' {
      return Literal(t[i]), i + 1;
    }
    var x := Lex(t, i + 1);
    if x.conv == |t| || !IsConversion(t[x.conv]) {
      return Broken(x.mods), i + 1;
    }
    item, next := Directive(x.mods, t[x.conv]), x.conv + 1;
    hide Show;
    DirectiveShow(t, i);
  }

  /** Writing the parsed items down again gives the format back, character by character. */
  lemma {:induction false} ParseShow(t: string, i: nat)
    requires i <= |t|
    ensures ShowAll(Parse(t, i)) == t[i..]
    decreases |t| - i
  {
    if i == |t| {
      assert t[i..] == "";
      return;
    }
    hide Parse;
    hide ShowAll;
    hide Show;
    var item, next := FirstItem(t, i);
    ParseShow(t, next);
    ShowCons(item, Parse(t, next));
    SplitAt(t, i, next);
  }

  lemma SplitAt(t: string, i: nat, next: nat)
    requires i <= next <= |t|
    ensures t[i..] == t[i..next] + t[next..]
  {
  }

  // ----- Parsing finds what was written -----

  /**
   A modifier list that can be told apart on paper: numbers are positive (a zero is the padding
   flag) and no digit follows one.
   */
  predicate Canonical(mods: seq<Modifier>) {
    forall k :: 0 <= k < |mods| && mods[k].Number? ==>
      && mods[k].n > 0
      && (k + 1 < |mods| ==> !mods[k + 1].Number? && !mods[k + 1].PadZero?)
  }

  /** The written number is read back, and does not start with a zero. */
  lemma {:induction false} DigitsDecimal(n: nat)
    ensures var t := Digits(n, 10);
      && (forall k :: 0 <= k < |t| ==> IsDigit(t[k]))
      && Decimal(t) == n && (n > 0 ==> t[0] != '0')
  {
    hide Digits;
    DigitsStep(n, 10);
    DigitIs(n % 10);
    var t := Digits(n, 10);
    if n < 10 {
      assert t[..0] == "";
    } else {
      DigitsDecimal(n / 10);
      assert t[..|t| - 1] == Digits(n / 10, 10);
    }
  }

  lemma DigitIs(d: nat)
    requires d < 10
    ensures IsDigit(Digit(d)) && Digit(d) as int - '0' as int == d
  {
  }

  lemma {:induction false} DigitsEndIs(t: string, i: nat, e: nat)
    requires i <= e <= |t| && (forall k :: i <= k < e ==> IsDigit(t[k])) && (e < |t| ==> !IsDigit(t[e]))
    ensures DigitsEnd(t, i) == e
    decreases e - i
  {
    if i < e {
      DigitsEndIs(t, i + 1, e);
    }
  }

  /** A modifier written at `i` is the token there; a number must be positive and not be followed by a digit. */
  lemma TokenOfShown(t: string, i: nat, m: Modifier)
    requires WrittenAt(t, i, ShowModifier(m))
    requires var e := i + |ShowModifier(m)|; m.Number? ==> m.n > 0 && (e < |t| ==> !IsDigit(t[e]))
    ensures TokenAt(t, i) == IsModifier(m, i + |ShowModifier(m)|)
  {
    hide Digits;
    var shown := ShowModifier(m);
    var e := i + |shown|;
    assert |shown| > 0 && t[i] == shown[0];
    if m.Number? {
      DigitsDecimal(m.n);
      assert forall k :: i <= k < e ==> t[k] == shown[k - i];
      hide Decimal;
      DigitsEndIs(t, i, e);
    }
  }

  lemma ShownStart(m: Modifier)
    ensures |ShowModifier(m)| > 0
    ensures !m.Number? && !m.PadZero? ==> !IsDigit(ShowModifier(m)[0])
  {
  }

  lemma CanonicalTail(mods: seq<Modifier>)
    requires Canonical(mods) && mods != []
    ensures Canonical(mods[1..])
  {
    forall k | 0 <= k < |mods| - 1 && mods[1..][k].Number?
      ensures mods[1..][k].n > 0
           && (k + 1 < |mods| - 1 ==> !mods[1..][k + 1].Number? && !mods[1..][k + 1].PadZero?)
    {
      assert mods[1..][k] == mods[k + 1];
    }
  }

  predicate WrittenAt(t: string, i: nat, shown: string) {
    i + |shown| <= |t| && t[i..i + |shown|] == shown
  }

  lemma WrittenSplit(t: string, i: nat, a: string, b: string)
    requires WrittenAt(t, i, a + b)
    ensures WrittenAt(t, i, a) && WrittenAt(t, i + |a|, b)
  {
    var whole := t[i..i + |a + b|];
    assert t[i..i + |a|] == whole[..|a|] && t[i + |a|..i + |a| + |b|] == whole[|a|..];
  }

  /** A canonical list written in front of a character that is no modifier is lexed back whole. */
  lemma {:induction false} LexOfShown(t: string, i: nat, mods: seq<Modifier>)
    requires Canonical(mods) && WrittenAt(t, i, ShowModifiers(mods))
    requires i + |ShowModifiers(mods)| <= |t| && TokenAt(t, i + |ShowModifiers(mods)|).NotModifier?
    ensures Lex(t, i) == Lexed(mods, i + |ShowModifiers(mods)|)
    decreases |mods|
  {
    hide Canonical;
    hide TokenAt;
    hide ShowModifier;
    hide WrittenAt;
    if mods != [] {
      var m, rest := mods[0], mods[1..];
      var e := i + |ShowModifier(m)|;
      WrittenSplit(t, i, ShowModifier(m), ShowModifiers(rest));
      CanonicalTail(mods);
      LexOfShown(t, e, rest);
      NextIsNoDigit(t, e, mods);
      WrittenFits(t, i, ShowModifier(m));
      TokenOfShown(t, i, m);
      assert [m] + rest == mods;
    }
  }

  lemma WrittenFits(t: string, i: nat, shown: string)
    requires WrittenAt(t, i, shown)
    ensures i + |shown| <= |t| && (shown != "" ==> t[i] == shown[0])
  {
    assert shown != "" ==> t[i] == t[i..i + |shown|][0];
  }

  lemma NextIsNoDigit(t: string, e: nat, mods: seq<Modifier>)
    requires Canonical(mods) && mods != []
    ensures mods[0].Number? ==> mods[0].n > 0
    ensures
      && mods[0].Number? && e < |t|
      && WrittenAt(t, e, ShowModifiers(mods[1..])) && e + |ShowModifiers(mods[1..])| <= |t|
      && TokenAt(t, e + |ShowModifiers(mods[1..])|).NotModifier?
      ==> !IsDigit(t[e])
  {
    hide ShowModifier;
    var shown := ShowModifiers(mods[1..]);
    if mods[0].Number? && e < |t| && WrittenAt(t, e, shown) && |mods| > 1 {
      assert mods[1..][0] == mods[1];
      ShownStart(mods[1]);
      assert t[e] == t[e..e + |shown|][0];
    }
  }

  /** The lexer yields canonical lists only: a width or precision of zero cannot be written in digits. */
  lemma {:induction false} LexCanonical(t: string, i: nat)
    requires i <= |t|
    ensures Canonical(Lex(t, i).mods)
    decreases |t| - i
  {
    hide Decimal;
    match TokenAt(t, i)
    case NotModifier =>
    case IsModifier(m, next) =>
      LexCanonical(t, next);
      if m.Number? {
        DecimalShow(t[i..DigitsEnd(t, i)]);
      }
  }

  /** An item whose writing can be recognised. */
  predicate Legible(item: Item) {
    match item
    case Literal(ch) => ch != '%'
    case Directive(mods, conv) => Canonical(mods) && IsConversion(conv)
    case Broken(_) => false
  }

  lemma DirectiveParts(t: string, i: nat, body: string, conv: char)
    requires WrittenAt(t, i, "%" + body + [conv])
    ensures i + 1 + |body| < |t| && t[i] == '%' && t[i + 1 + |body|] == conv
    ensures WrittenAt(t, i + 1, body)
  {
    var w := "%" + body + [conv];
    var e := i + 1 + |body|;
    assert t[i] == t[i..i + |w|][0] == w[0];
    assert t[e] == t[i..i + |w|][1 + |body|] == w[1 + |body|];
    forall k | 0 <= k < |body| ensures t[i + 1 + k] == body[k] {
      assert t[i..i + |w|][1 + k] == w[1 + k];
    }
  }

  lemma DirectiveOfShown(t: string, i: nat, mods: seq<Modifier>, conv: char)
    requires Canonical(mods) && IsConversion(conv) && WrittenAt(t, i, Show(Directive(mods, conv)))
    ensures i + 1 + |ShowModifiers(mods)| < |t| && t[i] == '%'
    ensures Lex(t, i + 1) == Lexed(mods, i + 1 + |ShowModifiers(mods)|)
    ensures t[i + 1 + |ShowModifiers(mods)|] == conv
  {
    var body := ShowModifiers(mods);
    hide ShowModifiers;
    hide Canonical;
    hide WrittenAt;
    hide Lex;
    hide TokenAt;
    hide IsConversion;
    DirectiveParts(t, i, body, conv);
    ConversionIsNoModifier(t, i + 1 + |body|);
    LexOfShown(t, i + 1, mods);
  }

  lemma ConversionIsNoModifier(t: string, i: nat)
    requires i < |t| && IsConversion(t[i])
    ensures TokenAt(t, i).NotModifier?
  {
  }

  /** A legible item written at `i` is the first one parsed there. */
  lemma FirstOfShown(t: string, i: nat, item: Item)
    requires Legible(item) && WrittenAt(t, i, Show(item))
    ensures i < |t| && Parse(t, i) == [item] + Parse(t, i + |Show(item)|)
  {
    hide Parse;
    hide ShowModifiers;
    hide Canonical;
    hide Lex;
    hide IsConversion;
    hide WrittenAt;
    match item {
      case Literal(ch) =>
        WrittenFits(t, i, [ch]);
        ParseStep(t, i);
      case Directive(mods, conv) =>
        DirectiveOfShown(t, i, mods, conv);
        ParseStep(t, i);
    }
  }

  ghost predicate AllLegible(items: seq<Item>) {
    forall k :: 0 <= k < |items| ==> Legible(items[k])
  }

  lemma LegibleTail(items: seq<Item>)
    requires AllLegible(items) && items != []
    ensures Legible(items[0]) && AllLegible(items[1..]) && items == [items[0]] + items[1..]
    ensures ShowAll(items) == Show(items[0]) + ShowAll(items[1..])
  {
    hide Legible;
    hide Show;
  }

  lemma {:induction false} ParseOfShownAt(t: string, i: nat, items: seq<Item>)
    requires i <= |t| && t[i..] == ShowAll(items) && AllLegible(items)
    ensures Parse(t, i) == items
    decreases |items|
  {
    if items == [] {
      assert i == |t|;
    } else {
      hide Parse;
      hide ShowAll;
      hide AllLegible;
      hide Legible;
      hide Show;
      hide WrittenAt;
      LegibleTail(items);
      RestWritten(t, i, Show(items[0]), ShowAll(items[1..]));
      ParseOfShownAt(t, i + |Show(items[0])|, items[1..]);
      FirstOfShown(t, i, items[0]);
    }
  }

  lemma RestWritten(t: string, i: nat, a: string, b: string)
    requires i <= |t| && t[i..] == a + b
    ensures WrittenAt(t, i, a) && t[i + |a|..] == b
  {
    assert t[i..i + |a|] == t[i..][..|a|] == a;
    assert t[i + |a|..] == t[i..][|a|..] == b;
  }

  /** Every list of literals and canonical directives is what its own writing parses to. */
  lemma ParseOfShown(items: seq<Item>)
    requires AllLegible(items)
    ensures Parse(ShowAll(items), 0) == items
  {
    hide ShowAll;
    var t := ShowAll(items);
    assert t[0..] == t;
    ParseOfShownAt(t, 0, items);
  }

  // ----- Directives of the standard shape -----

  predicate IsFlag(m: Modifier) {
    m.PadDash? || m.PadZero? || m.Alternate?
  }

  /** The last padding flag wins; without one, padding is blank. */
  function LastPad(flags: seq<Modifier>, default: char): char {
    if flags == [] then default
    else LastPad(flags[1..], if flags[0].PadDash? then '-' else if flags[0].PadZero? then '0' else default)
  }

  lemma {:induction false} ApplyConcat(s: Fields, a: seq<Modifier>, b: seq<Modifier>, args: nat -> uint32)
    ensures ApplyAll(s, a + b, args) == ApplyAll(ApplyAll(s, a, args), b, args)
    decreases |a|
  {
    if a == [] {
      assert a + b == b;
    } else {
      assert (a + b)[0] == a[0] && (a + b)[1..] == a[1..] + b;
      ApplyConcat(Apply(s, a[0], args), a[1..], b, args);
    }
  }

  lemma {:induction false} FlagsOnly(s: Fields, flags: seq<Modifier>, args: nat -> uint32)
    requires forall k :: 0 <= k < |flags| ==> IsFlag(flags[k])
    ensures ApplyAll(s, flags, args)
         == s.(padc := LastPad(flags, s.padc), alt := s.alt || Alternate in flags)
    decreases |flags|
  {
    if flags != [] {
      FlagsOnly(Apply(s, flags[0], args), flags[1..], args);
      assert flags == [flags[0]] + flags[1..];
    }
  }

  lemma {:induction false} LongsOnly(s: Fields, n: nat, args: nat -> uint32)
    ensures ApplyAll(s, seq(n, _ => Long), args) == s.(lflag := s.lflag + n)
    decreases n
  {
    if n > 0 {
      assert seq(n, _ => Long)[1..] == seq(n - 1, _ => Long);
      LongsOnly(Apply(s, Long, args), n - 1, args);
    }
  }

  /** How a width or a precision is given, if it is. */
  datatype Amount = Absent | Written(n: nat) | Starred

  function AmountMods(amount: Amount): seq<Modifier> {
    match amount
    case Absent => []
    case Written(n) => [Number(n)]
    case Starred => [Star]
  }

  /** What it amounts to: a star stands for the signed reading of the next argument word. */
  function AmountOf(amount: Amount, word: uint32): int {
    match amount
    case Absent => -1
    case Written(n) => n
    case Starred => if word < 0x8000_0000 then word else word - 0x1_0000_0000
  }

  function AmountWords(amount: Amount): nat {
    if amount.Starred? then 1 else 0
  }

  lemma WidthOnly(s: Fields, width: Amount, args: nat -> uint32)
    requires s.width == -1 && s.precision == -1
    ensures ApplyAll(s, AmountMods(width), args)
         == s.(width := AmountOf(width, args(s.ap)), ap := s.ap + AmountWords(width))
  {
    if !width.Absent? {
      assert AmountMods(width)[1..] == [];
    }
  }

  /** An optional dot and precision. */
  function PrecisionMods(precision: Amount): seq<Modifier> {
    if precision.Absent? then [] else [Dot] + AmountMods(precision)
  }

  lemma PrecisionOnly(s: Fields, precision: Amount, args: nat -> uint32)
    requires s.precision == -1
    ensures ApplyAll(s, PrecisionMods(precision), args)
         == if precision.Absent? then s
            else s.(width := Max(s.width, 0), precision := AmountOf(precision, args(s.ap)),
                    ap := s.ap + AmountWords(precision))
  {
    if !precision.Absent? {
      var m := AmountMods(precision)[0];
      assert PrecisionMods(precision)[1..] == [m] && [m][1..] == [];
      var dotted := Apply(s, Dot, args);
      assert ApplyAll(s, PrecisionMods(precision), args) == ApplyAll(dotted, [m], args);
      assert ApplyAll(dotted, [m], args) == ApplyAll(Apply(dotted, m, args), [], args);
    }
  }

  /** A directive of the standard shape: flags, then a width, then a dot and a precision, then size letters. */
  datatype Shape = Shape(flags: seq<Modifier>, width: Amount, precision: Amount, longs: nat)

  /** Its numbers can be written: a zero would be taken for the padding flag. */
  predicate Writable(shape: Shape) {
    && (forall k :: 0 <= k < |shape.flags| ==> IsFlag(shape.flags[k]))
    && (shape.width.Written? ==> shape.width.n > 0) && (shape.precision.Written? ==> shape.precision.n > 0)
  }

  function Mods(shape: Shape): seq<Modifier> {
    shape.flags + (AmountMods(shape.width) + (PrecisionMods(shape.precision) + seq(shape.longs, _ => Long)))
  }

  function Pad(shape: Shape): char {
    LastPad(shape.flags, ' ')
  }

  /** A precision makes the width at least 0; a width below 0, absent or negative, pads nothing. */
  function Width(shape: Shape, args: nat -> uint32, ap: nat): int {
    var w := AmountOf(shape.width, args(ap));
    if shape.precision.Absent? then w else Max(w, 0)
  }

  function Precision(shape: Shape, args: nat -> uint32, ap: nat): int {
    AmountOf(shape.precision, args(ap + AmountWords(shape.width)))
  }

  /** Where the converted argument is. */
  function ArgumentAt(shape: Shape, ap: nat): nat {
    ap + AmountWords(shape.width) + AmountWords(shape.precision)
  }

  function FieldsOf(shape: Shape, args: nat -> uint32, ap: nat): Fields {
    Fields(Pad(shape), Width(shape, args, ap), Precision(shape, args, ap),
           shape.longs, Alternate in shape.flags, ArgumentAt(shape, ap))
  }

  /**
   The hand-off gives the width and the precision, written in digits or taken from the arguments,
   their standard roles.
   */
  lemma StandardShape(shape: Shape, args: nat -> uint32, ap: nat)
    requires forall k :: 0 <= k < |shape.flags| ==> IsFlag(shape.flags[k])
    ensures ApplyAll(Start(ap), Mods(shape), args) == FieldsOf(shape, args, ap)
  {
    hide ApplyAll;
    hide AmountMods;
    hide AmountOf;
    hide PrecisionMods;
    var w, p, l := AmountMods(shape.width), PrecisionMods(shape.precision), seq(shape.longs, _ => Long);
    var s0 := Start(ap);
    ApplyConcat(s0, shape.flags, w + (p + l), args);
    FlagsOnly(s0, shape.flags, args);
    var s1 := ApplyAll(s0, shape.flags, args);
    ApplyConcat(s1, w, p + l, args);
    WidthOnly(s1, shape.width, args);
    var s2 := ApplyAll(s1, w, args);
    ApplyConcat(s2, p, l, args);
    PrecisionOnly(s2, shape.precision, args);
    LongsOnly(ApplyAll(s2, p, args), shape.longs, args);
    AbsentIsMinusOne(shape.precision, args(ap + AmountWords(shape.width)));
  }

  lemma AbsentIsMinusOne(amount: Amount, word: uint32)
    ensures amount.Absent? ==> AmountOf(amount, word) == -1
  {
  }

  lemma CanonicalConcat(a: seq<Modifier>, b: seq<Modifier>)
    requires Canonical(a) && Canonical(b)
    requires a != [] && a[|a| - 1].Number? && b != [] ==> !b[0].Number? && !b[0].PadZero?
    ensures Canonical(a + b)
  {
    forall k | 0 <= k < |a + b| && (a + b)[k].Number?
      ensures (a + b)[k].n > 0
      ensures k + 1 < |a + b| ==> !(a + b)[k + 1].Number? && !(a + b)[k + 1].PadZero?
    {
      if k < |a| {
        assert (a + b)[k] == a[k];
        assert k + 1 == |a| && b != [] ==> (a + b)[k + 1] == b[0];
      } else {
        assert (a + b)[k] == b[k - |a|];
      }
    }
  }

  lemma StandardCanonical(shape: Shape)
    requires Writable(shape)
    ensures Canonical(Mods(shape))
  {
    var f, w, p, l := shape.flags, AmountMods(shape.width), PrecisionMods(shape.precision), seq(shape.longs, _ => Long);
    assert Canonical(f) && Canonical(w) && Canonical(p) && Canonical(l);
    assert p != [] ==> p[0] == Dot;
    hide Canonical;
    CanonicalConcat(p, l);
    CanonicalConcat(w, p + l);
    CanonicalConcat(f, w + (p + l));
  }

  /** How such a directive is written. */
  function DirectiveText(shape: Shape, conv: char): string {
    Show(Directive(Mods(shape), conv))
  }

  /** Wherever it is written in a format, it converts with exactly these fields, and the rest of the format follows. */
  lemma StandardFormat(t: string, i: nat, shape: Shape, conv: char, args: nat -> uint32, strs: uint32 -> CText, ap: nat)
    requires Writable(shape) && IsConversion(conv) && WrittenAt(t, i, DirectiveText(shape, conv))
    ensures var (text, next) := Convert(conv, FieldsOf(shape, args, ap), args, strs);
      var j := i + |DirectiveText(shape, conv)|;
      j <= |t| && FormatFrom(t, i, args, strs, ap) == text + FormatFrom(t, j, args, strs, next)
  {
    hide Convert;
    hide Mods;
    hide FieldsOf;
    hide FormatFrom;
    hide ApplyAll;
    hide Lex;
    hide Canonical;
    hide ShowModifiers;
    hide IsConversion;
    StandardShape(shape, args, ap);
    StandardCanonical(shape);
    DirectiveOfShown(t, i, Mods(shape), conv);
    FormatStep(t, i, args, strs, ap);
  }
}
