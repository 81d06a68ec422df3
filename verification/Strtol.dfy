/** `strtol` of lib/string.c: what it reads of a text, and the loop that reads it. */
module Strtol {
  import opened Types
  import opened CStrings

  /** The character at `i`, where the NUL stands behind the last one. */
  function CharAt(t: string, i: nat): char {
    if i < |t| then t[i] else '\0'
  }

  /** The value of a digit or letter, or -1. */
  function DigitValue(ch: char): int {
    if '0' <= ch <= '9' then ch as int - '0' as int
    else if 'a' <= ch <= 'z' then ch as int - 'a' as int + 10
    else if 'A' <= ch <= 'Z' then ch as int - 'A' as int + 10
    else -1
  }

  predicate IsDigitIn(ch: char, base: int) {
    0 <= DigitValue(ch) < base
  }

  function SkipBlanks(t: string, i: nat): (e: nat)
    requires i <= |t|
    ensures i <= e <= |t|
    decreases |t| - i
  {
    if i < |t| && (t[i] == ' ' || t[i] == '\t') then SkipBlanks(t, i + 1) else i
  }

  /** Where the digits start, which sign they have, and in which base they are read. */
  datatype Head = Head(start: nat, neg: bool, base: int)

  function SignOf(t: string, i: nat): (nat, bool) {
    if CharAt(t, i) == '+' then (i + 1, false)
    else if CharAt(t, i) == '-' then (i + 1, true)
    else (i, false)
  }

  function PrefixOf(t: string, i: nat, base: int): (nat, int) {
    if (base == 0 || base == 16) && CharAt(t, i) == '0' && CharAt(t, i + 1) == 'x' then (i + 2, 16)
    else if base == 0 && CharAt(t, i) == '0' then (i + 1, 8)
    else if base == 0 then (i, 10)
    else (i, base)
  }

  function HeadOf(t: string, base: int): (h: Head)
    ensures h.start <= |t|
  {
    var (i, neg) := SignOf(t, SkipBlanks(t, 0));
    var (start, b) := PrefixOf(t, i, base);
    Head(start, neg, b)
  }

  /** The end of the longest run of digits of the base from `i`. */
  function RunEnd(t: string, i: nat, base: int): (e: nat)
    requires i <= |t|
    ensures i <= e <= |t| && (e < |t| ==> !IsDigitIn(t[e], base))
    ensures forall k :: i <= k < e ==> IsDigitIn(t[k], base)
    decreases |t| - i
  {
    if i < |t| && IsDigitIn(t[i], base) then RunEnd(t, i + 1, base) else i
  }

  /** The number written by a run of digits. */
  function Value(t: string, base: int): int {
    if t == "" then 0 else Value(t[..|t| - 1], base) * base + DigitValue(t[|t| - 1])
  }

  /** The number read and the index of the first character left unread. */
  function Parsed(t: string, base: int): (int, nat) {
    var h := HeadOf(t, base);
    var e := RunEnd(t, h.start, h.base);
    var val := Value(t[h.start..e], h.base);
    (if h.neg then -val else val, e)
  }

  /** What a call makes of a text: the source does not detect that its 32-bit `val` overflows. */
  datatype Outcome = Overflow | Read(val: int, end: nat)

  function Reading(t: string, base: int): (r: Outcome)
    ensures r.Read? ==> -0x8000_0000 < r.val < 0x8000_0000 && (r.val, r.end) == Parsed(t, base)
  {
    var (v, e) := Parsed(t, base);
    if -0x8000_0000 < v < 0x8000_0000 then Read(v, e) else Overflow
  }

  /** The digits that the loop of a call accumulates. */
  function RunOf(t: string, base: int): string {
    var h := HeadOf(t, base);
    t[h.start..RunEnd(t, h.start, h.base)]
  }

  lemma TimesGrows(a: int, b: int)
    requires 0 <= a && 1 <= b
    ensures a <= a * b
  {
    assert a * b == a + a * (b - 1);
  }

  /** No prefix of a run of digits is worth more than the run. */
  lemma {:induction false} ValueGrows(t: string, base: int, k: nat)
    requires k <= |t| && forall i :: 0 <= i < |t| ==> IsDigitIn(t[i], base)
    ensures 0 <= Value(t[..k], base) <= Value(t, base)
  {
    hide DigitValue;
    if t == "" {
      assert t[..k] == "";
    } else {
      var front := t[..|t| - 1];
      ValueGrows(front, base, Min(k, |t| - 1));
      assert front[..|t| - 1] == front;
      assert IsDigitIn(t[|t| - 1], base);
      TimesGrows(Value(front, base), base);
      if k < |t| {
        assert front[..k] == t[..k];
      } else {
        assert t[..k] == t;
      }
    }
  }

  /** The loop overflows exactly when some step of it does: when the digits so far exceed 0x7FFFFFFF. */
  lemma OverflowExact(t: string, base: int)
    ensures Reading(t, base).Overflow? <==>
            exists k | 0 <= k <= |RunOf(t, base)| :: Value(RunOf(t, base)[..k], HeadOf(t, base).base) > 0x7FFF_FFFF
  {
    hide HeadOf;
    hide RunEnd;
    hide Value;
    var run, b := RunOf(t, base), HeadOf(t, base).base;
    assert run[..|run|] == run;
    assert forall i :: 0 <= i < |run| ==> IsDigitIn(run[i], b);
    RunNonNegative(run, b);
    forall k | 0 <= k <= |run| ensures Value(run[..k], b) <= Value(run, b) {
      ValueGrows(run, b, k);
    }
  }

  /** The blanks, the sign and the prefix in front of the digits. */
  method ReadHead(s: string, base0: int) returns (p: nat, neg: bool, base: int)
    requires Terminated(s, 0)
    ensures Head(p, neg, base) == HeadOf(Text(s, 0), base0)
  {
    ghost var t := Text(s, 0);
    assert |t| == End(s, 0) && forall i :: 0 <= i <= |t| ==> s[i] == CharAt(t, i);
    hide Text;
    p, neg, base := 0, false, base0;
    while s[p] == ' ' || s[p] == '\t'
      invariant p <= |t| && SkipBlanks(t, p) == SkipBlanks(t, 0)
      decreases |t| - p
    {
      p := p + 1;
    }
    if s[p] == '+' {
      p := p + 1;
    } else if s[p] == '-' {
      p, neg := p + 1, true;
    }
    assert SignOf(t, SkipBlanks(t, 0)) == (p, neg);
    if (base == 0 || base == 16) && s[p] == '0' && s[p + 1] == 'x' {
      p, base := p + 2, 16;
    } else if base == 0 && s[p] == '0' {
      p, base := p + 1, 8;
    } else if base == 0 {
      base := 10;
    }
  }

  /** The number read must fit a `long`; then every step fits. */
  method Strtol(s: string, base0: int) returns (val: int32, end: nat)
    requires Terminated(s, 0)
    requires Reading(Text(s, 0), base0) != Overflow
    ensures Reading(Text(s, 0), base0) == Read(val, end)
    ensures (val, end) == Parsed(Text(s, 0), base0)
  {
    hide HeadOf;
    hide RunEnd;
    hide Value;
    hide Text;
    var p, neg, base := ReadHead(s, base0);
    ghost var t := Text(s, 0);
    ghost var h := HeadOf(t, base0);
    RunNonNegative(t[p..RunEnd(t, p, base)], base);
    val, end := ReadDigits(s, p, base);
    val := if neg then -val else val;
  }

  lemma RunNonNegative(run: string, base: int)
    requires forall i :: 0 <= i < |run| ==> IsDigitIn(run[i], base)
    ensures 0 <= Value(run, base)
  {
    ValueGrows(run, base, 0);
  }

  /** The run of digits ahead, and the character that ends it. */
  lemma RunAhead(s: string, start: nat, base: int) returns (run: string, stop: nat)
    requires Terminated(s, 0) && start <= |Text(s, 0)|
    ensures stop == RunEnd(Text(s, 0), start, base) && run == Text(s, 0)[start..stop]
    ensures stop < |s| && !IsDigitIn(s[stop], base)
    ensures forall k :: 0 <= k < |run| ==> run[k] == s[start + k] && IsDigitIn(run[k], base)
  {
    var t := Text(s, 0);
    NulIsNoDigit();
    hide DigitValue;
    assert |t| == End(s, 0) && forall i :: 0 <= i <= |t| ==> s[i] == CharAt(t, i);
    stop := RunEnd(t, start, base);
    run := t[start..stop];
  }

  /** The digit loop. */
  method ReadDigits(s: string, start: nat, base: int) returns (val: int32, p: nat)
    requires Terminated(s, 0) && start <= |Text(s, 0)|
    requires Value(Text(s, 0)[start..RunEnd(Text(s, 0), start, base)], base) < 0x8000_0000
    ensures p == RunEnd(Text(s, 0), start, base) && val == Value(Text(s, 0)[start..p], base) && 0 <= val
  {
    hide DigitValue;
    hide Text;
    hide RunEnd;
    hide Value;
    ghost var run, stop := RunAhead(s, start, base);
    assert run[..0] == "" && run[..|run|] == run;
    EmptyRun(base);
    p, val := start, 0;
    while true
      invariant start <= p <= stop
      invariant 0 <= val == Value(run[..p - start], base)
      decreases stop - p
    {
      assert p < stop ==> s[p] == run[p - start];
      var dig := DigitValue(s[p]);
      if dig < 0 || dig >= base {
        break;
      }
      RunStep(run, p - start, base);
      p, val := p + 1, val * base + dig;
    }
  }

  lemma EmptyRun(base: int)
    ensures Value("", base) == 0
  {
  }

  lemma NulIsNoDigit()
    ensures DigitValue('\0') == -1
  {
  }

  lemma RunStep(run: string, k: nat, base: int)
    requires k < |run| && forall i :: 0 <= i < |run| ==> IsDigitIn(run[i], base)
    ensures 0 <= Value(run[..k], base) * base + DigitValue(run[k]) == Value(run[..k + 1], base) <= Value(run, base)
  {
    hide DigitValue;
    assert run[..k + 1][..k] == run[..k];
    ValueGrows(run, base, k + 1);
  }
}
