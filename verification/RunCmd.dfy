/**
 The command interpreter of kern/monitor.c: a line is split in place into its whitespace-free runs,
 and the first of them names the command.
 */
module RunCmd {
  import opened Types
  import opened CStrings

  const WHITESPACE := "\t\r\n \0"
  const MAXARGS := 16

  function CommandNames(): seq<string> {
    ["help", "kerninfo", "backtrace"]
  }

  predicate IsBlank(ch: char) {
    ch == '\t' || ch == '\r' || ch == '\n' || ch == ' '
  }

  // ----- Runs -----

  /** A maximal whitespace-free run starts at `i`. */
  predicate IsStart(t: string, i: nat) {
    i < |t| && !IsBlank(t[i]) && (i == 0 || IsBlank(t[i - 1]))
  }

  /** The starts of the runs among the first `n` characters, in order. */
  function StartsBelow(t: string, n: nat): (starts: seq<nat>)
    requires n <= |t|
    ensures |starts| <= n
    ensures forall k :: 0 <= k < |starts| ==> starts[k] < n && IsStart(t, starts[k])
  {
    if n == 0 then [] else StartsBelow(t, n - 1) + (if IsStart(t, n - 1) then [n - 1] else [])
  }

  function Starts(t: string): seq<nat> {
    StartsBelow(t, |t|)
  }

  /** The end of the run that starts at `i`. */
  function RunStop(t: string, i: nat): (e: nat)
    requires i <= |t|
    ensures i <= e <= |t|
    ensures forall k :: i <= k < e ==> !IsBlank(t[k])
    ensures e < |t| ==> IsBlank(t[e])
    decreases |t| - i
  {
    if i < |t| && !IsBlank(t[i]) then RunStop(t, i + 1) else i
  }

  /** The list holds every run's start exactly once, in ascending order. */
  lemma {:induction false} StartsBelowExact(t: string, n: nat)
    requires n <= |t|
    ensures var s := StartsBelow(t, n);
      && (forall k :: 0 <= k < |s| ==> s[k] < n && IsStart(t, s[k]))
      && (forall j, k :: 0 <= j < k < |s| ==> s[j] < s[k])
      && (forall i: nat :: i < n && IsStart(t, i) ==> i in s)
  {
    hide IsStart;
    if n > 0 {
      StartsBelowExact(t, n - 1);
      var front, s := StartsBelow(t, n - 1), StartsBelow(t, n);
      assert front <= s;
      forall i: nat | i < n && IsStart(t, i) ensures i in s {
        if i == n - 1 {
          assert s[|s| - 1] == i;
        } else {
          assert i in front;
        }
      }
    }
  }

  // ----- The interpreter -----

  datatype Outcome = TooMany | Empty | Unknown | Command(index: nat)

  /** `strchr(WHITESPACE, ch)` found something. */
  method IsWhitespace(ch: char) returns (r: bool)
    ensures r == IsBlank(ch)
  {
    assert WHITESPACE[4] == '\0';
    assert Text(WHITESPACE, 0) == "\t\r\n ";
    var found := Strchr(WHITESPACE, 0, ch);
    r := found.Some?;
  }

  /** The line with the blanks before `p` overwritten by NULs. */
  predicate Scanned(now: string, line: string, p: nat)
    requires p <= |line|
  {
    && |now| == |line|
    && (forall i :: 0 <= i < p ==> now[i] == if IsBlank(line[i]) then '\0' else line[i])
    && (forall i :: p <= i < |line| ==> now[i] == line[i])
  }

  /** The character scanned next. */
  lemma ScannedNext(now: string, line: string, p: nat)
    requires Terminated(line, 0) && p <= End(line, 0) && Scanned(now, line, p)
    ensures now[p] == line[p] && (line[p] == '\0' <==> p == End(line, 0))
    ensures p < End(line, 0) ==> Text(line, 0)[p] == line[p]
    ensures p < End(line, 0) && !IsBlank(line[p]) ==> Scanned(now, line, p + 1)
    ensures p < End(line, 0) && IsBlank(line[p]) ==> Scanned(now[p := '\0'], line, p + 1)
  {
  }

  /** The loop over whitespace, which overwrites it. */
  method GobbleBlanks(buf: array<char>, p0: nat, ghost line: string) returns (p: nat)
    requires Terminated(line, 0) && p0 <= End(line, 0) && Scanned(buf[..], line, p0)
    modifies buf
    ensures p0 <= p <= End(line, 0) && Scanned(buf[..], line, p)
    ensures forall i :: p0 <= i < p ==> IsBlank(line[i])
    ensures p < End(line, 0) ==> !IsBlank(line[p])
    ensures StartsBelow(Text(line, 0), p) == StartsBelow(Text(line, 0), p0)
  {
    ghost var t := Text(line, 0);
    assert |t| == End(line, 0);
    p := p0;
    hide Terminated;
    hide End;
    hide Text;
    hide Scanned;
    hide IsBlank;
    while true
      invariant p0 <= p <= End(line, 0) && Scanned(buf[..], line, p)
      invariant forall i :: p0 <= i < p ==> IsBlank(line[i])
      invariant StartsBelow(t, p) == StartsBelow(t, p0)
      decreases End(line, 0) - p
    {
      ScannedNext(buf[..], line, p);
      ghost var now := buf[..];
      assert now[p] == buf[p];
      if buf[p] == '\0' {
        return;
      }
      var blank := IsWhitespace(buf[p]);
      if !blank {
        return;
      }
      buf[p] := '\0';
      assert buf[..] == now[p := '\0'];
      p := p + 1;
    }
  }

  /** The loop over the characters of an argument. */
  method ScanRun(buf: array<char>, p0: nat, ghost line: string) returns (p: nat)
    requires Terminated(line, 0) && p0 < End(line, 0) && Scanned(buf[..], line, p0) && IsStart(Text(line, 0), p0)
    ensures p0 < p <= End(line, 0) && Scanned(buf[..], line, p)
    ensures p == RunStop(Text(line, 0), p0)
    ensures StartsBelow(Text(line, 0), p) == StartsBelow(Text(line, 0), p0) + [p0]
  {
    ghost var t := Text(line, 0);
    assert |t| == End(line, 0);
    p := p0;
    hide Terminated;
    hide End;
    hide Text;
    hide Scanned;
    hide IsBlank;
    while true
      invariant p0 <= p <= End(line, 0) && Scanned(buf[..], line, p)
      invariant RunStop(t, p) == RunStop(t, p0)
      invariant p0 < p ==> !IsBlank(t[p - 1]) && StartsBelow(t, p) == StartsBelow(t, p0) + [p0]
      decreases End(line, 0) - p
    {
      ScannedNext(buf[..], line, p);
      assert buf[..][p] == buf[p];
      if buf[p] == '\0' {
        return;
      }
      var blank := IsWhitespace(buf[p]);
      if blank {
        return;
      }
      p := p + 1;
    }
  }

  /** The first character behind blanks starts a run. */
  lemma RunBehindBlanks(line: string, q: nat, p: nat)
    requires Terminated(line, 0) && q <= p < End(line, 0) && !IsBlank(line[p])
    requires forall i :: q <= i < p ==> IsBlank(line[i])
    requires 0 < q ==> IsBlank(Text(line, 0)[q])
    ensures IsStart(Text(line, 0), p)
    ensures StartsBelow(Text(line, 0), p + 1) == StartsBelow(Text(line, 0), p) + [p]
  {
    var t := Text(line, 0);
    assert forall i :: 0 <= i < |t| ==> t[i] == line[i];
  }

  /** Splitting: the arguments' places in the buffer, or the report of too many. */
  method Split(buf: array<char>) returns (tooMany: bool, argv: seq<nat>)
    requires Terminated(buf[..], 0)
    modifies buf
    ensures var line := old(buf[..]);
      var t := Text(line, 0);
      && (tooMany <==> |Starts(t)| >= MAXARGS)
      && (!tooMany ==> argv == Starts(t) && Scanned(buf[..], line, |t|))
      && (tooMany ==> argv == Starts(t)[..MAXARGS - 1] && Scanned(buf[..], line, Starts(t)[MAXARGS - 1]))
  {
    ghost var line := buf[..];
    ghost var t := Text(line, 0);
    assert |t| == End(line, 0) && Scanned(line, line, 0);
    argv := [];
    var p := 0;
    hide Terminated;
    hide End;
    hide Text;
    hide Scanned;
    hide IsBlank;
    hide IsStart;
    hide StartsBelow;
    NoStarts(t);
    while true
      invariant p <= |t| && Scanned(buf[..], line, p)
      invariant 0 < p < |t| ==> IsBlank(t[p])
      invariant argv == StartsBelow(t, p) && |argv| < MAXARGS
      decreases |t| - p
    {
      ghost var q := p;
      p := GobbleBlanks(buf, p, line);
      ScannedNext(buf[..], line, p);
      assert buf[..][p] == buf[p];
      if buf[p] == '\0' {
        return false, argv;
      }
      RunBehindBlanks(line, q, p);
      if |argv| == MAXARGS - 1 {
        SixteenRuns(t, p, argv);
        return true, argv;
      }
      argv := argv + [p];
      p := ScanRun(buf, p, line);
    }
  }

  lemma {:induction false} StartsGrow(t: string, m: nat, n: nat)
    requires m <= n <= |t|
    ensures StartsBelow(t, m) <= StartsBelow(t, n)
    decreases n
  {
    if m < n {
      StartsGrow(t, m, n - 1);
    }
  }

  lemma NoStarts(t: string)
    ensures StartsBelow(t, 0) == []
  {
  }

  /** A run behind fifteen others is one too many. */
  lemma SixteenRuns(t: string, p: nat, argv: seq<nat>)
    requires p < |t| && argv == StartsBelow(t, p) && |argv| == MAXARGS - 1 && StartsBelow(t, p + 1) == argv + [p]
    ensures |Starts(t)| >= MAXARGS && argv == Starts(t)[..MAXARGS - 1] && Starts(t)[MAXARGS - 1] == p
  {
    hide StartsBelow;
    StartsGrow(t, p + 1, |t|);
  }

  /** After a split, each argument is a NUL-terminated string: exactly its run of the original line. */
  lemma ArgumentText(now: string, line: string, i: nat)
    requires Terminated(line, 0) && Scanned(now, line, End(line, 0)) && IsStart(Text(line, 0), i)
    ensures Terminated(now, i) && Text(now, i) == Text(line, 0)[i..RunStop(Text(line, 0), i)]
  {
    var t := Text(line, 0);
    var e := RunStop(t, i);
    assert now[e] == '\0';
    assert forall k :: i <= k < e ==> now[k] == t[k] && now[k] != '\0';
  }

  /** The first run of a line that has one. */
  function FirstRun(t: string): string
    requires Starts(t) != []
  {
    t[Starts(t)[0]..RunStop(t, Starts(t)[0])]
  }

  /** The lookup loop: the first command whose name is the text at `at`. */
  method Lookup(now: string, at: nat) returns (r: Outcome)
    requires Terminated(now, at)
    ensures match r
      case Command(index) =>
        && index < |CommandNames()| && CommandNames()[index] == Text(now, at)
        && Text(now, at) !in CommandNames()[..index]
      case Unknown => Text(now, at) !in CommandNames()
      case _ => false
  {
    var names := CommandNames();
    ghost var name := Text(now, at);
    for i := 0 to |names|
      invariant name !in names[..i]
    {
      NamesAreText(i);
      hide CommandNames;
      hide Text;
      var order := Strcmp(now, at, names[i] + "\0", 0);
      if order == 0 {
        return Command(i);
      }
      assert names[..i + 1] == names[..i] + [names[i]];
    }
    assert names[..|names|] == names;
    r := Unknown;
  }

  /** Nothing but blanks stands in front of the first run. */
  lemma {:induction false} BlankBefore(t: string, n: nat, i: nat)
    requires n <= |t|
    ensures StartsBelow(t, n) == [] ==> forall k :: 0 <= k < n ==> IsBlank(t[k])
    ensures StartsBelow(t, n) != [] && StartsBelow(t, n)[0] == i ==> forall k :: 0 <= k < i ==> IsBlank(t[k])
  {
    hide IsBlank;
    if n > 0 {
      BlankBefore(t, n - 1, i);
    }
  }

  /**
   `runcmd` up to the call of the command: nothing runs with sixteen arguments or more, and otherwise
   a command runs exactly when its name is the first run of the line.
   */
  method Runcmd(buf: array<char>) returns (r: Outcome, argv: seq<nat>)
    requires Terminated(buf[..], 0)
    modifies buf
    ensures var line := old(buf[..]);
      var t := Text(line, 0);
      && (r == TooMany <==> |Starts(t)| >= 16)
      && (r == Empty <==> Starts(t) == [])
      && (r != TooMany ==> argv == Starts(t) && Scanned(buf[..], line, |t|))
      && (r == TooMany ==> argv == Starts(t)[..MAXARGS - 1] && Scanned(buf[..], line, Starts(t)[MAXARGS - 1]))
      && (r.Unknown? ==> FirstRun(t) !in CommandNames())
      && (r.Command? ==>
            && r.index < |CommandNames()| && CommandNames()[r.index] == FirstRun(t)
            && FirstRun(t) !in CommandNames()[..r.index])
      && (r.Unknown? || r.Command? ==>
            var name := t[argv[0]..RunStop(t, argv[0])];
            && Terminated(buf[..], argv[0]) && Text(buf[..], argv[0]) == name
            && (forall i :: 0 <= i < argv[0] ==> IsBlank(t[i]))
            && (r.Unknown? <==> name !in CommandNames())
            && (r.Command? ==> r.index < |CommandNames()| && CommandNames()[r.index] == name))
  {
    ghost var line := buf[..];
    ghost var t := Text(line, 0);
    var tooMany;
    tooMany, argv := Split(buf);
    hide CommandNames;
    if tooMany {
      return TooMany, argv;
    }
    if |argv| == 0 {
      return Empty, argv;
    }
    ArgumentText(buf[..], line, argv[0]);
    BlankBefore(t, |t|, argv[0]);
    r := Lookup(buf[..], argv[0]);
  }

  lemma NamesAreText(i: nat)
    requires i < |CommandNames()|
    ensures Terminated(CommandNames()[i] + "\0", 0) && Text(CommandNames()[i] + "\0", 0) == CommandNames()[i]
  {
    NulEnds(CommandNames()[i]);
  }

  /** The arguments a command receives are the runs of the line, in order, each maximal and whole. */
  lemma ArgumentsAreRuns(now: string, line: string, k: nat)
    requires Terminated(line, 0) && Scanned(now, line, End(line, 0)) && k < |Starts(Text(line, 0))|
    ensures var t := Text(line, 0);
      var i := Starts(t)[k];
      var e := RunStop(t, i);
      && Terminated(now, i) && Text(now, i) == t[i..e]
      && i < e && (i == 0 || IsBlank(t[i - 1])) && (e == |t| || IsBlank(t[e]))
      && forall j :: i <= j < e ==> !IsBlank(t[j])
  {
    var t := Text(line, 0);
    ArgumentText(now, line, Starts(t)[k]);
  }
}
