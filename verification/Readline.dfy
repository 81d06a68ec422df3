/**
 The line editor of lib/readline.c on top of the screen.  `Session` is the terminal and the line
 typed so far; the lemmas say that the echo mirrors the line at every moment.
 */
module Readline {
  import opened Types
  import opened ConsoleScreen

  const BUFLEN := 1024
  const DELETE: byte := 0x7f

  predicate IsErase(c: byte) {
    c == BACKSPACE || c == DELETE
  }

  predicate EndsLine(c: byte) {
    c == NEWLINE || c == RETURN
  }

  datatype Session = Session(t: Terminal, line: seq<byte>)

  /** One typed character that does not end the line. */
  function Key(s: Session, attr: uint16, c: byte): (s': Session)
    requires Ok(s.t) && attr % 0x100 == 0
    ensures Ok(s'.t)
  {
    if IsErase(c) && |s.line| > 0 then
      Session(Put(s.t, attr, BACKSPACE), s.line[..|s.line| - 1])
    else if c >= SPACE && |s.line| < BUFLEN - 1 then
      Session(Put(s.t, attr, c), s.line + [c])
    else
      s
  }

  function Keys(s: Session, attr: uint16, input: seq<byte>): (s': Session)
    requires Ok(s.t) && attr % 0x100 == 0
    ensures Ok(s'.t)
  {
    if input == [] then s else Key(Keys(s, attr, input[..|input| - 1]), attr, input[|input| - 1])
  }

  /** How a run ends: with a line, or still waiting when the input so far holds no line end. */
  datatype Outcome = Line(used: nat) | Waiting

  /** The erase and the store branch of the loop; `taken` tells whether one of them applied. */
  method EditKey(screen: Screen, buf: array<byte>, i0: nat, c: byte) returns (taken: bool, i: nat)
    requires screen.Valid() && buf.Length == BUFLEN && buf as object != screen.crt && i0 < BUFLEN
    modifies screen, screen.crt, buf
    ensures screen.Valid() && screen.fg == old(screen.fg) && screen.bg == old(screen.bg) && i < BUFLEN
    ensures Session(screen.Paper(), buf[..i])
         == Key(Session(old(screen.Paper()), old(buf[..i0])), Attr(screen.fg, screen.bg), c)
    ensures taken <==> (IsErase(c) && i0 > 0) || (c >= SPACE && i0 < BUFLEN - 1)
    ensures !taken ==> screen.Paper() == old(screen.Paper()) && i == i0 && buf[..] == old(buf[..])
  {
    hide Attr;
    hide Put;
    taken, i := true, i0;
    if (c == BACKSPACE || c == DELETE) && i > 0 {
      screen.CgaPutc(BACKSPACE);
      i := i - 1;
      assert buf[..i] == old(buf[..i0])[..i];
    } else if c >= SPACE && i < BUFLEN - 1 {
      screen.CgaPutc(c);
      buf[i] := c;
      i := i + 1;
    } else {
      taken := false;
    }
  }

  /**
   `readline` after its prompt.  A run over any input without a line end stops at `Waiting`, so the
   contract describes the state after every keystroke.
   */
  method Readline(screen: Screen, input: seq<byte>, buf: array<byte>) returns (r: Outcome, i: nat)
    requires screen.Valid() && buf.Length == BUFLEN && buf as object != screen.crt
    modifies screen, screen.crt, buf
    ensures screen.Valid() && screen.fg == old(screen.fg) && screen.bg == old(screen.bg)
    ensures match r
      case Waiting =>
        && (forall k :: 0 <= k < |input| ==> !EndsLine(input[k]))
        && i < BUFLEN
        && Session(screen.Paper(), buf[..i]) == Keys(Session(old(screen.Paper()), []), Attr(screen.fg, screen.bg), input)
      case Line(used) =>
        && used < |input| && EndsLine(input[used]) && (forall k :: 0 <= k < used ==> !EndsLine(input[k]))
        && i < BUFLEN && buf[i] == 0
        && var s := Keys(Session(old(screen.Paper()), []), Attr(screen.fg, screen.bg), input[..used]);
           buf[..i] == s.line && screen.Paper() == Put(s.t, Attr(screen.fg, screen.bg), NEWLINE)
    ensures r.Waiting? <==> forall k :: 0 <= k < |input| ==> input[k] != 0x0a && input[k] != 0x0d
    ensures r.Line? ==>
              && r.used < |input| && (input[r.used] == 0x0a || input[r.used] == 0x0d)
              && forall k :: 0 <= k < r.used ==> input[k] != 0x0a && input[k] != 0x0d
    ensures var typed := match r case Waiting => input case Line(used) => input[..used];
      NoStrayDelete(typed) ==> buf[..i] == Typed(typed)
  {
    hide Attr;
    hide Put;
    hide Key;
    hide Typed;
    hide NoStrayDelete;
    ghost var start := Session(screen.Paper(), []);
    ghost var attr := Attr(screen.fg, screen.bg);
    i := 0;
    var n := 0;
    assert buf[..0] == [];
    while n < |input|
      invariant 0 <= n <= |input| && i < BUFLEN
      invariant screen.Valid() && screen.fg == old(screen.fg) && screen.bg == old(screen.bg)
      invariant forall k :: 0 <= k < n ==> !EndsLine(input[k])
      invariant Session(screen.Paper(), buf[..i]) == Keys(start, attr, input[..n])
    {
      assert input[..n + 1][..n] == input[..n];
      var c := input[n];
      var taken;
      taken, i := EditKey(screen, buf, i, c);
      if !taken && (c == NEWLINE || c == RETURN) {
        ghost var line := buf[..i];
        screen.CgaPutc(NEWLINE);
        buf[i] := 0;
        assert buf[..i] == line;
        LineIsTyped(start.t, attr, input[..n]);
        return Line(n), i;
      }
      n := n + 1;
    }
    assert input[..n] == input;
    LineIsTyped(start.t, attr, input);
    r := Waiting;
  }

  // ----- The line is what was typed -----

  /** The line an editor should hold after an input: the 1023 first printing characters, less the erased ones. */
  function Typed(input: seq<byte>): seq<byte> {
    if input == [] then []
    else
      var line, c := Typed(input[..|input| - 1]), input[|input| - 1];
      if c == 0x08 || c == 0x7f then (if line == [] then [] else line[..|line| - 1])
      else if c < 0x20 || |line| == 1023 then line
      else line + [c]
  }

  /** The line this editor holds: a delete on an empty line is stored like a printing character. */
  function Edited(input: seq<byte>): seq<byte> {
    if input == [] then []
    else
      var line, c := Edited(input[..|input| - 1]), input[|input| - 1];
      if (c == 0x08 || c == 0x7f) && line != [] then line[..|line| - 1]
      else if c < 0x20 || |line| == 1023 then line
      else line + [c]
  }

  /** For every input, whatever the screen shows. */
  lemma {:induction false} LineIsEdited(t: Terminal, attr: uint16, input: seq<byte>)
    requires Ok(t) && attr % 0x100 == 0
    ensures Keys(Session(t, []), attr, input).line == Edited(input) && |Edited(input)| <= 1023
    decreases |input|
  {
    hide Put;
    if input != [] {
      LineIsEdited(t, attr, input[..|input| - 1]);
    }
  }

  /** No delete ever meets an empty line. */
  predicate NoStrayDelete(input: seq<byte>) {
    forall n :: 0 <= n < |input| && input[n] == 0x7f ==> Typed(input[..n]) != []
  }

  lemma {:induction false} EditedIsTyped(input: seq<byte>)
    requires NoStrayDelete(input)
    ensures Edited(input) == Typed(input)
    decreases |input|
  {
    if input != [] {
      var front := input[..|input| - 1];
      assert forall n :: 0 <= n < |front| ==> input[..n] == front[..n];
      EditedIsTyped(front);
    }
  }

  lemma LineIsTyped(t: Terminal, attr: uint16, input: seq<byte>)
    requires Ok(t) && attr % 0x100 == 0
    ensures NoStrayDelete(input) ==> Keys(Session(t, []), attr, input).line == Typed(input)
  {
    LineIsEdited(t, attr, input);
    if NoStrayDelete(input) {
      EditedIsTyped(input);
    }
  }

  /** The editor does as it should on an input and on all its beginnings, exactly when no delete meets an empty line. */
  lemma TypedIff(t: Terminal, attr: uint16, input: seq<byte>)
    requires Ok(t) && attr % 0x100 == 0
    ensures (forall n :: 0 <= n <= |input| ==> Keys(Session(t, []), attr, input[..n]).line == Typed(input[..n]))
            <==> NoStrayDelete(input)
  {
    forall n | 0 <= n <= |input| ensures Keys(Session(t, []), attr, input[..n]).line == Edited(input[..n]) {
      LineIsEdited(t, attr, input[..n]);
    }
    hide Keys;
    if NoStrayDelete(input) {
      forall n | 0 <= n <= |input| ensures Edited(input[..n]) == Typed(input[..n]) {
        assert forall k :: 0 <= k < n ==> input[..n][..k] == input[..k];
        EditedIsTyped(input[..n]);
      }
    } else {
      var n :| 0 <= n < |input| && input[n] == 0x7f && Typed(input[..n]) == [];
      assert input[..n + 1][..n] == input[..n];
    }
  }

  /** What is typed without erasing is what the line holds. */
  lemma {:induction false} PlainInput(t: Terminal, attr: uint16, input: seq<byte>)
    requires Ok(t) && attr % 0x100 == 0 && |input| <= 1023
    requires forall k :: 0 <= k < |input| ==> input[k] >= 0x20 && input[k] != 0x7f
    ensures Keys(Session(t, []), attr, input).line == input
    decreases |input|
  {
    hide Put;
    if input != [] {
      PlainInput(t, attr, input[..|input| - 1]);
    }
  }

  // ----- The echo mirrors the line -----

  /** Everything typed stands behind the prompt's end `t0.pos`, the rest is untouched, erased or fed in blank. */
  predicate Mirrors(t0: Terminal, s: Session, attr: uint16) {
    && Ok(s.t) && |s.line| < BUFLEN && s.t.pos == t0.pos + |s.line|
    && |t0.cells| <= |s.t.cells| <= Max(|t0.cells|, t0.pos + BUFLEN - 1 + COLS)
    && (|s.t.cells| - |t0.cells|) % COLS == 0
    && (forall k :: 0 <= k < t0.pos && k < |t0.cells| ==> s.t.cells[k] == t0.cells[k])
    && (forall k :: 0 <= k < |s.line| ==> s.line[k] >= SPACE && s.t.cells[t0.pos + k] == attr + s.line[k])
    && (forall k :: s.t.pos <= k < |s.t.cells| ==>
          || s.t.cells[k] == attr + SPACE
          || s.t.cells[k] == if k < |t0.cells| then t0.cells[k] else BLANK)
  }

  lemma EraseMirrors(t0: Terminal, s: Session, attr: uint16)
    requires Ok(t0) && attr % 0x100 == 0 && Mirrors(t0, s, attr) && |s.line| > 0
    ensures Mirrors(t0, Session(Put(s.t, attr, BACKSPACE), s.line[..|s.line| - 1]), attr)
  {
  }

  lemma StoreMirrors(t0: Terminal, s: Session, attr: uint16, c: byte)
    requires Ok(t0) && attr % 0x100 == 0 && Mirrors(t0, s, attr) && c >= SPACE && |s.line| < BUFLEN - 1
    ensures Mirrors(t0, Session(Put(s.t, attr, c), s.line + [c]), attr)
  {
  }

  lemma KeyMirrors(t0: Terminal, s: Session, attr: uint16, c: byte)
    requires Ok(t0) && attr % 0x100 == 0 && Mirrors(t0, s, attr)
    ensures Mirrors(t0, Key(s, attr, c), attr)
  {
    assert Ok(s.t);
    hide Mirrors;
    hide Put;
    if IsErase(c) && |s.line| > 0 {
      EraseMirrors(t0, s, attr);
    } else if c >= SPACE && |s.line| < BUFLEN - 1 {
      StoreMirrors(t0, s, attr, c);
    }
  }

  lemma {:induction false} KeysMirror(t0: Terminal, attr: uint16, input: seq<byte>)
    requires Ok(t0) && attr % 0x100 == 0
    ensures Mirrors(t0, Keys(Session(t0, []), attr, input), attr)
    decreases |input|
  {
    hide Key;
    hide Mirrors;
    if input != [] {
      var front := input[..|input| - 1];
      KeysMirror(t0, attr, front);
      KeyMirrors(t0, Keys(Session(t0, []), attr, front), attr, input[|input| - 1]);
    } else {
      EmptyMirrors(t0, attr);
    }
  }

  lemma EmptyMirrors(t0: Terminal, attr: uint16)
    requires Ok(t0)
    ensures Mirrors(t0, Session(t0, []), attr)
  {
  }

  /**
   In screen coordinates, after every input: with the cursor at `p` behind the prompt and `k` lines
   scrolled since, the cursor is at `p + i - 80k`, the line stands on the screen from `p - 80k` on,
   and an erase never finds the cursor at position 0.
   */
  lemma EchoOnScreen(t0: Terminal, attr: uint16, input: seq<byte>)
    requires Ok(t0) && attr % 0x100 == 0
    ensures var s := Keys(Session(t0, []), attr, input);
      var p, k := t0.pos - Top(t0), (|s.t.cells| - |t0.cells|) / COLS;
      var window := s.t.cells[Top(s.t)..];
      && |window| == SIZE
      && s.t.pos - Top(s.t) == p + |s.line| - COLS * k < SIZE
      && 0 <= p - COLS * k
      && (|s.line| > 0 ==> s.t.pos > Top(s.t))
      && forall j :: 0 <= j < |s.line| ==> window[p - COLS * k + j] == attr + s.line[j]
  {
    hide Keys;
    KeysMirror(t0, attr, input);
    var s := Keys(Session(t0, []), attr, input);
    var p, k := t0.pos - Top(t0), (|s.t.cells| - |t0.cells|) / COLS;
    var window := s.t.cells[Top(s.t)..];
    assert COLS * k == |s.t.cells| - |t0.cells|;
    forall j | 0 <= j < |s.line| ensures window[p - COLS * k + j] == attr + s.line[j] {
      assert window[p - COLS * k + j] == s.t.cells[t0.pos + j];
    }
  }

  /** An erase undoes the character before it, even one whose echo scrolled the screen; its cell is blanked. */
  lemma TypeThenErase(s: Session, attr: uint16, c: byte)
    requires Ok(s.t) && attr % 0x100 == 0 && c >= SPACE && c != DELETE && |s.line| < BUFLEN - 1
    ensures var u := Key(Key(s, attr, c), attr, BACKSPACE);
      && u.line == s.line && u.t.pos == s.t.pos
      && |u.t.cells| >= |s.t.cells| && u.t.cells[s.t.pos] == attr + SPACE
      && forall k :: 0 <= k < |s.t.cells| && k != s.t.pos ==> u.t.cells[k] == s.t.cells[k]
  {
    assert (s.line + [c])[..|s.line|] == s.line;
  }
}
