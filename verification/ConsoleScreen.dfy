/**
 The text screen of kern/console.c.  An ideal terminal keeps every cell ever written in one growing
 transcript; the 25 x 80 screen is the window of its last 2000 cells.
 */
module ConsoleScreen {
  import opened Types

  const COLS := 80
  const SIZE := 2000

  const BACKSPACE: byte := 0x08
  const TAB: byte := 0x09
  const NEWLINE: byte := 0x0a
  const RETURN: byte := 0x0d
  const SPACE: byte := 0x20

  type colour = x: int | 0 <= x < 16

  /** What scrolls in at the bottom: blanks in grey on black. */
  const BLANK: uint16 := 0x0720

  function Attr(fg: colour, bg: colour): (a: uint16)
    ensures a % 0x100 == 0
  {
    if fg == 0 && bg == 0 then 0x0700 else fg * 0x100 + bg * 0x1000
  }

  /** A character in its colours: the low byte of the attribute is free for it. */
  function Cell(attr: uint16, c: byte): uint16
    requires attr % 0x100 == 0
  {
    attr + c
  }

  // ----- The ideal terminal -----

  /** All cells ever shown, oldest first, and the cursor's place among them. */
  datatype Terminal = Terminal(cells: seq<uint16>, pos: nat)

  /** The first cell still on the screen. */
  function Top(t: Terminal): int {
    |t.cells| - SIZE
  }

  predicate Ok(t: Terminal) {
    0 <= Top(t) <= t.pos < |t.cells| && Top(t) % COLS == 0
  }

  function Blanks(): (b: seq<uint16>)
    ensures |b| == COLS && forall k :: 0 <= k < COLS ==> b[k] == BLANK
  {
    seq(COLS, _ => BLANK)
  }

  /** Paper is fed by one line when the cursor has run off the end. */
  function Feed(t: Terminal): Terminal {
    if t.pos >= |t.cells| then Terminal(t.cells + Blanks(), t.pos) else t
  }

  function Write(t: Terminal, at: int, cell: uint16, pos: nat): Terminal
    requires 0 <= at < |t.cells|
  {
    Terminal(t.cells[at := cell], pos)
  }

  /** What a character other than the tab does before any feed. */
  function Strike(t: Terminal, attr: uint16, c: byte): (t': Terminal)
    requires Ok(t) && attr % 0x100 == 0
    ensures |t'.cells| == |t.cells| && Top(t) <= t'.pos < |t.cells| + COLS
  {
    if c == BACKSPACE then
      if t.pos > Top(t) then Write(t, t.pos - 1, Cell(attr, SPACE), t.pos - 1) else t
    else if c == NEWLINE then
      LineStart(t.pos + COLS, Top(t));
      t.(pos := LineOf(t.pos + COLS))
    else if c == RETURN then
      LineStart(t.pos, Top(t));
      t.(pos := LineOf(t.pos))
    else
      Write(t, t.pos, Cell(attr, c), t.pos + 1)
  }

  /** Where the line of a position starts. */
  function LineOf(pos: nat): (start: nat)
    ensures start <= pos < start + COLS
  {
    pos - pos % COLS
  }

  /** Going back to the start of a line stays at or below any line start above it, and depends on the distance only. */
  lemma LineStart(pos: nat, top: nat)
    requires top <= pos && top % COLS == 0
    ensures top <= LineOf(pos) == top + LineOf(pos - top)
  {
    var q, r, k := pos / COLS, pos % COLS, top / COLS;
    assert pos == COLS * q + r && top == COLS * k;
    Quotient(q - k, r, pos - top);
  }

  /** A number is taken apart into multiples of the line width in one way only. */
  lemma Quotient(q: int, r: int, x: int)
    requires x == COLS * q + r && 0 <= r < COLS
    ensures x % COLS == r
  {
  }

  // The same in screen coordinates.

  function StruckPos(pos: nat, c: byte): (p: nat)
    requires pos < SIZE
    ensures p < SIZE + COLS
  {
    if c == BACKSPACE then (if pos > 0 then pos - 1 else pos)
    else if c == NEWLINE then LineOf(pos + COLS)
    else if c == RETURN then LineOf(pos)
    else pos + 1
  }

  function StruckCells(cells: seq<uint16>, pos: nat, attr: uint16, c: byte): (r: seq<uint16>)
    requires |cells| >= SIZE > pos && attr % 0x100 == 0
    ensures |r| == |cells|
  {
    var top := |cells| - SIZE;
    if c == BACKSPACE then (if pos > 0 then cells[top + (pos - 1) := Cell(attr, SPACE)] else cells)
    else if c == NEWLINE || c == RETURN then cells
    else cells[top + pos := Cell(attr, c)]
  }

  lemma StrikeInWindow(cells: seq<uint16>, pos: nat, attr: uint16, c: byte)
    requires |cells| >= SIZE && (|cells| - SIZE) % COLS == 0 && pos < SIZE && attr % 0x100 == 0
    ensures var top := |cells| - SIZE;
      Strike(Terminal(cells, top + pos), attr, c) ==
      Terminal(StruckCells(cells, pos, attr, c), top + StruckPos(pos, c))
  {
    hide LineOf;
    LineStart(|cells| - SIZE + pos + COLS, |cells| - SIZE);
    LineStart(|cells| - SIZE + pos, |cells| - SIZE);
  }

  function PutPlain(t: Terminal, attr: uint16, c: byte): (t': Terminal)
    requires Ok(t) && attr % 0x100 == 0
    ensures Ok(t')
  {
    Feed(Strike(t, attr, c))
  }

  function Spaces(t: Terminal, attr: uint16, n: nat): (t': Terminal)
    requires Ok(t) && attr % 0x100 == 0
    ensures Ok(t')
    decreases n
  {
    if n == 0 then t else Spaces(PutPlain(t, attr, SPACE), attr, n - 1)
  }

  /** A tab is five spaces, wherever it stands. */
  function Put(t: Terminal, attr: uint16, c: byte): (t': Terminal)
    requires Ok(t) && attr % 0x100 == 0
    ensures Ok(t')
  {
    if c == TAB then Spaces(t, attr, 5) else PutPlain(t, attr, c)
  }

  // ----- The screen as the kernel keeps it -----

  class Screen {
    const crt: array<uint16>
    var pos: nat
    var fg: colour
    var bg: colour
    ghost var cells: seq<uint16>

    /** The buffer shows the last cells of the transcript. */
    ghost predicate Shows(): (b: bool)
      reads this`cells, crt
      ensures b ==> crt.Length == SIZE <= |cells|
    {
      crt.Length == SIZE <= |cells| && crt[..] == cells[|cells| - SIZE..]
    }

    ghost predicate Valid()
      reads this, crt
    {
      Shows() && pos < SIZE && (|cells| - SIZE) % COLS == 0
    }

    /** The terminal this screen is the window of. */
    ghost function Paper(): (t: Terminal)
      requires Valid()
      reads this, crt
      ensures Ok(t)
    {
      Terminal(cells, |cells| - SIZE + pos)
    }

    constructor (buf: array<uint16>, at: nat)
      requires buf.Length == SIZE && at < SIZE
      ensures Valid() && crt == buf && pos == at && fg == bg == 0 && cells == buf[..]
    {
      crt, pos, fg, bg, cells := buf, at, 0, 0, buf[..];
    }

    method SetBg(c: colour)
      requires Valid()
      modifies this`bg
      ensures Valid() && bg == c
    {
      bg := c;
    }

    method SetFg(c: colour)
      requires Valid()
      modifies this`fg
      ensures Valid() && fg == c
    {
      fg := c;
    }

    method Reset()
      requires Valid()
      modifies this`fg, this`bg
      ensures Valid() && fg == 0 && bg == 0
    {
      fg, bg := 0, 0;
    }

    /** Move all lines up by one and blank the last. */
    method ScrollUp()
      requires Shows() && SIZE <= pos < SIZE + COLS && (|cells| - SIZE) % COLS == 0
      modifies this, crt
      ensures Valid() && cells == old(cells) + Blanks() && pos == old(pos) - COLS
      ensures fg == old(fg) && bg == old(bg)
    {
      for i := 0 to SIZE - COLS
        modifies crt
        invariant forall k :: 0 <= k < i ==> crt[k] == old(crt[k + COLS])
        invariant forall k :: i <= k < SIZE ==> crt[k] == old(crt[k])
      {
        crt[i] := crt[i + COLS];
      }
      for i := SIZE - COLS to SIZE
        modifies crt
        invariant forall k :: 0 <= k < SIZE - COLS ==> crt[k] == old(crt[k + COLS])
        invariant forall k :: SIZE - COLS <= k < i ==> crt[k] == BLANK
      {
        crt[i] := BLANK;
      }
      pos := pos - COLS;
      cells := cells + Blanks();
    }

    /** One cell of the buffer, and of the transcript. */
    method WriteCell(at: nat, cell: uint16)
      requires Shows() && at < SIZE
      modifies this`cells, crt
      ensures Shows() && cells == old(cells)[old(|cells|) - SIZE + at := cell]
    {
      crt[at] := cell;
      cells := cells[|cells| - SIZE + at := cell];
    }

    /** The switch of `cga_putc`, for every character but the tab; may leave the cursor below the screen. */
    method StrikeKey(c: byte)
      requires Valid() && c != TAB
      modifies this, crt
      ensures Shows() && |cells| == old(|cells|) && pos < SIZE + COLS
      ensures Terminal(cells, |cells| - SIZE + pos) == Strike(old(Paper()), Attr(fg, bg), c)
      ensures fg == old(fg) && bg == old(bg)
    {
      hide Shows;
      hide Attr;
      hide Strike;
      hide StruckCells;
      hide StruckPos;
      StrikeInWindow(cells, pos, Attr(fg, bg), c);
      StrikeCell(c, Attr(fg, bg));
    }

    method StrikeCell(c: byte, attr: uint16)
      requires Shows() && pos < SIZE && attr % 0x100 == 0
      modifies this`cells, this`pos, crt
      ensures Shows() && pos == StruckPos(old(pos), c)
      ensures cells == StruckCells(old(cells), old(pos), attr, c)
    {
      hide Shows;
      hide Cell;
      hide LineOf;
      if c == BACKSPACE {
        if pos > 0 {
          pos := pos - 1;
          WriteCell(pos, Cell(attr, SPACE));
        }
      } else if c == NEWLINE {
        pos := pos + COLS;
        pos := LineOf(pos);
      } else if c == RETURN {
        pos := LineOf(pos);
      } else {
        WriteCell(pos, Cell(attr, c));
        pos := pos + 1;
      }
    }

    /** `cga_putc`: the screen after the call is the window of the terminal after the character. */
    method CgaPutc(c: byte)
      requires Valid()
      modifies this, crt
      ensures Valid() && Paper() == Put(old(Paper()), Attr(fg, bg), c)
      ensures fg == old(fg) && bg == old(bg)
      decreases c == TAB
    {
      hide Strike;
      hide Attr;
      if c == TAB {
        CgaPutc(SPACE);
        CgaPutc(SPACE);
        CgaPutc(SPACE);
        CgaPutc(SPACE);
        CgaPutc(SPACE);
        FiveSpaces(old(Paper()), Attr(fg, bg));
      } else {
        StrikeKey(c);
      }
      if pos >= SIZE {
        ScrollUp();
      }
    }

    ghost function View(): (d: Display)
      requires Valid()
      reads this, crt
      ensures Ok(d.t)
    {
      Display(Paper(), fg, bg)
    }

    /** A run of the display: the 2000 cells are the last 2000 of the transcript that the run writes. */
    method Perform(ops: seq<Op>)
      requires Valid()
      modifies this, crt
      ensures Valid() && View() == Run(old(View()), ops)
      ensures var t := Run(old(View()), ops).t;
        crt[..] == t.cells[Top(t)..] && pos == t.pos - Top(t)
    {
      hide Do;
      assert ops[0..] == ops;
      for i := 0 to |ops|
        invariant Valid() && Run(View(), ops[i..]) == Run(old(View()), ops)
      {
        ghost var was := View();
        assert ops[i..][1..] == ops[i + 1..];
        PerformOne(ops[i]);
        assert Run(was, ops[i..]) == Run(Do(was, ops[i]), ops[i + 1..]);
      }
    }

    method PerformOne(op: Op)
      requires Valid()
      modifies this, crt
      ensures Valid() && View() == Do(old(View()), op)
    {
      hide Put;
      hide Attr;
      match op {
        case Type(c) => CgaPutc(c);
        case SetFg(colour) => SetFg(colour);
        case SetBg(colour) => SetBg(colour);
        case ResetColours => Reset();
      }
    }
  }

  lemma FiveSpaces(t: Terminal, attr: uint16)
    requires Ok(t) && attr % 0x100 == 0
    ensures var t1 := PutPlain(t, attr, SPACE);
      var t2 := PutPlain(t1, attr, SPACE);
      var t3 := PutPlain(t2, attr, SPACE);
      var t4 := PutPlain(t3, attr, SPACE);
      Put(t, attr, TAB) == PutPlain(t4, attr, SPACE)
  {
    hide PutPlain;
    var t2 := PutPlain(PutPlain(t, attr, SPACE), attr, SPACE);
    assert Spaces(t, attr, 5) == Spaces(t2, attr, 3);
    var t4 := PutPlain(PutPlain(t2, attr, SPACE), attr, SPACE);
    assert Spaces(t2, attr, 3) == Spaces(t4, attr, 1);
  }

  // ----- What each character does -----

  /** The line fed when the cursor has run off the end: 80 grey blanks. */
  predicate FedOrNot(before: seq<uint16>, after: seq<uint16>, pos: nat) {
    if pos < |before| then after == before
    else
      && |after| == |before| + 80 && after[..|before|] == before
      && forall k :: |before| <= k < |after| ==> after[k] == 0x0720
  }

  /** A newline takes the cursor to the start of the next line, wherever it stood, and changes no cell. */
  lemma NewlineMoves(t: Terminal, attr: uint16)
    requires Ok(t) && attr % 0x100 == 0
    ensures var u := Put(t, attr, 0x0a);
      && t.pos < u.pos <= t.pos + 80 && (u.pos - Top(t)) % 80 == 0 && (u.pos - Top(u)) % 80 == 0
      && FedOrNot(t.cells, u.cells, u.pos)
  {
    LineStart(t.pos + COLS, Top(t));
    LineIsWhole(t.pos + COLS - Top(t));
    LineIsWhole(t.pos + COLS);
    hide LineOf;
  }

  /** A carriage return takes it to the start of its own line, and changes nothing else. */
  lemma ReturnMoves(t: Terminal, attr: uint16)
    requires Ok(t) && attr % 0x100 == 0
    ensures var u := Put(t, attr, 0x0d);
      t.pos - 80 < u.pos <= t.pos && (u.pos - Top(t)) % 80 == 0 && u.cells == t.cells
  {
    LineStart(t.pos, Top(t));
    LineIsWhole(t.pos - Top(t));
    hide LineOf;
  }

  lemma LineIsWhole(x: nat)
    ensures LineOf(x) % COLS == 0
  {
    Quotient(x / COLS, 0, LineOf(x));
  }

  /** A backspace steps back and blanks the cell, except at the top left corner. */
  lemma BackspaceMoves(t: Terminal, attr: uint16)
    requires Ok(t) && attr % 0x100 == 0
    ensures Put(t, attr, 0x08)
         == if t.pos > Top(t) then Terminal(t.cells[t.pos - 1 := attr + 0x20], t.pos - 1) else t
  {
    hide LineOf;
  }

  /** Any other character but the tab is written in its colours at the cursor, which moves on. */
  lemma CharacterMoves(t: Terminal, attr: uint16, c: byte)
    requires Ok(t) && attr % 0x100 == 0 && c != 0x08 && c != 0x09 && c != 0x0a && c != 0x0d
    ensures var u := Put(t, attr, c);
      u.pos == t.pos + 1 && FedOrNot(t.cells[t.pos := attr + c], u.cells, u.pos)
  {
    hide LineOf;
  }

  /** A tab is five blanks at the cursor, on the next line if need be. */
  lemma TabMoves(t: Terminal, attr: uint16)
    requires Ok(t) && attr % 0x100 == 0
    ensures var u := Put(t, attr, 0x09);
      && u.pos == t.pos + 5 && |u.cells| == |t.cells| + (if u.pos < |t.cells| then 0 else 80)
      && forall k :: 0 <= k < |u.cells| ==>
           u.cells[k] == if t.pos <= k < t.pos + 5 then attr + 0x20 else if k < |t.cells| then t.cells[k] else 0x0720
  {
    SpacesMove(t, attr, 5);
  }

  lemma {:induction false} SpacesMove(t: Terminal, attr: uint16, n: nat)
    requires Ok(t) && attr % 0x100 == 0 && n <= 80
    ensures var u := Spaces(t, attr, n);
      && u.pos == t.pos + n && |u.cells| == |t.cells| + (if u.pos < |t.cells| then 0 else 80)
      && forall k :: 0 <= k < |u.cells| ==>
           u.cells[k] == if t.pos <= k < t.pos + n then attr + 0x20 else if k < |t.cells| then t.cells[k] else 0x0720
    decreases n
  {
    hide PutPlain;
    if n > 0 {
      assert Put(t, attr, SPACE) == PutPlain(t, attr, SPACE);
      CharacterMoves(t, attr, SPACE);
      SpacesMove(PutPlain(t, attr, SPACE), attr, n - 1);
    }
  }

  /** Foreground in the low half of the high byte, background in its high half; black on black is grey. */
  lemma AttrHalves(fg: colour, bg: colour)
    ensures var a := Attr(fg, bg);
      a % 0x100 == 0 && a / 0x1000 == bg && a / 0x100 % 16 == if fg == 0 && bg == 0 then 7 else fg
  {
  }

  // ----- Every run of the display -----

  datatype Op = Type(c: byte) | SetFg(fg: colour) | SetBg(bg: colour) | ResetColours

  datatype Display = Display(t: Terminal, fg: colour, bg: colour)

  function Do(d: Display, op: Op): (d': Display)
    requires Ok(d.t)
    ensures Ok(d'.t)
  {
    match op
    case Type(c) => d.(t := Put(d.t, Attr(d.fg, d.bg), c))
    case SetFg(fg) => d.(fg := fg)
    case SetBg(bg) => d.(bg := bg)
    case ResetColours => d.(fg := 0, bg := 0)
  }

  function Run(d: Display, ops: seq<Op>): (d': Display)
    requires Ok(d.t)
    ensures Ok(d'.t)
    decreases |ops|
  {
    if ops == [] then d else Run(Do(d, ops[0]), ops[1..])
  }

  /** `t'` comes later than `t`: whole lines were added, and what had left the screen is as it was. */
  predicate Later(t: Terminal, t': Terminal)
    requires Ok(t)
  {
    && |t'.cells| >= |t.cells| && (|t'.cells| - |t.cells|) % COLS == 0
    && t'.cells[..Top(t)] == t.cells[..Top(t)]
  }

  lemma LaterTransitive(a: Terminal, b: Terminal, c: Terminal)
    requires Ok(a) && Ok(b) && Later(a, b) && Later(b, c)
    ensures Later(a, c)
  {
    assert c.cells[..Top(b)][..Top(a)] == c.cells[..Top(a)];
    assert b.cells[..Top(b)][..Top(a)] == b.cells[..Top(a)];
  }

  lemma PlainLater(t: Terminal, attr: uint16, c: byte)
    requires Ok(t) && attr % 0x100 == 0
    ensures Later(t, PutPlain(t, attr, c))
  {
  }

  lemma {:induction false} SpacesLater(t: Terminal, attr: uint16, n: nat)
    requires Ok(t) && attr % 0x100 == 0
    ensures Later(t, Spaces(t, attr, n))
    decreases n
  {
    hide PutPlain;
    if n > 0 {
      var next := PutPlain(t, attr, SPACE);
      PlainLater(t, attr, SPACE);
      SpacesLater(next, attr, n - 1);
      LaterTransitive(t, next, Spaces(t, attr, n));
    }
  }

  /**
   For every sequence of characters and colour changes, the screen only ever moves down the
   transcript by whole lines, and lines that have scrolled off are never written again.
   */
  lemma {:induction false} RunLater(d: Display, ops: seq<Op>)
    requires Ok(d.t)
    ensures Later(d.t, Run(d, ops).t)
    decreases |ops|
  {
    hide PutPlain;
    hide Spaces;
    if ops != [] {
      var next := Do(d, ops[0]);
      if ops[0].Type? {
        PlainLater(d.t, Attr(d.fg, d.bg), ops[0].c);
        SpacesLater(d.t, Attr(d.fg, d.bg), 5);
      }
      RunLater(next, ops[1..]);
      LaterTransitive(d.t, next.t, Run(d, ops).t);
    }
  }
}
