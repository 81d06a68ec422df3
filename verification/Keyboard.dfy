/**
 The scan-code decoder of kern/console.c.  Its one word of state is explained by a history: every
 bit says something about the bytes received so far.
 */
module Keyboard {
  import opened Types

  /** The bits of the state word; the word is the set of its bits. */
  datatype Bit = SHIFT | CTL | ALT | CAPSLOCK | NUMLOCK | SCROLLLOCK | E0ESC

  const ESCAPE: byte := 0xe0

  // ----- Tables -----

  function ShiftCode(data: byte): set<Bit> {
    if data == 0x2a || data == 0x36 then {SHIFT}
    else if data == 0x1d || data == 0x9d then {CTL}
    else if data == 0x38 || data == 0xb8 then {ALT}
    else {}
  }

  function ToggleCode(data: byte): set<Bit> {
    if data == 0x3a then {CAPSLOCK} else if data == 0x45 then {NUMLOCK} else if data == 0x46 then {SCROLLLOCK} else {}
  }

  /** The first 0x58 entries of the normal map, sixteen to a row. */
  function NormalRow(code: byte): char
    requires code < 0x58
  {
    if code < 0x10 then "\0\U{1B}1234567890-=\U{08}\t"[code]
    else if code < 0x20 then "qwertyuiop[]\n\0as"[code - 0x10]
    else if code < 0x30 then "dfghjkl;'`\0\\zxcv"[code - 0x20]
    else if code < 0x40 then "bnm,./\0*\0 \0\0\0\0\0\0"[code - 0x30]
    else if code < 0x50 then "\0\0\0\0\0\0\0789-456+1"[code - 0x40]
    else "230.\0\0\0\0"[code - 0x50]
  }

  function ShiftRow(code: byte): char
    requires code < 0x58
  {
    if code < 0x10 then "\0\U{1B}!@#$%^&*()_+\U{08}\t"[code]
    else if code < 0x20 then "QWERTYUIOP{}\n\0AS"[code - 0x10]
    else if code < 0x30 then "DFGHJKL:\"~\0|ZXCV"[code - 0x20]
    else if code < 0x40 then "BNM<>?\0*\0 \0\0\0\0\0\0"[code - 0x30]
    else NormalRow(code)
  }

  /** The control map from 0x10 on: the letter or sign whose code, less 0x40, the key sends. */
  function ControlRow(code: byte): char
    requires 0x10 <= code < 0x38
  {
    if code < 0x20 then "QWERTYUIOP\0\0M\0AS"[code - 0x10]
    else if code < 0x30 then "DFGHJKL\0\0\0\0\\ZXCV"[code - 0x20]
    else "BNM\0\0/\0\0"[code - 0x30]
  }

  /** The keypad and cursor keys, which follow an escape. */
  function Extended(code: byte): byte {
    if code == 0xc8 then 0xe2 else if code == 0xc9 then 0xe6 else if code == 0xcb then 0xe4
    else if code == 0xcd then 0xe5 else if code == 0xcf then 0xe1 else if code == 0xd0 then 0xe3
    else if code == 0xd1 then 0xe7 else if code == 0xd2 then 0xe8 else if code == 0xd3 then 0xe9
    else 0
  }

  /** The entries that the normal and the shift map share. */
  function SharedMap(code: byte): byte {
    if code == 0xc7 then 0xe0
    else if code == 0x9c then '\n' as int
    else if code == 0xb5 then '/' as int
    else Extended(code)
  }

  function NormalMap(code: byte): byte {
    if code < 0x58 then NormalRow(code) as int % 0x100 else SharedMap(code)
  }

  function ShiftMap(code: byte): byte {
    if code < 0x58 then ShiftRow(code) as int % 0x100 else SharedMap(code)
  }

  function Control(ch: char): byte {
    if ch == '\0' then 0 else (ch as int - '@' as int) % 0x100
  }

  /** The control map, with its home key at 0x97 and its slash as the source computes them. */
  function ControlMap(code: byte): byte {
    if 0x10 <= code < 0x38 then Control(ControlRow(code))
    else if code == 0xb5 then Control('/')
    else if code == 0x97 then 0xe0
    else Extended(code)
  }

  function CharCode(shift: set<Bit>, code: byte): byte {
    if CTL in shift then ControlMap(code)
    else if SHIFT in shift then ShiftMap(code)
    else NormalMap(code)
  }

  predicate IsLower(c: int) {
    'a' as int <= c <= 'z' as int
  }

  predicate IsUpper(c: int) {
    'A' as int <= c <= 'Z' as int
  }

  function SwapCase(c: byte): byte {
    if IsLower(c) then c - 0x20 else if IsUpper(c) then c + 0x20 else c
  }

  // ----- The decoder -----

  /** The key code a byte stands for: escaped codes lie in the upper half, for a press and a release alike. */
  function KeyCode(data: byte, escaped: bool): byte {
    if data >= 0x80 then (if escaped then data else data - 0x80) else if escaped then data + 0x80 else data
  }

  /** `^=` on the state word. */
  function Toggle(shift: set<Bit>, bits: set<Bit>): set<Bit> {
    (shift - bits) + (bits - shift)
  }

  function NextShift(shift: set<Bit>, data: byte): set<Bit> {
    var key := KeyCode(data, E0ESC in shift);
    if data == ESCAPE then shift + {E0ESC}
    else if data >= 0x80 then shift - (ShiftCode(key) + {E0ESC})
    else Toggle((shift - {E0ESC}) + ShiftCode(key), ToggleCode(key))
  }

  /** The new state and the character finished by a byte, or 0. */
  function Decode(shift: set<Bit>, data: byte): (set<Bit>, byte) {
    var s := NextShift(shift, data);
    var c := CharCode(s, KeyCode(data, E0ESC in shift));
    (s, if data >= 0x80 then 0 else if CAPSLOCK in s then SwapCase(c) else c)
  }

  class Keyboard {
    var shift: set<Bit>

    constructor ()
      ensures shift == {}
    {
      shift := {};
    }

    /** `kbd_proc_data`: -1 without keyboard data (status bit 0x01 clear or 0x20 set), else the character, or 0. */
    method ProcData(stat: byte, port: byte) returns (c: int)
      modifies this
      ensures if stat % 2 == 0 || stat / 0x20 % 2 == 1 then c == -1 && shift == old(shift)
              else shift == Decode(old(shift), port).0 && c == Decode(old(shift), port).1
    {
      hide CharCode;
      if stat % 2 == 0 {
        return -1;
      }
      if stat / 0x20 % 2 == 1 {
        return -1;
      }
      var data := port;
      if data == ESCAPE {
        shift := shift + {E0ESC};
        return 0;
      } else if data >= 0x80 {
        data := if E0ESC in shift then data else data - 0x80;
        shift := shift - (ShiftCode(data) + {E0ESC});
        return 0;
      } else if E0ESC in shift {
        data := data + 0x80;
        shift := shift - {E0ESC};
      }
      assert shift == old(shift) - {E0ESC};
      shift := shift + ShiftCode(data);
      shift := Toggle(shift, ToggleCode(data));
      c := CharCode(shift, data);
      if CAPSLOCK in shift {
        if IsLower(c) {
          c := c - 0x20;
        } else if IsUpper(c) {
          c := c + 0x20;
        }
      }
    }
  }

  // ----- The history behind the state -----

  /** The byte at `i` follows an escape byte. */
  predicate Escaped(s: seq<byte>, i: nat) {
    0 < i <= |s| && s[i - 1] == ESCAPE
  }

  datatype Key = ShiftKey | ControlKey | AltKey

  datatype Effect = Pressed | Released | NoEffect

  /** What a byte does to a modifier key.  The shift keys count unescaped only; the others have a right twin. */
  function EffectOf(key: Key, data: byte, escaped: bool): Effect {
    match key
    case ShiftKey =>
      if escaped then NoEffect
      else if data == 0x2a || data == 0x36 then Pressed
      else if data == 0xaa || data == 0xb6 then Released
      else NoEffect
    case ControlKey => if data == 0x1d then Pressed else if data == 0x9d then Released else NoEffect
    case AltKey => if data == 0x38 then Pressed else if data == 0xb8 then Released else NoEffect
  }

  /** Whether the most recent event of the key is a press. */
  function Held(key: Key, s: seq<byte>): bool
    decreases |s|
  {
    if s == [] then false
    else
      var n := |s| - 1;
      match EffectOf(key, s[n], Escaped(s, n))
      case Pressed => true
      case Released => false
      case NoEffect => Held(key, s[..n])
  }

  /** How many unescaped bytes are the make code `code`. */
  function Presses(code: byte, s: seq<byte>): nat
    decreases |s|
  {
    if s == [] then 0
    else
      var n := |s| - 1;
      Presses(code, s[..n]) + (if s[n] == code && !Escaped(s, n) then 1 else 0)
  }

  /** The decoder's state after a stream of bytes. */
  function StateAfter(s: seq<byte>): set<Bit>
    decreases |s|
  {
    if s == [] then {} else NextShift(StateAfter(s[..|s| - 1]), s[|s| - 1])
  }

  /** The bits as the history explains them. */
  predicate Explains(s: seq<byte>, shift: set<Bit>) {
    && (E0ESC in shift <==> s != [] && s[|s| - 1] == ESCAPE)
    && (SHIFT in shift <==> Held(ShiftKey, s))
    && (CTL in shift <==> Held(ControlKey, s))
    && (ALT in shift <==> Held(AltKey, s))
    && (CAPSLOCK in shift <==> Presses(0x3a, s) % 2 == 1)
    && (NUMLOCK in shift <==> Presses(0x45, s) % 2 == 1)
    && (SCROLLLOCK in shift <==> Presses(0x46, s) % 2 == 1)
  }

  function BitOf(key: Key): Bit {
    match key
    case ShiftKey => SHIFT
    case ControlKey => CTL
    case AltKey => ALT
  }

  lemma ModifierBit(shift: set<Bit>, data: byte, key: Key)
    ensures BitOf(key) in NextShift(shift, data) <==>
            match EffectOf(key, data, E0ESC in shift)
            case Pressed => true
            case Released => false
            case NoEffect => BitOf(key) in shift
  {
  }

  lemma LockBit(shift: set<Bit>, data: byte, code: byte, lock: Bit)
    requires ToggleCode(code) == {lock}
    ensures lock in NextShift(shift, data) <==> (lock in shift) != (data == code && E0ESC !in shift)
  {
    assert lock in ToggleCode(code);
  }

  lemma EscapeBit(shift: set<Bit>, data: byte)
    ensures E0ESC in NextShift(shift, data) <==> data == ESCAPE
  {
    var key := KeyCode(data, E0ESC in shift);
    assert E0ESC !in ShiftCode(key) && E0ESC !in ToggleCode(key);
  }

  lemma EscapeExplained(s: seq<byte>)
    ensures E0ESC in StateAfter(s) <==> s != [] && s[|s| - 1] == ESCAPE
  {
    hide NextShift;
    if s != [] {
      EscapeBit(StateAfter(s[..|s| - 1]), s[|s| - 1]);
    }
  }

  lemma {:induction false} ModifierExplained(s: seq<byte>, key: Key)
    ensures BitOf(key) in StateAfter(s) <==> Held(key, s)
    decreases |s|
  {
    hide NextShift;
    hide EffectOf;
    hide BitOf;
    if s != [] {
      var n := |s| - 1;
      ModifierExplained(s[..n], key);
      EscapeExplained(s[..n]);
      ModifierBit(StateAfter(s[..n]), s[n], key);
    }
  }

  lemma {:induction false} LockExplained(s: seq<byte>, code: byte, lock: Bit)
    requires ToggleCode(code) == {lock}
    ensures lock in StateAfter(s) <==> Presses(code, s) % 2 == 1
    decreases |s|
  {
    hide NextShift;
    hide ToggleCode;
    if s != [] {
      var n := |s| - 1;
      LockExplained(s[..n], code, lock);
      EscapeExplained(s[..n]);
      LockBit(StateAfter(s[..n]), s[n], code, lock);
    }
  }

  /** After every stream of bytes, every bit of the state is what the history says. */
  lemma StateExplained(s: seq<byte>)
    ensures Explains(s, StateAfter(s))
  {
    hide StateAfter;
    hide Held;
    hide Presses;
    EscapeExplained(s);
    ModifierExplained(s, ShiftKey);
    ModifierExplained(s, ControlKey);
    ModifierExplained(s, AltKey);
    LockExplained(s, 0x3a, CAPSLOCK);
    LockExplained(s, 0x45, NUMLOCK);
    LockExplained(s, 0x46, SCROLLLOCK);
  }

  // ----- Letters -----

  /** The key carries a letter. */
  predicate IsLetterKey(code: byte) {
    code < 0x58 && IsLower(NormalRow(code) as int)
  }

  /** The letter keys lie in three rows, where no modifier or lock key is. */
  lemma LetterPlaces(code: byte)
    ensures IsLetterKey(code) <==> 0x10 <= code < 0x1a || 0x1e <= code < 0x27 || 0x2c <= code < 0x33
  {
  }

  /** The shift map has the capital of every letter. */
  lemma LetterCapitals(code: byte)
    requires IsLetterKey(code)
    ensures ShiftRow(code) as int == NormalRow(code) as int - 0x20
  {
    LetterPlaces(code);
    if code < 0x20 {
      TopRow(code);
    } else if code < 0x30 {
      MiddleRow(code);
    }
  }

  lemma TopRow(code: byte)
    requires 0x10 <= code < 0x1a || 0x1e <= code < 0x20
    ensures ShiftRow(code) as int == NormalRow(code) as int - 0x20
  {
  }

  lemma MiddleRow(code: byte)
    requires 0x20 <= code < 0x27 || 0x2c <= code < 0x30
    ensures ShiftRow(code) as int == NormalRow(code) as int - 0x20
  {
  }

  lemma LetterChar(shift: set<Bit>, code: byte)
    requires IsLetterKey(code) && CTL !in shift && E0ESC !in shift
    ensures var small := NormalRow(code) as int;
      Decode(shift, code) == (shift, if (SHIFT in shift) != (CAPSLOCK in shift) then small - 0x20 else small)
  {
    hide NormalRow;
    hide ShiftRow;
    hide ControlMap;
    hide SharedMap;
    LetterPlaces(code);
    LetterCapitals(code);
    assert NextShift(shift, code) == shift;
  }

  /**
   After any stream of bytes that does not end in an escape, with the control key up, a letter key
   gives its capital exactly when shift is held or caps lock is on, but not both.
   */
  lemma LetterCase(s: seq<byte>, code: byte)
    requires IsLetterKey(code) && !Held(ControlKey, s) && !(s != [] && s[|s| - 1] == ESCAPE)
    ensures var c := Decode(StateAfter(s), code).1;
      var small := NormalRow(code) as int;
      c == if Held(ShiftKey, s) != (Presses(0x3a, s) % 2 == 1) then small - 0x20 else small
  {
    hide Decode;
    hide StateAfter;
    StateExplained(s);
    LetterChar(StateAfter(s), code);
  }

  lemma ControlChar(shift: set<Bit>, code: byte)
    requires IsLetterKey(code) && CTL in shift && E0ESC !in shift
    ensures Decode(shift, code) == (shift, NormalRow(code) as int - 0x60)
  {
    hide NormalRow;
    hide ShiftRow;
    hide ControlRow;
    hide SharedMap;
    hide NormalMap;
    hide ShiftMap;
    LetterPlaces(code);
    ControlLetters(code);
    assert NextShift(shift, code) == shift;
  }

  /** The control map has the capital of every letter, less 0x40. */
  lemma ControlLetters(code: byte)
    requires IsLetterKey(code)
    ensures 0x10 <= code < 0x38 && ControlRow(code) as int == NormalRow(code) as int - 0x20
    ensures Control(ControlRow(code)) == NormalRow(code) as int - 0x60
  {
    LetterPlaces(code);
    if code < 0x20 {
      ControlTopRow(code);
    } else if code < 0x30 {
      ControlMiddleRow(code);
    }
  }

  lemma ControlTopRow(code: byte)
    requires 0x10 <= code < 0x1a || 0x1e <= code < 0x20
    ensures ControlRow(code) as int == NormalRow(code) as int - 0x20
  {
  }

  lemma ControlMiddleRow(code: byte)
    requires 0x20 <= code < 0x27 || 0x2c <= code < 0x30
    ensures ControlRow(code) as int == NormalRow(code) as int - 0x20
  {
  }

  /** With the control key down a letter key gives its capital less 0x40, whatever shift and caps lock are. */
  lemma LetterControl(s: seq<byte>, code: byte)
    requires IsLetterKey(code) && Held(ControlKey, s) && !(s != [] && s[|s| - 1] == ESCAPE)
    ensures var capital := NormalRow(code) as int - 0x20;
      Decode(StateAfter(s), code).1 == capital - 0x40
  {
    hide Decode;
    hide StateAfter;
    StateExplained(s);
    ControlChar(StateAfter(s), code);
  }

  lemma DigitRow(code: byte)
    requires 0x02 <= code <= 0x0b
    ensures NormalMap(code) == '0' as int + (code - 1) % 10
  {
  }

  lemma DigitChar(shift: set<Bit>, code: byte)
    requires 0x02 <= code <= 0x0b && SHIFT !in shift && CTL !in shift && E0ESC !in shift
    ensures Decode(shift, code) == (shift, '0' as int + (code - 1) % 10)
  {
    DigitRow(code);
    hide NormalMap;
    assert NextShift(shift, code) == shift;
  }

  /** The digit keys give the digits 1 to 9 and 0, unless shift or control is down. */
  lemma DigitKeys(s: seq<byte>, code: byte)
    requires 0x02 <= code <= 0x0b && !Held(ShiftKey, s) && !Held(ControlKey, s) && !(s != [] && s[|s| - 1] == ESCAPE)
    ensures Decode(StateAfter(s), code).1 == '0' as int + (code - 1) % 10
  {
    hide Decode;
    hide StateAfter;
    StateExplained(s);
    DigitChar(StateAfter(s), code);
  }

  // ----- Cursor keys -----

  /** The second byte of a cursor key, and the character it stands for. */
  predicate IsCursorKey(data: byte, key: byte) {
    || (data == 0x48 && key == 0xe2) || (data == 0x50 && key == 0xe3)
    || (data == 0x4b && key == 0xe4) || (data == 0x4d && key == 0xe5)
    || (data == 0x4f && key == 0xe1) || (data == 0x49 && key == 0xe6) || (data == 0x51 && key == 0xe7)
    || (data == 0x52 && key == 0xe8) || (data == 0x53 && key == 0xe9)
  }

  lemma CursorChar(shift: set<Bit>, data: byte, key: byte)
    requires E0ESC in shift && (IsCursorKey(data, key) || (data == 0x47 && key == if CTL in shift then 0 else 0xe0))
    ensures Decode(shift, data) == (shift - {E0ESC}, key)
  {
    hide NormalRow;
    hide ShiftRow;
    hide ControlRow;
    hide Control;
    assert NextShift(shift, data) == shift - {E0ESC};
  }

  /** Behind an escape byte the cursor keys give their characters under all modifiers; control hides the home key. */
  lemma CursorKeys(s: seq<byte>, data: byte, key: byte)
    requires s != [] && s[|s| - 1] == ESCAPE
    requires IsCursorKey(data, key) || (data == 0x47 && key == if Held(ControlKey, s) then 0 else 0xe0)
    ensures Decode(StateAfter(s), data).1 == key
  {
    hide Decode;
    hide StateAfter;
    hide IsCursorKey;
    StateExplained(s);
    CursorChar(StateAfter(s), data, key);
  }
}
