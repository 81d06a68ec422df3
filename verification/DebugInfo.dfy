/**
 `debuginfo_eip` of kern/kdebug.c: three nested searches and two scans over the stabs table.
 `Lookup` is the whole call as a function; the lemmas say which entry it reports.
 */
module DebugInfo {
  import opened Types
  import opened StabSearch
  import opened CStrings

  const N_FUN: byte := 0x24
  const N_SLINE: byte := 0x44
  const N_SO: byte := 0x64
  const N_SOL: byte := 0x84
  const N_PSYM: byte := 0xa0
  const ULIM: uint32 := 0xef80_0000

  /** A `const char *` that is either the literal "<unknown>" or points into the string table. */
  datatype Name = Unknown | At(offset: nat)

  datatype Info = Info(file: Name, line: uint16, fnName: Name, fnNameLen: nat, fnAddr: uint32, fnNarg: nat)

  /**
   How a call ends.  `Panic` is the user-address panic and `Found` the return of 0; the three
   in between all return -1.  `OutsideTable` is a read of `stabs[-1]`, which C leaves undefined.
   */
  datatype Outcome = Panic | BadStrings | NoFile | NoLine | Found | OutsideTable

  /** The string table is usable: it is nonempty and ends in a NUL. */
  predicate GoodStrings(strtab: string) {
    |strtab| > 0 && strtab[|strtab| - 1] == '\0'
  }

  function NameLen(strtab: string, name: Name): nat
    requires GoodStrings(strtab) && (name.At? ==> name.offset < |strtab|)
  {
    match name
    case Unknown => 9
    case At(offset) => Find(strtab, offset, ':') - offset
  }

  function NameAt(strtab: string, strx: uint32, default: Name): Name {
    if strx < |strtab| then At(strx) else default
  }

  /** A stab that names the file of the lines after it. */
  predicate NamesFile(s: Stab) {
    s.typ == N_SOL || (s.typ == N_SO && s.value != 0)
  }

  /** The last entry of `lo..k` that names a file, or `lo - 1`. */
  function FileStab(stabs: seq<Stab>, lo: int, k: int): (f: int)
    requires 0 <= lo <= k + 1 <= |stabs|
    ensures lo - 1 <= f <= k
    ensures f >= lo ==> NamesFile(stabs[f])
    ensures forall i :: f < i <= k ==> !NamesFile(stabs[i])
    decreases k - lo
  {
    if k < lo || NamesFile(stabs[k]) then k else FileStab(stabs, lo, k - 1)
  }

  /** The end of the run of parameter stabs from `k`, stopping at `hi`. */
  function ParamsEnd(stabs: seq<Stab>, k: int, hi: int): (e: int)
    requires 0 <= k <= hi <= |stabs|
    ensures k <= e <= hi
    ensures forall i :: k <= i < e ==> stabs[i].typ == N_PSYM
    ensures e < hi ==> stabs[e].typ != N_PSYM
    decreases hi - k
  {
    if k < hi && stabs[k].typ == N_PSYM then ParamsEnd(stabs, k + 1, hi) else k
  }

  /** The function step: the bounds of the line search, its key, and what is known of the function. */
  datatype FunStep = FunStep(lo: int, hi: int, key: uint32, info: Info)

  function FunctionStep(stabs: seq<Stab>, strtab: string, lfile: int, rfile: int, addr: uint32, info: Info): (s: FunStep)
    requires GoodStrings(strtab) && info.fnName.Unknown? && 0 < lfile <= rfile < |stabs|
    ensures 0 <= s.lo <= s.hi <= rfile
    ensures s.info.file == info.file && s.info.line == info.line && s.info.fnNarg == info.fnNarg
  {
    SearchRange(stabs, lfile, rfile, N_FUN, addr);
    var (lfun, rfun) := Search(stabs, lfile, rfile, N_FUN, addr);
    if lfun <= rfun then
      var name := NameAt(strtab, stabs[lfun].strx, Unknown);
      FunStep(lfun, rfun, ToUint32(addr - stabs[lfun].value),
              info.(fnName := name, fnNameLen := NameLen(strtab, name), fnAddr := stabs[lfun].value))
    else
      FunStep(lfile, rfile, addr, info.(fnNameLen := 9, fnAddr := addr))
  }

  /** The number of parameters, counted after the function's own stab and before the last of its window. */
  function Params(stabs: seq<Stab>, lfile: int, rfile: int, addr: uint32): nat
    requires 0 < lfile <= rfile < |stabs|
  {
    SearchRange(stabs, lfile, rfile, N_FUN, addr);
    var (lfun, rfun) := Search(stabs, lfile, rfile, N_FUN, addr);
    if lfun < rfun then ParamsEnd(stabs, lfun + 1, rfun) - (lfun + 1) else 0
  }

  /** The rest of the call once the file's window is known. */
  function InFile(stabs: seq<Stab>, strtab: string, lfile: int, rfile: int, addr: uint32, info: Info): (Outcome, Info)
    requires GoodStrings(strtab) && info.fnName.Unknown? && 0 < lfile <= rfile < |stabs|
  {
    var f := FunctionStep(stabs, strtab, lfile, rfile, addr, info);
    SearchRange(stabs, f.lo, f.hi, N_SLINE, f.key);
    var (lline, rline) := Search(stabs, f.lo, f.hi, N_SLINE, f.key);
    if lline > rline then (NoLine, f.info)
    else if lline < 0 then (OutsideTable, f.info)
    else
      var s := if lline < lfile then lline else FileStab(stabs, lfile, lline);
      var file := if s >= lfile then NameAt(strtab, stabs[s].strx, Unknown) else Unknown;
      (Found, f.info.(line := stabs[lline].desc, file := file, fnNarg := Params(stabs, lfile, rfile, addr)))
  }

  function Lookup(stabs: seq<Stab>, strtab: string, addr: uint32): (Outcome, Info) {
    var info := Info(Unknown, 0, Unknown, 9, addr, 0);
    if addr < ULIM then (Panic, info)
    else if !GoodStrings(strtab) then (BadStrings, info)
    else
      SearchRange(stabs, 0, |stabs| - 1, N_SO, addr);
      var (lfile, rfile) := Search(stabs, 0, |stabs| - 1, N_SO, addr);
      if lfile == 0 then (NoFile, info)
      else if lfile < 0 then (OutsideTable, info)
      else
        InFile(stabs, strtab, lfile, rfile, addr, info)
  }

  /** The record the caller passes in. */
  class Eipdebuginfo {
    var file: Name
    var line: uint16
    var fnName: Name
    var fnNameLen: nat
    var fnAddr: uint32
    var fnNarg: nat

    function View(): Info
      reads this
    {
      Info(file, line, fnName, fnNameLen, fnAddr, fnNarg)
    }
  }

  /** The function step of the call: returns the bounds and the key of the line search. */
  method FindFunction(stabs: seq<Stab>, strtab: string, lfile: int, rfile: int, address: uint32, info: Eipdebuginfo)
    returns (lfun: int, rfun: int, lline: int, rline: int, addr: uint32)
    requires GoodStrings(strtab) && info.fnName.Unknown? && 0 < lfile <= rfile < |stabs|
    modifies info
    ensures FunStep(lline, rline, addr, info.View())
         == FunctionStep(stabs, strtab, lfile, rfile, address, old(info.View()))
    ensures (lfun, rfun) == Search(stabs, lfile, rfile, N_FUN, address)
  {
    hide Search;
    hide Brackets;
    hide Sorted;
    hide Chains;
    hide AllAbove;
    addr := address;
    lfun, rfun := StabBinsearch(stabs, lfile, rfile, N_FUN, addr);
    SearchRange(stabs, lfile, rfile, N_FUN, addr);
    if lfun <= rfun {
      if stabs[lfun].strx < |strtab| {
        info.fnName := At(stabs[lfun].strx);
      }
      info.fnAddr := stabs[lfun].value;
      addr := ToUint32(addr - info.fnAddr);
      lline, rline := lfun, rfun;
    } else {
      info.fnAddr := addr;
      lline, rline := lfile, rfile;
    }
    match info.fnName
    case Unknown => info.fnNameLen := 9;
    case At(offset) =>
      var colon := Strfind(strtab, offset, ':');
      info.fnNameLen := colon - offset;
  }

  /** The scan back from the line for the file it came from. */
  method ScanFile(stabs: seq<Stab>, lfile: int, found: int) returns (lline: int)
    requires 0 < lfile && 0 <= found < |stabs|
    ensures lline == if found < lfile then found else FileStab(stabs, lfile, found)
  {
    lline := found;
    while lline >= lfile && stabs[lline].typ != N_SOL && (stabs[lline].typ != N_SO || stabs[lline].value == 0)
      invariant Min(lfile - 1, found) <= lline <= found
      invariant found >= lfile ==> FileStab(stabs, lfile, lline) == FileStab(stabs, lfile, found)
      decreases lline
    {
      lline := lline - 1;
    }
  }

  /** The scan forward over the function's parameters. */
  method CountParams(stabs: seq<Stab>, lfun: int, rfun: int) returns (n: nat)
    requires 0 <= lfun && rfun < |stabs|
    ensures n == if lfun < rfun then ParamsEnd(stabs, lfun + 1, rfun) - (lfun + 1) else 0
  {
    n := 0;
    if lfun < rfun {
      var lline := lfun + 1;
      while lline < rfun && stabs[lline].typ == N_PSYM
        invariant lfun + 1 <= lline <= rfun && n == lline - (lfun + 1)
        invariant ParamsEnd(stabs, lline, rfun) == ParamsEnd(stabs, lfun + 1, rfun)
      {
        n := n + 1;
        lline := lline + 1;
      }
    }
  }

  /** The function, the line and its file. */
  method SearchFile(stabs: seq<Stab>, strtab: string, lfile: int, rfile: int, address: uint32, info: Eipdebuginfo)
    returns (rc: Outcome)
    requires GoodStrings(strtab) && info.fnName.Unknown? && 0 < lfile <= rfile < |stabs|
    requires info.file.Unknown? && info.fnNarg == 0
    modifies info
    ensures (rc, info.View()) == InFile(stabs, strtab, lfile, rfile, address, old(info.View()))
  {
    hide Search;
    hide IsMatch;
    hide NameLen;
    hide Brackets;
    hide Sorted;
    hide Chains;
    hide AllAbove;
    hide FunctionStep;
    hide FileStab;
    hide ParamsEnd;
    hide GoodStrings;
    var lfun, rfun, lo, hi, addr := FindFunction(stabs, strtab, lfile, rfile, address, info);
    var lline, rline := StabBinsearch(stabs, lo, hi, N_SLINE, addr);
    SearchRange(stabs, lo, hi, N_SLINE, addr);
    if lline > rline {
      return NoLine;
    }
    if lline < 0 {
      return OutsideTable;
    }
    info.line := stabs[lline].desc;
    lline := ScanFile(stabs, lfile, lline);
    if lline >= lfile && stabs[lline].strx < |strtab| {
      info.file := At(stabs[lline].strx);
    }
    SearchRange(stabs, lfile, rfile, N_FUN, address);
    info.fnNarg := CountParams(stabs, lfun, rfun);
    rc := Found;
  }

  /** The call itself; the fields are filled as the steps succeed, and stay filled on an error return. */
  method DebuginfoEip(stabs: seq<Stab>, strtab: string, address: uint32, info: Eipdebuginfo) returns (rc: Outcome)
    modifies info
    ensures (rc, info.View()) == Lookup(stabs, strtab, address)
  {
    hide Search;
    hide IsMatch;
    hide Brackets;
    hide Sorted;
    hide Chains;
    hide AllAbove;
    hide InFile;
    info.file, info.line, info.fnName, info.fnNameLen := Unknown, 0, Unknown, 9;
    info.fnAddr, info.fnNarg := address, 0;
    if address < ULIM {
      return Panic;
    }
    if |strtab| == 0 || strtab[|strtab| - 1] != '\0' {
      return BadStrings;
    }
    var lfile, rfile := StabBinsearch(stabs, 0, |stabs| - 1, N_SO, address);
    SearchRange(stabs, 0, |stabs| - 1, N_SO, address);
    if lfile == 0 {
      return NoFile;
    }
    if lfile < 0 {
      return OutsideTable;
    }
    rc := SearchFile(stabs, strtab, lfile, rfile, address, info);
  }

  // ----- Which entries the call reports -----

  /** The window is in order for the key: sorted, and the search cannot run past an exact hit. */
  predicate Lawful(stabs: seq<Stab>, ty: byte, lo: int, hi: int, key: uint32) {
    Sorted(stabs, ty, lo, hi) && !Chains(stabs, ty, lo, hi, key)
  }

  lemma BracketsUnique(stabs: seq<Stab>, ty: byte, lo: int, hi: int, key: uint32, a: int, b: int, c: int, d: int)
    requires Brackets(stabs, ty, lo, hi, key, a, b) && Brackets(stabs, ty, lo, hi, key, c, d)
    ensures a == c && b == d
  {
  }

  /** A window that does not start with a match of its own is searched within its bounds. */
  lemma SearchInside(stabs: seq<Stab>, lo: int, hi: int, ty: byte, key: uint32)
    requires 0 <= lo <= hi < |stabs| && stabs[lo].typ != ty && Lawful(stabs, ty, lo, hi, key)
    ensures var (left, right) := Search(stabs, lo, hi, ty, key);
      && (left > right <==> NoMatch(stabs, ty, lo, hi))
      && (!NoMatch(stabs, ty, lo, hi) && AllAbove(stabs, ty, lo, hi, key) ==> left == lo <= right < hi)
      && (!AllAbove(stabs, ty, lo, hi, key) ==> Brackets(stabs, ty, lo, hi, key, left, right))
  {
    hide Search;
    SearchSorted(stabs, lo, hi, ty, key);
  }

  /** A table whose file entries are in order, and an address the call accepts. */
  predicate Accepted(stabs: seq<Stab>, strtab: string, addr: uint32) {
    addr >= ULIM && GoodStrings(strtab) && Lawful(stabs, N_SO, 0, |stabs| - 1, addr)
  }

  /**
   The file step.  Index 0 doubles as "not found", so the file is missed when the right entry is
   entry 0; and when entry 0 lies above the address the next search starts before the table.
   */
  lemma FileStepExact(stabs: seq<Stab>, strtab: string, addr: uint32)
    requires Accepted(stabs, strtab, addr)
    ensures Lookup(stabs, strtab, addr).0 == OutsideTable <==> IsMatch(stabs, N_SO, 0) && stabs[0].value > addr
    ensures Lookup(stabs, strtab, addr).0 == NoFile
       <==> AllAbove(stabs, N_SO, 1, |stabs| - 1, addr) && (IsMatch(stabs, N_SO, 0) ==> stabs[0].value <= addr)
  {
    hide Search;
    var n := |stabs|;
    SearchSorted(stabs, 0, n - 1, N_SO, addr);
    SearchRange(stabs, 0, n - 1, N_SO, addr);
    var (lfile, rfile) := Search(stabs, 0, n - 1, N_SO, addr);
    if lfile > 0 {
      SearchRange(stabs, lfile, rfile, N_FUN, addr);
      var f := FunctionStep(stabs, strtab, lfile, rfile, addr, Info(Unknown, 0, Unknown, 9, addr, 0));
      SearchRange(stabs, f.lo, f.hi, N_SLINE, f.key);
    }
  }

  /** With the usual table, whose entry 0 is not a file entry, the file step fails exactly when it should. */
  lemma FileStepSound(stabs: seq<Stab>, strtab: string, addr: uint32)
    requires Accepted(stabs, strtab, addr) && !IsMatch(stabs, N_SO, 0)
    ensures Lookup(stabs, strtab, addr).0 != OutsideTable
    ensures Lookup(stabs, strtab, addr).0 == NoFile <==> AllAbove(stabs, N_SO, 0, |stabs| - 1, addr)
    ensures Lookup(stabs, strtab, addr).0 == NoFile ==>
              Lookup(stabs, strtab, addr).1 == Info(Unknown, 0, Unknown, 9, addr, 0)
  {
    hide Search;
    FileStepExact(stabs, strtab, addr);
  }

  /** The reported name stops before a colon or the terminator, and contains no colon. */
  lemma NameStopsAtColon(strtab: string, offset: nat)
    requires GoodStrings(strtab) && offset < |strtab|
    ensures var len := NameLen(strtab, At(offset));
      && offset + len < |strtab| && ':' !in strtab[offset..offset + len] && '\0' !in strtab[offset..offset + len]
      && (strtab[offset + len] == ':' || strtab[offset + len] == '\0')
  {
  }

  /** The name a stab's string index stands for: the text there, if it lies inside the table. */
  predicate Names(strtab: string, strx: uint32, name: Name) {
    name == if strx < |strtab| then At(strx) else Unknown
  }

  /** The length stops a name before its first colon, or before its NUL; "<unknown>" has neither. */
  predicate NameEnds(strtab: string, name: Name, len: nat) {
    match name
    case Unknown => len == 9
    case At(o) =>
      && o + len < |strtab| && (strtab[o + len] == ':' || strtab[o + len] == '\0')
      && forall k :: o <= k < o + len ==> strtab[k] != ':' && strtab[k] != '\0'
  }

  lemma NameKnown(strtab: string, strx: uint32)
    requires GoodStrings(strtab)
    ensures var name := NameAt(strtab, strx, Unknown);
      Names(strtab, strx, name) && NameEnds(strtab, name, NameLen(strtab, name))
  {
    if strx < |strtab| {
      NameStopsAtColon(strtab, strx);
    }
  }

  /**
   The function step in a file window `f..fe` that starts with a file entry.  The call takes the
   window to hold a function as soon as it holds any N_FUN: when all of them lie above the address
   it reports the file's own entry as the function.
   */
  lemma FunctionStepExact(stabs: seq<Stab>, strtab: string, f: int, fe: int, addr: uint32, info: Info)
    requires GoodStrings(strtab) && info.fnName.Unknown? && 0 < f <= fe < |stabs|
    requires stabs[f].typ == N_SO && Lawful(stabs, N_FUN, f, fe, addr)
    ensures var s := FunctionStep(stabs, strtab, f, fe, addr, info);
      if NoMatch(stabs, N_FUN, f, fe) then
        && s.lo == f && s.hi == fe && s.key == addr && s.info.fnAddr == addr
        && s.info.fnName == Unknown && s.info.fnNameLen == 9
      else
        && s.info.fnAddr == stabs[s.lo].value
        && Names(strtab, stabs[s.lo].strx, s.info.fnName) && NameEnds(strtab, s.info.fnName, s.info.fnNameLen)
        && s.key == (addr - stabs[s.lo].value) % 0x1_0000_0000
        && if AllAbove(stabs, N_FUN, f, fe, addr) then s.lo == f
           else Brackets(stabs, N_FUN, f, fe, addr, s.lo, s.hi)
  {
    hide Search;
    SearchInside(stabs, f, fe, N_FUN, addr);
    var s := FunctionStep(stabs, strtab, f, fe, addr, info);
    NameKnown(strtab, stabs[s.lo].strx);
  }

  /**
   The whole call.  `f..fe` is the stretch of the file holding the address.  The line step works on
   the window and key of the function step, and fails exactly when that window holds no line.
   */
  lemma LookupExact(stabs: seq<Stab>, strtab: string, addr: uint32, f: int, fe: int)
    requires Accepted(stabs, strtab, addr) && 0 < f && Brackets(stabs, N_SO, 0, |stabs| - 1, addr, f, fe)
    requires Lawful(stabs, N_FUN, f, fe, addr)
    requires var s := FunctionStep(stabs, strtab, f, fe, addr, Info(Unknown, 0, Unknown, 9, addr, 0));
      Lawful(stabs, N_SLINE, s.lo, s.hi, s.key)
    ensures var s := FunctionStep(stabs, strtab, f, fe, addr, Info(Unknown, 0, Unknown, 9, addr, 0));
      var (rc, info) := Lookup(stabs, strtab, addr);
      && f <= s.lo <= s.hi <= fe
      && (rc == NoLine || rc == Found)
      && (rc == NoLine <==> NoMatch(stabs, N_SLINE, s.lo, s.hi))
      && info.fnAddr == s.info.fnAddr && info.fnName == s.info.fnName && info.fnNameLen == s.info.fnNameLen
      && (rc == NoLine ==> info.file == Unknown && info.line == 0 && info.fnNarg == 0)
      && (rc == Found && AllAbove(stabs, N_SLINE, s.lo, s.hi, s.key) ==> info.line == stabs[s.lo].desc)
      && (rc == Found && !AllAbove(stabs, N_SLINE, s.lo, s.hi, s.key) ==>
            exists h, he :: Brackets(stabs, N_SLINE, s.lo, s.hi, s.key, h, he) && info.line == stabs[h].desc)
  {
    hide Search;
    hide FunctionStep;
    hide FileStab;
    var s := FunctionStep(stabs, strtab, f, fe, addr, Info(Unknown, 0, Unknown, 9, addr, 0));
    SearchSorted(stabs, 0, |stabs| - 1, N_SO, addr);
    var (lfile, rfile) := Search(stabs, 0, |stabs| - 1, N_SO, addr);
    BracketsUnique(stabs, N_SO, 0, |stabs| - 1, addr, f, fe, lfile, rfile);
    FunctionStepExact(stabs, strtab, f, fe, addr, Info(Unknown, 0, Unknown, 9, addr, 0));
    SearchInside(stabs, s.lo, s.hi, N_SLINE, s.key);
  }

  /** `f..fe`, `g..ge` and `h..he` are the file, function and line that hold the address, all in order. */
  predicate Located(stabs: seq<Stab>, addr: uint32, f: int, fe: int, g: int, ge: int, h: int, he: int) {
    && 0 < f && Brackets(stabs, N_SO, 0, |stabs| - 1, addr, f, fe)
    && Lawful(stabs, N_FUN, f, fe, addr) && Brackets(stabs, N_FUN, f, fe, addr, g, ge)
    && Lawful(stabs, N_SLINE, g, ge, addr - stabs[g].value)
    && Brackets(stabs, N_SLINE, g, ge, addr - stabs[g].value, h, he)
  }

  lemma SearchesAgree(stabs: seq<Stab>, addr: uint32, f: int, fe: int, g: int, ge: int, h: int, he: int)
    requires Lawful(stabs, N_SO, 0, |stabs| - 1, addr) && Located(stabs, addr, f, fe, g, ge, h, he)
    ensures Search(stabs, 0, |stabs| - 1, N_SO, addr) == (f, fe)
    ensures Search(stabs, f, fe, N_FUN, addr) == (g, ge)
    ensures Search(stabs, g, ge, N_SLINE, addr - stabs[g].value) == (h, he)
  {
    hide Search;
    hide Lawful;
    BracketFound(stabs, N_SO, 0, |stabs| - 1, addr, f, fe);
    BracketFound(stabs, N_FUN, f, fe, addr, g, ge);
    BracketFound(stabs, N_SLINE, g, ge, addr - stabs[g].value, h, he);
  }

  /** On a lawful window the search reports the bracket, if there is one. */
  lemma BracketFound(stabs: seq<Stab>, ty: byte, lo: int, hi: int, key: uint32, a: int, b: int)
    requires 0 <= lo && hi < |stabs| && Lawful(stabs, ty, lo, hi, key) && Brackets(stabs, ty, lo, hi, key, a, b)
    ensures Search(stabs, lo, hi, ty, key) == (a, b)
  {
    hide Search;
    SearchSorted(stabs, lo, hi, ty, key);
    var (left, right) := Search(stabs, lo, hi, ty, key);
    BracketsUnique(stabs, ty, lo, hi, key, a, b, left, right);
  }

  /** What should be reported of the file entry `f`, the function `g..ge` and the line entry `h`. */
  function Report(stabs: seq<Stab>, strtab: string, f: int, g: int, ge: int, h: int): Info
    requires GoodStrings(strtab) && 0 <= f <= g <= h <= ge < |stabs|
  {
    var fnName := NameAt(strtab, stabs[g].strx, Unknown);
    var k := FileStab(stabs, f, h);
    Info(if k >= f then NameAt(strtab, stabs[k].strx, Unknown) else Unknown, stabs[h].desc,
         fnName, NameLen(strtab, fnName), stabs[g].value,
         if g < ge then ParamsEnd(stabs, g + 1, ge) - (g + 1) else 0)
  }

  lemma LookupFrom(stabs: seq<Stab>, strtab: string, addr: uint32, f: int, fe: int, g: int, ge: int, h: int, he: int)
    requires addr >= ULIM && GoodStrings(strtab)
    requires 0 < f <= g <= h <= he <= ge <= fe < |stabs| && stabs[g].value <= addr
    requires Search(stabs, 0, |stabs| - 1, N_SO, addr) == (f, fe)
    requires Search(stabs, f, fe, N_FUN, addr) == (g, ge)
    requires Search(stabs, g, ge, N_SLINE, addr - stabs[g].value) == (h, he)
    ensures Lookup(stabs, strtab, addr) == (Found, Report(stabs, strtab, f, g, ge, h))
  {
    hide Search;
    hide FileStab;
    hide ParamsEnd;
    hide NameLen;
  }

  /** An address inside a file, a function and a line: the three windows nest, and all are reported. */
  lemma LookupFinds(stabs: seq<Stab>, strtab: string, addr: uint32, f: int, fe: int, g: int, ge: int, h: int, he: int)
    requires Accepted(stabs, strtab, addr) && Located(stabs, addr, f, fe, g, ge, h, he)
    ensures f <= g <= h <= he <= ge <= fe
    ensures Lookup(stabs, strtab, addr) == (Found, Report(stabs, strtab, f, g, ge, h))
  {
    hide Search;
    hide Lookup;
    hide Report;
    SearchesAgree(stabs, addr, f, fe, g, ge, h, he);
    LookupFrom(stabs, strtab, addr, f, fe, g, ge, h, he);
  }

  // ----- The record, field by field -----

  /** Entry `k` is the last of `f..h` that starts a compilation unit or an included source. */
  predicate LastSource(stabs: seq<Stab>, f: nat, h: nat, k: nat)
    requires h < |stabs|
  {
    && f <= k <= h && (stabs[k].typ == N_SOL || (stabs[k].typ == N_SO && stabs[k].value != 0))
    && forall j :: k < j <= h ==> stabs[j].typ != N_SOL && (stabs[j].typ != N_SO || stabs[j].value == 0)
  }

  /** The file of the line entry `h` is that of the last such entry, or unknown without one. */
  predicate FileOf(stabs: seq<Stab>, strtab: string, f: nat, h: nat, file: Name)
    requires h < |stabs|
  {
    if exists k :: f <= k <= h && LastSource(stabs, f, h, k) then
      forall k :: f <= k <= h && LastSource(stabs, f, h, k) ==> Names(strtab, stabs[k].strx, file)
    else
      file == Unknown
  }

  lemma FileStabIsLast(stabs: seq<Stab>, f: nat, h: nat)
    requires f <= h < |stabs|
    ensures FileStab(stabs, f, h) >= f ==> LastSource(stabs, f, h, FileStab(stabs, f, h))
    ensures forall k :: f <= k <= h && LastSource(stabs, f, h, k) ==> k == FileStab(stabs, f, h)
  {
    var last := FileStab(stabs, f, h);
    forall k | f <= k <= h && LastSource(stabs, f, h, k) ensures k == last {
      assert NamesFile(stabs[k]);
      assert last >= f ==> NamesFile(stabs[last]);
    }
  }

  lemma FileKnown(stabs: seq<Stab>, strtab: string, f: nat, h: nat)
    requires f <= h < |stabs|
    ensures var k := FileStab(stabs, f, h);
      FileOf(stabs, strtab, f, h, if k >= f then NameAt(strtab, stabs[k].strx, Unknown) else Unknown)
  {
    hide LastSource;
    hide FileStab;
    FileStabIsLast(stabs, f, h);
  }

  /** `n` parameters follow the entry `g`, and its window ends behind them or goes on with another type. */
  predicate ParamsAre(stabs: seq<Stab>, g: nat, ge: nat, n: nat)
    requires g <= ge < |stabs|
  {
    && (g == ge ==> n == 0)
    && (g < ge ==> g + 1 + n <= ge)
    && (forall i :: g < i <= g + n ==> stabs[i].typ == N_PSYM)
    && (g + 1 + n < ge ==> stabs[g + 1 + n].typ != N_PSYM)
  }

  /** Every field, for an address inside a file, a function and a line. */
  lemma LookupReports(stabs: seq<Stab>, strtab: string, addr: uint32, f: int, fe: int, g: int, ge: int, h: int, he: int)
    requires Accepted(stabs, strtab, addr) && Located(stabs, addr, f, fe, g, ge, h, he)
    ensures f <= g <= h <= he <= ge <= fe
    ensures var (rc, info) := Lookup(stabs, strtab, addr);
      && rc == Found
      && info.line == stabs[h].desc
      && info.fnAddr == stabs[g].value
      && Names(strtab, stabs[g].strx, info.fnName) && NameEnds(strtab, info.fnName, info.fnNameLen)
      && FileOf(stabs, strtab, f, h, info.file)
      && ParamsAre(stabs, g, ge, info.fnNarg)
  {
    hide Lookup;
    hide Lawful;
    hide Names;
    hide NameEnds;
    hide FileOf;
    hide NameAt;
    hide NameLen;
    LookupFinds(stabs, strtab, addr, f, fe, g, ge, h, he);
    NameKnown(strtab, stabs[g].strx);
    FileKnown(stabs, strtab, f, h);
  }

  /** A file without functions, as assembly source makes: `h..he` is the line that holds the address. */
  predicate LocatedLine(stabs: seq<Stab>, addr: uint32, f: int, fe: int, h: int, he: int) {
    && 0 < f && Brackets(stabs, N_SO, 0, |stabs| - 1, addr, f, fe)
    && NoMatch(stabs, N_FUN, f, fe)
    && Lawful(stabs, N_SLINE, f, fe, addr) && Brackets(stabs, N_SLINE, f, fe, addr, h, he)
  }

  /** Every field there: the address stands for its function, whose name is unknown. */
  lemma LineReports(stabs: seq<Stab>, strtab: string, addr: uint32, f: int, fe: int, h: int, he: int)
    requires Accepted(stabs, strtab, addr) && LocatedLine(stabs, addr, f, fe, h, he)
    ensures f <= h <= he <= fe
    ensures var (rc, info) := Lookup(stabs, strtab, addr);
      && rc == Found
      && info.line == stabs[h].desc
      && info.fnAddr == addr && info.fnName == Unknown && info.fnNameLen == 9 && info.fnNarg == 0
      && FileOf(stabs, strtab, f, h, info.file)
  {
    hide Search;
    hide Lawful;
    hide FileOf;
    hide NameAt;
    hide FileStab;
    BracketFound(stabs, N_SO, 0, |stabs| - 1, addr, f, fe);
    NoFunction(stabs, f, fe, addr);
    BracketFound(stabs, N_SLINE, f, fe, addr, h, he);
    FileKnown(stabs, strtab, f, h);
  }

  lemma NoFunction(stabs: seq<Stab>, f: nat, fe: nat, addr: uint32)
    requires f <= fe < |stabs| && NoMatch(stabs, N_FUN, f, fe)
    ensures Search(stabs, f, fe, N_FUN, addr) == (f, f - 1)
  {
    hide Search;
    SearchUnsorted(stabs, f, fe, N_FUN, addr);
  }
}
