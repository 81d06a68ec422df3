# JOS lab 1: kernel and boot code, verified in Dafny

JOS is a small teaching kernel. This project models the parts of its first lab that keep state in
buffers, indices and cursors, and proves what they promise:

- **Stabs lookup** (`StabSearch`, `DebugInfo`): the binary search over a table in which only some
  entries have the wanted type, and the address-to-source lookup that nests three such searches.
- **Formatted printing** (`Format`, `Printfmt`, `Output`): `vprintfmt` as it runs, against a specification
  that first parses the whole format and then renders its items; what every conversion prints, in terms
  of the argument words; the truncating sink of `vsnprintf`.
- **Number parsing** (`Strtol`, `RoundTrip`): `strtol` in its 32-bit `long`, and exactly when it reads
  back what the number conversions print.
- **Console** (`ConsoleScreen`, `InputRing`, `Keyboard`, `Readline`): the scrolling screen as the window of an
  ever-growing transcript, the input ring as a queue, the scan-code decoder explained by its history,
  and the line editor whose buffer is what was typed and whose echo mirrors it.
- **Memory and strings** (`Memory`, `CStrings`): `memmove`, `memset` and the C string loops.
- **Boot loader** (`BootLoader`): sector-wise loading with headers that are read while memory is being
  overwritten, and exactly when a segment ends up intact.
- **Command interpreter** (`RunCmd`): splitting a line in place and looking the command up.

Code that works step by step is modelled by methods over arrays and classes. Each method is tied to a
function of its inputs or of the old state, and the lemmas are about those functions. `hide`
statements in proofs only keep definitions out of the solver's way.

`dafny verify dfyconfig.toml` checks the whole project.

## Conventions

- A C string is a Dafny `string` with a NUL in it; `Text(s, p)` is what a pointer to `s[p]` denotes.
  Characters stand for bytes.
- Variadic arguments are the 32-bit words behind the format on an i386 stack, `args(0)`, `args(1)` and
  so on: a `long` is one word, a `long long` two with the low one first. `strs(p)` is the memory a string
  pointer `p` points to.
- The sink takes characters where the source's `putch` takes an `int`; the narrowing that
  `sprintputch` does when it stores is done at the call.
- The keyboard's state word is the set of its bits, so `|=`, `&= ~` and `^=` are set operations.
- Memory is an array indexed by address, so alignment is the index modulo 4. In the boot loader it is
  the whole 32-bit address space. A disk is a function from byte offsets to bytes.

## Where the code and its documentation differ

The model follows the code. Each difference is stated exactly by a lemma.

- `stab_binsearch` promises the entry containing the address. Its `addr++` on an exact hit runs on when
  the next address is in the table too (`SearchKeptIff`), and wraps at the top address (`SearchAtTop`).
- It promises that the address is in no entry when `left > right`, and keeps that. `debuginfo_eip`
  relies on the converse as well, which fails: `left > right` is reported only when there is no entry
  of the type at all (`SearchUnsorted`).
- `debuginfo_eip` therefore takes the file's own entry for a function when all functions of the file lie
  above the address (`FunctionStepExact`), and its test `lfile == 0` depends on entry 0 not being a file
  entry (`FileStepExact`).
- An unknown escape is said to be printed literally. It is, but its stars still consume arguments
  (`BrokenEscape`).
- The `-` flag is said to pad on the right. For numbers it pads on the left with dashes, which is one of
  the cases that `strtol` cannot read back (`RoundTripIff`).
- A width or precision of zero cannot be written in digits, only given by a star: a `0` is always taken for
  the padding flag (`LexCanonical`).
- `readseg` says that writing more than asked does not matter because segments are loaded in increasing
  order. That order is not checked, and misaligned segments are loaded wrong in any order
  (`IntactIff`, `SingleSegmentIff`).
- `readline` tests 0x7f along with the backspace, but only on a line that is not empty; on an empty line
  it stores and echoes it (`TypedIff`).
- The control map has the home key at 0x97 instead of 0xC7, so that control hides the key (`CursorKeys`).

## Model

| member | source | states |
|---|---|---|
| StabSearch.ProbeBack | kern/kdebug.c:59-61 | The backward probe ends at the last entry of the type in the range, or just below the range. |
| StabSearch.Step | kern/kdebug.c:56-82 | One round of the loop stays inside the table and strictly lowers twice the range size, less one while the left entry matches off the key: the search terminates on every table, even where an exact hit leaves the range as it was. |
| StabSearch.StabBinsearch | kern/kdebug.c:50-94 | The search with its in-out bounds computes `Search`; on a sorted window without chaining that holds an entry at or below the address, it brackets the address. |
| StabSearch.RescanBack | kern/kdebug.c:87-92 | The closing loop ends at the last match above the left bound, or at the smaller bound. |
| StabSearch.SearchRange | kern/kdebug.c:50-94 | On every table and for every address, including the wrap: where the bounds can lie, and that the left bound drops below the window only when the first entry matches. |
| StabSearch.NarrowPassed | kern/kdebug.c:56-82 | Loop invariant carried to the exit on any table: the left bound is the last match passed, the right bound is followed by a match above the address, and a match is noticed exactly when there is one. |
| StabSearch.SearchUnsorted | kern/kdebug.c:50-94 | On every window and for every address, sorted or not: `left > right` is reported exactly when the window has no match, and right is the window end or just before a match. Unless the address and all values above it occur, so that the key can wrap, that match lies above the address and left is the last match at or before right (or the window start). |
| StabSearch.NarrowSplits | kern/kdebug.c:56-82 | On sorted windows the loop exits with every match up to right at most the address and every match beyond above it. |
| StabSearch.SearchSorted | kern/kdebug.c:14-94 | The complete outcome on sorted windows without chaining: no match, all matches above the address, or the bracket of the last match at most the address. |
| StabSearch.SearchKeeps | kern/kdebug.c:14-94 | For every address, a sorted window without chaining keeps the bracket promise. |
| StabSearch.NeighboursMiss | kern/kdebug.c:74-81 | A window from an entry at the address to its neighbour at the next address ends on that neighbour instead. |
| StabSearch.SearchKeptIff | kern/kdebug.c:50-94 | On a sorted table the promise is kept on every window if and only if the address and the next one are not both present. |
| StabSearch.WindowKeptIff | kern/kdebug.c:50-94 | One sorted window and every address below the top: the promise is kept if and only if the range left by the hit on the address no longer holds the next one; at 0xFFFFFFFE also when the entry just before the second hit has the address. |
| StabSearch.SearchAtTop | kern/kdebug.c:74-81 | At address 0xFFFFFFFF a sorted window keeps the promise if and only if it holds no entry there, because the increment wraps. |
| StabSearch.WrapUndoesChain | kern/kdebug.c:74-81 | At 0xFFFFFFFE a chained hit can be undone by the wrap, so the two conditions above cannot be merged. |
| DebugInfo.DebuginfoEip | kern/kdebug.c:104-212 | The call fills the record and ends exactly as `Lookup` says, on every table, including what is left in the record on errors. |
| DebugInfo.FindFunction | kern/kdebug.c:146-170 | The function step: bounds and key of the line search, name, name length and start address in the record. |
| DebugInfo.ScanFile | kern/kdebug.c:190-200 | The scan ends at the last entry naming a file at or before the line and not before the file's start. |
| DebugInfo.CountParams | kern/kdebug.c:203-209 | Counts the run of parameter entries behind the function and before the last entry of its window. |
| DebugInfo.FileStepExact | kern/kdebug.c:139-144 | On tables with file entries in order: the file is reported missing exactly when no file entry but possibly entry 0 is at most the address, and the next search leaves the table exactly when entry 0 is a file entry above it. |
| DebugInfo.FileStepSound | kern/kdebug.c:139-144 | When entry 0 is no file entry, -1 at the file step means exactly that no file entry is at most the address, and the record is as initialised. |
| DebugInfo.FunctionStepExact | kern/kdebug.c:146-170 | What is taken for the function in a file window: nothing (and the name stays unknown), the file's own entry when all functions lie above the address, or the last function at most the address; its name is the text at its string index, up to the first colon. |
| DebugInfo.LookupExact | kern/kdebug.c:139-188 | The windows nest, -1 at the line step means exactly that the window holds no line entry (file, line and parameters are then as initialised), and the line comes from the last line entry at most the offset (or the window's first entry when all are above). |
| DebugInfo.LookupFinds | kern/kdebug.c:139-211 | An address inside a file, a function and a line: nested windows, return 0, and every reported field is that of the located entries. |
| DebugInfo.LookupReports | kern/kdebug.c:104-212 | The same field by field: the function's name is the text at its string index if that lies in the table, cut before its first colon; the file is that of the last entry up to the line that starts a compilation unit or an included source; address, line, and the run of parameters. |
| DebugInfo.LineReports | kern/kdebug.c:159-212 | In a file without functions: the address itself for the function, an unknown name of length 9, no parameters, and line and file as above. |
| DebugInfo.SearchFile | kern/kdebug.c:146-212 | The call behind the file step. |
| DebugInfo.FileStab | kern/kdebug.c:195-200 | The file reported is that of the last naming entry between the file's start and the line. |
| DebugInfo.ParamsEnd | kern/kdebug.c:205-209 | The run of parameter entries that is counted is maximal below its limit. |
| DebugInfo.NameStopsAtColon | kern/kdebug.c:169-170 | The reported name ends before the first colon or the terminator and lies inside the string table. |
| CStrings.Strnlen | lib/string.c:21-29 | The smaller of the text's length and the limit. |
| CStrings.Strcmp | lib/string.c:79-85 | Zero exactly for equal texts; otherwise the difference of the first bytes that differ. |
| CStrings.Strchr | lib/string.c:98-107 | The first occurrence, or none exactly when the character does not occur. |
| CStrings.Strfind | lib/string.c:109-118 | The first occurrence or the terminator. |
| CStrings.Find | lib/string.c:109-118 | No earlier character of the text is the one searched for. |
| Memory.RepMovsUp | lib/string.c:160-167 | The upward copy by words or bytes moves the original bytes when the regions are disjoint or the destination is not above the source. |
| Memory.RepMovsDown | lib/string.c:149-159 | The downward copy by words or bytes moves the original bytes when the destination is not below the source. |
| Memory.Memmove | lib/string.c:141-169 | For every overlap, size and alignment: the destination holds the original source bytes and nothing else changes. |
| Memory.MemmoveBytes | lib/string.c:187-205 | The plain byte loops leave the same memory. |
| Memory.ReplicateBytes | lib/string.c:129-130 | Every byte of the shifted fill word is the fill byte. |
| Memory.Memset | lib/string.c:121-139 | The region is filled with the low byte of the value on both paths, and nothing else changes. |
| Memory.MemsetBytes | lib/string.c:173-185 | The plain loop agrees below 2^31 bytes and fills nothing above 2^31, its counter being signed; at 2^31 itself the counter overflows, and the size is excluded. |
| Format.Lex | lib/printfmt.c:104-156 | Modifiers end inside the format, and no '%' is among them, so a rewind finds its own '%'. |
| Format.LiteralText | lib/printfmt.c:92-96 | Text without a '%' is printed as it stands. |
| Format.StarsConsume | lib/printfmt.c:135-137 | The modifiers of an escape consume exactly one argument per star. |
| Format.DecimalShow | lib/printfmt.c:118-132 | A width field's digits and its value determine each other. |
| Format.ParseShow | lib/printfmt.c:91-241 | The parse loses nothing: writing the items down again gives every format back. |
| Format.LexOfShown | lib/printfmt.c:104-156 | The converse for modifiers: a canonical list, written in front of a character that is no modifier, is read back whole. |
| Format.LexCanonical | lib/printfmt.c:113-132 | Only canonical lists are ever read: every number is positive and no digit follows it. |
| Format.ParseOfShown | lib/printfmt.c:91-241 | The converse for formats: literals and canonical directives are what their own writing is parsed into. |
| Format.BrokenEscape | lib/printfmt.c:235-240 | An unknown escape is printed as written, and what follows sees the arguments moved on by its stars. |
| Format.FlagsOnly | lib/printfmt.c:107-115 | The last padding flag wins. |
| Format.StandardShape | lib/printfmt.c:104-156 | For flags, a width and a precision, each absent, written in digits or taken by a star as the signed reading of the next word, and size letters: the hand-off gives every number its standard role; a precision makes the width at least 0. |
| Format.StandardFormat | lib/printfmt.c:98-156 | The same for format strings: such a directive, wherever it is written, is converted with exactly these fields, and the rest of the format follows. |
| Printfmt.Sprintbuf.Put | lib/printfmt.c:261-267 | Every character is counted; it is stored only below the end of the buffer. |
| Printfmt.PrintNum | lib/printfmt.c:35-50 | Emits max(0, width - digits) pad characters, then the digits: the width countdown pads once, before the first digit. |
| Printfmt.ReadNumber | lib/printfmt.c:127-132 | The digit loop reads the longest run of digits and its decimal value. |
| Printfmt.ReadModifiers | lib/printfmt.c:99-156 | The `reswitch` loop stops where the parse says, with the fields that the modifiers set. |
| Printfmt.PutBody | lib/printfmt.c:181-185 | Prints the string clipped to its precision, masked under the alternate flag, and counts the width down by as much. |
| Printfmt.PutString | lib/printfmt.c:175-188 | Left padding, clipped body and right padding of a string. |
| Printfmt.PutError | lib/printfmt.c:164-172 | The nested formatter calls print the name of the error or `error` and its number, for codes of either sign but the most negative, whose negation overflows. |
| Printfmt.PutConversion | lib/printfmt.c:158-233 | Every conversion emits what the specification converts and consumes the same arguments. |
| Printfmt.Rewind | lib/printfmt.c:238-239 | The rewind stops just behind the escape's own '%'. |
| Printfmt.PutEscape | lib/printfmt.c:98-241 | Every escape, broken ones included, moves the outer position forward and emits its rendering. |
| Printfmt.VPrintFmt | lib/printfmt.c:82-243 | For every format and argument list (but an error conversion of the most negative code): terminates, never reads behind the NUL, and emits exactly what parsing the whole format and rendering its items in order gives. |
| Printfmt.Vsnprintf | lib/printfmt.c:269-284 | -E_INVAL for a missing or empty buffer; else the first min(total, n-1) characters of the unbounded output, a NUL, later bytes untouched, and the untruncated total as result (section 7.19.6.5 of ISO C99). |
| Printfmt.ErrorFormat | lib/printfmt.c:168-169 | The nested format `error %d` prints that word and the signed number. |
| Printfmt.StringFormat | lib/printfmt.c:170-171 | The nested format `%s` prints the string unchanged. |
| Output.SignedPrinted | lib/printfmt.c:190-198 | `%d` in any standard shape: the two's complement value of its word, or of two words with two size letters, as a minus sign, padding and digits; the next argument follows these words. |
| Output.UnsignedPrinted | lib/printfmt.c:200-228 | `%u`, `%o` and `%x`: the unsigned value of one or two words in base 10, 8 or 16. |
| Output.PointerPrinted | lib/printfmt.c:213-228 | `%p`: "0x" and the padded hexadecimal number of one word. |
| Output.CharPrinted | lib/printfmt.c:158-161 | `%c` prints the low byte of a word and `%%` a percent sign, unpadded. |
| Output.StringPrinted | lib/printfmt.c:174-188 | `%s`: character by character, the text (or "(null)") cut at the precision, masked under the alternate flag, padded up to the width in front, or behind under a dash. |
| Output.ErrorPrinted | lib/printfmt.c:163-172 | `%e`: the error's name for codes 1 to 6 of either sign, else `error` and the number without its sign. |
| Output.CutString | lib/printfmt.c:135-156 | `%.*s` prints as many characters of its text as its first word says. |
| Output.TwoNumbers | lib/printfmt.c:190-228 | `%d %d` prints its two words in order, a word from 2^31 up as itself less 2^32. |
| Output.FramePrinted | kern/monitor.c:103-106 | A line of the backtrace: file, line, the name cut at its length, and the offset, each from its own word. |
| Strtol.ValueGrows | lib/string.c:263-279 | No prefix of a digit run is worth more than the run, so when the result fits, every step does. |
| Strtol.ReadHead | lib/string.c:245-261 | Blanks, sign and prefix: where the digits start, their sign and their base. |
| Strtol.ReadDigits | lib/string.c:263-279 | The digit loop reads the longest run of digits of the base and its value, without leaving the 32-bit range. |
| Strtol.OverflowExact | lib/string.c:277-278 | The loop overflows exactly when the digits read up to some step are worth more than 0x7FFFFFFF. |
| Strtol.Strtol | lib/string.c:239-284 | The signed value of the longest digit run and the index of the first unread character, for every text and base on which the 32-bit `val` does not overflow. |
| RoundTrip.DigitsRead | lib/printfmt.c:35-50 | The printed digits are valid in the base and worth the number. |
| RoundTrip.DigitsMinimal | lib/printfmt.c:35-50 | The printed representation is minimal: it starts with a zero only for zero itself. |
| RoundTrip.TextParsed | lib/string.c:239-284 | Every text: blanks, a sign, a prefix and digits up to the first character that is none give the digits' worth with the sign, in the given base or, with the base left open, in 16 behind "0x", 8 behind "0" and else 10. |
| RoundTrip.DecimalParsed | lib/string.c:255-261 | With the base left open a signed run of decimal digits is the decimal number. |
| RoundTrip.LetterDigits | lib/string.c:267-272 | Letters are worth ten and up, capital or small. |
| RoundTrip.PrintedParsed | lib/string.c:239-284 | What the digits read of any printed number are worth: the number, its negation behind a single dash of padding, or 0 with the end behind the first character. |
| RoundTrip.RoundTripIff | lib/string.c:239-284 | For every base from 2 to 16, sign, width and padding: `strtol` reads the printed number back in full if and only if its magnitude is below 2^31 and there is no padding, zero padding, blank padding of an unsigned number, or a single dash before 0. Too large a number overflows when its padding is harmless. |
| RoundTrip.PointerRoundTripIff | lib/printfmt.c:213-228 | A printed pointer is read back in base 16 or with the base left open if and only if it is below 0x80000000 and unpadded or zero padded. |
| RoundTrip.KernelAddressOverflows | lib/string.c:277-278 | The printed address 0xF0100000 overflows `strtol`. |
| RoundTrip.SignedRoundTripIff | lib/printfmt.c:190-198 | The condition of `RoundTripIff` for any `%d` escape with any flags, width and size letters, for every argument, `long long` included. |
| RoundTrip.UnsignedRoundTripIff | lib/printfmt.c:200-228 | The same condition for `%u`, `%o` and `%x` against bases 10, 8 and 16: values from 2^31 up are not read back. |
| RoundTrip.BufferRoundTripIff | lib/printfmt.c:269-284 | The same condition, and that of pointers, for the text left in a buffer with room for all of it. |
| RoundTrip.PrintAndRead | lib/printfmt.c:269-284 | A call of `vsnprintf` with one number conversion of any kind and a call of `strtol` on the buffer it filled return the number and the length if and only if the condition holds; a number that fits a `long` is required. |
| ConsoleScreen.Screen.ScrollUp | kern/console.c:209-217 | Scrolling appends one blank line to the transcript and moves the window by it. |
| ConsoleScreen.Screen.StrikeKey | kern/console.c:184-207 | Every character but the tab changes the window as it changes the transcript. |
| ConsoleScreen.Screen.CgaPutc | kern/console.c:173-224 | After any character, the recursive tab included, the 2000 cells are the last 2000 of the transcript and the cursor is on the screen. |
| ConsoleScreen.NewlineMoves | kern/console.c:191-195 | A newline takes the cursor to the first start of a line beyond it and changes no cell; a grey blank line is fed when that runs off the screen. |
| ConsoleScreen.ReturnMoves | kern/console.c:194-196 | A carriage return takes it to the last start of a line at or before it and changes nothing else. |
| ConsoleScreen.BackspaceMoves | kern/console.c:185-190 | A backspace steps back and blanks that cell, except in the top left corner. |
| ConsoleScreen.CharacterMoves | kern/console.c:204-217 | Any other character but the tab is written at the cursor in its colours; one line scrolls in exactly when the screen is full. |
| ConsoleScreen.TabMoves | kern/console.c:197-203 | A tab is five blanks at the cursor, across the end of the screen too. |
| ConsoleScreen.AttrHalves | kern/console.c:176-182 | Foreground and background are the halves of the high byte, grey on black when neither is set. |
| ConsoleScreen.Screen.Perform | kern/console.c:160-224 | Any sequence of these calls on the screen is the run that `RunLater` speaks of: the 2000 cells are the last 2000 of the transcript it writes, with the cursor where the run leaves it. |
| ConsoleScreen.RunLater | kern/console.c:160-224 | For every sequence of characters and colour changes the window moves by whole lines, and lines that left the screen never change. |
| Readline.EditKey | lib/readline.c:22-29 | The erase and store branches change screen and buffer together. |
| Readline.Readline | lib/readline.c:15-36 | After every input, screen and buffer are those of the typed keys; the first newline or return finishes the line with a NUL and a newline echo. If no delete met an empty line, the buffer holds what was typed: printing characters less the erased ones, 1023 at most. |
| Readline.TypedIff | lib/readline.c:22-29 | For every input and all its beginnings the line is what was typed, if and only if no delete (0x7f) meets an empty line. |
| Readline.PlainInput | lib/readline.c:26-29 | Up to 1023 printing characters are the line themselves. |
| Readline.KeysMirror | lib/readline.c:15-36 | For every input, the transcript behind the prompt holds exactly the line, nothing before it changed, and what follows is untouched, erased or blank. |
| Readline.EchoOnScreen | lib/readline.c:15-36 | In screen coordinates: cursor at p + i - 80k, the line from p - 80k on, never scrolled off, and an erase never meets position 0. |
| Readline.TypeThenErase | lib/readline.c:22-29 | An erase undoes the character before it, even across a scroll, and touches one cell only. |
| InputRing.Ring.Intr | kern/console.c:410-422 | Feeding stores all nonzero characters, with the ring emptying itself when 512 are waiting. |
| InputRing.Ring.GetC | kern/console.c:425-444 | Polls both devices, then returns the oldest waiting character, or 0. |
| InputRing.Ring.Drive | kern/console.c:410-444 | A whole schedule of interrupts and polling reads on the ring is a run of feeds and reads: same queue, same characters read, and `Conserves` holds of it. |
| InputRing.InterruptRun | kern/console.c:410-422 | The queue that an interrupt leaves is that of a run of single feeds. |
| InputRing.RunConserves | kern/console.c:410-444 | For every schedule, the characters fed are those read, with every block of 512 that the ring lost put back in its place, followed by those waiting: nothing is invented, duplicated or reordered. |
| InputRing.NothingLostIff | kern/console.c:410-444 | For every schedule, reads and backlog together are the characters fed, in order, if and only if the backlog never reached 512. |
| InputRing.LossesIff | kern/console.c:418-420 | The ring empties itself exactly when a feed finds 511 characters waiting. |
| InputRing.ReadsArePrefix | kern/console.c:410-444 | While the backlog stays at most 511, the characters read are a prefix of those fed, however polling is scheduled. |
| Keyboard.Keyboard.ProcData | kern/console.c:330-380 | The decoder's state and result for every status and data byte. |
| Keyboard.ModifierBit | kern/console.c:350-361 | What one byte does to shift, control or alt; an escaped shift code does nothing. |
| Keyboard.LockBit | kern/console.c:361-362 | A lock bit flips exactly on its unescaped make code. |
| Keyboard.StateExplained | kern/console.c:330-362 | After every stream of bytes: the escape bit tells whether the last byte was 0xE0, each modifier its most recent press or release, each lock the parity of its presses. |
| Keyboard.LetterCapitals | kern/console.c:258-298 | The shift map has the capital of every letter of the normal map. |
| Keyboard.LetterCase | kern/console.c:361-370 | After any stream without a pending escape and with control up, a letter key gives its capital exactly when shift is held or caps lock on, but not both. |
| Keyboard.LetterControl | kern/console.c:364 | With control down a letter key gives its capital less 0x40, whatever shift and caps lock are. |
| Keyboard.DigitKeys | kern/console.c:364 | Without shift and control the digit keys give their digits, caps lock or not. |
| Keyboard.CursorKeys | kern/console.c:355-370 | Behind an escape the cursor keys give their codes under all modifiers, but the home key nothing under control. |
| BootLoader.ReadSect | boot/main.c:106-124 | Copies one sector and nothing else. |
| BootLoader.ReadSeg | boot/main.c:71-96 | Exactly the sector-rounded footprint is overwritten, each byte from its place in the sector-rounded image; sums that wrap around the address space load less or nothing. |
| BootLoader.LoadSegments | boot/main.c:50-56 | Each round loads the segment whose header is in memory at that time, even if an earlier round has overwritten the header page. |
| BootLoader.Bootmain | boot/main.c:38-67 | Boots exactly when the magic number is right; the state of all memory afterwards, and the entry point. For an image that carries given file and program headers byte by byte, laid out apart from the header page and from each other: every segment is at its physical address, from its offset in the image on, and the entry is the header's. |
| BootLoader.HeaderRead | inc/elf.h:24-33 | Of the 32 little-endian bytes of a program header, the loader takes the physical address, the memory size and the offset. |
| BootLoader.RoundLoads | boot/main.c:53-56 | Each round loads the segment of the program header whose bytes memory holds at that time. |
| BootLoader.ElfHeaderRead | inc/elf.h:6-22 | An image that carries the bytes of a file header and of its program headers has their magic number, entry point and segments. |
| BootLoader.StaticRounds | boot/main.c:50-56 | When all headers lie in the page read first and no load touches it, the headers met by the loop are those of the image, and every round ends. |
| BootLoader.LoadedByWriter | boot/main.c:53-56 | Memory after the loop is decided by the last segment whose footprint covers a byte. |
| BootLoader.IntactIff | boot/main.c:38-67 | For the headers of a loadable image: a segment is intact on every disk with these headers if and only if each of its bytes is last written from its own place, or both that place and the one written are header bytes of equal value. |
| BootLoader.SameKernel | boot/main.c:45-56 | Disks that agree on the header bytes have the same magic number, segments and loadability. |
| BootLoader.SeparateLayoutLoads | boot/main.c:84-95 | When addresses and offsets agree modulo 512, no segment reaches the top of memory and no load hurts an earlier segment, every segment equals its disk image (see the System V ABI, chapter 5, "Program Header"). |
| BootLoader.AlignmentExact | boot/main.c:78-82 | A single nonempty segment receives its own bytes if and only if address and offset agree modulo 512 and it ends below the top of memory. |
| BootLoader.SingleSegmentIff | boot/main.c:38-67 | The same of what is in memory, for one header and a segment stored apart from the header bytes. |
| RunCmd.StartsBelowExact | kern/monitor.c:126-144 | The list of argument starts holds each maximal whitespace-free run exactly once, in order. |
| RunCmd.GobbleBlanks | kern/monitor.c:130-134 | Whitespace is overwritten by NULs up to the next run or the end. |
| RunCmd.ScanRun | kern/monitor.c:141-143 | An argument is scanned to the end of its run, without changes. |
| RunCmd.Split | kern/monitor.c:126-145 | Reports too many exactly for 16 runs or more; then the first 15 and a line split up to the sixteenth; else the starts of all runs, with every blank of the line overwritten. |
| RunCmd.ArgumentsAreRuns | kern/monitor.c:126-145 | Each argument is NUL-terminated and is exactly its maximal run of the original line. |
| RunCmd.Lookup | kern/monitor.c:150-154 | Finds the first command with the given name, or none exactly when no name matches. |
| RunCmd.Runcmd | kern/monitor.c:119-156 | Nothing runs for 16 arguments or more or for a blank line; otherwise a command is chosen exactly when its name is the first run, the text behind the leading blanks. |

## Left out

- SearchKeptIff: the only-if half is stated for addresses below 0xFFFFFFFE; `SearchAtTop` settles the top address, and at 0xFFFFFFFE the half is false (`WrapUndoesChain`). `WindowKeptIff` is exact there too, window by window.
- DebuginfoEip: the user-address panic and the read before the table are outcomes of their own; the record's later contents are not modelled for them.
- VPrintFmt: widths, precisions and counts are unbounded integers; their signed overflow, which C leaves undefined, is not modelled. An error conversion of the most negative code, whose negation overflows, is excluded by a precondition.
- StringPrinted: the precision is an `int`, and a text under a negative one is not longer than that reads as an unsigned size.
- Vsnprintf: `snprintf`, which only packs its arguments, and the `cprintf` sink are not modelled; the sink's own counter is unbounded.
- Strtol: what a text that overflows is read as, which C leaves undefined, is `Overflow` in `Reading` and excluded by a precondition of the method.
- PrintAndRead: numbers that do not fit a `long` are excluded by a precondition for the same reason; `BufferRoundTripIff` covers them.
- MemsetBytes: the size 2^31, at which decrementing the counter overflows, is excluded by a precondition.
- RepMovsUp: a word is read whole before it is written, as the string instruction does; word paths need no alignment argument then.
- CgaPutc: characters are bytes and colours at most 15, so the attribute and the character do not overlap; cursor registers, serial and parallel output are left out.
- Readline: starts behind the prompt, and the read-error branch is left out, because the console's `getchar` never returns a negative value.
- GetC: what the devices deliver during a poll is a parameter; interrupts between the two polls are not modelled.
- ProcData: the reboot on Ctrl-Alt-Del is left out; the character is returned as in the source.
- ReadSeg: an end in the last sector of memory, on which the loop does not terminate, is excluded by a precondition.
- Bootmain: that the headers' addresses do not overflow and every round ends is a precondition; the jump, the endless loop after a bad magic number, and the memory the loader itself occupies are left out.
- IntactIff: images whose loads overwrite the header page are covered by `Bootmain`, not by this equivalence.
- Runcmd: stops at the choice of the command; the commands themselves and all messages are left out.
- The shape of the 88-entry key tables beyond the letters, `cga_init`, `serial_init` and all port input and output.
- `strcpy`, `strcat`, `strncpy`, `strlcpy`, `strncmp`, `memcmp`, `memfind` and `memcpy` are not modelled.
- `mon_backtrace`, the boot and entry assembly, page tables, and the build and grading scripts.
