/**
 The boot loader of boot/main.c.  Whole 512-byte sectors are copied, so a segment's load also
 overwrites what surrounds it, even the headers that say what to load next; the lemmas say exactly
 when a segment is intact in the end.
 */
module BootLoader {
  import opened Types

  const SECTSIZE := 512
  const ELFHDR := 0x1_0000
  const PAGE := 8 * SECTSIZE
  const ELF_MAGIC: uint32 := 0x464C_457F
  const PROGHDR_SIZE := 32
  const MEMORY := 0x1_0000_0000

  function RoundDown(x: nat): (r: nat)
    ensures r % SECTSIZE == 0 && r <= x < r + SECTSIZE
  {
    x - x % SECTSIZE
  }

  function RoundUp(x: nat): (r: nat)
    ensures r % SECTSIZE == 0 && x <= r < x + SECTSIZE
  {
    RoundDown(x + SECTSIZE - 1)
  }

  /** A program header, as far as the loader looks at it. */
  datatype Segment = Segment(pa: uint32, memsz: uint32, offset: uint32)

  /** Where the loader takes a segment to end: the sum wraps around. */
  function EndOf(s: Segment): uint32 {
    if s.pa + s.memsz < MEMORY then s.pa + s.memsz else s.pa + s.memsz - MEMORY
  }

  /** The addresses a segment's load overwrites: `Lo <= a < Hi`, which are none if the end wrapped far enough. */
  function Lo(s: Segment): nat {
    RoundDown(s.pa)
  }

  function Hi(s: Segment): nat {
    RoundUp(EndOf(s))
  }

  predicate InFootprint(s: Segment, a: int) {
    Lo(s) <= a < Hi(s)
  }

  /** The load comes to an end: with an end in the last sector, the sector address wraps before it is reached. */
  predicate Fits(s: Segment) {
    EndOf(s) <= MEMORY - SECTSIZE
  }

  /** How far into the segment an address lies. */
  function Into(s: Segment, a: uint32): nat {
    if s.pa <= a then a - s.pa else a - s.pa + MEMORY
  }

  predicate InSegment(s: Segment, a: int) {
    0 <= a < MEMORY && Into(s, a) < s.memsz
  }

  /**
   The disk byte that a load stores at `a`, and the one that belongs there.  Sector 0 holds the boot
   loader, so the image starts at byte 512 of the disk.
   */
  function Stored(s: Segment, a: int): (o: nat)
    requires InFootprint(s, a)
  {
    SECTSIZE + RoundDown(s.offset) + (a - Lo(s))
  }

  function Wanted(s: Segment, a: int): nat
    requires InSegment(s, a)
  {
    SECTSIZE + s.offset + Into(s, a)
  }

  // ----- Loading one segment -----

  function ByteOver(disk: nat -> byte, s: Segment, a: nat, before: byte): byte {
    if InFootprint(s, a) then disk(Stored(s, a)) else before
  }

  /** Memory `m` once the segment is loaded over it. */
  function LoadedOver(disk: nat -> byte, s: Segment, m: seq<byte>): (r: seq<byte>)
    ensures |r| == |m|
    ensures forall a :: 0 <= a < |m| ==> r[a] == if InFootprint(s, a) then disk(Stored(s, a)) else m[a]
  {
    seq(|m|, a requires 0 <= a < |m| => ByteOver(disk, s, a, m[a]))
  }

  /** `readsect`: one sector from the disk to memory. */
  method ReadSect(mem: array<byte>, disk: nat -> byte, dst: nat, sector: nat)
    requires dst + SECTSIZE <= mem.Length
    modifies mem
    ensures forall a :: 0 <= a < mem.Length ==>
      mem[a] == if dst <= a < dst + SECTSIZE then disk(SECTSIZE * sector + (a - dst)) else old(mem[a])
  {
    for i := 0 to SECTSIZE
      invariant forall a :: 0 <= a < mem.Length ==>
        mem[a] == if dst <= a < dst + i then disk(SECTSIZE * sector + (a - dst)) else old(mem[a])
    {
      mem[dst + i] := disk(SECTSIZE * sector + i);
    }
  }

  lemma SectorFits(pa: nat, hi: nat)
    requires pa < hi && pa % SECTSIZE == 0 && hi % SECTSIZE == 0
    ensures pa + SECTSIZE <= hi && (pa + SECTSIZE) % SECTSIZE == 0
  {
  }

  /** The last sector of memory is not reached, so no sector address wraps. */
  lemma FootprintFits(s: Segment)
    requires Fits(s)
    ensures Hi(s) <= MEMORY - SECTSIZE
  {
    var hi := Hi(s);
    assert hi % SECTSIZE == 0 && hi < EndOf(s) + SECTSIZE;
  }

  /** Memory `m` once the sectors from `Lo(s)` up to `pa` are copied. */
  ghost predicate SectorsCopied(disk: nat -> byte, s: Segment, m: seq<byte>, r: seq<byte>, pa: nat) {
    var first := SECTSIZE + RoundDown(s.offset);
    |r| == |m| && forall a :: 0 <= a < |m| ==> r[a] == if Lo(s) <= a < pa then disk(first + (a - Lo(s))) else m[a]
  }

  lemma OneMoreSector(disk: nat -> byte, s: Segment, m: seq<byte>, r0: seq<byte>, pa: nat, r1: seq<byte>, sector: nat)
    requires SectorsCopied(disk, s, m, r0, pa) && Lo(s) <= pa && |r1| == |m|
    requires SECTSIZE * sector == SECTSIZE + RoundDown(s.offset) + (pa - Lo(s))
    requires forall a :: 0 <= a < |m| ==>
      r1[a] == if pa <= a < pa + SECTSIZE then disk(SECTSIZE * sector + (a - pa)) else r0[a]
    ensures SectorsCopied(disk, s, m, r1, pa + SECTSIZE)
  {
    hide Lo;
    hide RoundDown;
  }

  lemma AllSectorsCopied(disk: nat -> byte, s: Segment, m: seq<byte>, r: seq<byte>, pa: nat)
    requires SectorsCopied(disk, s, m, r, pa) && Hi(s) <= pa && (pa == Lo(s) || pa <= Hi(s))
    ensures r == LoadedOver(disk, s, m)
  {
    hide Lo;
    hide Hi;
    hide RoundDown;
  }

  /** Where the loop of a load starts and ends. */
  lemma LoadBounds(s: Segment)
    requires Fits(s)
    ensures ToUint32(s.pa + s.memsz) == EndOf(s) <= Hi(s) < EndOf(s) + SECTSIZE && Hi(s) <= MEMORY - SECTSIZE
    ensures Lo(s) == RoundDown(s.pa) && Lo(s) % SECTSIZE == 0 && Hi(s) % SECTSIZE == 0
    ensures SECTSIZE * (s.offset / SECTSIZE + 1) == SECTSIZE + RoundDown(s.offset)
  {
    FootprintFits(s);
  }

  /** `readseg`: the sectors that cover `count` bytes from `pa0` on. */
  method ReadSeg(mem: array<byte>, disk: nat -> byte, pa0: uint32, count: uint32, offset0: uint32)
    requires mem.Length == MEMORY && Fits(Segment(pa0, count, offset0))
    modifies mem
    ensures mem[..] == LoadedOver(disk, Segment(pa0, count, offset0), old(mem[..]))
  {
    ghost var s, m := Segment(pa0, count, offset0), mem[..];
    ghost var lo, hi, first := Lo(s), Hi(s), SECTSIZE + RoundDown(offset0);
    LoadBounds(s);
    assert SectorsCopied(disk, s, m, m, lo);
    hide ToUint32;
    hide RoundDown;
    hide RoundUp;
    hide EndOf;
    hide Lo;
    hide Hi;
    hide SectorsCopied;
    var endPa := ToUint32(pa0 + count);
    var pa: uint32 := RoundDown(pa0);
    var offset := offset0 / SECTSIZE + 1;
    while pa < endPa
      invariant lo <= pa && (pa == lo || pa <= hi) && pa % SECTSIZE == 0
      invariant SECTSIZE * offset == first + (pa - lo)
      invariant SectorsCopied(disk, s, m, mem[..], pa)
      decreases MEMORY - pa
    {
      SectorFits(pa, hi);
      ghost var r := mem[..];
      ReadSect(mem, disk, pa, offset);
      OneMoreSector(disk, s, m, r, pa, mem[..], offset);
      pa := pa + SECTSIZE;
      offset := offset + 1;
    }
    SectorsEnd(pa, hi, endPa);
    AllSectorsCopied(disk, s, m, mem[..], pa);
  }

  /** The loop stops at the rounded end, or where it started if that is no lower. */
  lemma SectorsEnd(pa: nat, hi: nat, end: nat)
    requires end <= pa && end <= hi < end + SECTSIZE && pa % SECTSIZE == 0 && hi % SECTSIZE == 0
    ensures hi <= pa
  {
  }

  // ----- Headers -----

  function Word(bytes: nat -> byte, o: nat): uint32 {
    bytes(o) + 0x100 * bytes(o + 1) + 0x1_0000 * bytes(o + 2) + 0x100_0000 * bytes(o + 3)
  }

  function HalfWord(bytes: nat -> byte, o: nat): uint16 {
    bytes(o) + 0x100 * bytes(o + 1)
  }

  /** Byte `o` of the kernel image. */
  function Image(disk: nat -> byte): nat -> byte {
    o => disk(SECTSIZE + o)
  }

  /** Memory by address. */
  function At(m: seq<byte>): nat -> byte {
    (a: nat) => if a < |m| then m[a] else 0
  }

  function PhOff(image: nat -> byte): uint32 {
    Word(image, 28)
  }

  function PhNum(image: nat -> byte): uint16 {
    HalfWord(image, 44)
  }

  function SegmentAt(bytes: nat -> byte, at: nat): Segment {
    Segment(Word(bytes, at + 12), Word(bytes, at + 20), Word(bytes, at + 4))
  }

  // ----- What a run leaves in memory -----

  /** The header page is loaded like a segment. */
  const HEADER_PAGE := Segment(ELFHDR, PAGE, 0)

  /** Header `i`, which is read from memory when its turn comes. */
  function HeaderIn(m: seq<byte>, phoff: uint32, i: nat): Segment {
    SegmentAt(At(m), ELFHDR + phoff + PROGHDR_SIZE * i)
  }

  /** Memory after the first `n` rounds of the loop; a round may overwrite the headers of later ones. */
  function Rounds(disk: nat -> byte, m: seq<byte>, phoff: uint32, n: nat): (r: seq<byte>)
    ensures |r| == |m|
  {
    if n == 0 then m
    else var before := Rounds(disk, m, phoff, n - 1); LoadedOver(disk, HeaderIn(before, phoff, n - 1), before)
  }

  /** The segment that round `i` loads. */
  function RoundSegment(disk: nat -> byte, m: seq<byte>, phoff: uint32, i: nat): Segment {
    HeaderIn(Rounds(disk, m, phoff, i), phoff, i)
  }

  /** Every round comes to an end. */
  predicate RoundsEnd(disk: nat -> byte, m: seq<byte>, phoff: uint32, n: nat) {
    forall i :: 0 <= i < n ==> Fits(RoundSegment(disk, m, phoff, i))
  }

  // ----- The loader -----

  method LoadHalfWord(mem: array<byte>, a: nat) returns (w: uint16)
    requires a + 2 <= mem.Length
    ensures w == HalfWord(At(mem[..]), a)
  {
    var low: int, high: int := mem[a], mem[a + 1];
    w := low + 0x100 * high;
  }

  method LoadWord(mem: array<byte>, a: nat) returns (w: uint32)
    requires a + 4 <= mem.Length
    ensures w == Word(At(mem[..]), a)
  {
    var low: int := LoadHalfWord(mem, a);
    var high: int := LoadHalfWord(mem, a + 2);
    w := low + 0x1_0000 * high;
  }

  /** The loop over the program headers, which are read from memory while the segments are being loaded. */
  method LoadSegments(mem: array<byte>, disk: nat -> byte, phoff: uint32, phnum: uint16)
    requires mem.Length == MEMORY && ELFHDR + phoff + PROGHDR_SIZE * phnum <= MEMORY
    requires RoundsEnd(disk, mem[..], phoff, phnum)
    modifies mem
    ensures mem[..] == Rounds(disk, old(mem[..]), phoff, phnum)
  {
    hide Word;
    hide LoadedOver;
    hide At;
    hide Fits;
    ghost var m, n := mem[..], 0;
    var ph, eph := ELFHDR + phoff, ELFHDR + phoff + PROGHDR_SIZE * phnum;
    while ph < eph
      invariant 0 <= n <= phnum && ph == ELFHDR + phoff + PROGHDR_SIZE * n
      invariant mem[..] == Rounds(disk, m, phoff, n)
      decreases eph - ph
    {
      var pa := LoadWord(mem, ph + 12);
      var memsz := LoadWord(mem, ph + 20);
      var offset := LoadWord(mem, ph + 4);
      assert Segment(pa, memsz, offset) == RoundSegment(disk, m, phoff, n);
      ReadSeg(mem, disk, pa, memsz, offset);
      ph := ph + PROGHDR_SIZE;
      n := n + 1;
    }
  }

  /** What the loader takes for granted once the magic number is right: the header loop stays in memory and ends. */
  predicate Loadable(disk: nat -> byte, m: seq<byte>) {
    var image := Image(disk);
    && ELFHDR + PhOff(image) + PROGHDR_SIZE * PhNum(image) <= MEMORY
    && RoundsEnd(disk, LoadedOver(disk, HEADER_PAGE, m), PhOff(image), PhNum(image))
  }

  /** `bootmain` up to the jump. */
  method Bootmain(mem: array<byte>, disk: nat -> byte) returns (booted: bool, entry: uint32)
    requires mem.Length == MEMORY
    requires Word(Image(disk), 0) == ELF_MAGIC ==> Loadable(disk, mem[..])
    modifies mem
    ensures booted <==> Word(Image(disk), 0) == ELF_MAGIC
    ensures var n := if booted then PhNum(Image(disk)) else 0;
      mem[..] == Rounds(disk, LoadedOver(disk, HEADER_PAGE, old(mem[..])), PhOff(Image(disk)), n)
    ensures booted ==> entry == Word(At(mem[..]), ELFHDR + 24)
    ensures booted && GoodHeaders(Image(disk)) ==> entry == Word(Image(disk), 24)
    ensures booted && GoodHeaders(Image(disk)) ==>
              && HasHeaders(mem[..], Image(disk))
              && forall a :: 0 <= a < MEMORY ==> mem[a] == After(disk, Kernel(disk), a, old(mem[a]))
    ensures booted && GoodHeaders(Image(disk)) && Separate(Kernel(disk)) ==>
              forall i, a :: 0 <= i < |Kernel(disk)| && InSegment(Kernel(disk)[i], a) ==>
                mem[a] == disk(Wanted(Kernel(disk)[i], a))
    ensures forall e: ElfHeader, hs: seq<ProgramHeader> :: Carries(disk, e, hs) ==>
              && (booted <==> e.magic == 0x464C_457F)
              && (booted && Laid(e, hs) ==> entry == e.entry && InPlace(mem[..], disk, hs))
  {
    hide Carries;
    hide Laid;
    hide InPlace;
    hide Word;
    hide HalfWord;
    hide LoadedOver;
    hide Rounds;
    hide RoundsEnd;
    hide GoodHeaders;
    hide After;
    hide Image;
    hide At;
    hide Into;
    hide Wanted;
    hide Separate;
    ghost var image, m := Image(disk), mem[..];
    HeaderPageLoaded(disk, m);
    ReadSeg(mem, disk, ELFHDR, PAGE, 0);
    ghost var page := mem[..];
    var magic := LoadWord(mem, ELFHDR);
    HeaderWord(page, image, 0);
    if magic != ELF_MAGIC {
      NoRounds(disk, page, PhOff(image));
      forall e: ElfHeader, hs: seq<ProgramHeader> | Carries(disk, e, hs) ensures e.magic != ELF_MAGIC {
        ElfHeaderRead(disk, e, hs);
      }
      return false, 0;
    }
    HeaderWord(page, image, 28);
    HeaderWord(page, image, 44);
    var phoff := LoadWord(mem, ELFHDR + 28);
    var phnum := LoadHalfWord(mem, ELFHDR + 44);
    LoadSegments(mem, disk, phoff, phnum);
    entry := LoadWord(mem, ELFHDR + 24);
    booted := true;
    if GoodHeaders(image) {
      StaticHeaders(disk, m, phnum);
      HeaderWord(mem[..], image, 24);
      if Separate(Kernel(disk)) {
        SeparateLayoutLoads(disk);
        forall i, a | 0 <= i < |Kernel(disk)| && InSegment(Kernel(disk)[i], a)
          ensures mem[a] == disk(Wanted(Kernel(disk)[i], a))
        {
          assert Intact(disk, i) && mem[a] == After(disk, Kernel(disk), a, m[a]);
        }
      }
    }
    forall e: ElfHeader, hs: seq<ProgramHeader> | Carries(disk, e, hs)
      ensures e.magic == ELF_MAGIC
      ensures Laid(e, hs) ==> entry == e.entry && InPlace(mem[..], disk, hs)
    {
      ElfHeaderRead(disk, e, hs);
      if Laid(e, hs) {
        LaidIsGood(disk, e, hs);
        KernelInPlace(mem[..], disk, e, hs);
      }
    }
  }

  lemma NoRounds(disk: nat -> byte, m: seq<byte>, phoff: uint32)
    ensures Rounds(disk, m, phoff, 0) == m
  {
  }

  // ----- Images whose headers stay in place -----

  /** The first `n` program headers of the image. */
  function Segments(image: nat -> byte, n: nat): (segs: seq<Segment>)
    ensures |segs| == n
    ensures forall i :: 0 <= i < n ==> segs[i] == SegmentAt(image, PhOff(image) + PROGHDR_SIZE * i)
  {
    seq(n, i requires 0 <= i => SegmentAt(image, PhOff(image) + PROGHDR_SIZE * i))
  }

  /** The load leaves the page with the headers alone. */
  predicate AvoidsHeaders(s: Segment) {
    Hi(s) <= ELFHDR || ELFHDR + PAGE <= Lo(s) || Hi(s) <= Lo(s)
  }

  /** All headers lie in the page that is read, every load ends, and none touches that page. */
  predicate GoodHeaders(image: nat -> byte) {
    && PhOff(image) + PROGHDR_SIZE * PhNum(image) <= PAGE
    && forall i :: 0 <= i < PhNum(image) ==>
         var s := SegmentAt(image, PhOff(image) + PROGHDR_SIZE * i); Fits(s) && AvoidsHeaders(s)
  }

  /** The byte at `a` once the first `n` segments are loaded over `before`: the last load to cover it counts. */
  function Loaded(disk: nat -> byte, segs: seq<Segment>, n: nat, a: nat, before: byte): byte
    requires n <= |segs|
  {
    if n == 0 then before
    else if InFootprint(segs[n - 1], a) then disk(Stored(segs[n - 1], a))
    else Loaded(disk, segs, n - 1, a, before)
  }

  /** The byte at `a` after the header page and then the segments. */
  function After(disk: nat -> byte, segs: seq<Segment>, a: nat, before: byte): byte {
    Loaded(disk, segs, |segs|, a, if ELFHDR <= a < ELFHDR + PAGE then disk(SECTSIZE + (a - ELFHDR)) else before)
  }

  /** The header page is in memory as it is on disk. */
  ghost predicate HasHeaders(m: seq<byte>, image: nat -> byte) {
    |m| == MEMORY && forall a :: ELFHDR <= a < ELFHDR + PAGE ==> m[a] == image(a - ELFHDR)
  }

  lemma HeaderWord(m: seq<byte>, image: nat -> byte, o: nat)
    requires HasHeaders(m, image)
    ensures o + 4 <= PAGE ==> Word(At(m), ELFHDR + o) == Word(image, o)
    ensures o + 2 <= PAGE ==> HalfWord(At(m), ELFHDR + o) == HalfWord(image, o)
  {
  }

  lemma HeaderPageLoaded(disk: nat -> byte, m: seq<byte>)
    requires |m| == MEMORY
    ensures Fits(HEADER_PAGE)
    ensures HasHeaders(LoadedOver(disk, HEADER_PAGE, m), Image(disk))
    ensures var r := LoadedOver(disk, HEADER_PAGE, m);
      forall a :: 0 <= a < MEMORY ==>
        r[a] == if ELFHDR <= a < ELFHDR + PAGE then disk(SECTSIZE + (a - ELFHDR)) else m[a]
  {
    assert Lo(HEADER_PAGE) == ELFHDR && Hi(HEADER_PAGE) == ELFHDR + PAGE;
    assert forall a :: InFootprint(HEADER_PAGE, a) ==> Stored(HEADER_PAGE, a) == SECTSIZE + (a - ELFHDR);
  }

  lemma HeaderStays(disk: nat -> byte, s: Segment, m: seq<byte>, image: nat -> byte)
    requires HasHeaders(m, image) && AvoidsHeaders(s)
    ensures HasHeaders(LoadedOver(disk, s, m), image)
  {
    hide Lo;
    hide Hi;
    hide Stored;
  }

  lemma HeaderMet(m: seq<byte>, image: nat -> byte, i: nat)
    requires HasHeaders(m, image) && PhOff(image) + PROGHDR_SIZE * (i + 1) <= PAGE
    ensures HeaderIn(m, PhOff(image), i) == SegmentAt(image, PhOff(image) + PROGHDR_SIZE * i)
  {
    hide HasHeaders;
    hide Word;
    hide At;
    var at := PhOff(image) + PROGHDR_SIZE * i;
    HeaderWord(m, image, at + 12);
    HeaderWord(m, image, at + 20);
    HeaderWord(m, image, at + 4);
  }

  /** With good headers, the headers met by the loop are those of the image, and memory is what the list says. */
  lemma {:induction false} StaticRounds(disk: nat -> byte, m: seq<byte>, n: nat)
    requires HasHeaders(m, Image(disk)) && GoodHeaders(Image(disk)) && n <= PhNum(Image(disk))
    ensures var image := Image(disk);
      && HasHeaders(Rounds(disk, m, PhOff(image), n), image)
      && (n < PhNum(image) ==>
            RoundSegment(disk, m, PhOff(image), n) == SegmentAt(image, PhOff(image) + PROGHDR_SIZE * n))
      && RoundsEnd(disk, m, PhOff(image), n)
  {
    hide Image;
    hide HasHeaders;
    hide LoadedOver;
    hide SegmentAt;
    hide PhOff;
    hide PhNum;
    hide Fits;
    hide AvoidsHeaders;
    hide HeaderIn;
    var image := Image(disk);
    if n > 0 {
      StaticRounds(disk, m, n - 1);
      HeaderStays(disk, RoundSegment(disk, m, PhOff(image), n - 1), Rounds(disk, m, PhOff(image), n - 1), image);
    }
    if n < PhNum(image) {
      HeaderMet(Rounds(disk, m, PhOff(image), n), image, n);
    }
  }

  /** One more round, byte by byte. */
  lemma RoundStep(disk: nat -> byte, m: seq<byte>, phoff: uint32, n: nat, a: nat)
    requires a < |m|
    ensures var s := RoundSegment(disk, m, phoff, n);
      Rounds(disk, m, phoff, n + 1)[a] == ByteOver(disk, s, a, Rounds(disk, m, phoff, n)[a])
  {
    hide HeaderIn;
    hide InFootprint;
    hide Stored;
  }

  lemma {:induction false} StaticByte(disk: nat -> byte, m: seq<byte>, segs: seq<Segment>, n: nat, a: nat)
    requires HasHeaders(m, Image(disk)) && GoodHeaders(Image(disk)) && n <= |segs| == PhNum(Image(disk))
    requires segs == Segments(Image(disk), |segs|) && a < |m|
    ensures Rounds(disk, m, PhOff(Image(disk)), n)[a] == Loaded(disk, segs, n, a, m[a])
  {
    hide Image;
    hide HasHeaders;
    hide GoodHeaders;
    hide SegmentAt;
    hide PhOff;
    hide PhNum;
    hide InFootprint;
    hide Stored;
    hide Rounds;
    hide RoundSegment;
    if n > 0 {
      StaticRounds(disk, m, n - 1);
      StaticByte(disk, m, segs, n - 1, a);
      RoundStep(disk, m, PhOff(Image(disk)), n - 1, a);
    } else {
      NoRounds(disk, m, PhOff(Image(disk)));
    }
  }

  lemma StaticHeaders(disk: nat -> byte, m: seq<byte>, n: uint16)
    requires |m| == MEMORY && GoodHeaders(Image(disk)) && n == PhNum(Image(disk))
    ensures Loadable(disk, m)
    ensures var r := Rounds(disk, LoadedOver(disk, HEADER_PAGE, m), PhOff(Image(disk)), n);
      && HasHeaders(r, Image(disk))
      && forall a :: 0 <= a < MEMORY ==> r[a] == After(disk, Segments(Image(disk), n), a, m[a])
  {
    hide Rounds;
    hide Loaded;
    hide LoadedOver;
    hide Image;
    hide Word;
    hide HalfWord;
    hide RoundsEnd;
    HeaderPageLoaded(disk, m);
    StaticRounds(disk, LoadedOver(disk, HEADER_PAGE, m), n);
    var page := LoadedOver(disk, HEADER_PAGE, m);
    forall a | 0 <= a < MEMORY
      ensures Rounds(disk, page, PhOff(Image(disk)), n)[a] == After(disk, Segments(Image(disk), n), a, m[a])
    {
      StaticByte(disk, page, Segments(Image(disk), n), n, a);
    }
  }

  // ----- Exactly when every segment is intact -----

  /** The last of the first `n` segments whose load covers `a`, or -1. */
  function Writer(segs: seq<Segment>, n: nat, a: nat): (w: int)
    requires n <= |segs|
    ensures -1 <= w < n
    ensures w >= 0 ==> InFootprint(segs[w], a)
    ensures forall j :: w < j < n ==> !InFootprint(segs[j], a)
  {
    if n == 0 then -1 else if InFootprint(segs[n - 1], a) then n - 1 else Writer(segs, n - 1, a)
  }

  lemma {:induction false} LoadedByWriter(disk: nat -> byte, segs: seq<Segment>, n: nat, a: nat, before: byte)
    requires n <= |segs|
    ensures var w := Writer(segs, n, a);
      Loaded(disk, segs, n, a, before) == if w < 0 then before else disk(Stored(segs[w], a))
  {
    hide InFootprint;
    hide Stored;
    if n > 0 {
      LoadedByWriter(disk, segs, n - 1, a, before);
    }
  }

  /** Where the byte at an address comes from. */
  datatype Origin = Untouched | FromDisk(o: nat)

  function OriginOf(segs: seq<Segment>, a: nat): Origin {
    var w := Writer(segs, |segs|, a);
    if w >= 0 then FromDisk(Stored(segs[w], a))
    else if ELFHDR <= a < ELFHDR + PAGE then FromDisk(SECTSIZE + (a - ELFHDR))
    else Untouched
  }

  lemma AfterByOrigin(disk: nat -> byte, segs: seq<Segment>, a: nat, before: byte)
    ensures After(disk, segs, a, before)
         == match OriginOf(segs, a) case Untouched => before case FromDisk(o) => disk(o)
  {
    hide Loaded;
    hide Stored;
    hide Writer;
    hide InFootprint;
    LoadedByWriter(disk, segs, |segs|, a,
                   if ELFHDR <= a < ELFHDR + PAGE then disk(SECTSIZE + (a - ELFHDR)) else before);
  }

  /** The segments of a disk's kernel. */
  function Kernel(disk: nat -> byte): seq<Segment> {
    Segments(Image(disk), PhNum(Image(disk)))
  }

  /** In the end memory holds segment `i` of the disk's kernel, whatever it held before. */
  ghost predicate Intact(disk: nat -> byte, i: nat) {
    i < |Kernel(disk)| &&
    forall a: nat, before: byte :: InSegment(Kernel(disk)[i], a) ==>
      After(disk, Kernel(disk), a, before) == disk(Wanted(Kernel(disk)[i], a))
  }

  // ----- Disks with the same headers -----

  /** The bytes of header `i` that say what to load where. */
  predicate InHeader(phoff: uint32, i: nat, o: nat) {
    var k := o - SECTSIZE - phoff - PROGHDR_SIZE * i;
    4 <= k < 8 || 12 <= k < 16 || 20 <= k < 24
  }

  /** The disk bytes that decide what is loaded: magic number, place and number of the headers, and the headers. */
  predicate IsHeaderByte(disk: nat -> byte, o: nat) {
    || SECTSIZE <= o < SECTSIZE + 4
    || SECTSIZE + 28 <= o < SECTSIZE + 32
    || SECTSIZE + 44 <= o < SECTSIZE + 46
    || exists i | 0 <= i < PhNum(Image(disk)) :: InHeader(PhOff(Image(disk)), i, o)
  }

  /** `other` carries the headers of `disk`. */
  ghost predicate SameHeaders(disk: nat -> byte, other: nat -> byte) {
    forall o: nat :: IsHeaderByte(disk, o) ==> other(o) == disk(o)
  }

  lemma SameWord(disk: nat -> byte, other: nat -> byte, o: nat)
    requires forall k :: SECTSIZE + o <= k < SECTSIZE + o + 4 ==> other(k) == disk(k)
    ensures Word(Image(other), o) == Word(Image(disk), o)
  {
  }

  lemma SameSegment(disk: nat -> byte, other: nat -> byte, i: nat)
    requires SameHeaders(disk, other) && i < PhNum(Image(disk))
    ensures SegmentAt(Image(other), PhOff(Image(disk)) + PROGHDR_SIZE * i)
         == SegmentAt(Image(disk), PhOff(Image(disk)) + PROGHDR_SIZE * i)
  {
    hide Word;
    hide PhOff;
    hide PhNum;
    var phoff := PhOff(Image(disk));
    var at := phoff + PROGHDR_SIZE * i;
    assert forall o: nat :: InHeader(phoff, i, o) ==> IsHeaderByte(disk, o);
    hide IsHeaderByte;
    SameWord(disk, other, at + 12);
    SameWord(disk, other, at + 20);
    SameWord(disk, other, at + 4);
  }

  lemma SameStart(disk: nat -> byte, other: nat -> byte)
    requires SameHeaders(disk, other)
    ensures Word(Image(other), 0) == Word(Image(disk), 0)
    ensures PhOff(Image(other)) == PhOff(Image(disk)) && PhNum(Image(other)) == PhNum(Image(disk))
  {
    assert forall o: nat :: SECTSIZE <= o < SECTSIZE + 4 ==> IsHeaderByte(disk, o);
    assert forall o: nat :: SECTSIZE + 28 <= o < SECTSIZE + 32 ==> IsHeaderByte(disk, o);
    assert IsHeaderByte(disk, SECTSIZE + 44) && IsHeaderByte(disk, SECTSIZE + 45);
    hide IsHeaderByte;
    hide Word;
    SameWord(disk, other, 0);
    SameWord(disk, other, 28);
  }

  /** Such disks have the same kernel layout, and are as loadable. */
  lemma SameKernel(disk: nat -> byte, other: nat -> byte)
    requires SameHeaders(disk, other)
    ensures Word(Image(other), 0) == Word(Image(disk), 0)
    ensures PhOff(Image(other)) == PhOff(Image(disk)) && PhNum(Image(other)) == PhNum(Image(disk))
    ensures Kernel(other) == Kernel(disk)
    ensures GoodHeaders(Image(other)) == GoodHeaders(Image(disk))
  {
    hide PhOff;
    hide PhNum;
    hide SegmentAt;
    hide Fits;
    hide AvoidsHeaders;
    hide IsHeaderByte;
    hide SameHeaders;
    hide Image;
    hide Word;
    SameStart(disk, other);
    forall i | 0 <= i < PhNum(Image(disk))
      ensures SegmentAt(Image(other), PhOff(Image(disk)) + PROGHDR_SIZE * i)
           == SegmentAt(Image(disk), PhOff(Image(disk)) + PROGHDR_SIZE * i)
    {
      SameSegment(disk, other, i);
    }
    assert Kernel(other) == Kernel(disk);
  }

  /** The byte that ends up at `a` is the one wanted there, or both are header bytes and happen to be equal. */
  predicate WrittenRight(disk: nat -> byte, i: nat, a: nat)
    requires i < |Kernel(disk)| && InSegment(Kernel(disk)[i], a)
  {
    var origin, wanted := OriginOf(Kernel(disk), a), Wanted(Kernel(disk)[i], a);
    && origin.FromDisk?
    && (origin.o == wanted
        || (IsHeaderByte(disk, origin.o) && IsHeaderByte(disk, wanted) && disk(origin.o) == disk(wanted)))
  }

  ghost predicate RightlyWritten(disk: nat -> byte, i: nat)
    requires i < |Kernel(disk)|
  {
    forall a: nat :: InSegment(Kernel(disk)[i], a) ==> WrittenRight(disk, i, a)
  }

  /**
   For the headers of a given disk: segment `i` is intact whatever else a disk with these headers
   holds, if and only if it is rightly written.
   */
  lemma IntactIff(disk: nat -> byte, i: nat)
    requires Word(Image(disk), 0) == ELF_MAGIC && GoodHeaders(Image(disk)) && i < |Kernel(disk)|
    ensures (forall other: nat -> byte :: SameHeaders(disk, other) ==> Intact(other, i)) <==> RightlyWritten(disk, i)
  {
    hide WrittenRight;
    hide SameHeaders;
    hide Intact;
    hide Kernel;
    hide GoodHeaders;
    hide InSegment;
    if RightlyWritten(disk, i) {
      forall other: nat -> byte | SameHeaders(disk, other) ensures Intact(other, i) {
        RightlyWrittenIsIntact(disk, other, i);
      }
    } else {
      var a: nat :| InSegment(Kernel(disk)[i], a) && !WrittenRight(disk, i, a);
      var other := WrongDisk(disk, i, a);
    }
  }

  lemma RightlyWrittenIsIntact(disk: nat -> byte, other: nat -> byte, i: nat)
    requires i < |Kernel(disk)| && RightlyWritten(disk, i) && SameHeaders(disk, other)
    ensures Intact(other, i)
  {
    hide After;
    hide OriginOf;
    hide Wanted;
    hide Kernel;
    hide InSegment;
    hide IsHeaderByte;
    SameKernel(disk, other);
    var segs := Kernel(disk);
    forall a: nat, before: byte | InSegment(segs[i], a)
      ensures After(other, segs, a, before) == other(Wanted(segs[i], a))
    {
      AfterByOrigin(other, segs, a, before);
      assert WrittenRight(disk, i, a);
    }
  }

  /** `disk` with the byte at `o` made different from `b`. */
  function Spoilt(disk: nat -> byte, o: nat, b: byte): nat -> byte {
    (x: nat) => if x == o then (if b == 0 then 1 else 0) else disk(x)
  }

  lemma SpoiltKeepsHeaders(disk: nat -> byte, o: nat, b: byte)
    requires !IsHeaderByte(disk, o)
    ensures SameHeaders(disk, Spoilt(disk, o, b))
  {
  }

  /** A disk with the same headers on which the byte that ends up at `a` is not the one wanted there. */
  lemma WrongDisk(disk: nat -> byte, i: nat, a: nat) returns (other: nat -> byte)
    requires i < |Kernel(disk)| && InSegment(Kernel(disk)[i], a) && !WrittenRight(disk, i, a)
    ensures SameHeaders(disk, other) && !Intact(other, i)
  {
    hide After;
    hide OriginOf;
    hide Wanted;
    hide Kernel;
    hide InSegment;
    hide IsHeaderByte;
    hide SameHeaders;
    var segs := Kernel(disk);
    var origin, wanted := OriginOf(segs, a), Wanted(segs[i], a);
    other := disk;
    var before: byte := if disk(wanted) == 0 then 1 else 0;
    if origin.FromDisk? && !IsHeaderByte(disk, origin.o) {
      other := Spoilt(disk, origin.o, disk(wanted));
      SpoiltKeepsHeaders(disk, origin.o, disk(wanted));
    } else if origin.FromDisk? && !IsHeaderByte(disk, wanted) {
      other := Spoilt(disk, wanted, disk(origin.o));
      SpoiltKeepsHeaders(disk, wanted, disk(origin.o));
    } else {
      assert SameHeaders(disk, disk) by { SameAsItself(disk); }
    }
    SameKernel(disk, other);
    AfterByOrigin(other, segs, a, before);
    assert After(other, segs, a, before) != other(wanted);
  }

  lemma SameAsItself(disk: nat -> byte)
    ensures SameHeaders(disk, disk)
  {
  }

  // ----- A layout under which every segment is intact -----

  predicate Aligned(s: Segment) {
    s.pa % SECTSIZE == s.offset % SECTSIZE
  }

  /** The segment ends below the top of memory. */
  predicate Unwrapped(s: Segment) {
    s.pa + s.memsz < MEMORY
  }

  /** Loading `later` does not hurt `s`: it keeps off, or stores the very same bytes. */
  predicate Spares(s: Segment, later: Segment) {
    || s.pa - s.offset == later.pa - later.offset
    || s.pa + s.memsz <= Lo(later)
    || Hi(later) <= s.pa
  }

  /** Segments start at the same place in their sector as in the image, and no load hurts an earlier segment. */
  predicate Separate(segs: seq<Segment>) {
    && (forall i :: 0 <= i < |segs| ==> Aligned(segs[i]) && Unwrapped(segs[i]))
    && (forall i, j :: 0 <= i < j < |segs| ==> Spares(segs[i], segs[j]))
  }

  lemma AlignedStored(s: Segment, a: nat)
    requires Aligned(s) && InFootprint(s, a)
    ensures Stored(s, a) == SECTSIZE + a - (s.pa - s.offset)
  {
  }

  /** An unwrapped segment lies inside the footprint of its own load. */
  lemma SegmentInFootprint(s: Segment, a: int)
    requires Unwrapped(s) && InSegment(s, a)
    ensures InFootprint(s, a) && s.pa <= a < s.pa + s.memsz
  {
  }

  /** The bytes that end up in a segment are exactly its own. */
  ghost predicate OwnBytes(segs: seq<Segment>, i: nat)
    requires i < |segs|
  {
    forall a: nat :: InSegment(segs[i], a) ==> OriginOf(segs, a) == FromDisk(Wanted(segs[i], a))
  }

  lemma SeparateIsRight(segs: seq<Segment>, i: nat)
    requires Separate(segs) && i < |segs|
    ensures OwnBytes(segs, i)
  {
    hide Writer;
    hide Stored;
    hide Lo;
    hide Hi;
    hide InSegment;
    hide Wanted;
    forall a: nat | InSegment(segs[i], a) ensures OriginOf(segs, a) == FromDisk(Wanted(segs[i], a)) {
      var w := Writer(segs, |segs|, a);
      SegmentInFootprint(segs[i], a);
      assert i <= w;
      AlignedStored(segs[w], a);
      assert w == i || Spares(segs[i], segs[w]);
      UnwrappedWanted(segs[i], a);
    }
  }

  lemma UnwrappedWanted(s: Segment, a: nat)
    requires Unwrapped(s) && InSegment(s, a)
    ensures Wanted(s, a) == SECTSIZE + a - (s.pa - s.offset)
  {
  }

  /** The loader's promise, for every disk: on a separate layout, every segment ends up in memory as on disk. */
  lemma SeparateLayoutLoads(disk: nat -> byte)
    requires Separate(Kernel(disk))
    ensures forall i :: 0 <= i < |Kernel(disk)| ==> Intact(disk, i)
  {
    hide After;
    hide OriginOf;
    hide Wanted;
    hide Separate;
    hide Kernel;
    hide InSegment;
    var segs := Kernel(disk);
    forall i | 0 <= i < |segs| ensures Intact(disk, i) {
      SeparateIsRight(segs, i);
      forall a: nat, before: byte | InSegment(segs[i], a)
        ensures After(disk, segs, a, before) == disk(Wanted(segs[i], a))
      {
        AfterByOrigin(disk, segs, a, before);
      }
    }
  }

  /** Away from the header bytes there are no coincidences: only its own bytes are right for a segment. */
  lemma ApartFromHeaders(disk: nat -> byte, i: nat)
    requires i < |Kernel(disk)|
    requires forall a: nat :: InSegment(Kernel(disk)[i], a) ==> !IsHeaderByte(disk, Wanted(Kernel(disk)[i], a))
    ensures RightlyWritten(disk, i) <==> OwnBytes(Kernel(disk), i)
  {
    hide IsHeaderByte;
    hide InSegment;
    hide Wanted;
    hide OriginOf;
    hide Kernel;
    assert OwnBytes(Kernel(disk), i) ==> RightlyWritten(disk, i);
    if RightlyWritten(disk, i) {
      forall a: nat | InSegment(Kernel(disk)[i], a)
        ensures OriginOf(Kernel(disk), a) == FromDisk(Wanted(Kernel(disk)[i], a))
      {
        assert WrittenRight(disk, i, a);
      }
    }
  }

  /** For a single segment, ending below the top of memory and sector alignment are exactly what it takes. */
  lemma AlignmentExact(s: Segment)
    requires Fits(s)
    ensures OwnBytes([s], 0) <==> s.memsz == 0 || (Aligned(s) && Unwrapped(s))
  {
    hide Writer;
    if s.memsz == 0 {
      return;
    }
    if !Unwrapped(s) {
      FootprintFits(s);
      assert InSegment([s][0], MEMORY - 1) && OriginOf([s], MEMORY - 1) == Untouched;
    } else if Aligned(s) {
      SeparateIsRight([s], 0);
    } else {
      SegmentInFootprint(s, s.pa);
      assert InSegment([s][0], s.pa) && OriginOf([s], s.pa) == FromDisk(Stored(s, s.pa));
    }
  }

  /** The same about what is in memory: with one header, and its segment's bytes elsewhere on disk. */
  lemma SingleSegmentIff(disk: nat -> byte)
    requires Word(Image(disk), 0) == ELF_MAGIC && GoodHeaders(Image(disk)) && |Kernel(disk)| == 1
    requires var s := Kernel(disk)[0];
      forall a: nat :: InSegment(s, a) ==> !IsHeaderByte(disk, Wanted(s, a))
    ensures var s := Kernel(disk)[0];
      (forall other: nat -> byte :: SameHeaders(disk, other) ==> Intact(other, 0))
      <==> s.memsz == 0 || (Aligned(s) && Unwrapped(s))
  {
    hide IsHeaderByte;
    hide InSegment;
    hide Wanted;
    hide SameHeaders;
    hide Intact;
    hide OwnBytes;
    hide RightlyWritten;
    hide Aligned;
    hide SegmentAt;
    var s := Kernel(disk)[0];
    assert Kernel(disk) == [s] && Fits(s);
    IntactIff(disk, 0);
    ApartFromHeaders(disk, 0);
    AlignmentExact(s);
  }

  // ----- The headers as their bytes -----

  /** The file header, in the order of its fields. */
  datatype ElfHeader = ElfHeader(
    magic: uint32, elf: seq<byte>, typ: uint16, machine: uint16, version: uint32, entry: uint32, phoff: uint32,
    shoff: uint32, flags: uint32, ehsize: uint16, phentsize: uint16, phnum: uint16, shentsize: uint16, shnum: uint16,
    shstrndx: uint16)

  /** A program header likewise. */
  datatype ProgramHeader = ProgramHeader(
    typ: uint32, offset: uint32, va: uint32, pa: uint32, filesz: uint32, memsz: uint32, flags: uint32, align: uint32)

  /** Little-endian bytes. */
  function Bytes2(v: uint16): seq<byte> {
    [v % 0x100, v / 0x100]
  }

  function Bytes4(v: uint32): seq<byte> {
    Bytes2(v % 0x1_0000) + Bytes2(v / 0x1_0000)
  }

  function ElfBytes(e: ElfHeader): seq<byte> {
    Bytes4(e.magic) + (e.elf + (Bytes2(e.typ) + (Bytes2(e.machine) + (Bytes4(e.version) + (Bytes4(e.entry)
    + (Bytes4(e.phoff) + (Bytes4(e.shoff) + (Bytes4(e.flags) + (Bytes2(e.ehsize) + (Bytes2(e.phentsize)
    + (Bytes2(e.phnum) + (Bytes2(e.shentsize) + (Bytes2(e.shnum) + Bytes2(e.shstrndx))))))))))))))
  }

  function HeaderBytes(h: ProgramHeader): seq<byte> {
    Bytes4(h.typ) + (Bytes4(h.offset) + (Bytes4(h.va) + (Bytes4(h.pa)
    + (Bytes4(h.filesz) + (Bytes4(h.memsz) + (Bytes4(h.flags) + Bytes4(h.align)))))))
  }

  ghost predicate Holds(bytes: nat -> byte, at: nat, s: seq<byte>) {
    forall k :: 0 <= k < |s| ==> bytes(at + k) == s[k]
  }

  /** The image, which starts at byte 512 of the disk, has these headers. */
  ghost predicate Carries(disk: nat -> byte, e: ElfHeader, hs: seq<ProgramHeader>) {
    && |e.elf| == 12 && |hs| == e.phnum && Holds(disk, 512, ElfBytes(e))
    && forall i :: 0 <= i < |hs| ==> Holds(disk, 512 + e.phoff + 32 * i, HeaderBytes(hs[i]))
  }

  function SegmentOf(h: ProgramHeader): Segment {
    Segment(h.pa, h.memsz, h.offset)
  }

  function SegmentsOf(hs: seq<ProgramHeader>): seq<Segment> {
    seq(|hs|, i requires 0 <= i < |hs| => SegmentOf(hs[i]))
  }

  /** The headers lie in the first page, and the segments apart from it and from each other, below the last sector. */
  predicate Laid(e: ElfHeader, hs: seq<ProgramHeader>) {
    && e.phoff + 32 * |hs| <= 4096
    && (forall i :: 0 <= i < |hs| ==>
          && hs[i].pa + hs[i].memsz <= 0xFFFF_FE00
          && (hs[i].pa + hs[i].memsz <= 0x1_0000 || 0x1_1000 <= hs[i].pa))
    && Separate(SegmentsOf(hs))
  }

  /** Every segment is at its physical address, byte by byte from its offset in the image. */
  predicate InPlace(m: seq<byte>, disk: nat -> byte, hs: seq<ProgramHeader>) {
    forall i, a :: 0 <= i < |hs| && hs[i].pa <= a < hs[i].pa + hs[i].memsz ==>
      a < |m| && m[a] == disk(512 + hs[i].offset + (a - hs[i].pa))
  }

  lemma HoldsBoth(bytes: nat -> byte, at: nat, a: seq<byte>, b: seq<byte>)
    requires Holds(bytes, at, a + b)
    ensures Holds(bytes, at, a) && Holds(bytes, at + |a|, b)
  {
    forall k | 0 <= k < |a| ensures bytes(at + k) == a[k] {
      assert (a + b)[k] == a[k];
    }
    forall k | 0 <= k < |b| ensures bytes(at + |a| + k) == b[k] {
      assert (a + b)[|a| + k] == b[k];
      assert at + |a| + k == at + (|a| + k);
    }
  }

  lemma HalfWordHeld(bytes: nat -> byte, at: nat, v: uint16)
    requires Holds(bytes, at, Bytes2(v))
    ensures HalfWord(bytes, at) == v
  {
    assert bytes(at + 0) == Bytes2(v)[0] && bytes(at + 1) == Bytes2(v)[1];
  }

  lemma WordHeld(bytes: nat -> byte, at: nat, v: uint32)
    requires Holds(bytes, at, Bytes4(v))
    ensures Word(bytes, at) == v
  {
    HoldsBoth(bytes, at, Bytes2(v % 0x1_0000), Bytes2(v / 0x1_0000));
    HalfWordHeld(bytes, at, v % 0x1_0000);
    HalfWordHeld(bytes, at + 2, v / 0x1_0000);
  }

  /** Where memory or the image holds a program header, the loader finds its address, size and offset. */
  lemma HeaderRead(bytes: nat -> byte, at: nat, h: ProgramHeader)
    requires Holds(bytes, at, HeaderBytes(h))
    ensures SegmentAt(bytes, at) == Segment(h.pa, h.memsz, h.offset)
  {
    hide Holds;
    hide Bytes2;
    hide Word;
    var r7 := Bytes4(h.flags) + Bytes4(h.align);
    var r6 := Bytes4(h.memsz) + r7;
    var r5 := Bytes4(h.filesz) + r6;
    var r4 := Bytes4(h.pa) + r5;
    var r3 := Bytes4(h.va) + r4;
    var r2 := Bytes4(h.offset) + r3;
    FourBytes(h.typ, h.offset, h.va, h.pa, h.filesz);
    hide Bytes4;
    HoldsBoth(bytes, at, Bytes4(h.typ), r2);
    HoldsBoth(bytes, at + 4, Bytes4(h.offset), r3);
    HoldsBoth(bytes, at + 8, Bytes4(h.va), r4);
    HoldsBoth(bytes, at + 12, Bytes4(h.pa), r5);
    HoldsBoth(bytes, at + 16, Bytes4(h.filesz), r6);
    HoldsBoth(bytes, at + 20, Bytes4(h.memsz), r7);
    WordHeld(bytes, at + 4, h.offset);
    WordHeld(bytes, at + 12, h.pa);
    WordHeld(bytes, at + 20, h.memsz);
  }

  /** Each round loads the segment of the header that memory holds at that time. */
  lemma RoundLoads(disk: nat -> byte, m: seq<byte>, phoff: uint32, i: nat, h: ProgramHeader)
    requires Holds(At(Rounds(disk, m, phoff, i)), 0x1_0000 + phoff + 32 * i, HeaderBytes(h))
    ensures Rounds(disk, m, phoff, i + 1)
         == LoadedOver(disk, Segment(h.pa, h.memsz, h.offset), Rounds(disk, m, phoff, i))
  {
    hide LoadedOver;
    hide Holds;
    hide HeaderBytes;
    hide At;
    hide SegmentAt;
    HeaderRead(At(Rounds(disk, m, phoff, i)), 0x1_0000 + phoff + 32 * i, h);
  }

  lemma FourBytes(a: uint32, b: uint32, c: uint32, d: uint32, e: uint32)
    ensures |Bytes4(a)| == |Bytes4(b)| == |Bytes4(c)| == |Bytes4(d)| == |Bytes4(e)| == 4
  {
  }

  lemma TwoBytes(a: uint16, b: uint16, c: uint16, d: uint16, e: uint16)
    ensures |Bytes2(a)| == |Bytes2(b)| == |Bytes2(c)| == |Bytes2(d)| == |Bytes2(e)| == 2
  {
  }

  lemma ElfFields(bytes: nat -> byte, e: ElfHeader)
    requires Holds(bytes, 0, ElfBytes(e)) && |e.elf| == 12
    ensures Word(bytes, 0) == e.magic && Word(bytes, 24) == e.entry
    ensures PhOff(bytes) == e.phoff && PhNum(bytes) == e.phnum
  {
    hide Holds;
    hide Word;
    hide HalfWord;
    TwoBytes(e.typ, e.machine, e.ehsize, e.phentsize, e.phnum);
    hide Bytes2;
    FourBytes(e.magic, e.version, e.entry, e.phoff, e.shoff);
    FourBytes(e.flags, e.magic, e.magic, e.magic, e.magic);
    hide Bytes4;
    var r12 := Bytes2(e.shentsize) + (Bytes2(e.shnum) + Bytes2(e.shstrndx));
    var r11 := Bytes2(e.phnum) + r12;
    var r10 := Bytes2(e.phentsize) + r11;
    var r9 := Bytes2(e.ehsize) + r10;
    var r8 := Bytes4(e.flags) + r9;
    var r7 := Bytes4(e.shoff) + r8;
    var r6 := Bytes4(e.phoff) + r7;
    var r5 := Bytes4(e.entry) + r6;
    var r4 := Bytes4(e.version) + r5;
    var r3 := Bytes2(e.machine) + r4;
    var r2 := Bytes2(e.typ) + r3;
    var r1 := e.elf + r2;
    assert ElfBytes(e) == Bytes4(e.magic) + r1;
    hide ElfBytes;
    HoldsBoth(bytes, 0, Bytes4(e.magic), r1);
    HoldsBoth(bytes, 4, e.elf, r2);
    HoldsBoth(bytes, 16, Bytes2(e.typ), r3);
    HoldsBoth(bytes, 18, Bytes2(e.machine), r4);
    HoldsBoth(bytes, 20, Bytes4(e.version), r5);
    HoldsBoth(bytes, 24, Bytes4(e.entry), r6);
    HoldsBoth(bytes, 28, Bytes4(e.phoff), r7);
    HoldsBoth(bytes, 32, Bytes4(e.shoff), r8);
    HoldsBoth(bytes, 36, Bytes4(e.flags), r9);
    HoldsBoth(bytes, 40, Bytes2(e.ehsize), r10);
    HoldsBoth(bytes, 42, Bytes2(e.phentsize), r11);
    HoldsBoth(bytes, 44, Bytes2(e.phnum), r12);
    WordHeld(bytes, 0, e.magic);
    WordHeld(bytes, 24, e.entry);
    WordHeld(bytes, 28, e.phoff);
    HalfWordHeld(bytes, 44, e.phnum);
  }

  lemma ImageHolds(disk: nat -> byte, at: nat, s: seq<byte>)
    requires Holds(disk, 512 + at, s)
    ensures Holds(Image(disk), at, s)
  {
    forall k | 0 <= k < |s| ensures Image(disk)(at + k) == s[k] {
      assert disk(512 + at + k) == s[k];
      assert SECTSIZE + (at + k) == 512 + at + k;
    }
  }

  /** An image that carries the headers has their magic number, entry and segments. */
  lemma ElfHeaderRead(disk: nat -> byte, e: ElfHeader, hs: seq<ProgramHeader>)
    requires Carries(disk, e, hs)
    ensures Word(Image(disk), 0) == e.magic && Word(Image(disk), 24) == e.entry
    ensures PhOff(Image(disk)) == e.phoff && PhNum(Image(disk)) == e.phnum == |hs|
    ensures Kernel(disk) == SegmentsOf(hs)
  {
    hide Holds;
    hide Image;
    hide ElfBytes;
    hide HeaderBytes;
    hide Word;
    hide PhOff;
    hide PhNum;
    hide SegmentAt;
    var image := Image(disk);
    ImageHolds(disk, 0, ElfBytes(e));
    ElfFields(image, e);
    forall i | 0 <= i < |hs| ensures Kernel(disk)[i] == SegmentOf(hs[i]) {
      ImageHolds(disk, e.phoff + 32 * i, HeaderBytes(hs[i]));
      HeaderRead(image, e.phoff + 32 * i, hs[i]);
    }
  }

  lemma LaidSegment(h: ProgramHeader)
    requires h.pa + h.memsz <= 0xFFFF_FE00 && (h.pa + h.memsz <= 0x1_0000 || 0x1_1000 <= h.pa)
    ensures Fits(SegmentOf(h)) && AvoidsHeaders(SegmentOf(h))
  {
  }

  lemma LaidIsGood(disk: nat -> byte, e: ElfHeader, hs: seq<ProgramHeader>)
    requires Carries(disk, e, hs) && Laid(e, hs)
    ensures GoodHeaders(Image(disk)) && Separate(Kernel(disk))
  {
    hide Carries;
    hide Separate;
    hide Fits;
    hide AvoidsHeaders;
    hide Image;
    hide PhOff;
    hide PhNum;
    hide SegmentAt;
    ElfHeaderRead(disk, e, hs);
    var image := Image(disk);
    forall i | 0 <= i < PhNum(image)
      ensures var s := SegmentAt(image, PhOff(image) + PROGHDR_SIZE * i); Fits(s) && AvoidsHeaders(s)
    {
      assert Kernel(disk)[i] == SegmentAt(image, PhOff(image) + PROGHDR_SIZE * i);
      LaidSegment(hs[i]);
    }
  }

  lemma KernelInPlace(m: seq<byte>, disk: nat -> byte, e: ElfHeader, hs: seq<ProgramHeader>)
    requires Carries(disk, e, hs) && Laid(e, hs) && |m| == MEMORY
    requires forall i, a :: 0 <= i < |Kernel(disk)| && InSegment(Kernel(disk)[i], a) ==>
               m[a] == disk(Wanted(Kernel(disk)[i], a))
    ensures InPlace(m, disk, hs)
  {
    hide Carries;
    hide Kernel;
    ElfHeaderRead(disk, e, hs);
    forall i, a | 0 <= i < |hs| && hs[i].pa <= a < hs[i].pa + hs[i].memsz
      ensures a < |m| && m[a] == disk(512 + hs[i].offset + (a - hs[i].pa))
    {
      assert Kernel(disk)[i] == SegmentOf(hs[i]) && InSegment(Kernel(disk)[i], a);
    }
  }
}
