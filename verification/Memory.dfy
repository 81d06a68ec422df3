/**
 `memmove` and `memset` of lib/string.c over byte-addressed memory: the string-instruction paths
 that are compiled, and the plain byte loops kept beside them.
 */
module Memory {
  import opened Types

  function MovedByte(mem: seq<byte>, dst: nat, src: nat, n: nat, k: nat): byte
    requires dst + n <= |mem| && src + n <= |mem| && k < |mem|
  {
    if dst <= k < dst + n then mem[src + (k - dst)] else mem[k]
  }

  /** Memory after the `n` bytes at `src` have been moved to `dst`. */
  function Moved(mem: seq<byte>, dst: nat, src: nat, n: nat): (mem': seq<byte>)
    requires dst + n <= |mem| && src + n <= |mem|
    ensures |mem'| == |mem|
    ensures forall k :: 0 <= k < |mem| ==> mem'[k] == MovedByte(mem, dst, src, n, k)
  {
    seq(|mem|, k requires 0 <= k < |mem| => MovedByte(mem, dst, src, n, k))
  }

  lemma MovedIs(after: seq<byte>, before: seq<byte>, dst: nat, src: nat, n: nat)
    requires |after| == |before| && dst + n <= |before| && src + n <= |before|
    requires forall k :: dst <= k < dst + n ==> after[k] == before[src + (k - dst)]
    requires forall k :: 0 <= k < |after| && !(dst <= k < dst + n) ==> after[k] == before[k]
    ensures after == Moved(before, dst, src, n)
  {
  }

  /** One `movs`: the whole unit is read before it is written. */
  method Movs(mem: array<byte>, edi: nat, esi: nat, unit: nat)
    requires edi + unit <= mem.Length && esi + unit <= mem.Length
    modifies mem
    ensures mem[..] == Moved(old(mem[..]), edi, esi, unit)
  {
    hide Moved;
    forall k | edi <= k < edi + unit {
      mem[k] := mem[esi + (k - edi)];
    }
    MovedIs(mem[..], old(mem[..]), edi, esi, unit);
  }

  lemma NothingMoved(mem: seq<byte>, dst: nat, src: nat)
    requires dst <= |mem| && src <= |mem|
    ensures Moved(mem, dst, src, 0) == mem
  {
  }

  /** Going up, the bytes read next have not been overwritten yet. */
  lemma MovedUp(mem: seq<byte>, dst: nat, src: nat, i: nat, unit: nat)
    requires dst + i + unit <= |mem| && src + i + unit <= |mem| && (dst <= src || src + i + unit <= dst)
    ensures Moved(Moved(mem, dst, src, i), dst + i, src + i, unit) == Moved(mem, dst, src, i + unit)
  {
    var first, edi, esi, all := Moved(mem, dst, src, i), dst + i, src + i, i + unit;
    forall k | 0 <= k < |mem| ensures MovedByte(first, edi, esi, unit, k) == MovedByte(mem, dst, src, all, k)
    {
      assert src + i <= src + (k - dst) < src + i + unit ==>
               first[src + (k - dst)] == MovedByte(mem, dst, src, i, src + (k - dst));
      assert first[k] == MovedByte(mem, dst, src, i, k);
    }
    hide MovedByte;
  }

  /** Going down likewise, when the destination is not below the source. */
  lemma MovedDown(mem: seq<byte>, dst: nat, src: nat, n: nat, unit: nat)
    requires dst + unit + n <= |mem| && src <= dst
    ensures Moved(Moved(mem, dst + unit, src + unit, n), dst, src, unit) == Moved(mem, dst, src, unit + n)
  {
    var first, all := Moved(mem, dst + unit, src + unit, n), unit + n;
    forall k | 0 <= k < |mem| ensures MovedByte(first, dst, src, unit, k) == MovedByte(mem, dst, src, all, k)
    {
      assert src <= src + (k - dst) < src + unit ==>
               first[src + (k - dst)] == MovedByte(mem, dst + unit, src + unit, n, src + (k - dst));
      assert first[k] == MovedByte(mem, dst + unit, src + unit, n, k);
    }
    hide MovedByte;
  }

  /** A move goes byte by byte, or word by word if the size allows. */
  predicate WholeUnits(n: nat, unit: nat) {
    unit == 1 || (unit == 4 && n % 4 == 0)
  }

  lemma UnitFits(n: nat, unit: nat)
    requires WholeUnits(n, unit) && n > 0
    ensures 1 <= unit <= n && WholeUnits(n - unit, unit)
  {
  }

  /** `cld; rep movs`: from low to high addresses, `unit` bytes at a time. */
  method RepMovsUp(mem: array<byte>, dst: nat, src: nat, n: nat, unit: nat)
    requires dst + n <= mem.Length && src + n <= mem.Length
    requires WholeUnits(n, unit)
    requires dst <= src || src + n <= dst
    modifies mem
    ensures mem[..] == Moved(old(mem[..]), dst, src, n)
  {
    hide Moved;
    hide MovedByte;
    hide WholeUnits;
    ghost var before := mem[..];
    NothingMoved(before, dst, src);
    var i := 0;
    while i < n
      invariant 0 <= i <= n && WholeUnits(n - i, unit)
      invariant mem[..] == Moved(before, dst, src, i)
    {
      UnitFits(n - i, unit);
      MovedUp(before, dst, src, i, unit);
      Movs(mem, dst + i, src + i, unit);
      i := i + unit;
    }
  }

  /** `std; rep movs`: from high to low addresses. */
  method RepMovsDown(mem: array<byte>, dst: nat, src: nat, n: nat, unit: nat)
    requires dst + n <= mem.Length && src + n <= mem.Length
    requires WholeUnits(n, unit)
    requires src <= dst
    modifies mem
    ensures mem[..] == Moved(old(mem[..]), dst, src, n)
  {
    hide Moved;
    hide MovedByte;
    hide WholeUnits;
    ghost var before := mem[..];
    NothingMoved(before, dst + n, src + n);
    var i := n;
    while i > 0
      invariant 0 <= i <= n && WholeUnits(i, unit)
      invariant mem[..] == Moved(before, dst + i, src + i, n - i)
    {
      UnitFits(i, unit);
      i := i - unit;
      MovedDown(before, dst + i, src + i, n - i - unit, unit);
      Movs(mem, dst + i, src + i, unit);
    }
  }

  /** `memmove`, for every overlap and alignment. */
  method Memmove(mem: array<byte>, dst: nat, src: nat, n: nat)
    requires dst + n <= mem.Length && src + n <= mem.Length
    modifies mem
    ensures mem[..] == Moved(old(mem[..]), dst, src, n)
  {
    var unit := if src % 4 == 0 && dst % 4 == 0 && n % 4 == 0 then 4 else 1;
    if src < dst && src + n > dst {
      RepMovsDown(mem, dst, src, n, unit);
    } else {
      RepMovsUp(mem, dst, src, n, unit);
    }
  }

  /** `memmove` as the plain byte loops. */
  method MemmoveBytes(mem: array<byte>, dst: nat, src: nat, n0: nat)
    requires dst + n0 <= mem.Length && src + n0 <= mem.Length
    modifies mem
    ensures mem[..] == Moved(old(mem[..]), dst, src, n0)
  {
    hide Moved;
    var s, d, n := src, dst, n0;
    if s < d && s + n > d {
      s, d := s + n, d + n;
      while n > 0
        invariant 0 <= n <= n0 && s == src + n && d == dst + n
        invariant forall k :: d <= k < dst + n0 ==> mem[k] == old(mem[src + (k - dst)])
        invariant forall k :: 0 <= k < mem.Length && !(d <= k < dst + n0) ==> mem[k] == old(mem[k])
      {
        n := n - 1;
        d, s := d - 1, s - 1;
        mem[d] := mem[s];
      }
    } else {
      while n > 0
        invariant 0 <= n <= n0 && s == src + (n0 - n) && d == dst + (n0 - n)
        invariant forall k :: dst <= k < d ==> mem[k] == old(mem[src + (k - dst)])
        invariant forall k :: 0 <= k < mem.Length && !(dst <= k < d) ==> mem[k] == old(mem[k])
      {
        n := n - 1;
        mem[d] := mem[s];
        d, s := d + 1, s + 1;
      }
    }
    MovedIs(mem[..], old(mem[..]), dst, src, n0);
  }

  /** Memory after the `n` bytes at `v` have been set to `c`. */
  function Filled(mem: seq<byte>, v: nat, n: nat, c: byte): (mem': seq<byte>)
    requires v + n <= |mem|
    ensures |mem'| == |mem|
    ensures forall k :: 0 <= k < |mem| ==> mem'[k] == if v <= k < v + n then c else mem[k]
  {
    mem[..v] + seq(n, _ => c) + mem[v + n..]
  }

  /** Byte `j` of a little-endian word. */
  function ByteOf(w: uint32, j: nat): byte
    requires j < 4
  {
    (if j == 0 then w else if j == 1 then w / 0x100 else if j == 2 then w / 0x1_0000 else w / 0x100_0000) % 0x100
  }

  /** The word that `memset` builds by shifting, whose four bytes are all the fill byte. */
  function Replicate(c: byte): uint32 {
    c * 0x100_0000 + c * 0x1_0000 + c * 0x100 + c
  }

  lemma ReplicateBytes(c: byte, j: nat)
    requires j < 4
    ensures ByteOf(Replicate(c), j) == c
  {
    var w := Replicate(c);
    assert w / 0x100 == c * 0x1_0000 + c * 0x100 + c;
    assert w / 0x1_0000 == c * 0x100 + c;
    assert w / 0x100_0000 == c;
  }

  /** The first `i` words from `v` on are `w`, and nothing else has changed. */
  ghost predicate WordsStored(after: seq<byte>, before: seq<byte>, v: nat, w: uint32, i: nat) {
    && |after| == |before| && v + 4 * i <= |before|
    && forall k :: 0 <= k < |after| ==> after[k] == if v <= k < v + 4 * i then ByteOf(w, (k - v) % 4) else before[k]
  }

  lemma OneMoreWord(after: seq<byte>, was: seq<byte>, before: seq<byte>, v: nat, w: uint32, i: nat)
    requires WordsStored(was, before, v, w, i) && v + 4 * (i + 1) <= |before| == |after|
    requires forall j: nat :: j < 4 ==> after[v + 4 * i + j] == ByteOf(w, j)
    requires forall k :: 0 <= k < |after| && !(v + 4 * i <= k < v + 4 * i + 4) ==> after[k] == was[k]
    ensures WordsStored(after, before, v, w, i + 1)
  {
    hide ByteOf;
    forall k | v + 4 * i <= k < v + 4 * i + 4 ensures after[k] == ByteOf(w, (k - v) % 4) {
      var j := k - v - 4 * i;
      assert (k - v) % 4 == j;
      assert after[v + 4 * i + j] == ByteOf(w, j);
    }
  }

  /** One `stosl`: the bytes of the word, the low one first. */
  method Stosl(mem: array<byte>, a: nat, w: uint32)
    requires a + 4 <= mem.Length
    modifies mem
    ensures forall j: nat :: j < 4 ==> mem[a + j] == ByteOf(w, j)
    ensures forall k :: 0 <= k < mem.Length && !(a <= k < a + 4) ==> mem[k] == old(mem[k])
  {
    hide ByteOf;
    mem[a], mem[a + 1], mem[a + 2], mem[a + 3] := ByteOf(w, 0), ByteOf(w, 1), ByteOf(w, 2), ByteOf(w, 3);
  }

  /** `rep stosl`. */
  method RepStosl(mem: array<byte>, v: nat, w: uint32, count: nat)
    requires v + 4 * count <= mem.Length
    modifies mem
    ensures forall k :: 0 <= k < mem.Length ==>
      mem[k] == if v <= k < v + 4 * count then ByteOf(w, (k - v) % 4) else old(mem[k])
  {
    ghost var before := mem[..];
    assert WordsStored(mem[..], before, v, w, 0);
    hide ByteOf;
    var i := 0;
    while i < count
      invariant 0 <= i <= count
      invariant WordsStored(mem[..], before, v, w, i)
    {
      ghost var was := mem[..];
      Stosl(mem, v + 4 * i, w);
      OneMoreWord(mem[..], was, before, v, w, i);
      i := i + 1;
    }
    assert forall k :: 0 <= k < mem.Length ==> mem[k] == mem[..][k];
  }

  /** `memset`. */
  method Memset(mem: array<byte>, v: nat, c: int, n: nat)
    requires v + n <= mem.Length
    modifies mem
    ensures mem[..] == Filled(old(mem[..]), v, n, c % 0x100)
  {
    if n == 0 {
      return;
    }
    if v % 4 == 0 && n % 4 == 0 {
      RepStosl(mem, v, Replicate(c % 0x100), n / 4);
      forall j: nat | j < 4 ensures ByteOf(Replicate(c % 0x100), j) == c % 0x100 {
        ReplicateBytes(c % 0x100, j);
      }
    } else {
      var i := 0;
      while i < n
        invariant 0 <= i <= n
        invariant forall k :: 0 <= k < mem.Length ==> mem[k] == if v <= k < v + i then c % 0x100 else old(mem[k])
      {
        mem[v + i] := c % 0x100;
        i := i + 1;
      }
    }
  }

  /**
   `memset` as the plain byte loop, whose counter is a signed `int`: sizes above 0x80000000 fill
   nothing.  At 0x80000000 itself decrementing the counter overflows, which C leaves undefined.
   */
  method MemsetBytes(mem: array<byte>, v: nat, c: int, n: uint32)
    requires v + n <= mem.Length && n != 0x8000_0000
    modifies mem
    ensures mem[..] == Filled(old(mem[..]), v, if n < 0x8000_0000 then n else 0, c % 0x100)
  {
    var p, m := v, ToInt32(n) as int;
    ghost var total := Max(m, 0);
    m := m - 1;
    while m >= 0
      invariant p == v + total - Max(m + 1, 0) && m + 1 <= total
      invariant forall k :: 0 <= k < mem.Length ==> mem[k] == if v <= k < p then c % 0x100 else old(mem[k])
    {
      mem[p] := c % 0x100;
      p, m := p + 1, m - 1;
    }
  }
}
