/** NUL-terminated text, and the search and comparison loops of lib/string.c over it. */
module CStrings {
  import opened Types

  datatype Option<T> = None | Some(value: T)

  /** Some NUL lies at or after `p`, so reading from `p` stops inside the text. */
  predicate Terminated(s: string, p: nat) {
    exists k :: p <= k < |s| && s[k] == '\0'
  }

  /** The index of the first NUL at or after `p`. */
  function End(s: string, p: nat): (e: nat)
    requires Terminated(s, p)
    ensures p <= e < |s| && s[e] == '\0'
    ensures forall k :: p <= k < e ==> s[k] != '\0'
    decreases |s| - p
  {
    if s[p] == '\0' then p else End(s, p + 1)
  }

  /** The characters a C pointer to `s[p]` denotes. */
  function Text(s: string, p: nat): (t: string)
    requires Terminated(s, p)
    ensures |t| == End(s, p) - p && '\0' !in t
  {
    s[p..End(s, p)]
  }

  /** A text is what it is as a literal, with a NUL behind it. */
  lemma NulEnds(s: string)
    requires '\0' !in s
    ensures Terminated(s + "\0", 0) && Text(s + "\0", 0) == s
  {
    assert (s + "\0")[|s|] == '\0';
    assert forall k :: 0 <= k < |s| ==> (s + "\0")[k] == s[k];
  }

  /** `min(strlen, size)`. */
  method Strnlen(s: string, p: nat, size: nat) returns (n: nat)
    requires Terminated(s, p)
    ensures n == Min(|Text(s, p)|, size)
  {
    n := 0;
    var q, left := p, size;
    while left > 0 && s[q] != '\0'
      invariant q == p + n <= End(s, p) && n + left == size
      decreases left
    {
      n := n + 1;
      q, left := q + 1, left - 1;
    }
  }

  /** Zero exactly for equal texts; otherwise the sign tells which text comes first, byte by byte. */
  method Strcmp(s: string, p0: nat, t: string, q0: nat) returns (r: int)
    requires Terminated(s, p0) && Terminated(t, q0)
    ensures r == 0 <==> Text(s, p0) == Text(t, q0)
    ensures r != 0 ==> exists k :: 0 <= k <= |Text(s, p0)| && k <= |Text(t, q0)|
                               && Text(s, p0)[..k] == Text(t, q0)[..k]
                               && r == s[p0 + k] as int - t[q0 + k] as int
  {
    ghost var a, b := Text(s, p0), Text(t, q0);
    var p, q := p0, q0;
    while s[p] != '\0' && s[p] == t[q]
      invariant p0 <= p <= End(s, p0) && q0 <= q <= End(t, q0) && p - p0 == q - q0
      invariant a[..p - p0] == b[..q - q0]
      decreases End(s, p0) - p
    {
      ghost var k := p - p0;
      assert a[..k + 1] == a[..k] + [s[p]] && b[..k + 1] == b[..k] + [t[q]];
      p, q := p + 1, q + 1;
    }
    r := s[p] as int - t[q] as int;
    assert r == 0 ==> a == a[..p - p0] && b == b[..q - q0];
  }

  /** The first occurrence of `c` in the text, if there is one. */
  method Strchr(s: string, p0: nat, c: char) returns (r: Option<nat>)
    requires Terminated(s, p0)
    ensures r.None? <==> c !in Text(s, p0)
    ensures r.Some? ==> p0 <= r.value < End(s, p0) && s[r.value] == c && c !in s[p0..r.value]
  {
    var p := p0;
    while s[p] != '\0'
      invariant p0 <= p <= End(s, p0) && c !in s[p0..p]
      decreases |s| - p
    {
      if s[p] == c {
        return Some(p);
      }
      p := p + 1;
    }
    r := None;
  }

  /** The first occurrence of `c` in the text, or else its terminator. */
  function Find(s: string, p: nat, c: char): (q: nat)
    requires Terminated(s, p)
    ensures p <= q <= End(s, p) && c !in s[p..q]
    ensures s[q] == c || q == End(s, p)
    decreases |s| - p
  {
    if s[p] == '\0' || s[p] == c then p else Find(s, p + 1, c)
  }

  method Strfind(s: string, p0: nat, c: char) returns (p: nat)
    requires Terminated(s, p0)
    ensures p == Find(s, p0, c)
  {
    p := p0;
    while s[p] != '\0' && s[p] != c
      invariant p0 <= p < |s| && Terminated(s, p) && Find(s, p, c) == Find(s, p0, c)
      decreases |s| - p
    {
      p := p + 1;
    }
  }
}
