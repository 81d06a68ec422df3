/**
 The search of kern/kdebug.c over a table in which only some entries have the
 wanted type.  `Search` is the outcome of the loop; the lemmas say what that
 outcome is worth, with and without sorted values.
 */
module StabSearch {
  import opened Types

  datatype Stab = Stab(strx: uint32, typ: byte, other: byte, desc: uint16, value: uint32)

  /** Entry `i` of the table has the wanted type. */
  predicate IsMatch(stabs: seq<Stab>, ty: byte, i: int) {
    0 <= i < |stabs| && stabs[i].typ == ty
  }

  predicate NoMatch(stabs: seq<Stab>, ty: byte, lo: int, hi: int) {
    forall k :: lo <= k <= hi ==> !IsMatch(stabs, ty, k)
  }

  /** Backward probe: the last match in `lo..hi`, or `lo - 1`. */
  function Probe(stabs: seq<Stab>, ty: byte, lo: int, hi: int): (p: int)
    requires 0 <= lo <= hi + 1 && hi < |stabs|
    ensures lo - 1 <= p <= hi
    ensures lo <= p ==> IsMatch(stabs, ty, p)
    ensures NoMatch(stabs, ty, p + 1, hi)
    decreases hi - lo
  {
    if hi < lo || stabs[hi].typ == ty then hi else Probe(stabs, ty, lo, hi - 1)
  }

  /** The loop's variables; `right` is `r` and `*region_right` alike, which are always set together. */
  datatype Range = Range(l: int, right: int, left: int, any: bool, key: uint32)

  predicate InTable(stabs: seq<Stab>, s: Range) {
    0 <= s.l && s.right < |stabs| && 0 <= s.left
  }

  /** The body of the loop, once the probe from the middle has ended at `m`. */
  function Advance(stabs: seq<Stab>, s: Range, m: int): Range
    requires InTable(stabs, s) && s.l - 1 <= m <= s.right
  {
    var mid := (s.l + s.right) / 2;
    if m < s.l then
      s.(l := mid + 1)
    else if stabs[m].value < s.key then
      Range(mid + 1, s.right, m, true, s.key)
    else if stabs[m].value > s.key then
      Range(s.l, m - 1, s.left, true, s.key)
    else
      Range(m, s.right, m, true, Next(s.key))
  }

  /** One way round the loop. */
  function Step(stabs: seq<Stab>, ty: byte, s: Range): (s': Range)
    requires InTable(stabs, s) && s.l <= s.right
    ensures InTable(stabs, s') && s.l - 1 <= s'.right <= s.right && s.l <= s'.l <= s'.right + 1
    ensures Rank(stabs, ty, s') < Rank(stabs, ty, s)
  {
    Advance(stabs, s, Probe(stabs, ty, s.l, (s.l + s.right) / 2))
  }

  /** Twice the range size, less one while its left entry is a match off the key. */
  function Rank(stabs: seq<Stab>, ty: byte, s: Range): (rank: int)
    ensures s.l <= s.right ==> 0 < rank
  {
    2 * (s.right - s.l + 1) - (if IsMatch(stabs, ty, s.l) && stabs[s.l].value != s.key then 1 else 0)
  }

  /** The binary search loop. */
  function Narrow(stabs: seq<Stab>, ty: byte, s: Range): (s': Range)
    requires InTable(stabs, s)
    ensures InTable(stabs, s') && s'.right <= s.right && (s.l <= s.right + 1 ==> s.l - 1 <= s'.right)
    ensures s'.left == s.left || s.l <= s'.left
    decreases Rank(stabs, ty, s)
  {
    if s.l > s.right then s else Narrow(stabs, ty, Step(stabs, ty, s))
  }

  /** The final left bound: back from `right` to a match, but never beyond `left`. */
  function Rescan(stabs: seq<Stab>, ty: byte, left: int, right: int): int
    requires 0 <= left && right < |stabs|
  {
    if right <= left then right else Probe(stabs, ty, left + 1, right)
  }

  /** The pair of bounds the search reports for the window `lo..hi`. */
  function Search(stabs: seq<Stab>, lo: int, hi: int, ty: byte, addr: uint32): (int, int)
    requires 0 <= lo && hi < |stabs|
  {
    var s := Narrow(stabs, ty, Range(lo, hi, lo, false, addr));
    if s.any then (Rescan(stabs, ty, s.left, s.right), s.right) else (lo, lo - 1)
  }

  /** The inner loop of the search: step back from `hi` to a match, but not below `lo`. */
  method ProbeBack(stabs: seq<Stab>, ty: byte, lo: int, hi: int) returns (m: int)
    requires 0 <= lo <= hi + 1 && hi < |stabs|
    ensures m == Probe(stabs, ty, lo, hi)
  {
    m := hi;
    while m >= lo && stabs[m].typ != ty
      invariant lo - 1 <= m <= hi
      invariant Probe(stabs, ty, lo, m) == Probe(stabs, ty, lo, hi)
    {
      m := m - 1;
    }
  }

  /** The closing loop of the search. */
  method RescanBack(stabs: seq<Stab>, ty: byte, left: int, right: int) returns (l: int)
    requires 0 <= left && right < |stabs|
    ensures l == Rescan(stabs, ty, left, right)
  {
    l := right;
    while l > left && stabs[l].typ != ty
      invariant Min(left, right) <= l <= right
      invariant Rescan(stabs, ty, left, l) == Rescan(stabs, ty, left, right)
    {
      l := l - 1;
    }
  }

  lemma StepIsAdvance(stabs: seq<Stab>, ty: byte, s: Range, mid: int, m: int)
    requires InTable(stabs, s) && s.l <= s.right
    requires mid == (s.l + s.right) / 2 && m == Probe(stabs, ty, s.l, mid)
    ensures Step(stabs, ty, s) == Advance(stabs, s, m)
    ensures Rank(stabs, ty, Advance(stabs, s, m)) < Rank(stabs, ty, s)
    ensures InTable(stabs, Advance(stabs, s, m))
  {
  }

  /** The search as the kernel runs it. */
  method StabBinsearch(stabs: seq<Stab>, regionLeft: int, regionRight: int, ty: byte, address: uint32)
    returns (left: int, right: int)
    requires 0 <= regionLeft && regionRight < |stabs|
    ensures (left, right) == Search(stabs, regionLeft, regionRight, ty, address)
    ensures
      && Sorted(stabs, ty, regionLeft, regionRight)
      && !Chains(stabs, ty, regionLeft, regionRight, address)
      && !AllAbove(stabs, ty, regionLeft, regionRight, address)
      ==> Brackets(stabs, ty, regionLeft, regionRight, address, left, right)
  {
    hide Probe;
    hide Step;
    hide Rescan;
    hide IsMatch;
    hide Sorted;
    hide Chains;
    hide AllAbove;
    hide Brackets;
    var addr := address;
    left, right := regionLeft, regionRight;
    var l, r, anyMatches := left, right, false;
    ghost var s := Range(l, r, left, anyMatches, addr);
    ghost var outcome := Narrow(stabs, ty, s);
    while l <= r
      invariant InTable(stabs, s) && right == r
      invariant l == s.l && r == s.right && left == s.left && anyMatches == s.any && addr == s.key
      invariant !anyMatches ==> left == regionLeft
      invariant Narrow(stabs, ty, s) == outcome
      decreases Rank(stabs, ty, s)
    {
      var trueM := (l + r) / 2;
      var m := ProbeBack(stabs, ty, l, trueM);
      StepIsAdvance(stabs, ty, s, trueM, m);
      s := Advance(stabs, s, m);
      if m < l {
        l := trueM + 1;
      } else {
        anyMatches := true;
        if stabs[m].value < addr {
          left := m;
          l := trueM + 1;
        } else if stabs[m].value > addr {
          right := m - 1;
          r := m - 1;
        } else {
          left := m;
          l := m;
          addr := Next(addr);
        }
      }
    }
    if !anyMatches {
      right := left - 1;
    } else {
      left := RescanBack(stabs, ty, left, right);
    }
    SearchKeeps(stabs, regionLeft, regionRight, ty, address);
  }

  lemma {:induction false} RightBeforeMatch(stabs: seq<Stab>, ty: byte, s: Range)
    requires InTable(stabs, s)
    ensures Narrow(stabs, ty, s).right < s.right ==> IsMatch(stabs, ty, Narrow(stabs, ty, s).right + 1)
    decreases Rank(stabs, ty, s)
  {
    hide Probe;
    hide Rank;
    if s.l <= s.right {
      RightBeforeMatch(stabs, ty, Step(stabs, ty, s));
    }
  }

  /** Where the reported bounds can lie, on every table and for every address. */
  lemma SearchRange(stabs: seq<Stab>, lo: int, hi: int, ty: byte, addr: uint32)
    requires 0 <= lo && hi < |stabs|
    ensures var (left, right) := Search(stabs, lo, hi, ty, addr);
      && (left > right ==> left == lo && right == lo - 1)
      && (left <= right && lo <= hi + 1 ==> lo - 1 <= left && right <= hi)
      && (left < lo <= hi ==> left == right == lo - 1 && IsMatch(stabs, ty, lo))
  {
    hide Narrow;
    RightBeforeMatch(stabs, ty, Range(lo, hi, lo, false, addr));
  }

  // ----- What holds on every table, sorted or not -----

  /** `key` is not the value of any match, so exact hits cannot push the key past it. */
  predicate Absent(stabs: seq<Stab>, ty: byte, lo: int, hi: int, key: uint32) {
    forall k :: lo <= k <= hi && IsMatch(stabs, ty, k) ==> stabs[k].value != key
  }

  /** Loop invariant: `left` is the last match before `l` (when one was passed), with a value below the key. */
  predicate Passed(stabs: seq<Stab>, ty: byte, lo: int, s: Range, found: bool) {
    && InTable(stabs, s) && lo <= s.l <= s.right + 1
    && if found then
         && s.any && lo <= s.left <= s.l && s.left <= s.right
         && IsMatch(stabs, ty, s.left) && stabs[s.left].value < s.key
         && NoMatch(stabs, ty, s.left + 1, s.l - 1)
       else
         s.left == lo && NoMatch(stabs, ty, lo, s.l - 1)
  }

  lemma NoMatchJoin(stabs: seq<Stab>, ty: byte, a: int, b: int, c: int)
    requires NoMatch(stabs, ty, a, b) && NoMatch(stabs, ty, b + 1, c)
    ensures NoMatch(stabs, ty, a, c)
  {
    hide IsMatch;
  }

  lemma NoMatchEmpty(stabs: seq<Stab>, ty: byte, a: int, b: int)
    requires b < a
    ensures NoMatch(stabs, ty, a, b)
  {
    hide IsMatch;
  }

  lemma AbsentInside(stabs: seq<Stab>, ty: byte, a: int, b: int, c: int, d: int, key: uint32)
    requires Absent(stabs, ty, a, b, key) && a <= c && d <= b
    ensures Absent(stabs, ty, c, d, key)
    ensures forall m :: a <= m <= b && IsMatch(stabs, ty, m) ==> stabs[m].value != key
  {
    hide IsMatch;
  }

  lemma StepPassed(stabs: seq<Stab>, ty: byte, lo: int, s: Range, found: bool, cap: uint32) returns (found': bool)
    requires Passed(stabs, ty, lo, s, found) && s.l <= s.right
    requires s.key <= cap && Absent(stabs, ty, s.l, s.right, cap)
    ensures found ==> found'
    ensures var s' := Step(stabs, ty, s);
      && Passed(stabs, ty, lo, s', found')
      && s.key <= s'.key <= cap && Absent(stabs, ty, s'.l, s'.right, cap)
      && (s'.right < s.right ==> IsMatch(stabs, ty, s'.right + 1) && stabs[s'.right + 1].value > s.key)
  {
    hide Probe;
    hide Rank;
    hide IsMatch;
    hide NoMatch;
    hide Absent;
    var mid := (s.l + s.right) / 2;
    var m := Probe(stabs, ty, s.l, mid);
    var s' := Step(stabs, ty, s);
    found' := found || (m >= s.l && stabs[m].value <= s.key);
    AbsentInside(stabs, ty, s.l, s.right, s'.l, s'.right, cap);
    if m < s.l {
      NoMatchJoin(stabs, ty, if found then s.left + 1 else lo, s.l - 1, mid);
    }
    NoMatchEmpty(stabs, ty, m + 1, m - 1);
  }

  /** The loop notices a match exactly when there is one. */
  lemma {:induction false} NarrowAny(stabs: seq<Stab>, ty: byte, s: Range)
    requires InTable(stabs, s)
    ensures Narrow(stabs, ty, s).any == (s.any || !NoMatch(stabs, ty, s.l, s.right))
    decreases Rank(stabs, ty, s)
  {
    hide Probe;
    hide Rank;
    if s.l <= s.right {
      var m := Probe(stabs, ty, s.l, (s.l + s.right) / 2);
      assert m >= s.l ==> IsMatch(stabs, ty, m);
      NarrowAny(stabs, ty, Step(stabs, ty, s));
    }
  }

  lemma {:induction false} NarrowPassed(stabs: seq<Stab>, ty: byte, lo: int, s: Range, found: bool, cap: uint32)
    returns (found': bool)
    requires Passed(stabs, ty, lo, s, found)
    requires s.key <= cap && Absent(stabs, ty, s.l, s.right, cap)
    ensures found ==> found'
    ensures var e := Narrow(stabs, ty, s);
      && Passed(stabs, ty, lo, e, found') && e.l == e.right + 1 && e.key <= cap
      && (e.right < s.right ==> IsMatch(stabs, ty, e.right + 1) && stabs[e.right + 1].value > s.key)
      && e.any == (s.any || !NoMatch(stabs, ty, s.l, s.right))
    decreases Rank(stabs, ty, s)
  {
    hide Step;
    NarrowAny(stabs, ty, s);
    if s.l > s.right {
      found' := found;
    } else {
      var step := StepPassed(stabs, ty, lo, s, found, cap);
      found' := NarrowPassed(stabs, ty, lo, Step(stabs, ty, s), step, cap);
    }
  }

  /** `k` is the last match in `lo..hi`. */
  predicate LastMatch(stabs: seq<Stab>, ty: byte, lo: int, hi: int, k: int) {
    lo <= k <= hi && IsMatch(stabs, ty, k) && NoMatch(stabs, ty, k + 1, hi)
  }

  /** Some value from the address up is missing among the matches, so exact hits cannot wrap the key. */
  ghost predicate CannotWrap(stabs: seq<Stab>, ty: byte, lo: int, hi: int, addr: uint32) {
    exists cap: uint32 :: addr <= cap && Absent(stabs, ty, lo, hi, cap)
  }

  /**
   Without any sortedness: only a window without matches is reported empty, and the right bound is
   the window end or just before a match.  Unless the key can wrap, that match lies above the
   address, and the left bound is the last match at or before the right bound, or else the window
   start (the right bound itself when that is lower).
   */
  lemma SearchUnsorted(stabs: seq<Stab>, lo: int, hi: int, ty: byte, addr: uint32)
    requires 0 <= lo <= hi + 1 && hi < |stabs|
    ensures var (left, right) := Search(stabs, lo, hi, ty, addr);
      && (left > right <==> NoMatch(stabs, ty, lo, hi))
      && (NoMatch(stabs, ty, lo, hi) ==> left == lo && right == lo - 1)
      && (!NoMatch(stabs, ty, lo, hi) ==>
            && lo - 1 <= right <= hi
            && (right == hi || IsMatch(stabs, ty, right + 1)))
      && (!NoMatch(stabs, ty, lo, hi) && CannotWrap(stabs, ty, lo, hi, addr) ==>
            && (right < hi ==> stabs[right + 1].value > addr)
            && if NoMatch(stabs, ty, lo, right) then left == Min(lo, right)
               else LastMatch(stabs, ty, lo, right, left))
  {
    hide Narrow;
    var s := Range(lo, hi, lo, false, addr);
    NarrowAny(stabs, ty, s);
    RightBeforeMatch(stabs, ty, s);
    if CannotWrap(stabs, ty, lo, hi, addr) {
      var cap: uint32 :| addr <= cap && Absent(stabs, ty, lo, hi, cap);
      var found := NarrowPassed(stabs, ty, lo, s, false, cap);
    }
  }

  // ----- What holds on sorted tables -----

  /** The matches of the window have non-decreasing values. */
  predicate Sorted(stabs: seq<Stab>, ty: byte, lo: int, hi: int) {
    forall i, j :: lo <= i <= j <= hi && IsMatch(stabs, ty, i) && IsMatch(stabs, ty, j) ==>
      stabs[i].value <= stabs[j].value
  }

  predicate Present(stabs: seq<Stab>, ty: byte, lo: int, hi: int, v: uint32) {
    !Absent(stabs, ty, lo, hi, v)
  }

  /** An exact hit on `addr` turns the search to `addr + 1`; these windows let it hit again, or wrap. */
  predicate Chains(stabs: seq<Stab>, ty: byte, lo: int, hi: int, addr: uint32) {
    && Present(stabs, ty, lo, hi, addr)
    && (addr == MAX_UINT32 || Present(stabs, ty, lo, hi, addr + 1))
  }

  /** No match of `lo..hi` has a value above `addr`. */
  predicate AllAtMost(stabs: seq<Stab>, ty: byte, lo: int, hi: int, addr: uint32) {
    forall k :: lo <= k <= hi && IsMatch(stabs, ty, k) ==> stabs[k].value <= addr
  }

  predicate AllAbove(stabs: seq<Stab>, ty: byte, lo: int, hi: int, addr: uint32) {
    forall k :: lo <= k <= hi && IsMatch(stabs, ty, k) ==> stabs[k].value > addr
  }

  /** Loop invariant: the matches passed are at most `addr`, those cut off are above it. */
  predicate Splits(stabs: seq<Stab>, ty: byte, lo: int, hi: int, s: Range, addr: uint32) {
    && InTable(stabs, s) && lo <= s.l <= s.right + 1 && s.right <= hi < |stabs|
    && AllAtMost(stabs, ty, lo, s.l - 1, addr)
    && AllAbove(stabs, ty, s.right + 1, hi, addr)
    && (s.key == addr || (s.key == addr + 1 && Absent(stabs, ty, lo, hi, s.key)))
  }

  lemma StepSplits(stabs: seq<Stab>, ty: byte, lo: int, hi: int, s: Range, addr: uint32)
    requires Splits(stabs, ty, lo, hi, s, addr) && s.l <= s.right
    requires Sorted(stabs, ty, lo, hi) && !Chains(stabs, ty, lo, hi, addr)
    ensures Splits(stabs, ty, lo, hi, Step(stabs, ty, s), addr)
  {
    hide Probe;
    hide Rank;
    hide IsMatch;
    var m := Probe(stabs, ty, s.l, (s.l + s.right) / 2);
  }

  lemma {:induction false} NarrowSplits(stabs: seq<Stab>, ty: byte, lo: int, hi: int, s: Range, addr: uint32)
    requires Splits(stabs, ty, lo, hi, s, addr)
    requires Sorted(stabs, ty, lo, hi) && !Chains(stabs, ty, lo, hi, addr)
    ensures Splits(stabs, ty, lo, hi, Narrow(stabs, ty, s), addr)
    ensures Narrow(stabs, ty, s).l == Narrow(stabs, ty, s).right + 1
    decreases Rank(stabs, ty, s)
  {
    hide Step;
    if s.l <= s.right {
      StepSplits(stabs, ty, lo, hi, s, addr);
      NarrowSplits(stabs, ty, lo, hi, Step(stabs, ty, s), addr);
    }
  }

  /** The bracket the source's comment promises: the last match at most `addr`, up to the next match. */
  predicate Brackets(stabs: seq<Stab>, ty: byte, lo: int, hi: int, addr: uint32, left: int, right: int) {
    && lo <= left <= right <= hi
    && IsMatch(stabs, ty, left) && stabs[left].value <= addr
    && NoMatch(stabs, ty, left + 1, right)
    && (right == hi || (IsMatch(stabs, ty, right + 1) && stabs[right + 1].value > addr))
    && AllAbove(stabs, ty, right + 1, hi, addr)
  }

  /** Everything the search can report on a sorted window without chaining. */
  lemma SearchSorted(stabs: seq<Stab>, lo: int, hi: int, ty: byte, addr: uint32)
    requires 0 <= lo <= hi + 1 && hi < |stabs|
    requires Sorted(stabs, ty, lo, hi) && !Chains(stabs, ty, lo, hi, addr)
    ensures var (left, right) := Search(stabs, lo, hi, ty, addr);
      && (NoMatch(stabs, ty, lo, hi) ==> left == lo && right == lo - 1)
      && (!NoMatch(stabs, ty, lo, hi) && AllAbove(stabs, ty, lo, hi, addr) ==>
            && lo - 1 <= right < hi && IsMatch(stabs, ty, right + 1)
            && NoMatch(stabs, ty, lo, right) && left == Min(lo, right))
      && (!AllAbove(stabs, ty, lo, hi, addr) ==> Brackets(stabs, ty, lo, hi, addr, left, right))
  {
    hide Narrow;
    var s := Range(lo, hi, lo, false, addr);
    var cap := if Absent(stabs, ty, lo, hi, addr) then addr else addr + 1;
    assert Absent(stabs, ty, lo, hi, cap);
    SearchUnsorted(stabs, lo, hi, ty, addr);
    NarrowSplits(stabs, ty, lo, hi, s, addr);
  }

  lemma SearchKeeps(stabs: seq<Stab>, lo: int, hi: int, ty: byte, addr: uint32)
    requires 0 <= lo && hi < |stabs|
    ensures Sorted(stabs, ty, lo, hi) && !Chains(stabs, ty, lo, hi, addr) ==> Kept(stabs, ty, lo, hi, addr)
  {
    hide Search;
    if lo <= hi && Sorted(stabs, ty, lo, hi) && !Chains(stabs, ty, lo, hi, addr) {
      SearchSorted(stabs, lo, hi, ty, addr);
    }
  }

  // ----- Exactly when the promise is kept -----

  /** The search of the window `l..r` keeps its promise. */
  predicate Kept(stabs: seq<Stab>, ty: byte, l: int, r: int, addr: uint32)
    requires 0 <= l && r < |stabs|
  {
    var (left, right) := Search(stabs, l, r, ty, addr);
    AllAbove(stabs, ty, l, r, addr) || Brackets(stabs, ty, l, r, addr, left, right)
  }

  /** Among sorted matches, neighbours with the values `addr` and `addr + 1`. */
  lemma {:induction false} Neighbours(stabs: seq<Stab>, ty: byte, lo: int, hi: int, addr: uint32, a: int, b: int)
    returns (i: int, j: int)
    requires Sorted(stabs, ty, lo, hi) && lo <= a <= hi && lo <= b <= hi && addr < MAX_UINT32
    requires IsMatch(stabs, ty, a) && stabs[a].value == addr
    requires IsMatch(stabs, ty, b) && stabs[b].value == addr + 1
    ensures a <= i < j <= b && NoMatch(stabs, ty, i + 1, j - 1)
    ensures IsMatch(stabs, ty, i) && stabs[i].value == addr
    ensures IsMatch(stabs, ty, j) && stabs[j].value == addr + 1
    decreases b - a
  {
    assert a < b;
    if k :| a < k < b && IsMatch(stabs, ty, k) {
      if stabs[k].value == addr {
        i, j := Neighbours(stabs, ty, lo, hi, addr, k, b);
      } else {
        i, j := Neighbours(stabs, ty, lo, hi, addr, a, k);
      }
    } else {
      i, j := a, b;
    }
  }

  /** When only the right end of the range matches, with the key for its value, it becomes the left bound. */
  lemma {:induction false} RightEndHit(stabs: seq<Stab>, ty: byte, s: Range)
    requires InTable(stabs, s) && s.l <= s.right && NoMatch(stabs, ty, s.l, s.right - 1)
    requires IsMatch(stabs, ty, s.right) && stabs[s.right].value == s.key < MAX_UINT32
    ensures var e := Narrow(stabs, ty, s); e.any && e.left == e.right == s.right
    decreases s.right - s.l
  {
    hide Probe;
    var mid := (s.l + s.right) / 2;
    var m := Probe(stabs, ty, s.l, mid);
    var next := Step(stabs, ty, s);
    if m < s.l {
      RightEndHit(stabs, ty, next);
    } else {
      assert m == s.right && next.l == next.right;
      var last := Step(stabs, ty, next);
      assert Narrow(stabs, ty, last) == last;
    }
  }

  lemma NeighboursMiss(stabs: seq<Stab>, ty: byte, i: int, j: int, addr: uint32)
    requires 0 <= i < j && NoMatch(stabs, ty, i + 1, j - 1) && addr < MAX_UINT32 - 1
    requires IsMatch(stabs, ty, i) && stabs[i].value == addr
    requires IsMatch(stabs, ty, j) && stabs[j].value == addr + 1
    ensures Search(stabs, i, j, ty, addr) == (j, j)
    ensures !Kept(stabs, ty, i, j, addr)
  {
    hide Probe;
    var s0 := Range(i, j, i, false, addr);
    var mid := (i + j) / 2;
    assert Probe(stabs, ty, i, mid) == i;
    var s1 := Step(stabs, ty, s0);
    assert s1 == Range(i, j, i, true, addr + 1);
    var s2 := Step(stabs, ty, s1);
    assert s2 == Range(mid + 1, j, i, true, addr + 1);
    assert Narrow(stabs, ty, s0) == Narrow(stabs, ty, s1) == Narrow(stabs, ty, s2);
    RightEndHit(stabs, ty, s2);
  }

  /**
   The search is right on every window of a sorted table exactly when the table does not hold
   both the address and the next one.
   */
  lemma SearchKeptIff(stabs: seq<Stab>, lo: int, hi: int, ty: byte, addr: uint32)
    requires 0 <= lo && hi < |stabs| && Sorted(stabs, ty, lo, hi) && addr < MAX_UINT32 - 1
    ensures (forall l, r :: lo <= l <= r <= hi ==> Kept(stabs, ty, l, r, addr))
       <==> !(Present(stabs, ty, lo, hi, addr) && Present(stabs, ty, lo, hi, addr + 1))
  {
    if Chains(stabs, ty, lo, hi, addr) {
      var a :| lo <= a <= hi && IsMatch(stabs, ty, a) && stabs[a].value == addr;
      var b :| lo <= b <= hi && IsMatch(stabs, ty, b) && stabs[b].value == addr + 1;
      var i, j := Neighbours(stabs, ty, lo, hi, addr, a, b);
      NeighboursMiss(stabs, ty, i, j, addr);
    } else {
      forall l, r | lo <= l <= r <= hi ensures Kept(stabs, ty, l, r, addr) {
        hide Search;
        SearchSorted(stabs, l, r, ty, addr);
      }
    }
  }

  /** After the wrap every match of the range lies above the key, so the right bound drops below its start. */
  lemma {:induction false} WrappedDrops(stabs: seq<Stab>, ty: byte, s: Range)
    requires InTable(stabs, s) && s.l <= s.right + 1 && IsMatch(stabs, ty, s.l)
    requires AllAbove(stabs, ty, s.l, s.right, s.key)
    ensures Narrow(stabs, ty, s).any == (s.any || s.l <= s.right) && Narrow(stabs, ty, s).right == s.l - 1
    decreases s.right
  {
    hide Probe;
    if s.l <= s.right {
      var m := Probe(stabs, ty, s.l, (s.l + s.right) / 2);
      WrappedDrops(stabs, ty, Step(stabs, ty, s));
    }
  }

  lemma {:induction false} TopDrops(stabs: seq<Stab>, ty: byte, s: Range, p: int)
    requires InTable(stabs, s) && s.l <= p <= s.right && Sorted(stabs, ty, s.l, s.right)
    requires IsMatch(stabs, ty, p) && stabs[p].value == s.key == MAX_UINT32
    ensures Narrow(stabs, ty, s).any && Narrow(stabs, ty, s).right < s.right
    decreases s.right - s.l
  {
    hide Probe;
    var m := Probe(stabs, ty, s.l, (s.l + s.right) / 2);
    var next := Step(stabs, ty, s);
    if m >= s.l && stabs[m].value == MAX_UINT32 {
      WrappedDrops(stabs, ty, next);
    } else {
      TopDrops(stabs, ty, next, p);
    }
  }

  /** At the top address the increment wraps: an exact hit there is never bracketed. */
  lemma SearchAtTop(stabs: seq<Stab>, lo: int, hi: int, ty: byte)
    requires 0 <= lo <= hi < |stabs| && Sorted(stabs, ty, lo, hi)
    ensures Kept(stabs, ty, lo, hi, MAX_UINT32)
       <==> Absent(stabs, ty, lo, hi, MAX_UINT32)
  {
    if Absent(stabs, ty, lo, hi, MAX_UINT32) {
      hide Search;
      SearchSorted(stabs, lo, hi, ty, MAX_UINT32);
    } else {
      hide Narrow;
      var p :| lo <= p <= hi && IsMatch(stabs, ty, p) && stabs[p].value == MAX_UINT32;
      TopDrops(stabs, ty, Range(lo, hi, lo, false, MAX_UINT32), p);
    }
  }

  // ----- Exactly when the promise is kept on one window -----

  function Middle(stabs: seq<Stab>, ty: byte, s: Range): (m: int)
    requires InTable(stabs, s) && s.l <= s.right
    ensures s.l - 1 <= m <= (s.l + s.right) / 2
    ensures s.l <= m ==> IsMatch(stabs, ty, m)
    ensures NoMatch(stabs, ty, m + 1, (s.l + s.right) / 2)
  {
    Probe(stabs, ty, s.l, (s.l + s.right) / 2)
  }

  /** The next probe meets an entry with the key for its value. */
  predicate Hits(stabs: seq<Stab>, ty: byte, s: Range)
    requires InTable(stabs, s)
  {
    s.l <= s.right && var m := Middle(stabs, ty, s); m >= s.l && stabs[m].value == s.key
  }

  /** The plain binary search for the key: up to the first exact hit, or to the end. */
  function UntilHit(stabs: seq<Stab>, ty: byte, s: Range): (u: Range)
    requires InTable(stabs, s)
    ensures InTable(stabs, u) && (u.l <= u.right ==> Hits(stabs, ty, u))
    decreases Rank(stabs, ty, s)
  {
    if s.l > s.right || Hits(stabs, ty, s) then s else UntilHit(stabs, ty, Step(stabs, ty, s))
  }

  /** A round without an exact hit keeps the key and cuts off only entries above it. */
  lemma PlainStep(stabs: seq<Stab>, ty: byte, s: Range)
    requires InTable(stabs, s) && s.l <= s.right && !Hits(stabs, ty, s)
    ensures var s' := Step(stabs, ty, s);
      && s'.key == s.key
      && (s'.right < s.right ==> IsMatch(stabs, ty, s'.right + 1) && stabs[s'.right + 1].value > s.key)
  {
    hide Probe;
    hide Rank;
  }

  lemma {:induction false} UntilHitFacts(stabs: seq<Stab>, ty: byte, s: Range)
    requires InTable(stabs, s)
    ensures var u := UntilHit(stabs, ty, s);
      && u.key == s.key && Narrow(stabs, ty, u) == Narrow(stabs, ty, s)
      && s.l <= u.l && u.right <= s.right
      && (u.right < s.right ==> IsMatch(stabs, ty, u.right + 1) && stabs[u.right + 1].value > s.key)
    decreases Rank(stabs, ty, s)
  {
    hide Step;
    hide Hits;
    if s.l <= s.right && !Hits(stabs, ty, s) {
      PlainStep(stabs, ty, s);
      UntilHitFacts(stabs, ty, Step(stabs, ty, s));
    }
  }

  /** A sorted range that holds the key is searched until it is hit. */
  lemma {:induction false} KeyIsHit(stabs: seq<Stab>, ty: byte, s: Range, p: int)
    requires InTable(stabs, s) && s.l <= p <= s.right && Sorted(stabs, ty, s.l, s.right)
    requires IsMatch(stabs, ty, p) && stabs[p].value == s.key
    ensures Hits(stabs, ty, UntilHit(stabs, ty, s))
    decreases Rank(stabs, ty, s)
  {
    hide Rank;
    hide Probe;
    if !Hits(stabs, ty, s) {
      var m := Middle(stabs, ty, s);
      KeyIsHit(stabs, ty, Step(stabs, ty, s), p);
    }
  }

  /** Once past a match below the key, the right bound never drops below it again. */
  lemma {:induction false} RightStays(stabs: seq<Stab>, ty: byte, s: Range, m: int)
    requires InTable(stabs, s) && m <= s.l && m <= s.right && IsMatch(stabs, ty, m)
    requires m < s.l || stabs[m].value < s.key
    ensures m <= Narrow(stabs, ty, s).right
    decreases Rank(stabs, ty, s)
  {
    hide Probe;
    hide Rank;
    if s.l <= s.right {
      var p := Probe(stabs, ty, s.l, (s.l + s.right) / 2);
      RightStays(stabs, ty, Step(stabs, ty, s), m);
    }
  }

  /** The search hits the address at `m` while its range, now `m..right`, still holds the next address. */
  predicate RunsOn(stabs: seq<Stab>, ty: byte, lo: int, hi: int, addr: uint32)
    requires 0 <= lo && hi < |stabs| && addr < MAX_UINT32
  {
    var u := UntilHit(stabs, ty, Range(lo, hi, lo, false, addr));
    u.l <= u.right && Present(stabs, ty, Middle(stabs, ty, u), u.right, addr + 1)
  }

  lemma HitStep(stabs: seq<Stab>, ty: byte, s: Range)
    requires InTable(stabs, s) && Hits(stabs, ty, s)
    ensures var m := Middle(stabs, ty, s);
      && s.l <= m <= s.right && IsMatch(stabs, ty, m) && stabs[m].value == s.key
      && Step(stabs, ty, s) == Range(m, s.right, m, true, Next(s.key))
      && Narrow(stabs, ty, s) == Narrow(stabs, ty, Step(stabs, ty, s))
  {
    hide Probe;
    hide Rank;
  }

  /** The range right after the first exact hit. */
  lemma FirstHit(stabs: seq<Stab>, ty: byte, lo: int, hi: int, addr: uint32) returns (s: Range)
    requires 0 <= lo && hi < |stabs| && addr < MAX_UINT32
    requires Hits(stabs, ty, UntilHit(stabs, ty, Range(lo, hi, lo, false, addr)))
    ensures InTable(stabs, s) && s == Range(s.l, s.right, s.l, true, addr + 1)
    ensures s.l == Middle(stabs, ty, UntilHit(stabs, ty, Range(lo, hi, lo, false, addr)))
    ensures s.right == UntilHit(stabs, ty, Range(lo, hi, lo, false, addr)).right
    ensures lo <= s.l <= s.right <= hi && IsMatch(stabs, ty, s.l) && stabs[s.l].value == addr
    ensures s.right < hi ==> IsMatch(stabs, ty, s.right + 1) && stabs[s.right + 1].value > addr
    ensures Narrow(stabs, ty, s) == Narrow(stabs, ty, Range(lo, hi, lo, false, addr))
  {
    hide Narrow;
    hide Step;
    hide UntilHit;
    var s0 := Range(lo, hi, lo, false, addr);
    UntilHitFacts(stabs, ty, s0);
    var u := UntilHit(stabs, ty, s0);
    HitStep(stabs, ty, u);
    s := Step(stabs, ty, u);
  }

  /** A right bound followed by an entry above the address cuts off all of them. */
  lemma AboveFrom(stabs: seq<Stab>, ty: byte, lo: int, hi: int, addr: uint32, right: int)
    requires Sorted(stabs, ty, lo, hi) && lo <= right + 1 && right <= hi
    requires right == hi || (IsMatch(stabs, ty, right + 1) && stabs[right + 1].value > addr)
    ensures AllAbove(stabs, ty, right + 1, hi, addr)
  {
  }

  /** After a hit that does not run on, the loop ends with a bracket. */
  lemma HitBrackets(stabs: seq<Stab>, ty: byte, lo: int, hi: int, addr: uint32, s: Range)
    requires 0 <= lo <= s.l <= s.right <= hi < |stabs| && Sorted(stabs, ty, lo, hi) && addr < MAX_UINT32
    requires s == Range(s.l, s.right, s.l, true, addr + 1) && IsMatch(stabs, ty, s.l) && stabs[s.l].value == addr
    requires s.right < hi ==> IsMatch(stabs, ty, s.right + 1) && stabs[s.right + 1].value > addr
    requires Absent(stabs, ty, s.l, s.right, addr + 1)
    ensures var e := Narrow(stabs, ty, s);
      e.any && e.left <= e.right && Brackets(stabs, ty, lo, hi, addr, e.left, e.right)
  {
    hide Narrow;
    hide Sorted;
    var found := NarrowPassed(stabs, ty, lo, s, true, addr + 1);
    var e := Narrow(stabs, ty, s);
    AboveFrom(stabs, ty, lo, hi, addr, e.right);
  }

  lemma NoRunKeeps(stabs: seq<Stab>, ty: byte, lo: int, hi: int, addr: uint32)
    requires 0 <= lo <= hi < |stabs| && Sorted(stabs, ty, lo, hi) && addr < MAX_UINT32
    requires !RunsOn(stabs, ty, lo, hi, addr)
    ensures Kept(stabs, ty, lo, hi, addr)
  {
    hide Narrow;
    hide UntilHit;
    hide Hits;
    hide Sorted;
    var s0 := Range(lo, hi, lo, false, addr);
    var u := UntilHit(stabs, ty, s0);
    if u.l <= u.right {
      var s := FirstHit(stabs, ty, lo, hi, addr);
      HitBrackets(stabs, ty, lo, hi, addr, s);
      var e := Narrow(stabs, ty, s);
      assert Rescan(stabs, ty, e.left, e.right) == e.left;
    } else {
      NoHitMeansAbsent(stabs, ty, lo, hi, addr);
      SearchKeeps(stabs, lo, hi, ty, addr);
    }
  }

  lemma NoHitMeansAbsent(stabs: seq<Stab>, ty: byte, lo: int, hi: int, addr: uint32)
    requires 0 <= lo <= hi < |stabs| && Sorted(stabs, ty, lo, hi)
    requires var u := UntilHit(stabs, ty, Range(lo, hi, lo, false, addr)); u.l > u.right
    ensures Absent(stabs, ty, lo, hi, addr)
  {
    hide UntilHit;
    forall p | lo <= p <= hi && IsMatch(stabs, ty, p) ensures stabs[p].value != addr {
      if stabs[p].value == addr {
        KeyIsHit(stabs, ty, Range(lo, hi, lo, false, addr), p);
      }
    }
  }

  /** The hit after the first one, when the search runs on. */
  lemma SecondHit(stabs: seq<Stab>, ty: byte, lo: int, hi: int, addr: uint32) returns (s: Range)
    requires 0 <= lo <= hi < |stabs| && Sorted(stabs, ty, lo, hi) && addr < MAX_UINT32
    requires RunsOn(stabs, ty, lo, hi, addr)
    ensures InTable(stabs, s) && s == Range(s.l, s.right, s.l, true, Next(addr + 1))
    ensures s.l == SecondHitAt(stabs, ty, lo, hi, addr)
    ensures lo < s.l <= s.right <= hi && IsMatch(stabs, ty, s.l) && stabs[s.l].value == addr + 1
    ensures Narrow(stabs, ty, s) == Narrow(stabs, ty, Range(lo, hi, lo, false, addr))
    ensures exists m :: lo <= m < s.l && IsMatch(stabs, ty, m) && stabs[m].value == addr
  {
    hide Narrow;
    hide Step;
    hide UntilHit;
    hide Hits;
    hide Middle;
    var first := FirstHit(stabs, ty, lo, hi, addr);
    var p :| first.l <= p <= first.right && IsMatch(stabs, ty, p) && stabs[p].value == addr + 1;
    KeyIsHit(stabs, ty, first, p);
    UntilHitFacts(stabs, ty, first);
    var u := UntilHit(stabs, ty, first);
    HitStep(stabs, ty, u);
    s := Step(stabs, ty, u);
    assert IsMatch(stabs, ty, first.l) && stabs[first.l].value == addr;
  }

  /** Where the search for the next address, continued from the first hit, is hit in turn. */
  function SecondHitAt(stabs: seq<Stab>, ty: byte, lo: int, hi: int, addr: uint32): int
    requires 0 <= lo && hi < |stabs| && addr < MAX_UINT32 && RunsOn(stabs, ty, lo, hi, addr)
  {
    var u := UntilHit(stabs, ty, Range(lo, hi, lo, false, addr));
    var m := Middle(stabs, ty, u);
    var v := UntilHit(stabs, ty, Range(m, u.right, m, true, addr + 1));
    if v.l <= v.right then Middle(stabs, ty, v) else m
  }

  predicate EntryAt(stabs: seq<Stab>, ty: byte, i: int, v: uint32) {
    IsMatch(stabs, ty, i) && stabs[i].value == v
  }

  /** A search that runs on brackets the wrong entry, unless the second hit wraps right behind the right one. */
  lemma RunBreaks(stabs: seq<Stab>, ty: byte, lo: int, hi: int, addr: uint32)
    requires 0 <= lo <= hi < |stabs| && Sorted(stabs, ty, lo, hi) && addr < MAX_UINT32
    requires RunsOn(stabs, ty, lo, hi, addr)
    ensures Kept(stabs, ty, lo, hi, addr)
       <==> addr + 1 == MAX_UINT32 && EntryAt(stabs, ty, SecondHitAt(stabs, ty, lo, hi, addr) - 1, addr)
  {
    hide Narrow;
    hide RunsOn;
    hide SecondHitAt;
    var s := SecondHit(stabs, ty, lo, hi, addr);
    var e := Narrow(stabs, ty, s);
    if addr + 1 == MAX_UINT32 {
      WrappedDrops(stabs, ty, s);
      assert Search(stabs, lo, hi, ty, addr) == (s.l - 1, s.l - 1);
    } else {
      RightStays(stabs, ty, s, s.l);
      NarrowAny(stabs, ty, s);
      assert s.l <= Rescan(stabs, ty, e.left, e.right);
    }
  }

  /**
   One window of a sorted table, for every address below the top: the promise is kept if and only
   if the search, once it has hit the address, no longer has the next address in its range.  At
   `MAX_UINT32 - 1` the second hit wraps, which undoes the harm when the right entry stands just before it.
   */
  lemma WindowKeptIff(stabs: seq<Stab>, ty: byte, lo: int, hi: int, addr: uint32)
    requires 0 <= lo <= hi < |stabs| && Sorted(stabs, ty, lo, hi) && addr < MAX_UINT32
    ensures Kept(stabs, ty, lo, hi, addr) <==>
            || !RunsOn(stabs, ty, lo, hi, addr)
            || (addr + 1 == MAX_UINT32 && EntryAt(stabs, ty, SecondHitAt(stabs, ty, lo, hi, addr) - 1, addr))
  {
    hide RunsOn;
    hide Kept;
    hide SecondHitAt;
    if RunsOn(stabs, ty, lo, hi, addr) {
      RunBreaks(stabs, ty, lo, hi, addr);
    } else {
      NoRunKeeps(stabs, ty, lo, hi, addr);
    }
  }

  /**
   Why `SearchKeptIff` stops short of `MAX_UINT32 - 1`: there a second hit wraps the key, and the wrap
   can undo the harm, as it does for these two entries.
   */
  lemma WrapUndoesChain(a: Stab, b: Stab, ty: byte)
    requires a.typ == b.typ == ty && a.value == MAX_UINT32 - 1 && b.value == MAX_UINT32
    ensures Chains([a, b], ty, 0, 1, MAX_UINT32 - 1) && Kept([a, b], ty, 0, 1, MAX_UINT32 - 1)
  {
    var stabs := [a, b];
    assert IsMatch(stabs, ty, 0) && IsMatch(stabs, ty, 1);
    hide Probe;
    var s0 := Range(0, 1, 0, false, MAX_UINT32 - 1);
    var s1 := Step(stabs, ty, s0);
    assert s1 == Range(0, 1, 0, true, MAX_UINT32);
    var s2 := Step(stabs, ty, s1);
    assert s2 == Range(1, 1, 0, true, MAX_UINT32);
    var s3 := Step(stabs, ty, s2);
    assert s3 == Range(1, 1, 1, true, 0);
    var s4 := Step(stabs, ty, s3);
    assert s4 == Range(1, 0, 1, true, 0);
    assert Narrow(stabs, ty, s4) == s4;
    assert Narrow(stabs, ty, s2) == Narrow(stabs, ty, s3) == s4;
    assert Narrow(stabs, ty, s0) == Narrow(stabs, ty, s1) == Narrow(stabs, ty, s2);
  }
}
