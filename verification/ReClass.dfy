/** Character classes as instructions: how a set becomes range pairs, and the search that tests a character. */
module ReClass {
  import opened Basics
  import opened ReCode
  import opened CharRange

  /** Interval k of a point list holds c. */
  predicate InInterval(p: seq<nat>, k: nat, c: nat) {
    2 * k + 1 < |p| && p[2 * k] <= c < p[2 * k + 1]
  }

  /** Being in a canonical set is being in one of its intervals. */
  lemma {:induction false} InSetIff(p: seq<nat>, c: nat)
    requires Canonical(p)
    ensures InSet(p, c) <==> exists k :: InInterval(p, k, c)
  {
    var m := 0;
    while m < |p| && p[m] <= c
      invariant 0 <= m <= |p| && forall i | 0 <= i < m :: p[i] <= c
    {
      m := m + 1;
    }
    assert forall i | m <= i < |p| :: p[i] > c by {
      forall i | m <= i < |p| ensures p[i] > c { if m < i { assert p[m] < p[i]; } }
    }
    CountSplit(p, m, c);
    if m % 2 == 1 {
      assert InInterval(p, m / 2, c);
    } else {
      forall k: nat
        ensures !InInterval(p, k, c)
      {
        if 2 * k + 1 < |p| {
          if 2 * k < m {
            assert 2 * k + 1 < m;
          }
        }
      }
    }
  }

  // ----- pairs -----

  /** Closed, non-empty, increasing ranges. */
  predicate SortedPairs(p: seq<(nat, nat)>) {
    && (forall k | 0 <= k < |p| :: p[k].0 <= p[k].1)
    && (forall j, k | 0 <= j < k < |p| :: p[j].1 < p[k].0)
  }

  predicate InPairs(p: seq<(nat, nat)>, c: nat) {
    exists k | 0 <= k < |p| :: p[k].0 <= c <= p[k].1
  }

  /** 16-bit ranges: a last bound of 0xffff has no end. */
  predicate Accepts16(p: seq<(nat, nat)>, c: nat) {
    InPairs(p, c) || (|p| > 0 && c >= 0xffff && p[|p| - 1].1 == 0xffff)
  }

  /** Interval k as a closed range; UINT32_MAX as an end is replaced by `top`. */
  function PairAt(p: seq<nat>, k: nat, top: nat): (nat, nat)
    requires 2 * k + 1 < |p|
  {
    (p[2 * k], if p[2 * k + 1] == UINT32_MAX then top else if p[2 * k + 1] == 0 then 0 else p[2 * k + 1] - 1)
  }

  function PairsOf(p: seq<nat>, top: nat): (r: seq<(nat, nat)>)
    ensures |r| == |p| / 2
  {
    seq(|p| / 2, k requires 0 <= k < |p| / 2 => PairAt(p, k, top))
  }

  /** The largest boundary that has to be written. */
  function HighPoint(p: seq<nat>): nat
    requires |p| >= 2
  {
    if p[|p| - 1] == UINT32_MAX then p[|p| - 2] else p[|p| - 1]
  }

  /** The instruction for a set, unless it has too many ranges. */
  function ClassInstr(p: seq<nat>): Option<Instr> {
    if |p| / 2 >= 65535 then None
    else if |p| / 2 == 0 then Some(Char32(UINT32_MAX))
    else if HighPoint(p) <= 0xffff then Some(Range(PairsOf(p, 0xffff)))
    else Some(Range32(PairsOf(p, UINT32_MAX - 1)))
  }

  predicate ClassAccepts(i: Instr, c: nat) {
    match i
    case Char32(x) => c == x
    case Range(p) => Accepts16(p, c)
    case Range32(p) => InPairs(p, c)
    case _ => false
  }

  /** The points of a class: canonical, within 32 bits. */
  predicate ClassPoints(p: seq<nat>) {
    Canonical(p) && forall i | 0 <= i < |p| :: p[i] <= UINT32_MAX
  }

  lemma {:induction false} PairsSorted(p: seq<nat>, top: nat)
    requires ClassPoints(p) && top <= UINT32_MAX && (|p| > 0 ==> p[|p| - 2] <= top)
    ensures SortedPairs(PairsOf(p, top))
    ensures forall k | 0 <= k < |p| / 2 :: PairsOf(p, top)[k].0 <= UINT32_MAX && PairsOf(p, top)[k].1 <= UINT32_MAX
  {
    var r := PairsOf(p, top);
    forall k | 0 <= k < |r|
      ensures r[k].0 <= r[k].1 <= UINT32_MAX && r[k].0 <= UINT32_MAX
    {
      var i := 2 * k;
      assert p[i] < p[i + 1];
      if p[i + 1] == UINT32_MAX {
        OnlyLast(p, i + 1);
      }
    }
    forall j, k | 0 <= j < k < |r|
      ensures r[j].1 < r[k].0
    {
      var i := 2 * j + 1;
      assert p[i] < p[2 * k] && p[i - 1] < p[i];
    }
  }

  lemma OnlyLast(p: seq<nat>, i: nat)
    requires ClassPoints(p) && i < |p| && p[i] == UINT32_MAX
    ensures i == |p| - 1
  {
    var j := |p| - 1;
    assert p[j] <= UINT32_MAX;
  }

  /** A pair holds what its interval holds, except above the substituted top. */
  lemma {:induction false} PairHolds(p: seq<nat>, k: nat, top: nat, c: nat)
    requires ClassPoints(p) && 2 * k + 1 < |p| && c < UINT32_MAX
    ensures var q := PairAt(p, k, top);
      q.0 <= c <= q.1 <==> InInterval(p, k, c) && (p[2 * k + 1] == UINT32_MAX ==> c <= top)
  {
    var i := 2 * k;
    assert p[i] < p[i + 1];
  }

  /** The emitted instruction accepts exactly the characters of the set. */
  lemma {:induction false} ClassExact(p: seq<nat>, i: Instr, c: nat)
    requires ClassPoints(p) && ClassInstr(p) == Some(i) && c < UINT32_MAX - 1
    ensures ClassAccepts(i, c) <==> InSet(p, c)
    ensures ValidInstr(i)
  {
    hide InSet, PairsOf, Accepts16, InPairs, InInterval;
    InSetIff(p, c);
    if |p| == 0 {
      NoInterval(p, c);
    } else {
      ClassTop(p);
      if i.Range? {
        NarrowExact(p, c);
      } else {
        WideExact(p, c);
      }
    }
  }

  lemma NoInterval(p: seq<nat>, c: nat)
    requires |p| == 0
    ensures forall k: nat :: !InInterval(p, k, c)
  {
  }

  /** In which pairs a character lies. */
  lemma {:induction false} PairsHold(p: seq<nat>, top: nat, c: nat)
    requires ClassPoints(p) && c < UINT32_MAX
    ensures InPairs(PairsOf(p, top), c) <==> exists k ::
        InInterval(p, k, c) && (p[2 * k + 1] == UINT32_MAX ==> c <= top)
  {
    hide PairAt;
    var r := PairsOf(p, top);
    forall k: nat | k < |r|
      ensures r[k].0 <= c <= r[k].1 <==> InInterval(p, k, c) && (p[2 * k + 1] == UINT32_MAX ==> c <= top)
    {
      PairHolds(p, k, top, c);
    }
    assert forall k: nat | InInterval(p, k, c) :: k < |r|;
  }

  lemma {:induction false} NarrowExact(p: seq<nat>, c: nat)
    requires ClassPoints(p) && |p| >= 2 && HighPoint(p) <= 0xffff && |p| / 2 < 65535 && c < UINT32_MAX
    ensures Accepts16(PairsOf(p, 0xffff), c) <==> exists k :: InInterval(p, k, c)
    ensures ValidPairs(PairsOf(p, 0xffff), 65536)
  {
    hide PairsOf, InPairs, InInterval, ClassPoints, ValidPairs;
    ClassTop(p);
    PairsHold(p, 0xffff, c);
    LastInterval(p, 0xffff, c);
    ClassNarrow(p);
  }

  lemma {:induction false} WideExact(p: seq<nat>, c: nat)
    requires ClassPoints(p) && |p| >= 2 && |p| / 2 < 65535 && c < UINT32_MAX - 1
    ensures InPairs(PairsOf(p, UINT32_MAX - 1), c) <==> exists k :: InInterval(p, k, c)
    ensures ValidPairs(PairsOf(p, UINT32_MAX - 1), 0x1_0000_0000)
  {
    hide InPairs, InInterval, PairAt;
    ClassTop(p);
    PairsHold(p, UINT32_MAX - 1, c);
    PairsSorted(p, UINT32_MAX - 1);
  }

  lemma ClassTop(p: seq<nat>)
    requires ClassPoints(p) && |p| > 0
    ensures |p| >= 2 && p[|p| - 2] <= UINT32_MAX - 1 && (HighPoint(p) <= 0xffff ==> p[|p| - 2] <= 0xffff)
  {
    assert p[|p| - 2] < p[|p| - 1];
  }

  /** 16-bit ranges fit 16 bits, and only an open end is written as 0xffff. */
  lemma ClassNarrow(p: seq<nat>)
    requires ClassPoints(p) && |p| >= 2 && HighPoint(p) <= 0xffff
    ensures ValidPairs(PairsOf(p, 0xffff), 65536) || |p| / 2 >= 65536
    ensures PairsOf(p, 0xffff)[|p| / 2 - 1].1 == 0xffff <==> p[|p| - 1] == UINT32_MAX
  {
    var r := PairsOf(p, 0xffff);
    assert |p| % 2 == 0;
    forall k | 0 <= k < |r|
      ensures r[k].0 < 65536 && r[k].1 < 65536
    {
      var i := 2 * k;
      assert p[i] < p[i + 1];
      if i + 1 < |p| - 1 {
        assert p[i + 1] < p[|p| - 1];
        if i + 1 < |p| - 2 {
          assert p[i + 1] < p[|p| - 2];
        }
      }
    }
    assert r[|p| / 2 - 1] == PairAt(p, |p| / 2 - 1, 0xffff);
  }

  /** Characters above the substituted top belong to the last, open interval. */
  lemma {:induction false} LastInterval(p: seq<nat>, top: nat, c: nat)
    requires ClassPoints(p) && |p| >= 2 && p[|p| - 2] <= top && c < UINT32_MAX
    ensures c >= top && p[|p| - 1] == UINT32_MAX ==> InInterval(p, |p| / 2 - 1, c)
    ensures forall k: nat | InInterval(p, k, c) && p[2 * k + 1] == UINT32_MAX :: k == |p| / 2 - 1
  {
    forall k: nat | InInterval(p, k, c) && p[2 * k + 1] == UINT32_MAX
      ensures k == |p| / 2 - 1
    {
      OnlyLast(p, 2 * k + 1);
    }
  }

  // ----- the search in the code bytes -----

  lemma {:induction false} Pair16At(s: seq<Byte>, i: nat, n: nat, k: nat)
    requires i + 4 * n <= |s| && k < n
    ensures ReadPairs16(s, i, n)[k] == (GetU16(s, i + 4 * k), GetU16(s, i + 4 * k + 2))
    decreases k
  {
    if k > 0 {
      Pair16At(s, i + 4, n - 1, k - 1);
    }
  }

  lemma {:induction false} Pair32At(s: seq<Byte>, i: nat, n: nat, k: nat)
    requires i + 8 * n <= |s| && k < n
    ensures ReadPairs32(s, i, n)[k] == (GetU32(s, i + 8 * k), GetU32(s, i + 8 * k + 4))
    decreases k
  {
    if k > 0 {
      Pair32At(s, i + 8, n - 1, k - 1);
    }
  }

  /** c lies outside every range up to idx, or from idx on. */
  lemma BelowRange(p: seq<(nat, nat)>, idx: nat, c: nat)
    requires SortedPairs(p) && idx < |p|
    ensures c < p[idx].0 ==> forall k | idx <= k < |p| :: c < p[k].0
    ensures c > p[idx].1 ==> forall k | 0 <= k <= idx :: c > p[k].1
  {
  }

  /** Binary search in 16-bit ranges read from the code. */
  method Search16(s: seq<Byte>, i: nat, n: nat, c: nat) returns (found: bool)
    requires n >= 1 && i + 4 * n <= |s| && SortedPairs(ReadPairs16(s, i, n))
    ensures found <==> Accepts16(ReadPairs16(s, i, n), c)
  {
    hide ReadPairs16, GetU16, SortedPairs;
    ghost var p := ReadPairs16(s, i, n);
    var low := GetU16(s, i);
    Pair16At(s, i, n, 0);
    BelowRange(p, 0, c);
    OpenEnd(p);
    Pair16At(s, i, n, n - 1);
    BelowRange(p, n - 1, c);
    if c < low {
      return false;
    }
    var idxMin, idxMax := 0, n - 1;
    var high := GetU16(s, i + idxMax * 4 + 2);
    if c >= 0xffff && high == 0xffff {
      return true;
    }
    if c > high {
      return false;
    }
    while idxMin <= idxMax
      invariant 0 <= idxMin <= n && -1 <= idxMax < n
      invariant forall k | 0 <= k < idxMin :: c > p[k].1
      invariant forall k | idxMax < k < n :: c < p[k].0
      decreases idxMax - idxMin
    {
      var idx := (idxMin + idxMax) / 2;
      Pair16At(s, i, n, idx);
      BelowRange(p, idx, c);
      low := GetU16(s, i + idx * 4);
      high := GetU16(s, i + idx * 4 + 2);
      if c < low {
        idxMax := idx - 1;
      } else if c > high {
        idxMin := idx + 1;
      } else {
        return true;
      }
    }
    found := false;
  }

  lemma OpenEnd(p: seq<(nat, nat)>)
    requires SortedPairs(p) && |p| > 0
    ensures forall k | 0 <= k < |p| :: p[0].0 <= p[k].0
  {
    forall k | 0 <= k < |p|
      ensures p[0].0 <= p[k].0
    {
      if k > 0 {
        assert p[0].1 < p[k].0;
      }
    }
  }

  /** Binary search in 32-bit ranges read from the code. */
  method Search32(s: seq<Byte>, i: nat, n: nat, c: nat) returns (found: bool)
    requires n >= 1 && i + 8 * n <= |s| && SortedPairs(ReadPairs32(s, i, n))
    ensures found <==> InPairs(ReadPairs32(s, i, n), c)
  {
    hide ReadPairs32, GetU32, SortedPairs;
    ghost var p := ReadPairs32(s, i, n);
    var low := GetU32(s, i);
    Pair32At(s, i, n, 0);
    BelowRange(p, 0, c);
    Pair32At(s, i, n, n - 1);
    BelowRange(p, n - 1, c);
    if c < low {
      return false;
    }
    var idxMin, idxMax := 0, n - 1;
    var high := GetU32(s, i + idxMax * 8 + 4);
    if c > high {
      return false;
    }
    while idxMin <= idxMax
      invariant 0 <= idxMin <= n && -1 <= idxMax < n
      invariant forall k | 0 <= k < idxMin :: c > p[k].1
      invariant forall k | idxMax < k < n :: c < p[k].0
      decreases idxMax - idxMin
    {
      var idx := (idxMin + idxMax) / 2;
      Pair32At(s, i, n, idx);
      BelowRange(p, idx, c);
      low := GetU32(s, i + idx * 8);
      high := GetU32(s, i + idx * 8 + 4);
      if c < low {
        idxMax := idx - 1;
      } else if c > high {
        idxMin := idx + 1;
      } else {
        return true;
      }
    }
    found := false;
  }
}
