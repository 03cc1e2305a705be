/**
 Conversion of integers between limbs in radix R (the largest power of the text radix that
 fits a limb) and binary, by divide and conquer with one cached power of R per level.
 */
module Radix {
  import opened Arith
  import opened Limbs
  import opened Bits
  import opened Congruence
  import opened Polynomial

  // ----- sizes -----

  /** The size of the low part at a level: the same for every sub-problem of that level. */
  function LowSize(n0: nat, level: nat): nat {
    (n0 * 2 / Pow2(level + 1) + 1) / 2
  }

  function CeilDiv(a: nat, d: nat): nat
    requires d > 0
  {
    if a == 0 then 0 else (a - 1) / d + 1
  }

  function CeilLog2(n: nat): nat {
    if n <= 1 then 0 else BitLength(n - 1)
  }

  /** Every sub-problem at a level has floor(n0 / 2^level) or ceil(n0 / 2^level) limbs. */
  ghost predicate SizeAt(n0: nat, level: nat, n: nat) {
    n == n0 / Pow2(level) || n == CeilDiv(n0, Pow2(level))
  }

  /** With q = floor(n0 / 2^level): the sizes one level down. */
  lemma {:induction false} NextLevel(n0: nat, level: nat)
    ensures var q := n0 / Pow2(level); n0 / Pow2(level + 1) == q / 2 && LowSize(n0, level) == (q + 1) / 2
  {
    hide Pow2;
    var p := Pow2(level);
    assert Pow2(level + 1) == 2 * p by { DoublePower(level); }
    DivDiv(n0, p, 2);
    MulComm(p, 2);
    DivFacts(n0, p);
    Halved(n0, p, n0 / p, n0 % p);
  }

  lemma {:induction false} DoublePower(level: nat)
    ensures Pow2(level + 1) == 2 * Pow2(level)
  {
  }

  lemma Halved(n: int, p: int, q: int, r: int)
    requires p > 0 && n == q * p + r && 0 <= r < p
    ensures n * 2 / (2 * p) == q
  {
    assert n * 2 == q * (2 * p) + 2 * r;
    DivModUnique(n * 2, 2 * p, q, 2 * r);
  }

  /** The ceiling is the floor unless something is left over. */
  lemma {:induction false} CeilIs(n: nat, p: nat)
    requires p > 0
    ensures CeilDiv(n, p) == if n % p == 0 then n / p else n / p + 1
  {
    DivFacts(n, p);
    var q, r := n / p, n % p;
    if n > 0 {
      if r > 0 {
        DivModUnique(n - 1, p, q, r - 1);
      } else {
        assert n - 1 == (q - 1) * p + (p - 1);
        DivModUnique(n - 1, p, q - 1, p - 1);
      }
    } else {
      DivModUnique(0, p, 0, 0);
    }
  }

  /** Something left over at one level is left over at the next; an odd quotient leaves something too. */
  lemma {:induction false} LeftOver(n0: nat, level: nat)
    requires n0 % Pow2(level) != 0 || n0 / Pow2(level) % 2 == 1
    ensures n0 % Pow2(level + 1) != 0
  {
    hide Pow2;
    var p := Pow2(level);
    DoublePower(level);
    DivFacts(n0, 2 * p);
    DivFacts(n0, p);
    var t := n0 / (2 * p);
    if n0 % (2 * p) == 0 {
      assert n0 == t * 2 * p by { assert t * (2 * p) == t * 2 * p; }
      DivModUnique(n0, p, t * 2, 0);
    }
  }

  /** Splitting a sub-problem gives two of the next level, and only levels below ceil(log2(n0)) are split. */
  lemma {:induction false} SplitSizes(n0: nat, level: nat, n: nat)
    requires SizeAt(n0, level, n) && n >= 2
    ensures 1 <= LowSize(n0, level) < n
    ensures SizeAt(n0, level + 1, LowSize(n0, level)) && SizeAt(n0, level + 1, n - LowSize(n0, level))
    ensures level < CeilLog2(n0)
  {
    hide Pow2, CeilDiv, LowSize, CeilLog2;
    var q := n0 / Pow2(level);
    NextLevel(n0, level);
    CeilIs(n0, Pow2(level));
    CeilIs(n0, Pow2(level + 1));
    if n0 % Pow2(level) != 0 || q % 2 == 1 {
      LeftOver(n0, level);
    }
    DivFacts(n0, Pow2(level));
    if n0 <= Pow2(level) {
      FewLimbs(n0, Pow2(level), q, n0 % Pow2(level));
    }
    ManyLimbs(n0, level);
  }

  lemma FewLimbs(n: int, p: int, q: int, r: int)
    requires p > 0 && n == q * p + r && 0 <= r < p && n <= p && q >= 0
    ensures q <= 1 && (q == 1 ==> r == 0)
  {
    if q >= 1 {
      MulMono(1, q, p);
      if q >= 2 {
        MulMono(2, q, p);
      }
    }
  }

  lemma {:induction false} ManyLimbs(n0: nat, level: nat)
    ensures n0 > Pow2(level) ==> level < CeilLog2(n0)
  {
    hide Pow2;
    if n0 > Pow2(level) {
      BitLengthBounds(n0 - 1);
      var l := BitLength(n0 - 1);
      if l <= level {
        Pow2Mono(l, level);
      }
    }
  }

  lemma {:induction false} StartSize(n0: nat)
    ensures SizeAt(n0, 0, n0)
  {
    DivModUnique(n0, 1, n0, 0);
  }

  // ----- digits -----

  /** The number whose base-r digits are s, least significant first. */
  function FromDigits(s: seq<Limb>, r: nat): int {
    Eval(s, r)
  }

  ghost predicate AreDigits(s: seq<Limb>, r: nat) {
    forall i | 0 <= i < |s| :: s[i] < r
  }

  lemma {:induction false} DigitsJoin(lo: seq<Limb>, hi: seq<Limb>, r: nat, n: nat)
    requires |lo| == n
    ensures FromDigits(lo + hi, r) == FromDigits(lo, r) + Pow(r, n) * FromDigits(hi, r)
  {
    hide Eval, Pow;
    EvalSplit(lo, hi, r);
  }

  lemma {:induction false} PowPositive(r: nat, n: nat)
    requires r >= 1
    ensures Pow(r, n) >= 1
  {
    if n > 0 {
      PowPositive(r, n - 1);
      MulBetween(r, 1, Pow(r, n - 1), Pow(r, n - 1));
    }
  }

  lemma {:induction false} DigitsBound(s: seq<Limb>, r: nat)
    requires AreDigits(s, r) && r >= 1
    ensures 0 <= FromDigits(s, r) < Pow(r, |s|)
    decreases |s|
  {
    if s != [] {
      DigitsBound(s[1..], r);
      DigitStep(s[0], r, Eval(s[1..], r), Pow(r, |s| - 1));
    }
  }

  lemma DigitStep(d: int, r: int, x: int, p: int)
    requires 0 <= d < r && 0 <= x < p
    ensures 0 <= d + r * x < r * p
  {
    MulBetween(r, 0, x, p - 1);
    assert r * (p - 1) == r * p - r;
  }

  /** Digits are determined by their value. */
  lemma {:induction false} DigitsUnique(s: seq<Limb>, t: seq<Limb>, r: nat)
    requires |s| == |t| && AreDigits(s, r) && AreDigits(t, r) && r >= 1 && FromDigits(s, r) == FromDigits(t, r)
    ensures s == t
    decreases |s|
  {
    if s != [] {
      var x, y := Eval(s[1..], r), Eval(t[1..], r);
      MulComm(r, x);
      MulComm(r, y);
      DivModUnique(s[0] + r * x, r, x, s[0]);
      DivModUnique(s[0] + r * x, r, y, t[0]);
      DigitsUnique(s[1..], t[1..], r);
      assert s == [s[0]] + s[1..] && t == [t[0]] + t[1..];
    }
  }

  // ----- the cache of powers -----

  /** Entry `at` is unused (0) or the power for the low part of its level. */
  ghost predicate CacheEntry(x: nat, r: nat, n0: nat, level: nat) {
    x == 0 || x == Pow(r, LowSize(n0, level))
  }

  ghost predicate CacheOk(t: seq<nat>, r: nat, n0: nat, stride: nat) {
    stride > 0 && forall level: nat | level * stride < |t| :: CacheEntry(t[level * stride], r, n0, level)
  }

  /** The power for a level, computed on first use. */
  method LevelPower(t: array<nat>, r: nat, n0: nat, level: nat, stride: nat) returns (p: nat)
    requires r >= 1 && CacheOk(t[..], r, n0, stride) && level * stride < t.Length
    modifies t
    ensures CacheOk(t[..], r, n0, stride) && p == Pow(r, LowSize(n0, level)) && p >= 1
  {
    hide Pow, LowSize;
    var i := level * stride;
    ghost var s := t[..];
    assert CacheEntry(s[i], r, n0, level);
    PowPositive(r, LowSize(n0, level));
    if t[i] == 0 {
      t[i] := Pow(r, LowSize(n0, level));
    }
    p := t[i];
    CacheKept(s, t[..], r, n0, stride, level);
  }

  lemma {:induction false} CacheKept(s: seq<nat>, s': seq<nat>, r: nat, n0: nat, stride: nat, level: nat)
    requires CacheOk(s, r, n0, stride) && level * stride < |s| == |s'|
    requires s' == s || s' == s[level * stride := s'[level * stride]]
    requires CacheEntry(s'[level * stride], r, n0, level)
    ensures CacheOk(s', r, n0, stride)
  {
    hide CacheEntry;
    forall k: nat | k * stride < |s'|
      ensures CacheEntry(s'[k * stride], r, n0, k)
    {
      if k != level {
        assert k * stride != level * stride
            by { if k < level { MulMono(k + 1, level, stride); } else { MulMono(level + 1, k, stride); } }
        assert CacheEntry(s[k * stride], r, n0, k);
      }
    }
  }

  // ----- from radix R to binary -----

  /** The value of n digits from position o, with one power per level. */
  method FromRadixRec(tab: array<Limb>, o: nat, n: nat, level: nat, n0: nat, r: nat, powTab: array<nat>)
    returns (v: int)
    requires n >= 1 && o + n <= tab.Length && SizeAt(n0, level, n) && r >= 1
    requires CeilLog2(n0) <= powTab.Length && CacheOk(powTab[..], r, n0, 1)
    modifies powTab
    ensures CacheOk(powTab[..], r, n0, 1) && v == FromDigits(tab[o..o + n], r)
    decreases n
  {
    hide Pow, LowSize, CacheOk, FromDigits, SizeAt, CeilLog2;
    if n == 1 {
      v := tab[o];
      OneDigit(tab[o], r);
      assert tab[o..o + 1] == [tab[o]];
    } else {
      var n2 := LowSize(n0, level);
      SplitSizes(n0, level, n);
      var n1 := n - n2;
      ghost var lo, hi := tab[o..o + n2], tab[o + n2..o + n2 + n1];
      var b := LevelPower(powTab, r, n0, level, 1);
      v := FromRadixRec(tab, o + n2, n1, level + 1, n0, r, powTab);
      v := v * b;
      var t := FromRadixRec(tab, o, n2, level + 1, n0, r, powTab);
      v := v + t;
      assert tab[o..o + n] == lo + hi;
      DigitsJoin(lo, hi, r, n2);
    }
  }

  lemma {:induction false} OneDigit(x: Limb, r: nat)
    ensures FromDigits([x], r) == x
  {
    assert [x][1..] == [] && r * Eval([], r) == 0;
  }

  method FromRadix(tab: array<Limb>, n: nat, r: nat) returns (v: int)
    requires 1 <= n <= tab.Length && r >= 1
    ensures v == FromDigits(tab[..n], r)
  {
    hide FromDigits, SizeAt;
    var powTab := new nat[CeilLog2(n) + 2](_ => 0);
    StartSize(n);
    assert tab[0..n] == tab[..n];
    v := FromRadixRec(tab, 0, n, 0, n, r, powTab);
  }

  // ----- from binary to radix R -----

  /** Quotient and remainder from any guess of the quotient, by repeated correction. */
  method AdjustQuotient(a: int, b: int, guess: int) returns (q: int, rest: int)
    requires b >= 1
    ensures a == q * b + rest && 0 <= rest < b
  {
    rest := a - guess * b;
    var qAdd := 0;
    while rest < 0
      invariant a == (guess + qAdd) * b + rest
      decreases -rest
    {
      rest := rest + b;
      MulDist(b, guess + qAdd, -1);
      qAdd := qAdd - 1;
    }
    while rest >= b
      invariant a == (guess + qAdd) * b + rest && rest >= 0
      decreases rest
    {
      rest := rest - b;
      MulDist(b, guess + qAdd, 1);
      qAdd := qAdd + 1;
    }
    q := guess + qAdd;
  }

  /** Both parts have the size of their place. */
  lemma {:induction false} PartsFit(a: int, r: nat, n1: nat, n2: nat, q: int, rest: int)
    requires r >= 1 && 0 <= a < Pow(r, n1 + n2) && a == q * Pow(r, n2) + rest && 0 <= rest < Pow(r, n2)
    ensures 0 <= q < Pow(r, n1)
  {
    hide Pow;
    PowAdd(r, n1, n2);
    PowPositive(r, n2);
    MulCancel(q, Pow(r, n1), Pow(r, n2));
    assert (q + 1) * Pow(r, n2) == q * Pow(r, n2) + Pow(r, n2);
    MulCancel(0, q + 1, Pow(r, n2));
  }

  /** n digits of a, written from position o; the quotient guesses are arbitrary. */
  method ToRadixRec(powTab: array<nat>, out: array<Limb>, o: nat, a: int, n: nat, level: nat, n0: nat, r: Limb)
    requires n >= 1 && o + n <= out.Length && SizeAt(n0, level, n) && r >= 1 && 0 <= a < Pow(r, n)
    requires 2 * CeilLog2(n0) <= powTab.Length && CacheOk(powTab[..], r, n0, 2)
    modifies powTab, out
    ensures CacheOk(powTab[..], r, n0, 2) && OnlyWindow(out, o, o + n)
    ensures AreDigits(out[o..o + n], r) && FromDigits(out[o..o + n], r) == a
    decreases n
  {
    hide Pow, LowSize, CacheOk, FromDigits, SizeAt, CeilLog2, AreDigits;
    if n == 1 {
      FirstPowers(r);
      DivModUnique(a, B, 0, a);
      out[o] := a % B;
      assert out[o..o + 1] == [a];
      OneDigit(a, r);
      Digits1(a, r);
    } else if n == 2 {
      FirstPowers(r);
      TwoDigits(a, r);
      out[o] := a % r;
      out[o + 1] := a / r;
      assert out[o..o + 2] == [a % r, a / r];
    } else {
      var n2 := LowSize(n0, level);
      SplitSizes(n0, level, n);
      var n1 := n - n2;
      var b := LevelPower(powTab, r, n0, level, 2);
      var guess: int := *;
      var q, rest := AdjustQuotient(a, b, guess);
      PartsFit(a, r, n1, n2, q, rest);
      ToRadixRec(powTab, out, o + n2, q, n1, level + 1, n0, r);
      ghost var hi := out[o + n2..o + n2 + n1];
      ToRadixRec(powTab, out, o, rest, n2, level + 1, n0, r);
      ghost var lo := out[o..o + n2];
      assert out[o + n2..o + n2 + n1] == hi && out[o..o + n] == lo + hi;
      DigitsJoin(lo, hi, r, n2);
      DigitsAppend(lo, hi, r);
    }
  }

  lemma {:induction false} FirstPowers(r: nat)
    ensures Pow(r, 1) == r && Pow(r, 2) == r * r
  {
    assert Pow(r, 1) == r * Pow(r, 0) && Pow(r, 2) == r * Pow(r, 1);
  }

  lemma Digits1(x: Limb, r: nat)
    requires x < r
    ensures AreDigits([x], r)
  {
  }

  lemma DigitsAppend(lo: seq<Limb>, hi: seq<Limb>, r: nat)
    requires AreDigits(lo, r) && AreDigits(hi, r)
    ensures AreDigits(lo + hi, r)
  {
  }

  lemma {:induction false} TwoDigits(a: int, r: Limb)
    requires r >= 1 && 0 <= a < r * r
    ensures 0 <= a % r < r && 0 <= a / r < r && AreDigits([a % r, a / r], r) && FromDigits([a % r, a / r], r) == a
  {
    DivFacts(a, r);
    MulCancel(a / r, r, r);
    MulCancel(-1, a / r, r);
    assert [a % r, a / r][1..] == [a / r];
    OneDigit(a / r, r);
    MulComm(r, a / r);
  }

  method ToRadix(out: array<Limb>, n: nat, a: int, r: Limb)
    requires 1 <= n <= out.Length && r >= 1 && 0 <= a < Pow(r, n)
    modifies out
    ensures OnlyWindow(out, 0, n) && AreDigits(out[..n], r) && FromDigits(out[..n], r) == a
  {
    hide FromDigits, SizeAt, AreDigits;
    var powTab := new nat[(CeilLog2(n) + 2) * 2](_ => 0);
    StartSize(n);
    ToRadixRec(powTab, out, 0, a, n, 0, n, r);
    assert out[0..n] == out[..n];
  }

  /** Converting to radix R and back is the identity, whatever the quotient guesses. */
  method ThereAndBack(out: array<Limb>, n: nat, a: int, r: Limb) returns (v: int)
    requires 1 <= n <= out.Length && r >= 1 && 0 <= a < Pow(r, n)
    modifies out
    ensures v == a
  {
    ToRadix(out, n, a, r);
    v := FromRadix(out, n, r);
  }

  /** Converting digits to binary and back is the identity too. */
  method BackAndThere(tab: array<Limb>, n: nat, r: Limb)
    requires 1 <= n <= tab.Length && r >= 1 && AreDigits(tab[..n], r)
    modifies tab
    ensures tab[..n] == old(tab[..n])
  {
    hide FromDigits, AreDigits;
    var v := FromRadix(tab, n, r);
    DigitsBound(tab[..n], r);
    ghost var s := tab[..n];
    ToRadix(tab, n, v, r);
    DigitsUnique(s, tab[..n], r);
  }
}
