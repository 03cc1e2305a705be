/**
 Normalisation and correct rounding of arbitrary-precision floating point numbers. A number
 is a sign, an exponent and limbs; its magnitude is 0.limbs * 2^expn.
 */
module Rounding {
  import opened Arith
  import opened Limbs
  import opened LimbOps
  import opened Bits
  import opened RoundingSpec

  const PREC_INF: nat := B / 4 - 1
  const EXP_ZERO: int := 0 - B / 2
  const EXP_INF: int := B / 2 - 2

  datatype Flags = Flags(rnd: RoundingMode, expBits: nat, subnormal: bool, radPoint: bool) {
    predicate Valid() {
      3 <= expBits <= LIMB_BITS - 2
    }

    function EMax(): int
      requires Valid()
    {
      Pow2(expBits - 1)
    }

    function EMin(): int
      requires Valid()
    {
      3 - EMax()
    }

    /** The number of bits kept: counted from the top, from the radix point, or fewer for subnormals. */
    function Precision(prec1: nat, expn: int): int
      requires Valid()
    {
      if radPoint then (if prec1 != PREC_INF then expn + prec1 else prec1)
      else if expn < EMin() && subnormal then prec1 - (EMin() - expn)
      else prec1
    }
  }

  datatype Status = Status(inexact: bool, underflow: bool, overflow: bool)

  /** A number as the rest of the library sees it. */
  datatype Number = Zero | Infinite | Finite(expn: int, limbs: seq<Limb>) {
    /** Top bit set, lowest limb non-zero. */
    predicate Normal() {
      Finite? && |limbs| > 0 && 2 * limbs[|limbs| - 1] >= B && limbs[0] != 0
    }

    ghost function Magnitude(): real
      requires Finite?
    {
      Scaled(Val(limbs), expn - |limbs| * LIMB_BITS)
    }
  }

  // ----- the addend -----

  /** With p bits to drop, k kept units after rounding. */
  ghost predicate RoundsTo(mode: RoundingMode, sign: bool, v: nat, p: int, add: nat, inexact: bool) {
    && add <= 1 && (p <= 0 ==> add == 0)
    && (inexact <==> mode.RndF? || (p > 0 && v % Pow2(p) != 0))
    && (p > 0 ==> IntRounding(mode, sign, v, Pow2(p), v / Pow2(p) + add))
  }

  /** The bits around the cut. */
  lemma {:induction false} CutBits(v: nat, p: nat)
    requires p >= 1
    ensures Pow2(p) == 2 * Pow2(p - 1)
    ensures v == v / Pow2(p) * (2 * Pow2(p - 1)) + v / Pow2(p - 1) % 2 * Pow2(p - 1) + v % Pow2(p - 1)
    ensures v % Pow2(p) == v / Pow2(p - 1) % 2 * Pow2(p - 1) + v % Pow2(p - 1)
  {
    var h := Pow2(p - 1);
    hide Pow2;
    assert Pow2(p) == 2 * h by { CutPower(p); }
    DivFacts(v, h);
    DivDiv(v, h, 2);
    var q := v / h;
    DivFacts(q, 2);
    MulComm(h, 2);
    CutSum(v, h, q, q / 2, q % 2, v % h);
    DivModUnique(v, 2 * h, q / 2, q % 2 * h + v % h);
  }

  lemma {:induction false} CutPower(p: nat)
    requires p >= 1
    ensures Pow2(p) == 2 * Pow2(p - 1)
  {
  }

  lemma CutSum(v: int, h: int, q: int, q2: int, r2: int, r: int)
    requires v == q * h + r && q == q2 * 2 + r2 && 0 <= r < h && 0 <= r2 <= 1
    ensures v == q2 * (2 * h) + (r2 * h + r) && 0 <= r2 * h + r < 2 * h
  {
    assert (q2 * 2 + r2) * h == q2 * (2 * h) + r2 * h;
  }

  lemma {:induction false} AddendCorrect(mode: RoundingMode, sign: bool, v: nat, p: nat, bit1: nat, bit0: bool,
      last: nat, add: nat)
    requires p >= 1 && bit1 == v / Pow2(p - 1) % 2 && last == v / Pow2(p) % 2
    requires bit0 <==> mode.RndF? || v % Pow2(p - 1) != 0
    requires add == AddOne(mode, sign, bit1, bit0, last)
    ensures RoundsTo(mode, sign, v, p, add, bit1 != 0 || bit0)
  {
    hide Pow2, IntRounding, AddOne;
    CutBits(v, p);
    DivFacts(v, Pow2(p));
    DivFacts(v, Pow2(p - 1));
    MulCancel(-1, v / Pow2(p), Pow2(p)) by { MulMono(-1, -1, Pow2(p)); }
    AddOneInt(mode, sign, v, Pow2(p - 1), v / Pow2(p), bit1, v % Pow2(p - 1), v / Pow2(p) + add);
    assert bit1 * Pow2(p - 1) == 0 <==> bit1 == 0 by { MulZero(bit1, Pow2(p - 1)); }
  }

  lemma MulZero(x: nat, y: nat)
    requires y > 0
    ensures x * y == 0 <==> x == 0
  {
    if x > 0 {
      MulMono(1, x, y);
    }
  }

  /** The rounding addend and the inexact flag. */
  method GetRndAdd(tab: array<Limb>, l: nat, prec: int, sign: bool, mode: RoundingMode)
    returns (add: nat, inexact: bool)
    requires 1 <= l <= tab.Length && 2 * tab[l - 1] >= B
    ensures RoundsTo(mode, sign, Val(tab[..l]), l * LIMB_BITS - prec, add, inexact)
  {
    hide Pow2, Val, BPow, RoundsTo, AddOne, GetBit;
    ghost var s, v, p := tab[..l], Val(tab[..l]), l * LIMB_BITS - prec;
    var bits := l * LIMB_BITS;
    var bit0 := true;
    if mode != RndF {
      bit0 := ScanBitNz(tab, l, bits - 1 - (if prec + 1 > 0 then prec + 1 else 0));
    }
    var bit1 := GetBit(tab[..l], bits - 1 - prec);
    var last := GetBit(tab[..l], bits - 1 - (prec - 1));
    GetBitValue(s, bits - 1 - prec);
    GetBitValue(s, bits - 1 - (prec - 1));
    inexact := bit1 != 0 || bit0;
    BitsSmall(v, bits - 1 - prec);
    BitsSmall(v, bits - prec);
    add := AddOne(mode, sign, bit1, bit0, last);
    if p >= 1 {
      assert !mode.RndF? ==> (bit0 <==> v % Pow2(p - 1) != 0) by { LowNonZero(s, l, prec); }
      AddendCorrect(mode, sign, v, p, bit1, bit0, last, add);
    } else {
      NothingDropped(mode, sign, v, p, bit0, add, last);
    }
  }

  lemma BitsSmall(v: nat, i: int)
    ensures i >= 0 ==> 0 <= v / Pow2(i) % 2 <= 1
  {
  }

  lemma {:induction false} NothingDropped(mode: RoundingMode, sign: bool, v: nat, p: int, bit0: bool, add: nat,
      last: nat)
    requires p <= 0 && (bit0 <==> mode.RndF?) && last <= 1 && add == AddOne(mode, sign, 0, bit0, last)
    ensures RoundsTo(mode, sign, v, p, add, bit0)
  {
  }

  /** The bits below the first dropped one: all of them when fewer than none are kept. */
  lemma {:induction false} LowNonZero(s: seq<Limb>, l: nat, prec: int)
    requires |s| == l && l >= 1 && 2 * s[l - 1] >= B && prec < l * LIMB_BITS
    ensures var q := l * LIMB_BITS - 1 - (if prec + 1 > 0 then prec + 1 else 0);
      (q >= 0 && Val(s) % Pow2(q + 1) != 0) <==> Val(s) % Pow2(l * LIMB_BITS - prec - 1) != 0
  {
    hide Pow2, Val, BPow;
    var bits := l * LIMB_BITS;
    ValNonZero(s, l - 1);
    ValBound(s);
    BPowIsPow2(l);
    if prec < 0 {
      Pow2Mono(bits, bits - prec - 1);
      DivModUnique(Val(s), Pow2(bits), 0, Val(s));
      DivModUnique(Val(s), Pow2(bits - prec - 1), 0, Val(s));
    } else if prec == bits - 1 {
      PowerZero();
      DivModUnique(Val(s), 1, Val(s), 0);
    }
  }

  lemma {:induction false} PowerZero()
    ensures Pow2(0) == 1
  {
  }

  // ----- adding one unit in the last place -----

  /** v with the bits below position p cleared. */
  ghost function Kept(v: int, p: nat): int {
    v / Pow2(p) * Pow2(p)
  }

  lemma {:induction false} KeptFacts(v: nat, p: nat)
    ensures Kept(v, p) == v - v % Pow2(p)
  {
    hide Pow2;
    DivFacts(v, Pow2(p));
  }

  /** A value made of a multiple of 2^p and less than 2^p. */
  lemma {:induction false} KeptIs(v: nat, p: nat, k: nat, r: nat)
    requires v == k * Pow2(p) + r && r < Pow2(p)
    ensures Kept(v, p) == k * Pow2(p) && v / Pow2(p) == k
  {
    hide Pow2;
    DivModUnique(v, Pow2(p), k, r);
  }

  /** Adding c to the limbs from pos on adds 2^p to the whole. */
  lemma {:induction false} AddHigh(lo: seq<Limb>, hi: seq<Limb>, hi': seq<Limb>, p: nat, c: nat, k: Limb, n: nat)
    requires |hi| == |hi'| && Pow2(p) == BPow(|lo|) * c && n == |lo| + |hi|
    requires Val(hi') + k * BPow(|hi|) == Val(hi) + c
    ensures Val(lo + hi') + k * BPow(n) == Val(lo + hi) + Pow2(p)
  {
    hide Pow2, Val, BPow;
    ValJoin(lo, hi, |lo|);
    ValJoin(lo, hi', |lo|);
    BPowAdd(|lo|, |hi|);
    AddHighSum(Val(lo), Val(hi), Val(hi'), k, c, BPow(|lo|), BPow(|hi|));
  }

  lemma AddHighSum(lo: int, hi: int, hi': int, k: int, c: int, p: int, p2: int)
    requires hi' + k * p2 == hi + c
    ensures lo + p * hi' + k * (p * p2) == lo + p * hi + p * c
  {
    assert p * (hi' + k * p2) == p * (hi + c);
    assert p * (k * p2) == k * (p * p2);
  }

  /** No carry out: the kept bits grow by one. */
  lemma {:induction false} OneMore(v: nat, w: nat, p: nat)
    requires w == v + Pow2(p)
    ensures Kept(w, p) == (v / Pow2(p) + 1) * Pow2(p)
  {
    hide Pow2;
    DivFacts(v, Pow2(p));
    MulCancel(-1, v / Pow2(p), Pow2(p)) by { MulMono(-1, -1, Pow2(p)); }
    MulDist(Pow2(p), v / Pow2(p), 1);
    KeptIs(w, p, v / Pow2(p) + 1, v % Pow2(p));
  }

  /** Carry out: all kept bits were ones, and what is left is below the cut. */
  lemma {:induction false} AllOnes(v: nat, w: nat, p: nat, bits: nat)
    requires p <= bits && v < Pow2(bits) && w + Pow2(bits) == v + Pow2(p)
    ensures w < Pow2(p) && (v / Pow2(p) + 1) * Pow2(p) == Pow2(bits)
  {
    hide Pow2;
    Pow2Add(p, bits - p);
    var u, t := Pow2(p), Pow2(bits - p);
    assert v == (t - 1) * u + w by { assert (t - 1) * u == u * t - u; }
    KeptIs(v, p, t - 1, w);
    MulComm(t, u);
  }

  /** After the carry the limbs from pos on are shifted right and a one enters at the top. */
  lemma {:induction false} CarriedOut(lo: seq<Limb>, hi: seq<Limb>, hi': seq<Limb>, p: nat, j: nat, low: Limb,
      bits: nat)
    requires |hi| == |hi'| > 0 && j < LIMB_BITS && p == |lo| * LIMB_BITS + j && bits == (|lo| + |hi|) * LIMB_BITS
    requires Val(lo + hi) < Pow2(p) && 2 * Val(hi') + low == Val(hi) + BPow(|hi|) && low < 2
    ensures 2 * Kept(Val(lo + hi'), p) == Pow2(bits) && 2 * Val(lo + hi') >= Pow2(bits)
  {
    hide Pow2, Val, BPow, Kept;
    var c, d, q := Pow2(j), Pow2(|hi| * LIMB_BITS - 1), BPow(|lo|);
    PositionPower(p, |lo|, j);
    BPowIsPow2(|hi|);
    BPowIsPow2(|lo|);
    CutPower(|hi| * LIMB_BITS);
    ValJoin(lo, hi, |lo|);
    ValJoin(lo, hi', |lo|);
    ValBound(lo);
    HighSmall(Val(lo), q, Val(hi), c);
    var h2 := (Val(hi) - low) / 2;
    HalfParity(Val(hi'), low, Val(hi), d, h2);
    var e := Pow2(|hi| * LIMB_BITS - 1 - j);
    Pow2Add(j, |hi| * LIMB_BITS - 1 - j);
    CarriedValue(Val(lo + hi'), Val(lo), q, Val(hi'), d, h2, c, e);
    KeptIs(Val(lo + hi'), p, e, Val(lo) + q * h2);
    Pow2Add(|lo| * LIMB_BITS, |hi| * LIMB_BITS);
    CarriedTotal(q, d, c, e);
  }

  lemma HighSmall(lo: int, q: int, hi: int, c: int)
    requires 0 <= lo && 0 < q && lo + q * hi < q * c
    ensures hi < c
  {
    MulComm(q, hi);
    MulComm(q, c);
    MulCancel(hi, c, q);
  }

  lemma HalfParity(hi': int, low: int, hi: int, d: int, h2: int)
    requires 2 * hi' + low == hi + 2 * d && 0 <= low < 2 && hi >= 0 && h2 == (hi - low) / 2
    ensures hi' == d + h2 && 0 <= h2 <= hi
  {
  }

  lemma CarriedValue(v: int, lo: int, q: int, hi': int, d: int, h2: int, c: int, e: int)
    requires v == lo + q * hi' && hi' == d + h2 && 0 <= lo < q && 0 <= h2 < c && d == c * e
    ensures v == e * (q * c) + (lo + q * h2) && 0 <= lo + q * h2 < q * c
  {
    assert q * (c * e + h2) == e * (q * c) + q * h2;
    MulBetween(q, 0, h2, c - 1);
    assert q * (c - 1) == q * c - q;
  }

  lemma CarriedTotal(q: int, d: int, c: int, e: int)
    requires d == c * e
    ensures 2 * (e * (q * c)) == q * (2 * d)
  {
  }

  /** w is v plus one unit 2^p, shifted right by one when that has a bit more than v. */
  ghost predicate UnitAdded(v: int, w: int, p: nat, bits: nat, carry: bool) {
    var k := v / Pow2(p) + 1;
    if carry then 2 * Kept(w, p) == k * Pow2(p) && k * Pow2(p) == Pow2(bits) else Kept(w, p) == k * Pow2(p)
  }

  /** Add 2^p in place; on a carry out of the top, shift right by one bit and let the caller raise the exponent. */
  method AddUnit(tab: array<Limb>, l: nat, p: nat) returns (carry: bool)
    requires 1 <= l <= tab.Length && 2 * tab[l - 1] >= B && p < l * LIMB_BITS
    modifies tab
    ensures OnlyWindow(tab, 0, l) && 2 * tab[l - 1] >= B
    ensures UnitAdded(old(Val(tab[..l])), Val(tab[..l]), p, l * LIMB_BITS, carry)
  {
    hide Val, BPow, Pow2, Kept, UnitAdded;
    var pos, j := p / LIMB_BITS, p % LIMB_BITS;
    UnitFits(p, pos, j, l);
    ghost var s, lo, hi := tab[..l], tab[..pos], tab[pos..l];
    assert s == lo + hi;
    TopBitValue(s);
    BPowIsPow2(l);
    ValBound(s);
    var k := AddUi(tab, pos, Pow2(j), l - pos);
    ghost var hi1 := tab[pos..l];
    assert tab[pos..pos + (l - pos)] == hi1 && tab[..l] == lo + hi1 && tab[..pos] == lo;
    AddHigh(lo, hi, hi1, p, Pow2(j), k, l);
    ValBound(tab[..l]);
    carry := k != 0;
    if carry {
      WholeCarry(k, Val(lo + hi1), Val(s), Pow2(p), BPow(l));
      AllOnes(Val(s), Val(lo + hi1), p, l * LIMB_BITS);
      OneBit();
      var low := ShiftRight(tab, pos, tab, pos, l - pos, 1, 1);
      ghost var hi2 := tab[pos..l];
      assert tab[pos..pos + (l - pos)] == hi2 && tab[..l] == lo + hi2;
      CarriedOut(lo, hi1, hi2, p, j, low, l * LIMB_BITS);
      UnitCarried(Val(s), Val(lo + hi2), p, l * LIMB_BITS);
    } else {
      OneMore(Val(s), Val(lo + hi1), p);
      UnitPlain(Val(s), Val(lo + hi1), p, l * LIMB_BITS);
    }
    TopBitValue(tab[..l]);
  }

  lemma WholeCarry(k: int, w: int, v: int, u: int, b: int)
    requires w + k * b == v + u && k == 1
    ensures w + b == v + u
  {
  }

  lemma UnitCarried(v: int, w: int, p: nat, bits: nat)
    requires 2 * Kept(w, p) == Pow2(bits) && (v / Pow2(p) + 1) * Pow2(p) == Pow2(bits)
    ensures UnitAdded(v, w, p, bits, true)
  {
    hide Pow2, Kept;
  }

  lemma UnitPlain(v: int, w: int, p: nat, bits: nat)
    requires Kept(w, p) == (v / Pow2(p) + 1) * Pow2(p)
    ensures UnitAdded(v, w, p, bits, false)
  {
    hide Pow2, Kept;
  }

  lemma {:induction false} OneBit()
    ensures Pow2(1) == 2 && 1 % Pow2(1) == 1
  {
    assert Pow2(1) == 2 * Pow2(0);
  }

  lemma {:induction false} UnitFits(p: nat, pos: int, j: int, l: nat)
    requires p < l * LIMB_BITS && pos == p / LIMB_BITS && j == p % LIMB_BITS
    ensures 0 <= pos < l && 0 <= j < LIMB_BITS && p == pos * LIMB_BITS + j && 0 < Pow2(j) < B
    ensures Pow2(p) == BPow(pos) * Pow2(j)
  {
    hide Pow2, BPow;
    DivFacts(p, LIMB_BITS);
    MulCancel(pos, l, LIMB_BITS);
    MulCancel(-1, pos, LIMB_BITS);
    PositionPower(p, pos, j);
    Pow2Mono(1, LIMB_BITS - j);
    OneBit();
    MulBetween(Pow2(j), 2, Pow2(LIMB_BITS - j), Pow2(LIMB_BITS - j));
  }

  // ----- dropping bits and trailing zero limbs -----

  /** The limbs from i on, at their weight, are worth v. */
  ghost predicate AtWeight(s: seq<Limb>, i: nat, v: int) {
    i <= |s| && Val(s[i..]) * BPow(i) == v
  }

  /** Clearing j bits of limb i leaves, from limb i on, the value with the bits below p cleared. */
  lemma {:induction false} ClearedLimb(s: seq<Limb>, s': seq<Limb>, p: nat, i: nat, j: nat)
    requires i < |s| == |s'| && p == i * LIMB_BITS + j && j < LIMB_BITS
    requires s'[i] == s[i] - s[i] % Pow2(j) && s'[i + 1..] == s[i + 1..]
    ensures AtWeight(s', i, Kept(Val(s), p))
  {
    hide Pow2, Val, BPow, Kept;
    KeptFacts(Val(s), p);
    LowBits(s, p, i, j);
    ValSplit(s, i);
    ValFrom(s, i);
    ValFrom(s', i);
    ClearedSum(Val(s[..i]), BPow(i), s[i], s[i] % Pow2(j), B * Val(s[i + 1..]), Val(s'[i..]), Val(s[i..]));
  }

  lemma ClearedSum(lo: int, q: int, x: int, r: int, t: int, h': int, h: int)
    requires h' == x - r + t && h == x + t
    ensures h' * q == lo + q * h - (lo + q * r)
  {
    assert q * (x + t) - q * r == q * (x - r + t);
    MulComm(h', q);
  }

  lemma {:induction false} TopSurvives(x: Limb, j: nat)
    requires 2 * x >= B && j < LIMB_BITS
    ensures 0 <= x - x % Pow2(j) < B && 2 * (x - x % Pow2(j)) >= B
  {
    hide Pow2;
    var d, e := Pow2(j), Pow2(LIMB_BITS - 1 - j);
    BaseIsPow2();
    CutPower(LIMB_BITS);
    Pow2Add(j, LIMB_BITS - 1 - j);
    DivFacts(x, d);
    MulComm(d, e);
    TopQuotient(x, d, e, x / d, x % d);
  }

  lemma TopQuotient(x: int, d: int, e: int, q: int, r: int)
    requires x == q * d + r && 0 <= r < d && x >= e * d
    ensures q * d >= e * d
  {
    assert (q + 1) * d == q * d + d;
    if q < e {
      MulMono(q + 1, e, d);
    }
  }

  lemma {:induction false} LimbPart(x: Limb, j: nat)
    ensures 0 <= x % Pow2(j) <= x
  {
    hide Pow2;
    ModBelow(x, Pow2(j));
  }

  lemma {:induction false} SkipZero(s: seq<Limb>, i: nat, v: int)
    requires i < |s| && s[i] == 0 && AtWeight(s, i, v)
    ensures AtWeight(s, i + 1, v)
  {
    hide Val, BPow;
    ValFrom(s, i);
    BPowStep(i);
    SkipShuffle(Val(s[i + 1..]), BPow(i));
  }

  lemma SkipShuffle(v: int, p: int)
    ensures v * (B * p) == (0 + B * v) * p
  {
  }

  method MoveDown(tab: array<Limb>, i: nat, n: nat)
    requires i + n <= tab.Length
    modifies tab
    ensures tab[..n] == old(tab[i..i + n])
  {
    ghost var s := tab[i..i + n];
    var j := 0;
    while j < n
      invariant 0 <= j <= n && tab[..j] == s[..j]
      invariant forall z | i + j <= z < i + n :: tab[z] == s[z - i]
    {
      tab[j] := tab[i + j];
      j := j + 1;
    }
  }

  /** The value after the cut. */
  ghost function Cut(v: int, p: int): int {
    if p >= 0 then Kept(v, p) else v
  }

  /** Clear the bits below p of the limb that holds bit p, and find it. */
  method ClearLow(tab: array<Limb>, l: nat, p: int) returns (i: nat)
    requires 1 <= l <= tab.Length && 2 * tab[l - 1] >= B && p < l * LIMB_BITS
    modifies tab
    ensures i < l && 2 * tab[l - 1] >= B && AtWeight(tab[..l], i, Cut(old(Val(tab[..l])), p))
  {
    hide Val, BPow, Pow2, Kept, AtWeight;
    ghost var s := tab[..l];
    i := 0;
    if p >= 0 {
      var j := p % LIMB_BITS;
      UnitFits(p, p / LIMB_BITS, j, l);
      i := p / LIMB_BITS;
      LimbPart(tab[i], j);
      TopSurvives(tab[l - 1], j);
      if j != 0 {
        tab[i] := tab[i] - tab[i] % Pow2(j);
      } else {
        NoBits(tab[i]);
      }
      assert tab[..l][i + 1..] == s[i + 1..];
      ClearedLimb(s, tab[..l], p, i, j);
    } else {
      WholeValue(s);
    }
  }

  /** Clear the bits below p and drop the limbs that are zero at the low end. */
  method KeepBits(tab: array<Limb>, l: nat, p: int) returns (l': nat)
    requires 1 <= l <= tab.Length && 2 * tab[l - 1] >= B && p < l * LIMB_BITS
    modifies tab
    ensures 1 <= l' <= l && 2 * tab[l' - 1] >= B && tab[0] != 0
    ensures Val(tab[..l']) * BPow(l - l') == Cut(old(Val(tab[..l])), p)
  {
    hide Val, BPow, Pow2, Kept, Cut, AtWeight;
    ghost var kept := Cut(Val(tab[..l]), p);
    var i := ClearLow(tab, l, p);
    while tab[i] == 0
      invariant 0 <= i < l && 2 * tab[l - 1] >= B
      invariant AtWeight(tab[..l], i, kept)
      decreases l - i
    {
      SkipZero(tab[..l], i, kept);
      i := i + 1;
    }
    l' := l - i;
    ghost var s := tab[i..i + l'];
    assert tab[..l][i..] == s && s[l' - 1] == tab[l - 1] && s[0] == tab[i];
    Weighs(tab[..l], i, kept);
    if i > 0 {
      MoveDown(tab, i, l');
    }
    assert tab[..l'] == s;
    assert tab[..l'][l' - 1] == tab[l' - 1] && tab[..l'][0] == tab[0];
  }

  lemma Weighs(s: seq<Limb>, i: nat, v: int)
    requires AtWeight(s, i, v)
    ensures Val(s[i..]) * BPow(i) == v
  {
  }

  lemma {:induction false} NoBits(x: int)
    ensures x % Pow2(0) == 0
  {
  }

  lemma {:induction false} WholeValue(s: seq<Limb>)
    ensures AtWeight(s, 0, Val(s))
  {
    assert s[0..] == s;
  }

  // ----- what the limbs mean -----

  /** The number of kept units after rounding. */
  ghost function Units(v: int, p: int, add: int): int {
    if p > 0 then v / Pow2(p) + add else v * Pow2(-p)
  }

  /** The units, at their weight, in units of the limbs' last bit. */
  lemma {:induction false} UnitsRounded(mode: RoundingMode, sign: bool, v: nat, p: int, add: nat, inexact: bool, e: int)
    requires RoundsTo(mode, sign, v, p, add, inexact)
    ensures IsRounding(mode, sign, Scaled(v, e), Exp2(e + p), Units(v, p, add))
    ensures Scaled(Units(v, p, add), e + p) == if p > 0 then Scaled((v / Pow2(p) + add) * Pow2(p), e) else Scaled(v, e)
  {
    hide Pow2, Exp2, Scaled, IntRounding, IsRounding;
    if p > 0 {
      RoundingScales(mode, sign, v, p, v / Pow2(p) + add, e);
      ScaledShift(v / Pow2(p) + add, e, p);
    } else {
      ScaledShift(v, e + p, -p);
      ExactRounds(mode, sign, Scaled(v, e), Exp2(e + p), v * Pow2(-p)) by { UnitIs(v * Pow2(-p), e + p); }
    }
  }

  lemma UnitIs(k: int, e: int)
    ensures k as real * Exp2(e) == Scaled(k, e)
  {
  }

  lemma ExactRounds(mode: RoundingMode, sign: bool, x: real, u: real, k: int)
    requires u > 0.0 && k as real * u == x
    ensures IsRounding(mode, sign, x, u, k)
  {
  }

  /** The inexact flag is up exactly when rounding changed the value. */
  lemma {:induction false} InexactIff(mode: RoundingMode, sign: bool, v: nat, p: int, add: nat, inexact: bool, e: int)
    requires RoundsTo(mode, sign, v, p, add, inexact)
    ensures inexact <==> mode.RndF? || Scaled(Units(v, p, add), e + p) != Scaled(v, e)
  {
    hide Pow2, Exp2, Scaled, IsRounding, Units, IntRounding;
    UnitsRounded(mode, sign, v, p, add, inexact, e);
    if p > 0 {
      ScaledOrder((v / Pow2(p) + add) * Pow2(p), v, e);
      MultipleIff(mode, sign, v, Pow2(p), v / Pow2(p), add);
    }
  }

  lemma MultipleIff(mode: RoundingMode, sign: bool, v: int, u: int, f: int, add: int)
    requires u > 0 && f == v / u && 0 <= add <= 1 && IntRounding(mode, sign, v, u, f + add)
    ensures v % u != 0 <==> (f + add) * u != v || (mode.RndF? && v % u != 0)
  {
    DivFacts(v, u);
    MulDist(u, f, add);
    if (f + add) * u == v {
      DivModUnique(v, u, f + add, 0);
    }
  }

  /** Limbs with l - l' zero limbs dropped, read with the exponent of the original length. */
  lemma {:induction false} DroppedLimbs(t: seq<Limb>, l: nat, l': nat, v: int, expn: int)
    requires |t| == l' <= l && Val(t) * BPow(l - l') == v
    ensures Scaled(Val(t), expn - l' * LIMB_BITS) == Scaled(v, expn - l * LIMB_BITS)
  {
    hide Val, BPow, Pow2, Scaled;
    BPowIsPow2(l - l');
    ScaledShift(Val(t), expn - l * LIMB_BITS, (l - l') * LIMB_BITS);
    assert (l - l') * LIMB_BITS == l * LIMB_BITS - l' * LIMB_BITS;
  }

  /** The exponent after rounding: one more when the magnitude reached 2^e. */
  ghost function RoundedExponent(e: int, y: real): int {
    if y < Exp2(e) then e else e + 1
  }

  /** What the kept limbs w and the carry say about the rounded magnitude y. */
  lemma {:induction false} RoundedLimbs(v: nat, w: nat, p: int, add: nat, carry: bool, bits: nat, e: int)
    requires p < bits && add <= 1 && (p <= 0 ==> add == 0) && w < Pow2(bits)
    requires if add == 1 then UnitAdded(v, w, p, bits, carry) else w == v && !carry
    ensures var y, e' := Scaled(Units(v, p, add), e - bits + p), if carry then e + 1 else e;
      Scaled(Cut(w, p), e' - bits) == y && e' == RoundedExponent(e, y)
  {
    hide Val, BPow, Pow2, Scaled, Exp2, Kept;
    var y := Scaled(Units(v, p, add), e - bits + p);
    var u := if p > 0 then (v / Pow2(p) + add) * Pow2(p) else v;
    assert y == Scaled(u, e - bits) by { UnitsWeight(v, p, add, e - bits); }
    assert Exp2(e) == Scaled(Pow2(bits), e - bits) by { ScaledShift(1, e - bits, bits); UnitOne(e); }
    ScaledOrder(u, Pow2(bits), e - bits);
    if carry {
      assert 2 * Cut(w, p) == u;
      ScaledDouble(Cut(w, p), e - bits);
      ScaledNext(Cut(w, p), e - bits);
    } else {
      assert Cut(w, p) == u by {
        if p > 0 {
          KeptAs(v, p);
        } else if p == 0 {
          KeptFacts(v, 0);
          NoBits(v);
        }
      }
      CutBelow(w, p);
    }
  }

  lemma {:induction false} UnitsWeight(v: int, p: int, add: int, e: int)
    ensures Scaled(Units(v, p, add), e + p) == if p > 0 then Scaled((v / Pow2(p) + add) * Pow2(p), e) else Scaled(v, e)
  {
    hide Pow2, Scaled;
    if p > 0 {
      ScaledShift(v / Pow2(p) + add, e, p);
    } else {
      ScaledShift(v, e + p, -p);
    }
  }

  lemma {:induction false} UnitOne(e: int)
    ensures Scaled(1, e) == Exp2(e)
  {
    hide Exp2;
  }

  lemma {:induction false} ScaledNext(n: int, e: int)
    ensures Scaled(n, e + 1) == 2.0 * Scaled(n, e)
  {
    Exp2Step(e);
  }

  lemma KeptAs(v: int, p: nat)
    ensures Kept(v, p) == v / Pow2(p) * Pow2(p)
  {
  }

  lemma {:induction false} CutBelow(w: nat, p: int)
    ensures Cut(w, p) <= w
  {
    hide Kept;
    if p >= 0 {
      KeptFacts(w, p);
    }
  }

  // ----- the number -----

  predicate OverflowsToInfinity(mode: RoundingMode, sign: bool, prec1: nat) {
    prec1 == PREC_INF || mode.RndN? || mode.RndNA? || mode.RndA? || (mode.RndD? && sign) || (mode.RndU? && !sign)
  }

  /** The greatest exponent of a finite number; the least of a normal one is 3 less its negation. */
  ghost function TopExponent(flags: Flags): int
    requires flags.Valid()
  {
    Pow2(flags.expBits - 1)
  }

  /**
   The place of the last digit kept, as an exponent: prec1 places behind the radix point; or that of the least normal
   number, for a smaller one where subnormal numbers exist; or prec1 places from the top.
   */
  ghost function LastPlace(flags: Flags, prec1: nat, e: int): int
    requires flags.Valid()
  {
    if flags.radPoint && prec1 != PREC_INF then 0 - prec1
    else if !flags.radPoint && flags.subnormal && e < 3 - TopExponent(flags) then 3 - TopExponent(flags) - prec1
    else e - prec1
  }

  /** What rounding the magnitude x in [2^(e-1), 2^e) leaves; y is x rounded to k units in the last place kept. */
  ghost predicate Rounded(x: real, e: int, sign: bool, prec1: nat, flags: Flags, inexactIn: bool, k: int, r: Number,
      ret: Status)
    requires flags.Valid()
  {
    var place := LastPlace(flags, prec1, e);
    var y := Scaled(k, place);
    && IsRounding(flags.rnd, sign, x, Exp2(place), k)
    && if e <= place then
         && ret == Status(true, true, false)
         && if k == 0 then r == Zero else r.Normal() && r.Magnitude() == y
       else
         Finished(y, RoundedExponent(e, y), sign, prec1, flags, inexactIn || flags.rnd.RndF? || y != x, r, ret)
  }

  /** The outcome for a rounded magnitude y of exponent e, by range. */
  ghost predicate Finished(y: real, e: int, sign: bool, prec1: nat, flags: Flags, inexact: bool, r: Number, ret: Status)
    requires flags.Valid()
  {
    var top := TopExponent(flags);
    if e < 3 - top && !flags.subnormal then r == Zero && ret == Status(true, true, false)
    else if e > top then Overflowed(sign, prec1, flags, r) && ret == Status(true, false, true)
    else
      && r.Normal() && r.expn == e && r.Magnitude() == y && !ret.overflow
      && ret.inexact == inexact && ret.underflow == (inexact && e < 3 - top)
  }

  /**
   Infinity; or, in a direction that never rounds magnitudes up and in faithful rounding, the largest finite number of
   prec1 bits.
   */
  ghost predicate Overflowed(sign: bool, prec1: nat, flags: Flags, r: Number)
    requires flags.Valid()
  {
    var top := TopExponent(flags);
    if prec1 != PREC_INF && (flags.rnd.RndF? || NeverUp(flags.rnd, sign)) then
      r.Normal() && r.expn == top && r.Magnitude() == Exp2(top) - Exp2(top - prec1)
    else r == Infinite
  }

  /** No digits behind the radix point: the result is an integer, in the direction asked for. */
  lemma RoundsToInteger(x: real, e: int, sign: bool, flags: Flags, inexactIn: bool, k: int, r: Number, ret: Status)
    requires flags.Valid() && flags.radPoint && Rounded(x, e, sign, 0, flags, inexactIn, k, r, ret)
    ensures IsRounding(flags.rnd, sign, x, 1.0, k) && (r.Finite? && !ret.overflow ==> r.Magnitude() == k as real)
  {
    hide Val, Overflowed, IsRounding;
    assert Exp2(0) == 1.0 && Scaled(k, 0) == k as real;
  }

  lemma InfinityIff(mode: RoundingMode, sign: bool, prec1: nat)
    ensures OverflowsToInfinity(mode, sign, prec1) <==> prec1 == PREC_INF || !(mode.RndF? || NeverUp(mode, sign))
  {
    hide NeverUp;
    NeverUpIff(mode, sign);
  }

  /** The number of bits kept reaches down to the last place. */
  lemma PlaceIs(flags: Flags, prec1: nat, e: int)
    requires flags.Valid()
    ensures e - flags.Precision(prec1, e) == LastPlace(flags, prec1, e)
  {
  }

  method FillOnes(t: array<Limb>, l: nat, low: Limb)
    requires 1 <= l <= t.Length
    modifies t
    ensures t[0] == low && forall z | 1 <= z < l :: t[z] == B - 1
  {
    t[0] := low;
    var i := 1;
    while i < l
      invariant 1 <= i <= l && t[0] == low && forall z | 1 <= z < i :: t[z] == B - 1
    {
      t[i] := B - 1;
      i := i + 1;
    }
  }

  class Bf {
    var sign: bool
    var expn: int
    var len: nat
    var tab: array<Limb>

    ghost predicate Valid()
      reads this
    {
      len <= tab.Length
    }

    ghost function View(): Number
      requires Valid()
      reads this, tab
    {
      if len > 0 then Finite(expn, tab[..len]) else if expn == EXP_INF then Infinite else Zero
    }

    method Resize(n: nat)
      requires Valid()
      modifies this`len, this`tab
      ensures Valid() && len == n && (n <= old(len) ==> tab == old(tab)) && (tab == old(tab) || fresh(tab))
    {
      if n > tab.Length {
        tab := new Limb[n];
      }
      len := n;
    }

    method SetZero(s: bool)
      requires Valid()
      modifies this
      ensures Valid() && View() == Zero && sign == s && tab == old(tab)
    {
      Resize(0);
      expn := EXP_ZERO;
      sign := s;
    }

    method SetInf(s: bool)
      requires Valid()
      modifies this
      ensures Valid() && View() == Infinite && sign == s && tab == old(tab)
    {
      Resize(0);
      expn := EXP_INF;
      sign := s;
    }

    /** Infinity or the largest finite number, by rounding direction. */
    method SetOverflow(s: bool, prec: nat, flags: Flags) returns (ret: Status)
      requires Valid() && flags.Valid() && (prec >= 1 || OverflowsToInfinity(flags.rnd, s, prec))
      modifies this, tab
      ensures Valid() && sign == s && (tab == old(tab) || fresh(tab))
      ensures Overflowed(s, prec, flags, View()) && ret == Status(true, false, true)
    {
      hide Val, BPow, Pow2, Scaled, Exp2;
      ret := Status(true, false, true);
      InfinityIff(flags.rnd, s, prec);
      if OverflowsToInfinity(flags.rnd, s, prec) {
        SetInf(s);
      } else {
        var l := (prec + LIMB_BITS - 1) / LIMB_BITS;
        var j := (0 - prec) % LIMB_BITS;
        ShortBits(prec, l, j);
        Resize(l);
        LimbPower(j);
        FillOnes(tab, l, B - Pow2(j));
        expn := flags.EMax();
        sign := s;
        AllOnesValue(tab[..l], j);
        MaximumMagnitude(tab[..l], l, j, prec, expn);
        assert tab[..l][l - 1] == tab[l - 1];
      }
    }

    /** No bit is kept: the result is one unit in the last place or nothing. */
    method RoundAway(prec: int, add: nat) returns (ret: Status)
      requires Valid() && prec <= 0 && len >= 1 && add <= 1
      modifies this, tab
      ensures Valid() && sign == old(sign) && tab == old(tab) && ret == Status(true, true, false)
      ensures if add == 0 then View() == Zero else View().Normal() && View().Magnitude() == Exp2(old(expn) - prec)
    {
      hide Val, BPow, Pow2, Scaled, Exp2;
      ret := Status(true, true, false);
      if add != 0 {
        Resize(1);
        tab[0] := B / 2;
        expn := expn + 1 - prec;
        assert tab[..1] == [B / 2];
        HalfLimb(expn);
      } else {
        SetZero(sign);
      }
    }

    /** Range checks, then the kept bits of the first l limbs. */
    method Finish(prec1: nat, flags: Flags, l: nat, p: int, inexact: bool) returns (ret: Status)
      requires Valid() && flags.Valid() && 1 <= l <= len && 2 * tab[l - 1] >= B && p < l * LIMB_BITS
      requires prec1 == 0 ==> expn <= flags.EMax() || OverflowsToInfinity(flags.rnd, sign, 0)
      modifies this, tab
      ensures Valid() && sign == old(sign) && (tab == old(tab) || fresh(tab))
      ensures Finished(Scaled(Cut(old(Val(tab[..l])), p), old(expn) - l * LIMB_BITS), old(expn), sign, prec1, flags,
          inexact, View(), ret)
    {
      hide Val, BPow, Pow2, Scaled, Exp2, Cut;
      ghost var v := Val(tab[..l]);
      ret := Status(inexact, false, false);
      if expn < flags.EMin() && !flags.subnormal {
        ret := Status(true, true, false);
        SetZero(sign);
      } else if expn > flags.EMax() {
        ret := SetOverflow(sign, prec1, flags);
      } else {
        if expn < flags.EMin() && ret.inexact {
          ret := ret.(underflow := true);
        }
        var n := KeepBits(tab, l, p);
        DroppedLimbs(tab[..n], l, n, Cut(v, p), expn);
        Resize(n);
        assert tab[..n][n - 1] == tab[n - 1] && tab[..n][0] == tab[0];
      }
    }

    /** The first l limbs, top bit set, rounded to prec1 bits. */
    method Round(prec1: nat, flags: Flags, l: nat, inexactIn: bool) returns (ret: Status, ghost k: int)
      requires Valid() && flags.Valid() && 1 <= l <= len && 2 * tab[l - 1] >= B
      requires prec1 == 0 ==> expn < flags.EMax() || OverflowsToInfinity(flags.rnd, sign, 0)
      modifies this, tab
      ensures Valid() && sign == old(sign) && (tab == old(tab) || fresh(tab))
      ensures Rounded(Scaled(old(Val(tab[..l])), old(expn) - l * LIMB_BITS), old(expn), sign, prec1, flags, inexactIn,
          k, View(), ret)
    {
      hide Val, BPow, Pow2, Scaled, Exp2, RoundsTo, Units, Rounded, UnitAdded, Cut, Flags.Precision, Finished;
      ghost var v, e, bits := Val(tab[..l]), expn, l * LIMB_BITS;
      ValBound(tab[..l]);
      BPowIsPow2(l);
      var prec := flags.Precision(prec1, expn);
      var p := l * LIMB_BITS - prec;
      var add, inexact := GetRndAdd(tab, l, prec, sign, flags.rnd);
      RoundsToAdd(flags.rnd, sign, v, p, add, inexact);
      k := Units(v, p, add);
      if prec <= 0 {
        ret := RoundAway(prec, add);
        OutcomeAway(v, e, bits, prec1, flags, sign, inexactIn, add, inexact, View());
        return;
      }
      var carry := false;
      if add != 0 {
        carry := AddUnit(tab, l, p);
        if carry {
          expn := expn + 1;
        }
      }
      ghost var w, e1 := Val(tab[..l]), expn;
      ValBound(tab[..l]);
      RoundedLimbs(v, w, p, add, carry, bits, e);
      ret := Finish(prec1, flags, l, p, inexactIn || inexact);
      OutcomeKept(v, e, bits, prec1, flags, sign, inexactIn, add, inexact, e1, View(), ret);
    }

    /** Normalise: top bit set, no leading zero limbs; then round. */
    method NormalizeAndRound(prec1: nat, flags: Flags) returns (ret: Status, ghost e: int, ghost k: int)
      requires Valid() && flags.Valid()
      requires prec1 == 0 ==> expn < flags.EMax() || OverflowsToInfinity(flags.rnd, sign, 0)
      modifies this, tab
      ensures Valid() && sign == old(sign) && (tab == old(tab) || fresh(tab))
      ensures var x := Scaled(old(Val(tab[..len])), old(expn) - old(len) * LIMB_BITS);
        if x == 0.0 then View() == Zero && ret == Status(false, false, false)
        else Exp2(e - 1) <= x < Exp2(e) && Rounded(x, e, sign, prec1, flags, false, k, View(), ret)
    {
      hide Val, BPow, Pow2, Scaled, Exp2, Rounded;
      ghost var v, e0 := Val(tab[..len]), expn - len * LIMB_BITS;
      e, k := 0, 0;
      var l := TrimTop(tab, len);
      if l == 0 {
        expn := EXP_ZERO;
        Resize(0);
        ret := Status(false, false, false);
        EmptyValue(tab[..0]);
        ScaledZero(e0);
        return;
      }
      expn := expn - (len - l) * LIMB_BITS;
      var shift := LeadingZeros(tab[l - 1]);
      LeadingShift(tab[..l]);
      assert tab[..l][l - 1] == tab[l - 1];
      if shift != 0 {
        ShiftUp(tab, l, shift);
        expn := expn - shift;
      } else {
        ShiftNone(v);
      }
      ghost var w := Val(tab[..l]);
      ScaledShift(v, expn - l * LIMB_BITS, shift);
      assert (len - l) * LIMB_BITS == len * LIMB_BITS - l * LIMB_BITS;
      NormalRange(tab[..l], expn);
      TopBitValue(tab[..l]);
      assert tab[..l][l - 1] == tab[l - 1];
      e := expn;
      ret, k := Round(prec1, flags, l, false);
    }
  }

  function LeadingZeros(x: Limb): nat {
    BitLengthOfLimb(x);
    LIMB_BITS - BitLength(x)
  }

  lemma {:induction false} BitLengthOfLimb(x: Limb)
    ensures BitLength(x) <= LIMB_BITS
  {
    hide Pow2, BitLength;
    BaseIsPow2();
    BitLengthFits(x, LIMB_BITS);
  }

  /** Shifting by the leading zeros of the top limb sets the top bit. */
  lemma {:induction false} LeadingShift(s: seq<Limb>)
    requires |s| > 0 && s[|s| - 1] != 0
    ensures var x := s[|s| - 1]; var h := LeadingZeros(x);
      h < LIMB_BITS && x * Pow2(h) < B && 2 * (Val(s) * Pow2(h)) >= BPow(|s|)
  {
    hide Pow2, BitLength, Val, BPow;
    var m := |s| - 1;
    var x := s[m];
    BitLengthOfLimb(x);
    BitLengthBounds(x);
    var n, h := BitLength(x), LeadingZeros(x);
    BaseIsPow2();
    Pow2Add(n, h);
    CutPower(n);
    MulMono(x + 1, Pow2(n), Pow2(h));
    assert (x + 1) * Pow2(h) == x * Pow2(h) + Pow2(h);
    ValTake(s, m);
    assert s[..m + 1] == s;
    BPowStep(m);
    LeadingSum(Val(s), Val(s[..m]), x, BPow(m), Pow2(h), Pow2(n - 1), Pow2(n));
  }

  lemma LeadingSum(v: int, lo: int, x: int, p: int, d: int, c: int, c2: int)
    requires v == lo + x * p && 0 <= lo && 0 < p && 0 < d && c2 == 2 * c && c <= x && c2 * d == B
    ensures 2 * (v * d) >= B * p
  {
    MulMono(c, x, p);
    MulMono(c * p, v, d);
    assert 2 * (c * p * d) == c2 * d * p;
  }

  lemma {:induction false} EmptyValue(s: seq<Limb>)
    requires s == []
    ensures Val(s) == 0
  {
  }

  lemma {:induction false} ScaledZero(e: int)
    ensures Scaled(0, e) == 0.0
  {
    hide Exp2;
  }

  lemma {:induction false} ShiftNone(v: int)
    ensures v * Pow2(0) == v
  {
  }

  /** With the top bit set the magnitude lies in [2^(e-1), 2^e). */
  lemma {:induction false} NormalRange(s: seq<Limb>, e: int)
    requires 2 * Val(s) >= BPow(|s|)
    ensures var x := Scaled(Val(s), e - |s| * LIMB_BITS); Exp2(e - 1) <= x < Exp2(e) && x > 0.0
  {
    hide Val, BPow, Pow2, Scaled, Exp2;
    var u := e - |s| * LIMB_BITS;
    ValBound(s);
    BPowIsPow2(|s|);
    ScaledShift(1, u, |s| * LIMB_BITS);
    UnitOne(e);
    Exp2Step(e - 1);
    ScaledOrder(Val(s), BPow(|s|), u);
    ScaledOrder(2 * Val(s), BPow(|s|), u);
    ScaledDouble(Val(s), u);
  }

  lemma RoundsToAdd(mode: RoundingMode, sign: bool, v: nat, p: int, add: nat, inexact: bool)
    requires RoundsTo(mode, sign, v, p, add, inexact)
    ensures add <= 1 && (p <= 0 ==> add == 0)
  {
  }

  lemma {:induction false} OutcomeAway(v: nat, e: int, bits: nat, prec1: nat, flags: Flags, sign: bool, inexactIn: bool,
                                       add: nat, inexact: bool, r: Number)
    requires flags.Valid() && flags.Precision(prec1, e) <= 0 && v < Pow2(bits)
    requires RoundsTo(flags.rnd, sign, v, bits - flags.Precision(prec1, e), add, inexact)
    requires if add == 0 then r == Zero else r.Normal() && r.Magnitude() == Exp2(e - flags.Precision(prec1, e))
    ensures var k := Units(v, bits - flags.Precision(prec1, e), add);
      Rounded(Scaled(v, e - bits), e, sign, prec1, flags, inexactIn, k, r, Status(true, true, false))
  {
    hide Val, Pow2, Scaled, Exp2, RoundsTo, IsRounding, Flags.Precision, LastPlace, RoundedExponent;
    var prec := flags.Precision(prec1, e);
    PlaceIs(flags, prec1, e);
    var p := bits - prec;
    UnitsRounded(flags.rnd, sign, v, p, add, inexact, e - bits);
    RoundsToAdd(flags.rnd, sign, v, p, add, inexact);
    Pow2Mono(bits, p);
    assert Units(v, p, add) == add by { NothingKept(v, p, add); }
    UnitOne(e - prec);
    assert e - bits + p == e - prec;
  }

  lemma {:induction false} NothingKept(v: nat, p: int, add: nat)
    requires p >= 0 && v < Pow2(p) && (p == 0 ==> add == 0)
    ensures Units(v, p, add) == add
  {
    hide Pow2;
    if p > 0 {
      DivModUnique(v, Pow2(p), 0, v);
    } else {
      PowerZero();
    }
  }

  lemma {:induction false} OutcomeKept(v: nat, e: int, bits: nat, prec1: nat, flags: Flags, sign: bool, inexactIn: bool,
                                       add: nat, inexact: bool, e1: int, r: Number, ret: Status)
    requires flags.Valid() && flags.Precision(prec1, e) > 0
    requires RoundsTo(flags.rnd, sign, v, bits - flags.Precision(prec1, e), add, inexact)
    requires var y := Scaled(Units(v, bits - flags.Precision(prec1, e), add), e - flags.Precision(prec1, e));
      e1 == RoundedExponent(e, y) && Finished(y, e1, sign, prec1, flags, inexactIn || inexact, r, ret)
    ensures var k := Units(v, bits - flags.Precision(prec1, e), add);
      Rounded(Scaled(v, e - bits), e, sign, prec1, flags, inexactIn, k, r, ret)
  {
    hide Val, Pow2, Scaled, Exp2, RoundsTo, IsRounding, Flags.Precision, LastPlace, RoundedExponent, Units,
      Overflowed, Finished;
    var prec := flags.Precision(prec1, e);
    PlaceIs(flags, prec1, e);
    var p := bits - prec;
    assert e - bits + p == e - prec;
    UnitsRounded(flags.rnd, sign, v, p, add, inexact, e - bits);
    InexactIff(flags.rnd, sign, v, p, add, inexact, e - bits);
  }

  /** The top bit of one limb. */
  lemma {:induction false} HalfLimb(e: int)
    ensures Scaled(Val([B / 2]), e - 1 * LIMB_BITS) == Exp2(e - 1)
  {
    hide Val, BPow, Pow2, Scaled, Exp2;
    ValSingle(B / 2);
    BaseIsPow2();
    CutPower(LIMB_BITS);
    ScaledShift(1, e - LIMB_BITS, LIMB_BITS - 1);
    UnitOne(e - 1);
  }

  lemma {:induction false} LimbPower(j: nat)
    requires j < LIMB_BITS
    ensures 0 < Pow2(j) && 2 * Pow2(j) <= B
  {
    hide Pow2;
    BaseIsPow2();
    CutPower(LIMB_BITS);
    Pow2Mono(j, LIMB_BITS - 1);
  }

  lemma ShortBits(prec: nat, l: int, j: int)
    requires prec >= 1 && l == (prec + LIMB_BITS - 1) / LIMB_BITS && j == (0 - prec) % LIMB_BITS
    ensures l >= 1 && 0 <= j < LIMB_BITS && l * LIMB_BITS == prec + j
  {
  }

  /** B^l - 2^j: all ones above bit j. */
  lemma {:induction false} AllOnesValue(s: seq<Limb>, j: nat)
    requires |s| >= 1 && j < LIMB_BITS && s[0] + Pow2(j) == B && forall i | 1 <= i < |s| :: s[i] == B - 1
    ensures Val(s) + Pow2(j) == BPow(|s|)
    decreases |s|
  {
    hide Pow2;
    if |s| == 1 {
      assert s == [s[0]];
      ValSingle(s[0]);
      BPowStep(0);
    } else {
      var m := |s| - 1;
      AllOnesValue(s[..m], j);
      ValTake(s, m);
      assert s[..m + 1] == s;
      BPowStep(m);
      assert (B - 1) * BPow(m) == B * BPow(m) - BPow(m);
    }
  }

  lemma {:induction false} MaximumMagnitude(s: seq<Limb>, l: nat, j: nat, prec: nat, e: int)
    requires |s| == l && l * LIMB_BITS == prec + j && Val(s) + Pow2(j) == BPow(l)
    ensures Scaled(Val(s), e - l * LIMB_BITS) == Exp2(e) - Exp2(e - prec)
  {
    hide Val, BPow, Pow2, Scaled, Exp2;
    var u := e - l * LIMB_BITS;
    BPowIsPow2(l);
    ScaledSum(BPow(l), Pow2(j), u);
    ScaledShift(1, u, l * LIMB_BITS);
    ScaledShift(1, u, j);
    UnitOne(e);
    UnitOne(e - prec);
  }
}
