/**
 The number-theoretic transform for one modulus: tables, transform, pointwise product and
 cyclic convolution. Residues stay below 2m throughout and are reduced lazily.
 */
module Ntt {
  import opened Basics
  import opened Arith
  import opened Limbs
  import opened LimbOps
  import opened Congruence
  import opened Polynomial
  import opened FastMod
  import opened NttStage

  /** Roots of order 2^k are kept for k up to this. */
  const PROOT_2EXP: nat := if LIMB_BITS == 32 then 20 else 51

  /** Tables of powers are built for k up to this; longer transforms are split. */
  const TRIG_K_MAX: nat := 19

  // ----- the last stage -----

  /** The last stage of a transform: rows of n / 2 entries, two of them. */
  lemma {:induction false} LastOutputs(x: seq<int>, y: seq<int>, half: nat, w: int, m: int, k: nat)
    requires AllTrack(x, y, half, 2, w, m) && RootOfUnity(w, half, m) && k < half && |y| == 2 * half && m > 0
    ensures Cong(y[k] + y[half + k], Eval(x, Pow(w, k)), m)
    ensures Cong(y[k] - y[half + k], Eval(x, Pow(w, half + k)), m)
  {
    hide Cong;
    var c := Column(y, half, 2, k);
    assert c[0] == y[k] && c[1] == y[half + k];
    assert c == [y[k], y[half + k]];
    assert Tracks(x, y, half, 2, w, m, k, 0) && Tracks(x, y, half, 2, w, m, k, 1);
    TwoTerms(y[k], y[half + k], Pow(Pow(w, half), 0));
    TwoTerms(y[k], y[half + k], Pow(Pow(w, half), 1));
    PowStep(Pow(w, half), 0);
    CongSym(Eval(x, Pow(w, k)), Eval(c, 1), m);
    CongEqual(y[k], y[k], m);
    CongLinear(y[k], y[k], y[half + k], Pow(w, half), -1, m);
    CongTrans(Eval(x, Pow(w, half + k)), Eval(c, Pow(w, half)), y[k] - y[half + k], m);
    CongSym(Eval(x, Pow(w, half + k)), y[k] - y[half + k], m);
  }

  lemma {:induction false} TwoTerms(a: int, b: int, z: int)
    ensures Eval([a, b], z) == a + b * z
  {
    assert [a, b][1..] == [b] && [b][1..] == [];
    assert Eval([b], z) == b + z * Eval([], z);
  }

  /** Entry i of o holds output i of the transform of x, lazily reduced. */
  ghost predicate OutputAt(x: seq<int>, o: Limb, w: int, m: int, i: nat) {
    o < 2 * m && Cong(o, Eval(x, Pow(w, i)), m)
  }

  /** Sum and difference without a twiddle factor. */
  method LastButterfly(a0: Limb, a1: Limb, m: Limb) returns (b0: Limb, b1: Limb)
    requires 0 < m && 4 * m < B && a0 < 2 * m && a1 < 2 * m
    ensures Cong(b0, a0 as int + a1, m) && Cong(b1, a0 as int - a1, m) && b0 < 2 * m && b1 < 2 * m
  {
    hide Cong;
    b0 := AddMod(a0, a1, 2 * m);
    b1 := SubMod(a0, a1, 2 * m);
    SumValue(a0 + a1, b0, m);
    SumValue(a0 as int - a1, b1, m);
  }

  /** The loop without twiddle factors; input and output may be the same array. */
  method LastStage(tin: array<Limb>, tout: array<Limb>, half: nat, m: Limb, ghost x: seq<int>, ghost w: int)
    requires 2 * half <= tin.Length && 2 * half <= tout.Length && 0 < m && 4 * m < B
    requires forall i | 0 <= i < 2 * half :: tin[i] < 2 * m
    requires AllTrack(x, tin[..2 * half], half, 2, w, m) && RootOfUnity(w, half, m)
    modifies tout
    ensures forall i: nat | i < 2 * half :: OutputAt(x, tout[i], w, m, i)
  {
    hide AllTrack, RootOfUnity, OutputAt, Cong;
    ghost var y := tin[..2 * half];
    var k := 0;
    while k < half
      invariant 0 <= k <= half
      invariant forall z: nat | k <= z < half || half + k <= z < 2 * half :: tin[z] == y[z]
      invariant forall z: nat | z < k || half <= z < half + k :: OutputAt(x, tout[z], w, m, z)
    {
      var a0, a1 := tin[k], tin[k + half];
      assert a0 == y[k] && a1 == y[half + k];
      var b0, b1 := LastButterfly(a0, a1, m);
      LastOutputs(x, y, half, w, m, k);
      OutputBy(x, b0, a0 as int + a1, w, m, k);
      OutputBy(x, b1, a0 as int - a1, w, m, half + k);
      tout[k] := b0;
      tout[k + half] := b1;
      k := k + 1;
    }
  }

  lemma OutputBy(x: seq<int>, o: Limb, v: int, w: int, m: int, i: nat)
    requires o < 2 * m && Cong(o, v, m) && Cong(v, Eval(x, Pow(w, i)), m)
    ensures OutputAt(x, o, w, m, i)
  {
    hide Cong;
    CongTrans(o, v, Eval(x, Pow(w, i)), m);
  }

  // ----- tables -----

  /** From index lo on, r[k-1] is the square of r[k] modulo m, and q[k] the multiplication constant of r[k]. */
  ghost predicate PowersFrom(r: seq<Limb>, q: seq<Limb>, m: Limb, lo: nat) {
    && |r| == |q| == PROOT_2EXP + 1
    && (forall k: nat | lo <= k <= PROOT_2EXP :: r[k] < m && q[k] == InitMulModFast2(r[k], m))
    && (forall k: nat | lo < k <= PROOT_2EXP :: Squared(r, m, k))
  }

  lemma PowersStep(r: seq<Limb>, q: seq<Limb>, c: Limb, m: Limb, lo: nat)
    requires PowersFrom(r, q, m, lo + 1) && 1 <= lo <= PROOT_2EXP && c < m
    requires lo < PROOT_2EXP ==> Cong(c, Square(r[lo + 1]), m)
    ensures PowersFrom(r[lo := c], q[lo := InitMulModFast2(c, m)], m, lo)
  {
    hide Cong, InitMulModFast2, Square;
    var r' := r[lo := c];
    forall k: nat | lo < k <= PROOT_2EXP
      ensures Squared(r', m, k)
    {
      if k > lo + 1 {
        assert Squared(r, m, k);
      }
    }
  }

  function Square(x: int): int {
    x * x
  }

  ghost predicate Squared(r: seq<Limb>, m: Limb, k: nat)
    requires 1 <= k < |r|
  {
    Cong(r[k - 1], Square(r[k]), m)
  }

  lemma SquareIs(x: int)
    ensures Square(x) == x * x
  {
  }

  method BuildPowers(p: Limb, m: Limb, mInv: Limb) returns (r: seq<Limb>, q: seq<Limb>)
    requires MOD_MIN < m < MOD_MAX && mInv == InitMulModFast(m) && p < m
    ensures PowersFrom(r, q, m, 1) && r[PROOT_2EXP] == p
  {
    hide InitMulModFast, MulModFast, Cong, InitMulModFast2, Square, Squared;
    r, q := seq(PROOT_2EXP + 1, _ => 0), seq(PROOT_2EXP + 1, _ => 0);
    var c: Limb := p;
    var i := 0;
    while i < PROOT_2EXP
      invariant 0 <= i <= PROOT_2EXP && c < m && PowersFrom(r, q, m, PROOT_2EXP - i + 1)
      invariant if i == 0 then c == p else r[PROOT_2EXP] == p && Cong(c, Square(r[PROOT_2EXP - i + 1]), m)
    {
      hide PowersFrom;
      var k := PROOT_2EXP - i;
      assert |r| == |q| == PROOT_2EXP + 1 by { PowersLength(r, q, m, k + 1); }
      PowersStep(r, q, c, m, k);
      r, q := r[k := c], q[k := InitMulModFast2(c, m)];
      ProductReduces(c, c, m);
      SquareIs(c);
      c := MulModFast(c, c, m, mInv);
      i := i + 1;
    }
  }

  lemma PowersLength(r: seq<Limb>, q: seq<Limb>, m: Limb, lo: nat)
    requires PowersFrom(r, q, m, lo)
    ensures |r| == |q| == PROOT_2EXP + 1
  {
  }

  /** A product of a reduced and a lazily reduced residue is reduced correctly. */
  lemma {:induction false} ProductReduces(a: Limb, b: Limb, m: Limb)
    requires MOD_MIN < m < MOD_MAX && a < m && b < 2 * m
    ensures MulModFast(a, b, m, InitMulModFast(m)) == a * b % m
    ensures Cong(MulModFast(a, b, m, InitMulModFast(m)), a * b, m) && a * b % m < m
  {
    hide ModFast, InitMulModFast, Cong;
    ModRange();
    ProductBelow(a, b, m, MOD_MAX, MOD_MIN, B);
    ModFastCorrect(a * b, m);
    CongMod(a * b, m);
  }

  lemma ProductBelow(a: int, b: int, m: int, hi: int, lo: int, base: int)
    requires 0 <= a < m < hi && 0 <= b < 2 * m && base == 8 * lo && base == 4 * hi && lo > 0
    ensures 0 <= a * b < base * lo
  {
    MulMono(a, hi, b);
    MulMono(0, a, b);
    MulBetween(hi, b, b, 2 * hi);
    assert hi * (2 * hi) == base * lo;
    MulBetween(hi, b + 1, b + 1, 2 * hi);
    assert hi * (b + 1) == hi * b + hi;
  }

  /** The powers of 1/2. */
  method BuildLengthInverses(m: Limb, mInv: Limb) returns (c: seq<Limb>, q: seq<Limb>)
    requires MOD_MIN < m < MOD_MAX && mInv == InitMulModFast(m) && m % 2 == 1
    ensures LengthTable(c, q, m)
  {
    hide InitMulModFast, MulModFast, Cong, InitMulModFast2, Pow2;
    c, q := [], [];
    var half := (m + 1) / 2;
    var v: Limb := 1;
    var i := 0;
    PowerZero();
    CongEqual(1 * Pow2(0), 1, m);
    while i <= PROOT_2EXP
      invariant 0 <= i <= PROOT_2EXP + 1 && |c| == |q| == i && v < m
      invariant Cong(v * Pow2(i), 1, m)
      invariant forall k: nat | k < i :: LengthInverse(c[k], q[k], m, k)
    {
      c, q := c + [v], q + [InitMulModFast2(v, m)];
      ProductReduces(v, half, m);
      HalfAgain(v, half, MulModFast(v, half, m, mInv), m, i);
      v := MulModFast(v, half, m, mInv);
      i := i + 1;
    }
  }

  lemma PowerZero()
    ensures Pow2(0) == 1
  {
  }

  /** Multiplying by (m + 1) / 2 divides by two. */
  lemma {:induction false} HalfAgain(v: int, half: int, v': int, m: int, i: nat)
    requires m > 0 && 2 * half == m + 1 && Cong(v', v * half, m) && Cong(v * Pow2(i), 1, m)
    ensures Cong(v' * Pow2(i + 1), 1, m)
  {
    hide Cong;
    var p := Pow2(i);
    assert Pow2(i + 1) == 2 * p;
    CongEqual(2 * p, 2 * p, m);
    CongMul(v', v * half, 2 * p, 2 * p, m);
    HalfShuffle(v, half, p, m);
    CongBy(v * half * (2 * p), v * p, m, v * p);
    CongTrans(v' * (2 * p), v * half * (2 * p), v * p, m);
    CongTrans(v' * (2 * p), v * p, 1, m);
  }

  lemma HalfShuffle(v: int, half: int, p: int, m: int)
    requires 2 * half == m + 1
    ensures v * half * (2 * p) - v * p == v * p * m
  {
    assert v * half * (2 * p) == v * p * (2 * half);
    assert v * p * (m + 1) == v * p * m + v * p;
  }

  ghost predicate LengthInverse(c: Limb, q: Limb, m: Limb, k: nat) {
    c < m && q == InitMulModFast2(c, m) && Cong(c * Pow2(k), 1, m)
  }

  ghost predicate LengthTable(c: seq<Limb>, q: seq<Limb>, m: Limb) {
    |c| == |q| == PROOT_2EXP + 1 && forall k: nat | k <= PROOT_2EXP :: LengthInverse(c[k], q[k], m, k)
  }

  /** Roots of every order come from one root of the largest order, and so do inverses. */
  lemma {:induction false} RootsOfAllOrders(r: seq<Limb>, q: seq<Limb>, ri: seq<Limb>, qi: seq<Limb>, m: Limb, k: nat)
    requires PowersFrom(r, q, m, 1) && PowersFrom(ri, qi, m, 1) && 1 <= k <= PROOT_2EXP && m > 0
    requires RootOfUnity(r[PROOT_2EXP], Pow2(PROOT_2EXP - 1), m) && Cong(ri[PROOT_2EXP] as int * r[PROOT_2EXP], 1, m)
    ensures InversePair(r[k], ri[k], k, m)
    decreases PROOT_2EXP - k
  {
    hide Cong, RootOfUnity, Pow2, InitMulModFast2, PowersFrom;
    PowersLength(r, q, m, 1);
    PowersLength(ri, qi, m, 1);
    if k < PROOT_2EXP {
      RootsOfAllOrders(r, q, ri, qi, m, k + 1);
      assert Squared(r, m, k + 1) && Squared(ri, m, k + 1)
          by { PowersSquared(r, q, m, k + 1); PowersSquared(ri, qi, m, k + 1); }
      SquaredRoot(r[k], r[k + 1], k, m);
      SquaredPair(r[k], ri[k], r[k + 1], ri[k + 1], m);
    }
    InverseIsRoot(r[k], ri[k], Pow2(k - 1), m);
  }

  lemma PowersSquared(r: seq<Limb>, q: seq<Limb>, m: Limb, k: nat)
    requires PowersFrom(r, q, m, 1) && 1 < k <= PROOT_2EXP
    ensures Squared(r, m, k)
  {
  }

  lemma {:induction false} SquaredRoot(x: int, y: int, k: nat, m: int)
    requires Cong(x, Square(y), m) && RootOfUnity(y, Pow2(k), m) && k >= 1
    ensures RootOfUnity(x, Pow2(k - 1), m)
  {
    hide Cong, Pow;
    SquareIsRoot(y, k + 1, m);
    CongPow(x, y * y, Pow2(k - 1), m);
    CongTrans(Pow(x, Pow2(k - 1)), Pow(y * y, Pow2(k - 1)), -1, m);
  }

  lemma SquaredPair(x: int, xi: int, y: int, yi: int, m: int)
    requires Cong(x, Square(y), m) && Cong(xi, Square(yi), m) && Cong(yi * y, 1, m)
    ensures Cong(xi * x, 1, m)
  {
    hide Cong;
    CongMul(xi, yi * yi, x, y * y, m);
    CongMul(yi * y, 1, yi * y, 1, m);
    assert yi * yi * (y * y) == yi * y * (yi * y);
    CongTrans(xi * x, yi * y * (yi * y), 1, m);
  }

  /** The inverse of a root is a root. */
  lemma {:induction false} InverseIsRoot(w: int, wi: int, h: nat, m: int)
    requires Cong(wi * w, 1, m) && RootOfUnity(w, h, m)
    ensures RootOfUnity(wi, h, m)
  {
    hide Cong, Pow;
    CongPositive(wi * w, 1, m);
    PowProduct(wi, w, h);
    CongPow(wi * w, 1, h, m);
    PowOne(h);
    var a, b := Pow(wi, h), Pow(w, h);
    CongEqual(0, 0, m);
    CongLinear(0, 0, -a, b, -1, m);
    CongLinear(0, 0, -1, a * b, 1, m);
    assert -a * b == -1 * (a * b) && -a * -1 == a;
    CongSym(-a * b, a, m);
    CongTrans(a, -1 * (a * b), -1, m);
  }

  /** A table for a root congruent to another is a table for both. */
  lemma {:induction false} TrigFor(tab: seq<Limb>, w: int, u: int, h: nat, m: Limb)
    requires IsTrig(tab, w, h, m) && Cong(w, u, m)
    ensures IsTrig(tab, u, h, m)
  {
    hide Cong, Pow;
    forall i: nat | i < h
      ensures TrigPair(tab, u, m, i)
    {
      assert TrigPair(tab, w, m, i);
      CongPow(w, u, i, m);
      CongTrans(tab[2 * i], Pow(w, i), Pow(u, i), m);
    }
  }

  /** The loop that builds a table of powers. */
  method BuildTrig(c: Limb, cInv: Limb, h: nat, m: Limb) returns (tab: seq<Limb>)
    requires 0 < m && c < m && 2 * m <= B && cInv == InitMulModFast2(c, m) && m > 1
    ensures IsTrig(tab, c, h, m)
  {
    hide Cong, InitMulModFast2, MulModFast2;
    tab := [];
    var v: Limb := 1;
    var i := 0;
    CongEqual(1, Pow(c, 0), m);
    while i < h
      invariant 0 <= i <= h && v < m && Cong(v, Pow(c, i), m)
      invariant IsTrig(tab, c, i, m)
    {
      TrigAppend(tab, c, v, m, i);
      tab := tab + [v, InitMulModFast2(v, m)];
      var v' := MulModFast2(v, c, m, cInv);
      NextPower(v, c, v', m, i);
      v := v';
      i := i + 1;
    }
  }

  lemma {:induction false} TrigAppend(tab: seq<Limb>, w: int, v: Limb, m: Limb, i: nat)
    requires IsTrig(tab, w, i, m) && v < m && Cong(v, Pow(w, i), m)
    ensures IsTrig(tab + [v, InitMulModFast2(v, m)], w, i + 1, m)
  {
    hide Cong, Pow, InitMulModFast2;
    var t := tab + [v, InitMulModFast2(v, m)];
    forall j: nat | j < i + 1
      ensures TrigPair(t, w, m, j)
    {
      if j < i {
        assert TrigPair(tab, w, m, j);
      }
    }
  }

  lemma {:induction false} NextPower(v: int, c: int, v': int, m: int, i: nat)
    requires m > 0 && Cong(v, Pow(c, i), m) && v' == v * c % m
    ensures Cong(v', Pow(c, i + 1), m) && v' < m
  {
    hide Cong;
    CongMod(v * c, m);
    CongEqual(c, c, m);
    CongMul(v, Pow(c, i), c, c, m);
    MulComm(Pow(c, i), c);
    CongTrans(v', v * c, Pow(c, i + 1), m);
  }

  // ----- the transform -----

  ghost predicate SmallUpTo(s: seq<Limb>, m: int) {
    forall i | 0 <= i < |s| :: s[i] < 2 * m
  }

  /** Before the first stage there is a single column, the input itself. */
  lemma {:induction false} TrackStart(x: seq<Limb>, w: int, m: int)
    requires m > 0
    ensures AllTrack(x, x, 1, |x|, w, m)
  {
    hide Cong, Pow, Eval;
    forall j: nat, q: nat | j < 1 && q < |x|
      ensures Tracks(x, x, 1, |x|, w, m, j, q)
    {
      assert Column(x, 1, |x|, 0) == x;
      PowStep(w, 0);
      assert At(q, 1, 0) == q;
      CongEqual(Eval(x, Pow(w, q)), Eval(x, Pow(w, q)), m);
    }
  }

  /** Sizes at level l of a transform of 2^k points. */
  lemma {:induction false} LevelSizes(k: nat, l: nat)
    requires 1 <= l <= k
    ensures Pow2(k) == 2 * (Pow2(l - 1) * Pow2(k - l)) && Pow2(l) == 2 * Pow2(l - 1)
    ensures Pow2(k - l + 1) == 2 * Pow2(k - l)
    ensures Pow2(k) == 2 * Pow2(k - 1) && Pow2(l - 1) * Pow2(k - l) == Pow2(k - 1)
  {
    Pow2Add(l - 1, k - l);
  }

  /** At level l the root in use is w^f, f = 2^(k-l); it has order 2^l. */
  lemma {:induction false} LevelRoot(w: int, k: nat, l: nat, m: int)
    requires 1 <= l <= k && RootOfUnity(w, Pow2(k - 1), m)
    ensures RootOfUnity(Pow(w, Pow2(k - l)), Pow2(l - 1), m)
  {
    hide Cong, Pow, Pow2;
    LevelSizes(k, l);
    PowMul(w, Pow2(k - l), Pow2(l - 1));
    MulComm(Pow2(k - l), Pow2(l - 1));
  }

  lemma {:induction false} NextRoot(r: int, r': int, w: int, f: nat, m: int)
    requires Cong(r', Square(r), m) && Cong(r, Pow(w, f), m)
    ensures Cong(r', Pow(w, 2 * f), m)
  {
    hide Cong, Pow;
    CongMul(r, Pow(w, f), r, Pow(w, f), m);
    PowAdd(w, f, f);
    CongTrans(r', r * r, Pow(w, 2 * f), m);
  }

  /** The tables for one modulus, with a cache of tables of powers. */
  class State {
    const m: Limb
    const mInv: Limb
    const root: seq<Limb>
    const rootQ: seq<Limb>
    const rootBack: seq<Limb>
    const rootBackQ: seq<Limb>
    const lenInv: seq<Limb>
    const lenInvQ: seq<Limb>
    var trig: map<(bool, nat), seq<Limb>>

    /** Everything but the cache. */
    ghost predicate Tables() {
      && MOD_MIN < m < MOD_MAX && mInv == InitMulModFast(m)
      && PowersFrom(root, rootQ, m, 1) && PowersFrom(rootBack, rootBackQ, m, 1) && LengthTable(lenInv, lenInvQ, m)
      && (forall k: nat | 1 <= k <= PROOT_2EXP :: InversePair(root[k], rootBack[k], k, m))
    }

    ghost function Root(inverse: bool, k: nat): Limb
      requires Tables() && k <= PROOT_2EXP
    {
      if inverse then rootBack[k] else root[k]
    }

    ghost predicate Valid()
      reads this
    {
      Tables() && forall key | key in trig ::
          1 <= key.1 <= TRIG_K_MAX && IsTrig(trig[key], Root(key.0, key.1), Pow2(key.1 - 1), m)
    }

    /** Tables from a root p of order 2^PROOT_2EXP and its inverse. */
    constructor (m: Limb, p: Limb, pBack: Limb)
      requires MOD_MIN < m < MOD_MAX && m % 2 == 1 && p < m && pBack < m
      requires RootOfUnity(p, Pow2(PROOT_2EXP - 1), m) && Cong(pBack as int * p, 1, m)
      ensures Valid() && this.m == m && Root(false, PROOT_2EXP) == p && Root(true, PROOT_2EXP) == pBack
    {
      hide Cong, RootOfUnity, InitMulModFast, PowersFrom, LengthTable, InversePair, Pow2;
      var v := InitMulModFast(m);
      var c, cq := BuildLengthInverses(m, v);
      var r, q := BuildPowers(p, m, v);
      var rb, qb := BuildPowers(pBack, m, v);
      PowersLength(r, q, m, 1);
      PowersLength(rb, qb, m, 1);
      forall k: nat | 1 <= k <= PROOT_2EXP
        ensures InversePair(r[k], rb[k], k, m)
      {
        RootsOfAllOrders(r, q, rb, qb, m, k);
      }
      this.m, mInv, lenInv, lenInvQ := m, v, c, cq;
      root, rootQ, rootBack, rootBackQ := r, q, rb, qb;
      trig := map[];
    }

    /** The table of powers for order 2^k, built on first use. */
    method GetTrig(k: nat, inverse: bool) returns (t: Option<seq<Limb>>)
      requires Valid() && k >= 1
      modifies this`trig
      ensures Valid() && (t.None? <==> k > TRIG_K_MAX)
      ensures t.Some? ==> IsTrig(t.value, Root(inverse, k), Pow2(k - 1), m)
    {
      hide IsTrig, Pow2, InitMulModFast, LengthTable, InversePair, InitMulModFast2;
      if k > TRIG_K_MAX {
        return None;
      }
      if (inverse, k) in trig {
        return Some(trig[(inverse, k)]);
      }
      ModRange();
      var c, q := if inverse then rootBack[k] else root[k], if inverse then rootBackQ[k] else rootQ[k];
      var tab := BuildTrig(c, q, Pow2(k - 1), m);
      trig := trig[(inverse, k) := tab];
      t := Some(tab);
    }

    /** One round of the outer loop: a stage at level l, from tin to tout. */
    method Round(tin: array<Limb>, tout: array<Limb>, k: nat, l: nat, f: nat, h: nat, t: seq<Limb>, inverse: bool,
        ghost x: seq<Limb>)
      requires Tables() && 2 <= l <= k <= TRIG_K_MAX && f == Pow2(k - l) && h == Pow2(l - 1) && tin != tout
      requires Pow2(k) <= tin.Length && Pow2(k) <= tout.Length && SmallUpTo(tin[..Pow2(k)], m)
      requires IsTrig(t, Root(inverse, l), h, m) && Cong(Root(inverse, l), Pow(Root(inverse, k), f), m)
      requires AllTrack(x, tin[..Pow2(k)], f, 2 * h, Root(inverse, k), m)
      modifies tout
      ensures SmallUpTo(tout[..Pow2(k)], m) && AllTrack(x, tout[..Pow2(k)], 2 * f, h, Root(inverse, k), m)
      ensures Cong(Root(inverse, l - 1), Pow(Root(inverse, k), 2 * f), m)
    {
      hide *;
      TablesRange();
      var n := Pow2(k);
      ghost var w := Root(inverse, k);
      ghost var u := Pow(w, f);
      LevelSizes(k, l);
      RootHasOrder(inverse, k);
      TrigFor(t, Root(inverse, l), u, h, m);
      SmallAt(tin, n, m);
      Stage(tin, tout, n, f, h, t, m, u);
      LevelRoot(w, k, l, m);
      StageInvariant(x, tin[..n], tout[..n], f, h, w, m);
      SmallSlice(tout, n, m);
      SquaredRoots(inverse, l);
      NextRoot(Root(inverse, l), Root(inverse, l - 1), w, f, m);
    }

    lemma TablesRange()
      requires Tables()
      ensures 0 < m && 4 * m < B && TRIG_K_MAX <= PROOT_2EXP
    {
      ModRange();
    }

    lemma RootHasOrder(inverse: bool, k: nat)
      requires Tables() && 1 <= k <= PROOT_2EXP
      ensures RootOfUnity(Root(inverse, k), Pow2(k - 1), m)
    {
      hide RootOfUnity, Pow2;
      assert InversePair(root[k], rootBack[k], k, m);
    }

    lemma SquaredRoots(inverse: bool, l: nat)
      requires Tables() && 2 <= l <= PROOT_2EXP
      ensures Cong(Root(inverse, l - 1), Square(Root(inverse, l)), m)
    {
      hide Cong, Square;
      assert Squared(root, m, l) && Squared(rootBack, m, l);
    }

    /**
     The transform of the first 2^k entries of inb, in natural order. Lengths beyond the
     table limit are refused before anything is written.
     */
    method Transform(out: array<Limb>, inb: array<Limb>, tmp: array<Limb>, k: nat, inverse: bool) returns (ok: bool)
      requires Valid() && k >= 1 && Pow2(k) <= inb.Length && Pow2(k) <= tmp.Length && Pow2(k) <= out.Length
      requires tmp != inb && tmp != out && SmallUpTo(inb[..Pow2(k)], m)
      modifies this`trig, inb, tmp, out
      ensures Valid() && (ok <==> k <= TRIG_K_MAX)
      ensures ok ==> forall i: nat | i < Pow2(k) :: OutputAt(old(inb[..Pow2(k)]), out[i], Root(inverse, k), m, i)
      ensures !ok ==> inb[..] == old(inb[..]) && tmp[..] == old(tmp[..]) && out[..] == old(out[..])
    {
      hide IsTrig, Pow2, Pow, Cong, AllTrack, RootOfUnity, InitMulModFast, PowersFrom, LengthTable, OutputAt, SmallUpTo;
      var n := Pow2(k);
      ghost var x := inb[..n];
      var nb, f, l := n, 1, k;
      var tabIn, tabOut := inb, tmp;
      LevelStart(k);
      if k <= TRIG_K_MAX {
        TrackStart(x, Root(inverse, k), m);
        RootItself(Root(inverse, k), m);
      }
      while nb != 2
        invariant 1 <= l <= k && nb == Pow2(l) && f == Pow2(k - l) && Valid()
        invariant (tabIn == inb && tabOut == tmp) || (tabIn == tmp && tabOut == inb)
        invariant l == k ==> inb[..] == old(inb[..]) && tmp[..] == old(tmp[..]) && out[..] == old(out[..])
        invariant l < k ==> k <= TRIG_K_MAX
        invariant SmallUpTo(tabIn[..n], m)
        invariant k <= TRIG_K_MAX ==> AllTrack(x, tabIn[..n], f, nb, Root(inverse, k), m)
        invariant k <= TRIG_K_MAX ==> Cong(Root(inverse, l), Pow(Root(inverse, k), f), m)
        decreases l
      {
        LevelDown(l);
        LevelSizes(k, l);
        nb := nb / 2;
        var t := GetTrig(l, inverse);
        if t.None? {
          return false;
        }
        Round(tabIn, tabOut, k, l, f, nb, t.value, inverse, x);
        f, l := 2 * f, l - 1;
        tabIn, tabOut := tabOut, tabIn;
      }
      LevelLast(k, l);
      ModRange();
      assert k <= TRIG_K_MAX;
      RootHasOrder(inverse, k);
      SmallAt(tabIn, n, m);
      LastStage(tabIn, out, n / 2, m, x, Root(inverse, k));
      ok := true;
    }

    /** Entry-wise product of two transforms, times 1 / 2^kTot. */
    method VecMul(tab1: array<Limb>, tab2: array<Limb>, k: nat, kTot: nat)
      requires Tables() && kTot <= PROOT_2EXP && tab1 != tab2 && Pow2(k) <= tab1.Length && Pow2(k) <= tab2.Length
      requires SmallUpTo(tab1[..Pow2(k)], m) && SmallUpTo(tab2[..Pow2(k)], m)
      modifies tab1
      ensures SmallUpTo(tab1[..Pow2(k)], m) && Cong(lenInv[kTot] * Pow2(kTot), 1, m)
      ensures ScaledProduct(tab1[..Pow2(k)], old(tab1[..Pow2(k)]), tab2[..Pow2(k)], lenInv[kTot], m)
    {
      hide *;
      var n := Pow2(k);
      ghost var x := tab1[..n];
      LengthEntry(kTot);
      SmallAt(tab1, n, m);
      SmallAt(tab2, n, m);
      var norm, normInv := lenInv[kTot], lenInvQ[kTot];
      var i := 0;
      while i < n
        invariant 0 <= i <= n
        invariant forall z | 0 <= z < n :: tab1[z] < 2 * m
        invariant forall z | i <= z < n :: tab1[z] == x[z]
        invariant forall z | 0 <= z < i :: Scaled(tab1[z], x[z], tab2[z], norm, m)
      {
        tab1[i] := ScaleProduct(tab1[i], tab2[i], norm, normInv);
        i := i + 1;
      }
      SmallSlice(tab1, n, m);
      ScaledAll(tab1[..n], x, tab2[..n], norm, m);
    }

    lemma LengthEntry(k: nat)
      requires Tables() && k <= PROOT_2EXP
      ensures |lenInv| == |lenInvQ| == PROOT_2EXP + 1 && lenInv[k] < m && lenInvQ[k] == InitMulModFast2(lenInv[k], m)
      ensures Cong(lenInv[k] * Pow2(k), 1, m)
    {
      hide Cong, Pow2, InitMulModFast2;
      assert LengthInverse(lenInv[k], lenInvQ[k], m, k);
    }

    /** a * b * norm, lazily reduced. */
    function ScaleProduct(a: Limb, b: Limb, norm: Limb, normInv: Limb): (r: Limb)
      requires Tables() && a < 2 * m && b < 2 * m && norm < m && normInv == InitMulModFast2(norm, m)
      ensures r < 2 * m && Scaled(r, a, b, norm, m)
    {
      hide Cong, InitMulModFast2, MulModFast;
      TablesRange();
      var a' := if a >= m then a - m else a;
      ProductReduces(a', b, m);
      var p := MulModFast(a', b, m, mInv);
      ScaledBy(a, a', b, p, norm, MulModFast3(p, norm, m, normInv), m);
      MulModFast3(p, norm, m, normInv)
    }

    /** Cyclic convolution of the first 2^k entries, modulo m, left in buf1. */
    method Convolve(buf1: array<Limb>, buf2: array<Limb>, k: nat)
      requires Valid() && 1 <= k <= TRIG_K_MAX && buf1 != buf2 && Pow2(k) <= buf1.Length && Pow2(k) <= buf2.Length
      requires SmallUpTo(buf1[..Pow2(k)], m) && SmallUpTo(buf2[..Pow2(k)], m)
      modifies this`trig, buf1, buf2
      ensures Valid() && SmallUpTo(buf1[..Pow2(k)], m)
      ensures forall j: nat | j < Pow2(k) ::
        Cong(buf1[j], ConvolutionSum(old(buf1[..Pow2(k)]), old(buf2[..Pow2(k)]), j, Pow2(k)), m)
    {
      hide *;
      var n := Pow2(k);
      ValidTables();
      TablesRange();
      var buf3 := new Limb[n];
      ghost var x, y := buf1[..n], buf2[..n];
      var ok := Transform(buf1, buf1, buf3, k, false);
      ghost var s := buf1[..n];
      OutputsSpectrum(x, s, Root(false, k), m);
      assert buf2[..n] == y;
      ok := Transform(buf2, buf2, buf3, k, false);
      ghost var t := buf2[..n];
      OutputsSpectrum(y, t, Root(false, k), m);
      assert buf1[..n] == s;
      VecMul(buf1, buf2, k, k);
      ghost var p := buf1[..n];
      assert buf2[..n] == t;
      ok := Transform(buf1, buf1, buf3, k, true);
      ghost var r := buf1[..n];
      OutputsSpectrum(p, r, Root(true, k), m);
      RootPair(k);
      LengthEntry(k);
      forall j: nat | j < n
        ensures Cong(buf1[j], ConvolutionSum(x, y, j, n), m)
      {
        ConvolutionTheorem(x, y, s, t, p, r, lenInv[k], Root(false, k), Root(true, k), k, j, m);
        assert r[j] == buf1[j];
      }
    }

    lemma ValidTables()
      requires Valid()
      ensures Tables()
    {
    }

    lemma RootPair(k: nat)
      requires Tables() && 1 <= k <= PROOT_2EXP
      ensures InversePair(Root(false, k), Root(true, k), k, m)
    {
      hide InversePair;
    }
  }

  /** r is norm * a * b modulo m. */
  ghost predicate Scaled(r: int, a: int, b: int, norm: int, m: int) {
    Cong(r, norm * (a * b), m)
  }

  lemma ScaledAll(p: seq<int>, s: seq<int>, t: seq<int>, norm: int, m: int)
    requires |p| == |s| == |t| && forall z | 0 <= z < |p| :: Scaled(p[z], s[z], t[z], norm, m)
    ensures ScaledProduct(p, s, t, norm, m)
  {
    hide Cong;
    forall i | 0 <= i < |p|
      ensures Cong(p[i], norm * (s[i] * t[i]), m)
    {
      assert Scaled(p[i], s[i], t[i], norm, m);
    }
  }

  lemma ScaledBy(a: int, a': int, b: int, p: int, norm: int, r: int, m: int)
    requires m > 0 && (a' == a || a' == a - m) && Cong(p, a' * b, m) && (r == p * norm % m || r == p * norm % m + m)
    ensures Scaled(r, a, b, norm, m) && r < 2 * m
  {
    hide Cong;
    CongBy(a', a, m, if a' == a then 0 else -1);
    CongEqual(b, b, m);
    CongMul(a', a, b, b, m);
    CongTrans(p, a' * b, a * b, m);
    CongEqual(norm, norm, m);
    CongMul(p, a * b, norm, norm, m);
    MulComm(a * b, norm);
    CongMod(p * norm, m);
    var d := p * norm % m;
    CongBy(r, d, m, if r == d then 0 else 1);
    CongTrans(r, d, p * norm, m);
    CongTrans(r, p * norm, norm * (a * b), m);
  }

  lemma OutputsSpectrum(x: seq<Limb>, o: seq<Limb>, w: int, m: int)
    requires |x| == |o| && forall i: nat | i < |o| :: OutputAt(x, o[i], w, m, i)
    ensures IsSpectrum(o, x, w, m) && SmallUpTo(o, m)
  {
    hide Cong;
    forall i | 0 <= i < |o|
      ensures Cong(o[i], Eval(x, Pow(w, i)), m) && o[i] < 2 * m
    {
      assert OutputAt(x, o[i], w, m, i);
    }
  }

  lemma {:induction false} LevelStart(k: nat)
    requires k >= 1
    ensures Pow2(k - k) == 1 && Pow2(k) >= 2
  {
  }

  lemma {:induction false} LevelDown(l: nat)
    requires l >= 1 && Pow2(l) != 2
    ensures l >= 2 && Pow2(l) / 2 == Pow2(l - 1)
  {
  }

  lemma {:induction false} LevelLast(k: nat, l: nat)
    requires 1 <= l <= k && Pow2(l) == 2
    ensures l == 1 && Pow2(k) / 2 == Pow2(k - 1) && 2 * Pow2(k - 1) == Pow2(k)
  {
  }

  lemma RootItself(w: int, m: int)
    requires m > 0
    ensures Cong(w, Pow(w, 1), m)
  {
    PowStep(w, 0);
    CongEqual(w, w, m);
  }

  lemma SmallAt(a: array<Limb>, n: nat, m: int)
    requires n <= a.Length && SmallUpTo(a[..n], m)
    ensures forall i | 0 <= i < n :: a[i] < 2 * m
  {
    assert forall i | 0 <= i < n :: a[i] == a[..n][i];
  }

  lemma SmallSlice(a: array<Limb>, n: nat, m: int)
    requires n <= a.Length && forall i | 0 <= i < n :: a[i] < 2 * m
    ensures SmallUpTo(a[..n], m)
  {
  }
}
