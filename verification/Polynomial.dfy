/**
 The discrete Fourier transform modulo m, as evaluation of a polynomial at the powers of
 a root: how one butterfly stage halves it, how it is inverted, and how products of
 transforms are transforms of cyclic convolutions.
 */
module Polynomial {
  import opened Arith
  import opened Congruence

  /** s[0] + s[1] * z + s[2] * z^2 + ... */
  function Eval(s: seq<int>, z: int): int {
    if s == [] then 0 else s[0] + z * Eval(s[1..], z)
  }

  lemma {:induction false} EvalSplit(s: seq<int>, t: seq<int>, z: int)
    ensures Eval(s + t, z) == Eval(s, z) + Pow(z, |s|) * Eval(t, z)
    decreases |s|
  {
    if s == [] {
      assert s + t == t;
    } else {
      assert (s + t)[1..] == s[1..] + t;
      EvalSplit(s[1..], t, z);
      EvalSplitShuffle(z, Eval(s[1..], z), Pow(z, |s| - 1), Eval(t, z));
    }
  }

  lemma EvalSplitShuffle(z: int, x: int, p: int, y: int)
    ensures z * (x + p * y) == z * x + (z * p) * y
  {
  }

  /** c is a + s * b entry by entry, modulo m. */
  ghost predicate Combination(c: seq<int>, a: seq<int>, s: int, b: seq<int>, m: int) {
    |a| == |b| == |c| && forall i :: 0 <= i < |c| ==> Cong(c[i], a[i] + s * b[i], m)
  }

  lemma {:induction false} EvalCombination(c: seq<int>, a: seq<int>, s: int, b: seq<int>, z: int, m: int)
    requires Combination(c, a, s, b, m) && m > 0
    ensures Cong(Eval(c, z), Eval(a, z) + s * Eval(b, z), m)
    decreases |c|
  {
    hide Cong;
    if c == [] {
      CongEqual(0, 0 + s * 0, m);
    } else {
      EvalCombination(c[1..], a[1..], s, b[1..], z, m);
      CongLinear(c[0], a[0] + s * b[0], z, Eval(c[1..], z), Eval(a[1..], z) + s * Eval(b[1..], z), m);
      CombinationShuffle(a[0], b[0], s, z, Eval(a[1..], z), Eval(b[1..], z));
    }
  }

  lemma CombinationShuffle(a: int, b: int, s: int, z: int, x: int, y: int)
    ensures a + s * b + z * (x + s * y) == (a + z * x) + s * (b + z * y)
  {
  }

  /** b is a with entry i multiplied by k * w^i, modulo m. */
  ghost predicate Twisted(b: seq<int>, a: seq<int>, k: int, w: int, m: int) {
    |a| == |b| && forall i :: 0 <= i < |b| ==> Cong(b[i], k * (a[i] * Pow(w, i)), m)
  }

  lemma {:induction false} TwistedTail(b: seq<int>, a: seq<int>, k: int, w: int, m: int)
    requires Twisted(b, a, k, w, m) && m > 0 && b != []
    ensures Cong(b[0], k * a[0], m) && Twisted(b[1..], a[1..], k * w, w, m)
  {
    hide Cong;
    assert a[0] * Pow(w, 0) == a[0];
    forall i | 0 <= i < |b| - 1
      ensures Cong(b[1..][i], k * w * (a[1..][i] * Pow(w, i)), m)
    {
      assert Pow(w, i + 1) == w * Pow(w, i);
      TwistShuffle(k, a[i + 1], w, Pow(w, i));
    }
  }

  lemma TwistShuffle(k: int, a: int, w: int, p: int)
    ensures k * (a * (w * p)) == k * w * (a * p)
  {
  }

  lemma {:induction false} EvalTwisted(b: seq<int>, a: seq<int>, k: int, w: int, z: int, m: int)
    requires Twisted(b, a, k, w, m) && m > 0
    ensures Cong(Eval(b, z), k * Eval(a, w * z), m)
    decreases |b|
  {
    hide Cong, Twisted;
    if b == [] {
      assert a == [] by { TwistedLength(b, a, k, w, m); }
      CongEqual(0, k * 0, m);
    } else {
      TwistedLength(b, a, k, w, m);
      TwistedTail(b, a, k, w, m);
      EvalTwisted(b[1..], a[1..], k * w, w, z, m);
      CongLinear(b[0], k * a[0], z, Eval(b[1..], z), k * w * Eval(a[1..], w * z), m);
      EvalTwistShuffle(k, a[0], w, z, Eval(a[1..], w * z));
    }
  }

  lemma TwistedLength(b: seq<int>, a: seq<int>, k: int, w: int, m: int)
    requires Twisted(b, a, k, w, m)
    ensures |a| == |b|
  {
  }

  lemma EvalTwistShuffle(k: int, a: int, w: int, z: int, x: int)
    ensures k * a + z * (k * w * x) == k * (a + w * z * x)
  {
  }

  lemma {:induction false} EvalCong(a: seq<int>, z: int, y: int, m: int)
    requires Cong(z, y, m)
    ensures Cong(Eval(a, z), Eval(a, y), m)
    decreases |a|
  {
    hide Cong;
    CongPositive(z, y, m);
    if a == [] {
      CongEqual(0, 0, m);
    } else {
      EvalCong(a[1..], z, y, m);
      CongMul(z, y, Eval(a[1..], z), Eval(a[1..], y), m);
      CongEqual(a[0], a[0], m);
      CongLinear(a[0], a[0], 1, z * Eval(a[1..], z), y * Eval(a[1..], y), m);
    }
  }

  // ----- one butterfly stage -----

  /** w is a root of order 2h: its h-th power is -1. */
  ghost predicate RootOfUnity(w: int, h: nat, m: int) {
    Cong(Pow(w, h), -1, m)
  }

  lemma {:induction false} RootPowers(w: int, h: nat, q: nat, m: int)
    requires RootOfUnity(w, h, m)
    ensures Cong(Pow(Pow(w, 2 * q), h), 1, m) && Cong(Pow(Pow(w, 2 * q + 1), h), -1, m)
  {
    hide Cong, Pow;
    PowMul(w, 2 * q, h);
    PowMul(w, h, 2 * q);
    PowMul(w, 2 * q + 1, h);
    PowMul(w, h, 2 * q + 1);
    MulComm(2 * q, h);
    MulComm(2 * q + 1, h);
    CongPow(Pow(w, h), -1, 2 * q, m);
    CongPow(Pow(w, h), -1, 2 * q + 1, m);
    PowOne(q);
  }

  /** Even outputs come from the sums. */
  lemma {:induction false} EvenOutput(lo: seq<int>, hi: seq<int>, b: seq<int>, w: int, h: nat, q: nat, m: int)
    requires |lo| == |hi| == h && RootOfUnity(w, h, m) && Combination(b, lo, 1, hi, m) && m > 0
    ensures Cong(Eval(lo + hi, Pow(w, 2 * q)), Eval(b, Pow(w * w, q)), m)
  {
    hide Cong, Pow, Eval, Combination, RootOfUnity;
    var z := Pow(w, 2 * q);
    RootPowers(w, h, q, m);
    EvalSplit(lo, hi, z);
    CongEqual(Eval(lo, z), Eval(lo, z), m);
    CongLinear(Eval(lo, z), Eval(lo, z), Eval(hi, z), Pow(z, h), 1, m);
    MulComm(Eval(hi, z), Pow(z, h));
    EvalCombination(b, lo, 1, hi, z, m);
    CongSym(Eval(b, z), Eval(lo, z) + 1 * Eval(hi, z), m);
    CongTrans(Eval(lo + hi, z), Eval(lo, z) + Eval(hi, z) * 1, Eval(b, z), m);
    SquareRoot(w, q);
  }

  lemma {:induction false} SquareRoot(w: int, q: nat)
    ensures Pow(w * w, q) == Pow(w, 2 * q) && Pow(w, 2 * q + 1) == w * Pow(w * w, q)
  {
    hide Pow;
    PowStep(w, 1);
    PowMul(w, 2, q);
    PowStep(w, 2 * q);
  }

  /** Odd outputs come from the twisted differences. */
  lemma {:induction false} OddOutput(lo: seq<int>, hi: seq<int>, d: seq<int>, b: seq<int>, w: int, h: nat, q: nat,
      m: int)
    requires |lo| == |hi| == h && RootOfUnity(w, h, m) && Combination(d, lo, -1, hi, m) && Twisted(b, d, 1, w, m)
    requires m > 0
    ensures Cong(Eval(lo + hi, Pow(w, 2 * q + 1)), Eval(b, Pow(w * w, q)), m)
  {
    hide Cong, Pow, Eval, Combination, RootOfUnity, Twisted;
    var z := Pow(w, 2 * q + 1);
    RootPowers(w, h, q, m);
    EvalSplit(lo, hi, z);
    CongEqual(Eval(lo, z), Eval(lo, z), m);
    CongLinear(Eval(lo, z), Eval(lo, z), Eval(hi, z), Pow(z, h), -1, m);
    MulComm(Eval(hi, z), Pow(z, h));
    EvalCombination(d, lo, -1, hi, z, m);
    SquareRoot(w, q);
    EvalTwisted(b, d, 1, w, Pow(w * w, q), m);
    CongSym(Eval(b, Pow(w * w, q)), 1 * Eval(d, z), m);
    CongSym(Eval(d, z), Eval(lo, z) + -1 * Eval(hi, z), m);
    CongTrans(Eval(lo + hi, z), Eval(lo, z) + Eval(hi, z) * -1, Eval(d, z), m);
    CongTrans(Eval(lo + hi, z), Eval(d, z), Eval(b, Pow(w * w, q)), m);
  }

  // ----- inversion -----

  /** 1 + z + ... + z^(n-1) */
  function Geometric(z: int, n: nat): int {
    if n == 0 then 0 else 1 + z * Geometric(z, n - 1)
  }

  lemma {:induction false} GeometricSplit(z: int, a: nat, b: nat)
    ensures Geometric(z, a + b) == Geometric(z, a) + Pow(z, a) * Geometric(z, b)
    decreases a
  {
    if a > 0 {
      GeometricSplit(z, a - 1, b);
      assert Geometric(z, a + b) == 1 + z * Geometric(z, a - 1 + b);
      EvalSplitShuffle(z, Geometric(z, a - 1), Pow(z, a - 1), Geometric(z, b));
    }
  }

  lemma {:induction false} GeometricCong(z: int, y: int, n: nat, m: int)
    requires Cong(z, y, m)
    ensures Cong(Geometric(z, n), Geometric(y, n), m)
  {
    hide Cong;
    CongPositive(z, y, m);
    if n == 0 {
      CongEqual(0, 0, m);
    } else {
      GeometricCong(z, y, n - 1, m);
      CongMul(z, y, Geometric(z, n - 1), Geometric(y, n - 1), m);
      CongEqual(1, 1, m);
      CongLinear(1, 1, 1, z * Geometric(z, n - 1), y * Geometric(y, n - 1), m);
    }
  }

  lemma {:induction false} GeometricOne(n: nat)
    ensures Geometric(1, n) == n
  {
    if n > 0 {
      GeometricOne(n - 1);
    }
  }

  /** A full period of the powers of any root but 1 sums to zero. No primality is needed. */
  lemma {:induction false} GeometricVanishes(w: int, k: nat, d: nat, m: int)
    requires k >= 1 && RootOfUnity(w, Pow2(k - 1), m) && 0 < d < Pow2(k)
    ensures Cong(Geometric(Pow(w, d), Pow2(k)), 0, m)
    decreases k
  {
    hide Cong, Pow, RootOfUnity, Geometric;
    var h, z := Pow2(k - 1), Pow(w, d);
    RootPositive(w, h, m);
    GeometricSplit(z, h, h);
    var g := Geometric(z, h);
    if d % 2 == 1 {
      RootPowers(w, h, d / 2, m);
      assert d == 2 * (d / 2) + 1;
      CongEqual(g, g, m);
      CongLinear(g, g, g, Pow(z, h), -1, m);
      MulComm(g, Pow(z, h));
      assert g + g * -1 == 0;
    } else {
      assert d == 2 * (d / 2);
      SquareRoot(w, d / 2);
      SquareIsRoot(w, k, m);
      GeometricVanishes(w * w, k - 1, d / 2, m);
      CongMul(g, 0, 1 + Pow(z, h), 1 + Pow(z, h), m) by {
        CongEqual(1 + Pow(z, h), 1 + Pow(z, h), m);
      }
      FactorShuffle(g, Pow(z, h));
    }
  }

  lemma FactorShuffle(g: int, p: int)
    ensures g * (1 + p) == g + p * g && 0 * (1 + p) == 0
  {
  }

  lemma RootPositive(w: int, h: nat, m: int)
    requires RootOfUnity(w, h, m)
    ensures m > 0
  {
  }

  lemma {:induction false} SquareIsRoot(w: int, k: nat, m: int)
    requires k >= 2 && RootOfUnity(w, Pow2(k - 1), m)
    ensures RootOfUnity(w * w, Pow2(k - 2), m)
  {
    hide Cong, Pow;
    assert Pow2(k - 1) == 2 * Pow2(k - 2);
    SquareRoot(w, Pow2(k - 2));
  }

  /** The transform of x: its values at the first n powers of w. */
  ghost function Spectrum(x: seq<int>, w: int, n: nat): (s: seq<int>)
    ensures |s| == n
  {
    seq(n, i requires 0 <= i < n => Eval(x, Pow(w, i)))
  }

  /** wi is the inverse of the root w of order n = 2^k. */
  ghost predicate InversePair(w: int, wi: int, k: nat, m: int) {
    k >= 1 && m > 0 && Cong(wi * w, 1, m) && RootOfUnity(w, Pow2(k - 1), m) && RootOfUnity(wi, Pow2(k - 1), m)
  }

  /** Powers of w and of its inverse cancel. */
  lemma {:induction false} PowersCancel(w: int, wi: int, j: nat, t: nat, m: int)
    requires m > 0 && Cong(wi * w, 1, m)
    ensures Cong(Pow(wi, j) * Pow(w, j + t), Pow(w, t), m)
    ensures Cong(Pow(wi, j + t) * Pow(w, j), Pow(wi, t), m)
  {
    hide Cong, Pow;
    PowProduct(wi, w, j);
    CongPow(wi * w, 1, j, m);
    PowOne(j);
    PowAdd(w, j, t);
    PowAdd(wi, j, t);
    CancelStep(Pow(wi, j) * Pow(w, j), Pow(w, t), m);
    CancelStep(Pow(wi, j) * Pow(w, j), Pow(wi, t), m);
    CancelShuffle(Pow(wi, j), Pow(w, j), Pow(w, t), Pow(wi, t));
  }

  lemma CancelStep(x: int, p: int, m: int)
    requires Cong(x, 1, m)
    ensures Cong(x * p, p, m)
  {
    hide Cong;
    CongPositive(x, 1, m);
    CongEqual(p, p, m);
    CongMul(x, 1, p, p, m);
  }

  lemma CancelShuffle(a: int, b: int, p: int, q: int)
    ensures a * (b * p) == a * b * p && a * q * b == a * b * q
  {
  }

  /** Orthogonality: the sum of (wi^j * w^t)^i over a full period is n if t = j and 0 otherwise. */
  lemma {:induction false} Orthogonal(w: int, wi: int, k: nat, j: nat, t: nat, m: int)
    requires InversePair(w, wi, k, m) && j < Pow2(k) && t < Pow2(k)
    ensures Cong(Geometric(Pow(wi, j) * Pow(w, t), Pow2(k)), if t == j then Pow2(k) else 0, m)
  {
    hide Cong, Pow, RootOfUnity, Geometric, Pow2;
    var n, z := Pow2(k), Pow(wi, j) * Pow(w, t);
    if t == j {
      PowersCancel(w, wi, j, 0, m);
      PowStep(w, 0);
      GeometricCong(z, 1, n, m);
      GeometricOne(n);
    } else if j < t {
      PowersCancel(w, wi, j, t - j, m);
      GeometricCong(z, Pow(w, t - j), n, m);
      GeometricVanishes(w, k, t - j, m);
      CongTrans(Geometric(z, n), Geometric(Pow(w, t - j), n), 0, m);
    } else {
      PowersCancel(w, wi, t, j - t, m);
      GeometricCong(z, Pow(wi, j - t), n, m);
      GeometricVanishes(wi, k, j - t, m);
      CongTrans(Geometric(z, n), Geometric(Pow(wi, j - t), n), 0, m);
    }
  }

  /** The transform of the single coefficient at t, evaluated at u. */
  lemma {:induction false} EvalPowers(w: int, t: nat, u: int, n: nat)
    ensures Eval(seq(n, i requires 0 <= i < n => Pow(Pow(w, i), t)), u) == Geometric(u * Pow(w, t), n)
  {
    EvalPowersFrom(w, t, u, 0, n);
    var s := seq(n, i requires 0 <= i < n => Pow(Pow(w, i), t));
    assert s == seq(n, i requires 0 <= i < n => Pow(Pow(w, 0 + i), t));
    PowMul(w, 0, t);
    PowOne(t);
  }

  lemma {:induction false} EvalPowersFrom(w: int, t: nat, u: int, i0: nat, n: nat)
    ensures Eval(seq(n, i requires 0 <= i < n => Pow(Pow(w, i0 + i), t)), u)
        == Pow(Pow(w, i0), t) * Geometric(u * Pow(w, t), n)
    decreases n
  {
    hide Pow;
    var s := seq(n, i requires 0 <= i < n => Pow(Pow(w, i0 + i), t));
    if n > 0 {
      EvalPowersFrom(w, t, u, i0 + 1, n - 1);
      assert s[1..] == seq(n - 1, i requires 0 <= i < n - 1 => Pow(Pow(w, i0 + 1 + i), t));
      PowStep(w, i0);
      PowProduct(w, Pow(w, i0), t);
      PowersShuffle(Pow(Pow(w, i0), t), Pow(w, t), u, Geometric(u * Pow(w, t), n - 1));
    }
  }

  lemma PowersShuffle(p: int, w: int, u: int, g: int)
    ensures p + u * (w * p * g) == p * (1 + u * w * g)
  {
  }

  lemma {:induction false} EvalSnoc(x: seq<int>, c: int, z: int)
    ensures Eval(x + [c], z) == Eval(x, z) + c * Pow(z, |x|)
  {
    EvalSplit(x, [c], z);
    assert Eval([c], z) == c + z * Eval([], z);
  }

  /** What the first t coefficients contribute to the inverse transform at j. */
  lemma {:induction false} InversePartial(x: seq<int>, w: int, wi: int, k: nat, j: nat, t: nat, m: int)
    requires InversePair(w, wi, k, m) && |x| == Pow2(k) && j < Pow2(k) && t <= |x|
    ensures Cong(Eval(Spectrum(x[..t], w, Pow2(k)), Pow(wi, j)), if j < t then Pow2(k) * x[j] else 0, m)
    decreases t
  {
    hide Cong, Pow, Eval, InversePair, Pow2;
    var n, u := Pow2(k), Pow(wi, j);
    assert m > 0 by { PairPositive(w, wi, k, m); }
    if t == 0 {
      SpectrumOfZero(w, n, u);
      assert x[..0] == [];
      CongEqual(0, 0, m);
    } else {
      var p := seq(n, i requires 0 <= i < n => Pow(Pow(w, i), t - 1));
      InversePartial(x, w, wi, k, j, t - 1, m);
      SpectrumSnoc(x, w, t - 1, n, p, m);
      EvalCombination(Spectrum(x[..t], w, n), Spectrum(x[..t - 1], w, n), x[t - 1], p, u, m);
      EvalPowers(w, t - 1, u, n);
      Orthogonal(w, wi, k, j, t - 1, m);
      var g := if t - 1 == j then n else 0;
      var e := if j < t - 1 then n * x[j] else 0;
      CongLinear(Eval(Spectrum(x[..t - 1], w, n), u), e, x[t - 1], Eval(p, u), g, m);
      CongTrans(Eval(Spectrum(x[..t], w, n), u), Eval(Spectrum(x[..t - 1], w, n), u) + x[t - 1] * Eval(p, u),
          e + x[t - 1] * g, m);
      assert x[t - 1] * 0 == 0 && x[t - 1] * n == n * x[t - 1];
    }
  }

  lemma PairPositive(w: int, wi: int, k: nat, m: int)
    requires InversePair(w, wi, k, m)
    ensures m > 0
  {
  }

  lemma {:induction false} SpectrumOfZero(w: int, n: nat, u: int)
    ensures Eval(Spectrum([], w, n), u) == 0
  {
    if n > 0 {
      SpectrumOfZero(w, n - 1, u);
      assert Spectrum([], w, n)[1..] == Spectrum([], w, n - 1);
    }
  }

  lemma {:induction false} SpectrumSnoc(x: seq<int>, w: int, t: nat, n: nat, p: seq<int>, m: int)
    requires t < |x| && m > 0 && p == seq(n, i requires 0 <= i < n => Pow(Pow(w, i), t))
    ensures Combination(Spectrum(x[..t + 1], w, n), Spectrum(x[..t], w, n), x[t], p, m)
  {
    hide Cong, Pow, Eval;
    forall i | 0 <= i < n
      ensures Cong(Spectrum(x[..t + 1], w, n)[i], Spectrum(x[..t], w, n)[i] + x[t] * p[i], m)
    {
      assert x[..t + 1] == x[..t] + [x[t]];
      EvalSnoc(x[..t], x[t], Pow(w, i));
      CongEqual(Eval(x[..t + 1], Pow(w, i)), Eval(x[..t], Pow(w, i)) + x[t] * p[i], m);
    }
  }

  /** Transforming back gives every coefficient times the length. */
  lemma {:induction false} Inversion(x: seq<int>, w: int, wi: int, k: nat, j: nat, m: int)
    requires InversePair(w, wi, k, m) && |x| == Pow2(k) && j < Pow2(k)
    ensures Cong(Eval(Spectrum(x, w, Pow2(k)), Pow(wi, j)), Pow2(k) * x[j], m)
  {
    hide Cong, Pow, Eval, InversePair, Pow2, Spectrum;
    InversePartial(x, w, wi, k, j, |x|, m);
    assert x[..|x|] == x;
  }

  // ----- cyclic convolution -----

  /** The sum of x[i] * y[j] over i < t and i + j = k modulo the length. */
  function ConvolutionSum(x: seq<int>, y: seq<int>, k: nat, t: nat): int
    requires t <= |x| && |y| > 0
  {
    if t == 0 then 0 else ConvolutionSum(x, y, k, t - 1) + x[t - 1] * y[(k - (t - 1)) % |y|]
  }

  ghost function Convolution(x: seq<int>, y: seq<int>, t: nat): (c: seq<int>)
    requires t <= |x| && |y| > 0
    ensures |c| == |y|
  {
    seq(|y|, k requires 0 <= k < |y| => ConvolutionSum(x, y, k, t))
  }

  ghost function Rotated(y: seq<int>, t: nat): (r: seq<int>)
    requires |y| > 0
    ensures |r| == |y|
  {
    seq(|y|, k requires 0 <= k < |y| => y[(k - t) % |y|])
  }

  lemma {:induction false} RotatedParts(y: seq<int>, t: nat)
    requires t < |y|
    ensures Rotated(y, t) == y[|y| - t..] + y[..|y| - t]
  {
    var n := |y|;
    forall k | 0 <= k < n
      ensures Rotated(y, t)[k] == (y[n - t..] + y[..n - t])[k]
    {
      RotatedIndex(k, t, n);
    }
  }

  lemma RotatedIndex(k: int, t: int, n: int)
    requires 0 <= k < n && 0 <= t < n
    ensures (k - t) % n == if k < t then k - t + n else k - t
  {
    if k < t {
      DivModUnique(k - t, n, -1, k - t + n);
    } else {
      DivModUnique(k - t, n, 0, k - t);
    }
  }

  /** Rotating by t multiplies the value at an n-th root of unity z by z^t. */
  lemma {:induction false} EvalRotated(y: seq<int>, t: nat, z: int, m: int)
    requires t < |y| && Cong(Pow(z, |y|), 1, m)
    ensures Cong(Eval(Rotated(y, t), z), Pow(z, t) * Eval(y, z), m)
  {
    hide Cong, Pow, Eval, Rotated;
    var n := |y|;
    var lo, hi := y[..n - t], y[n - t..];
    CongPositive(Pow(z, n), 1, m);
    RotatedParts(y, t);
    EvalSplit(hi, lo, z);
    assert y == lo + hi;
    EvalSplit(lo, hi, z);
    PowAdd(z, t, n - t);
    CongEqual(Pow(z, t) * Eval(lo, z), Pow(z, t) * Eval(lo, z), m);
    CongSym(Pow(z, n), 1, m);
    CongLinear(Pow(z, t) * Eval(lo, z), Pow(z, t) * Eval(lo, z), Eval(hi, z), 1, Pow(z, n), m);
    RotateShuffle(Pow(z, t), Pow(z, n - t), Eval(lo, z), Eval(hi, z));
  }

  lemma RotateShuffle(p: int, q: int, lo: int, hi: int)
    ensures p * lo + hi * 1 == hi + p * lo && p * lo + hi * (p * q) == p * (lo + q * hi)
  {
  }

  lemma {:induction false} ConvolutionStep(x: seq<int>, y: seq<int>, t: nat, m: int)
    requires t < |x| && |y| > 0 && m > 0
    ensures Combination(Convolution(x, y, t + 1), Convolution(x, y, t), x[t], Rotated(y, t), m)
  {
    hide Cong;
    forall k | 0 <= k < |y|
      ensures Cong(Convolution(x, y, t + 1)[k], Convolution(x, y, t)[k] + x[t] * Rotated(y, t)[k], m)
    {
      CongEqual(ConvolutionSum(x, y, k, t + 1), ConvolutionSum(x, y, k, t) + x[t] * Rotated(y, t)[k], m);
    }
  }

  /** At an n-th root of unity the value of a cyclic convolution is the product of the values. */
  lemma {:induction false} EvalConvolution(x: seq<int>, y: seq<int>, t: nat, z: int, m: int)
    requires t <= |x| == |y| && |y| > 0 && Cong(Pow(z, |y|), 1, m)
    ensures Cong(Eval(Convolution(x, y, t), z), Eval(x[..t], z) * Eval(y, z), m)
    decreases t
  {
    hide Cong, Pow, Eval, Convolution, Rotated;
    CongPositive(Pow(z, |y|), 1, m);
    if t == 0 {
      ConvolutionOfZero(x, y, z, |y|);
      assert x[..0] == [];
      assert Eval([], z) == 0 by { SpectrumEmpty(z); }
      CongEqual(0, 0 * Eval(y, z), m);
    } else {
      var e := Eval(y, z);
      EvalConvolution(x, y, t - 1, z, m);
      ConvolutionStep(x, y, t - 1, m);
      EvalCombination(Convolution(x, y, t), Convolution(x, y, t - 1), x[t - 1], Rotated(y, t - 1), z, m);
      EvalRotated(y, t - 1, z, m);
      CongLinear(Eval(Convolution(x, y, t - 1), z), Eval(x[..t - 1], z) * e, x[t - 1], Eval(Rotated(y, t - 1), z),
          Pow(z, t - 1) * e, m);
      assert x[..t] == x[..t - 1] + [x[t - 1]];
      EvalSnoc(x[..t - 1], x[t - 1], z);
      ConvolutionShuffle(Eval(x[..t - 1], z), x[t - 1], Pow(z, t - 1), e);
      CongTrans(Eval(Convolution(x, y, t), z),
          Eval(Convolution(x, y, t - 1), z) + x[t - 1] * Eval(Rotated(y, t - 1), z),
                Eval(x[..t], z) * e, m);
    }
  }

  lemma SpectrumEmpty(z: int)
    ensures Eval([], z) == 0
  {
  }

  lemma ConvolutionShuffle(a: int, c: int, p: int, e: int)
    ensures a * e + c * (p * e) == (a + c * p) * e
  {
  }

  lemma {:induction false} EvalZeros(s: seq<int>, z: int)
    requires forall i :: 0 <= i < |s| ==> s[i] == 0
    ensures Eval(s, z) == 0
    decreases |s|
  {
    if s != [] {
      EvalZeros(s[1..], z);
    }
  }

  lemma {:induction false} ConvolutionOfZero(x: seq<int>, y: seq<int>, z: int, n: nat)
    requires |y| > 0
    ensures Eval(Convolution(x, y, 0), z) == 0
  {
    EvalZeros(Convolution(x, y, 0), z);
  }

  /** s holds the transform of x, entry by entry modulo m. */
  ghost predicate IsSpectrum(s: seq<int>, x: seq<int>, w: int, m: int) {
    |s| == |x| && forall i :: 0 <= i < |s| ==> Cong(s[i], Eval(x, Pow(w, i)), m)
  }

  /** p is c times the entry-wise product of s and t, modulo m. */
  ghost predicate ScaledProduct(p: seq<int>, s: seq<int>, t: seq<int>, c: int, m: int) {
    |p| == |s| == |t| && forall i :: 0 <= i < |p| ==> Cong(p[i], c * (s[i] * t[i]), m)
  }

  lemma ProductLength(p: seq<int>, s: seq<int>, t: seq<int>, c: int, m: int)
    requires ScaledProduct(p, s, t, c, m)
    ensures |p| == |s|
  {
  }

  lemma {:induction false} RootPeriod(w: int, k: nat, i: nat, m: int)
    requires k >= 1 && RootOfUnity(w, Pow2(k - 1), m)
    ensures Cong(Pow(Pow(w, i), Pow2(k)), 1, m)
  {
    hide Cong, Pow;
    var n := Pow2(k);
    assert n == 2 * Pow2(k - 1);
    RootPowers(w, Pow2(k - 1), i, m);
    PowMul(w, i, n);
    PowMul(w, 2 * i, Pow2(k - 1));
    assert 2 * i * Pow2(k - 1) == i * n;
  }

  /** The product of two transforms, entry i, is c times the transform of the convolution. */
  lemma {:induction false} ProductEntry(x: seq<int>, y: seq<int>, s: seq<int>, t: seq<int>, p: seq<int>, c: int,
      w: int, k: nat, i: nat, m: int)
    requires k >= 1 && |x| == |y| == Pow2(k) && i < Pow2(k) && RootOfUnity(w, Pow2(k - 1), m)
    requires IsSpectrum(s, x, w, m) && IsSpectrum(t, y, w, m) && ScaledProduct(p, s, t, c, m)
    ensures Cong(p[i], c * Eval(Convolution(x, y, |x|), Pow(w, i)), m)
  {
    hide Cong, Pow, Eval, Convolution, RootOfUnity, Pow2;
    var z := Pow(w, i);
    RootPositive(w, Pow2(k - 1), m);
    RootPeriod(w, k, i, m);
    CongMul(s[i], Eval(x, z), t[i], Eval(y, z), m);
    EvalConvolution(x, y, |x|, z, m);
    assert x[..|x|] == x;
    CongSym(Eval(Convolution(x, y, |x|), z), Eval(x, z) * Eval(y, z), m);
    CongTrans(s[i] * t[i], Eval(x, z) * Eval(y, z), Eval(Convolution(x, y, |x|), z), m);
    CongEqual(0, 0, m);
    CongLinear(0, 0, c, s[i] * t[i], Eval(Convolution(x, y, |x|), z), m);
    CongTrans(p[i], c * (s[i] * t[i]), c * Eval(Convolution(x, y, |x|), z), m);
  }

  /**
   Convolution theorem: transform x and y with w, multiply entry by entry by each other and
   by the inverse c of the length, transform with the inverse root: entry j of the outcome is
   the sum of x[i] * y[j - i], indices modulo the length.
   */
  lemma {:induction false} ConvolutionTheorem(x: seq<int>, y: seq<int>, s: seq<int>, t: seq<int>, p: seq<int>,
      r: seq<int>, c: int, w: int, wi: int, k: nat, j: nat, m: int)
    requires InversePair(w, wi, k, m) && |x| == |y| == Pow2(k) && j < Pow2(k) && Cong(c * Pow2(k), 1, m)
    requires IsSpectrum(s, x, w, m) && IsSpectrum(t, y, w, m) && ScaledProduct(p, s, t, c, m) && IsSpectrum(r, p, wi, m)
    ensures Cong(r[j], ConvolutionSum(x, y, j, |x|), m)
  {
    hide Cong, Pow, Eval, RootOfUnity, Pow2, ScaledProduct, ConvolutionSum;
    var n, u := Pow2(k), Pow(wi, j);
    var v := Convolution(x, y, |x|);
    ProductLength(p, s, t, c, m);
    forall i | 0 <= i < n
      ensures Cong(p[i], c * (Spectrum(v, w, n)[i] * Pow(1, i)), m)
    {
      ProductEntry(x, y, s, t, p, c, w, k, i, m);
      PowOne(i);
    }
    EvalTwisted(p, Spectrum(v, w, n), c, 1, u, m);
    Inversion(v, w, wi, k, j, m);
    CongEqual(0, 0, m);
    CongLinear(0, 0, c, Eval(Spectrum(v, w, n), u), n * v[j], m);
    CancelStep(c * n, v[j], m);
    MulAssoc(c, n, v[j]);
    CongTrans(r[j], Eval(p, u), c * Eval(Spectrum(v, w, n), u), m);
    CongTrans(r[j], c * Eval(Spectrum(v, w, n), u), c * (n * v[j]), m);
    CongTrans(r[j], c * (n * v[j]), v[j], m);
  }
}
