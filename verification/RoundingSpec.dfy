/**
 What rounding means: powers of two as reals, the rounding directions of IEEE 754, and the
 bits that decide them.
 */
module RoundingSpec {
  import opened Arith

  function Exp2(e: int): (r: real)
    ensures r > 0.0
    decreases if e < 0 then -e else e
  {
    if e == 0 then 1.0 else if e > 0 then 2.0 * Exp2(e - 1) else Exp2(e + 1) / 2.0
  }

  lemma {:induction false} Exp2Step(e: int)
    ensures Exp2(e + 1) == 2.0 * Exp2(e)
  {
  }

  lemma {:induction false} Exp2Nat(e: int, n: nat)
    ensures Exp2(e + n) == Pow2(n) as real * Exp2(e)
  {
    hide Exp2;
    if n > 0 {
      Exp2Nat(e, n - 1);
      Exp2Step(e + n - 1);
      RealAssoc(2.0, Pow2(n - 1) as real, Exp2(e));
    }
  }

  lemma RealStrict(x: real, y: real, z: real)
    requires z > 0.0
    ensures x < y <==> x * z < y * z
    ensures x == y <==> x * z == y * z
  {
  }

  lemma {:induction false} MulReal(x: int, y: nat)
    ensures (x * y) as real == x as real * y as real
  {
    if y > 0 {
      MulReal(x, y - 1);
      assert x * y == x * (y - 1) + x;
    }
  }

  /** n units of 2^e. */
  ghost function Scaled(n: int, e: int): real {
    n as real * Exp2(e)
  }

  lemma {:induction false} ScaledShift(n: int, e: int, k: nat)
    ensures Scaled(n * Pow2(k), e) == Scaled(n, e + k)
  {
    hide Pow2, Exp2;
    MulReal(n, Pow2(k));
    Exp2Nat(e, k);
    RealAssoc(n as real, Pow2(k) as real, Exp2(e));
  }

  lemma RealAssoc(x: real, y: real, z: real)
    ensures (x * y) * z == x * (y * z)
  {
  }

  lemma {:induction false} ScaledOrder(m: int, n: int, e: int)
    ensures m < n <==> Scaled(m, e) < Scaled(n, e)
    ensures m == n <==> Scaled(m, e) == Scaled(n, e)
  {
    hide Exp2;
    RealStrict(m as real, n as real, Exp2(e));
  }

  // ----- rounding directions -----

  datatype RoundingMode = RndN | RndZ | RndD | RndU | RndNA | RndA | RndF

  /** k * u is the magnitude v rounded to a multiple of u, for a number of the given sign. */
  ghost predicate IsRounding(mode: RoundingMode, sign: bool, v: real, u: real, k: int) {
    var y := k as real * u;
    var down, up := y <= v < y + u, y - u < v <= y;
    match mode
    case RndZ => down
    case RndA => up
    case RndD => if sign then up else down
    case RndU => if sign then down else up
    case RndN => -u <= 2.0 * (v - y) <= u && (2.0 * (v - y) == u || 2.0 * (v - y) == -u ==> k % 2 == 0)
    case RndNA => -u <= 2.0 * (v - y) < u
    case RndF => down || up
  }

  // ----- what the directions mean -----

  function Multiple(j: int, u: real): real {
    j as real * u
  }

  /** The greatest multiple of u that is at most x. */
  ghost predicate Greatest(n: int, u: real, x: real) {
    Multiple(n, u) <= x && forall j: int | Multiple(j, u) <= x :: j <= n
  }

  /** The least multiple of u that is at least x. */
  ghost predicate Least(n: int, u: real, x: real) {
    x <= Multiple(n, u) && forall j: int | x <= Multiple(j, u) :: n <= j
  }

  function Distance(x: real, y: real): real {
    if x < y then y - x else x - y
  }

  /** No multiple of u is nearer to x. */
  ghost predicate Nearest(n: int, u: real, x: real) {
    forall j: int :: Distance(x, Multiple(n, u)) <= Distance(x, Multiple(j, u))
  }

  /** Another one is as near. */
  ghost predicate Tie(n: int, u: real, x: real) {
    exists j: int :: j != n && Distance(x, Multiple(j, u)) == Distance(x, Multiple(n, u))
  }

  /** Magnitudes are never rounded up. */
  ghost predicate NeverUp(mode: RoundingMode, sign: bool) {
    forall v: real, u: real, k: int | u > 0.0 && IsRounding(mode, sign, v, u, k) :: Multiple(k, u) <= v
  }

  lemma MultipleNext(j: int, u: real)
    ensures Multiple(j + 1, u) == Multiple(j, u) + u && Multiple(-j, u) == -Multiple(j, u)
  {
  }

  lemma MultipleOrder(i: int, j: int, u: real)
    requires u > 0.0
    ensures i < j <==> Multiple(i, u) < Multiple(j, u)
  {
    RealStrict(i as real, j as real, u);
  }

  lemma {:induction false} GreatestIff(n: int, u: real, x: real)
    requires u > 0.0
    ensures Greatest(n, u, x) <==> Multiple(n, u) <= x < Multiple(n, u) + u
  {
    hide Multiple;
    MultipleNext(n, u);
    if Multiple(n, u) <= x < Multiple(n, u) + u {
      forall j: int | Multiple(j, u) <= x
        ensures j <= n
      {
        MultipleOrder(j, n + 1, u);
      }
    }
  }

  lemma {:induction false} LeastIff(n: int, u: real, x: real)
    requires u > 0.0
    ensures Least(n, u, x) <==> Multiple(n, u) - u < x <= Multiple(n, u)
  {
    hide Multiple;
    MultipleNext(n - 1, u);
    if Multiple(n, u) - u < x <= Multiple(n, u) {
      forall j: int | x <= Multiple(j, u)
        ensures n <= j
      {
        MultipleOrder(n - 1, j, u);
      }
    }
  }

  lemma {:induction false} NearestIff(n: int, u: real, x: real)
    requires u > 0.0
    ensures Nearest(n, u, x) <==> -u <= 2.0 * (x - Multiple(n, u)) <= u
    ensures Nearest(n, u, x) ==>
      (Tie(n, u, x) <==> 2.0 * (x - Multiple(n, u)) == u || 2.0 * (x - Multiple(n, u)) == -u)
  {
    hide Multiple;
    var y := Multiple(n, u);
    MultipleNext(n, u);
    MultipleNext(n - 1, u);
    assert Distance(x, Multiple(n + 1, u)) == Distance(x, y + u);
    assert Distance(x, Multiple(n - 1, u)) == Distance(x, y - u);
    if -u <= 2.0 * (x - y) <= u {
      forall j: int
        ensures Distance(x, y) <= Distance(x, Multiple(j, u))
        ensures Distance(x, y) == Distance(x, Multiple(j, u)) && j != n ==> j == n + 1 || j == n - 1
      {
        MultipleOrder(n + 1, j, u);
        MultipleOrder(j, n - 1, u);
      }
    }
  }

  /** Every direction, for the number of the given sign: x is the number and n units what it is rounded to. */
  lemma {:induction false} Directions(mode: RoundingMode, sign: bool, v: real, u: real, k: int)
    requires u > 0.0
    ensures var x, n := if sign then -v else v, if sign then -k else k;
      IsRounding(mode, sign, v, u, k) <==>
        match mode {
          case RndD => Greatest(n, u, x)
          case RndU => Least(n, u, x)
          case RndZ => Greatest(k, u, v)
          case RndA => Least(k, u, v)
          case RndN => Nearest(n, u, x) && (Tie(n, u, x) ==> n % 2 == 0)
          case RndNA => Nearest(k, u, v) && (Tie(k, u, v) ==> Multiple(k, u) > v)
          case RndF => Greatest(k, u, v) || Least(k, u, v)
        }
  {
    hide Greatest, Least, Nearest, Tie;
    MultipleNext(k, u);
    GreatestIff(k, u, v);
    LeastIff(k, u, v);
    GreatestIff(-k, u, -v);
    LeastIff(-k, u, -v);
    NearestIff(k, u, v);
    NearestIff(-k, u, -v);
  }

  lemma NeverUpIff(mode: RoundingMode, sign: bool)
    ensures NeverUp(mode, sign) <==> mode.RndZ? || (mode.RndD? && !sign) || (mode.RndU? && sign)
  {
    if !(mode.RndZ? || (mode.RndD? && !sign) || (mode.RndU? && sign)) {
      assert Multiple(1, 1.0) == 1.0;
      assert IsRounding(mode, sign, 0.75, 1.0, 1);
    }
  }

  /** The step up decided from the bit below the last kept one, the bits below that, and the last kept bit. */
  function AddOne(mode: RoundingMode, sign: bool, bit1: nat, bit0: bool, last: nat): (add: nat)
    requires bit1 <= 1 && last <= 1
    ensures add <= 1
  {
    var inexact := if bit1 != 0 || bit0 then 1 else 0;
    match mode
    case RndZ => 0
    case RndN => if bit1 == 0 then 0 else if bit0 then 1 else last
    case RndD => if sign then inexact else 0
    case RndU => if sign then 0 else inexact
    case RndA => inexact
    case RndNA => bit1
    case RndF => bit1
  }

  /** v = f * u + bit1 * half + rest with u = 2 * half. */
  lemma AddOneInt(mode: RoundingMode, sign: bool, v: int, half: int, f: int, bit1: nat, rest: int, k: int)
    requires half > 0 && v == f * (2 * half) + bit1 * half + rest && bit1 <= 1 && 0 <= rest < half && f >= 0
    requires k == f + AddOne(mode, sign, bit1, rest != 0 || mode.RndF?, f % 2)
    ensures IntRounding(mode, sign, v, 2 * half, k)
  {
    MulDist(2 * half, f, 1);
    MulDist(2 * half, f, -1);
  }

  /** The rounding directions on integers. */
  ghost predicate IntRounding(mode: RoundingMode, sign: bool, v: int, u: int, k: int) {
    IntDirection(mode, sign, v, k * u, u, k)
  }

  /** w, which is k units u, is v rounded. */
  ghost predicate IntDirection(mode: RoundingMode, sign: bool, v: int, w: int, u: int, k: int) {
    var down, up := w <= v < w + u, w - u < v <= w;
    match mode
    case RndZ => down
    case RndA => up
    case RndD => if sign then up else down
    case RndU => if sign then down else up
    case RndN => -u <= 2 * (v - w) <= u && (2 * (v - w) == u || 2 * (v - w) == -u ==> k % 2 == 0)
    case RndNA => -u <= 2 * (v - w) < u
    case RndF => down || up
  }

  // Each comparison of a rounding, with w = k * u, holds of the scaled numbers as well.

  lemma {:induction false} DownScales(v: int, w: int, u: int, e: int)
    ensures w <= v < w + u <==> Scaled(w, e) <= Scaled(v, e) < Scaled(w, e) + Scaled(u, e)
  {
    hide Scaled;
    ScaledSum(w, u, e);
    ScaledOrder(w, v, e);
    ScaledOrder(v, w + u, e);
  }

  lemma {:induction false} UpScales(v: int, w: int, u: int, e: int)
    ensures w - u < v <= w <==> Scaled(w, e) - Scaled(u, e) < Scaled(v, e) <= Scaled(w, e)
  {
    hide Scaled;
    ScaledSum(w, u, e);
    ScaledOrder(w - u, v, e);
    ScaledOrder(v, w, e);
  }

  lemma {:induction false} HalfScales(v: int, w: int, u: int, e: int)
    ensures var d, d' := 2 * (v - w), 2.0 * (Scaled(v, e) - Scaled(w, e));
      && (d < u <==> d' < Scaled(u, e)) && (d == u <==> d' == Scaled(u, e))
      && (-u < d <==> -Scaled(u, e) < d') && (-u == d <==> -Scaled(u, e) == d')
  {
    hide Scaled;
    ScaledSum(v, w, e);
    ScaledSum(0, u, e);
    ScaledDouble(v - w, e);
    ScaledOrder(2 * (v - w), u, e);
    ScaledOrder(-u, 2 * (v - w), e);
  }

  /** Rounding commutes with scaling by a power of two. */
  lemma {:induction false} RoundingScales(mode: RoundingMode, sign: bool, v: int, p: nat, k: int, e: int)
    requires IntRounding(mode, sign, v, Pow2(p), k)
    ensures IsRounding(mode, sign, Scaled(v, e), Exp2(e + p), k)
  {
    var u: int, w: int := Pow2(p), k * Pow2(p);
    assert Exp2(e + p) == Scaled(u, e) by {
      ScaledShift(1, e, p);
      ScaledOne(e + p);
    }
    assert k as real * Exp2(e + p) == Scaled(w, e) by { ScaledMul(k, u, e); }
    assert IntDirection(mode, sign, v, w, u, k);
    hide Pow2, Exp2, Scaled, IntDirection;
    DirectionScales(mode, sign, v, w, u, k, e);
  }

  lemma {:induction false} DirectionScales(mode: RoundingMode, sign: bool, v: int, w: int, u: int, k: int, e: int)
    requires IntDirection(mode, sign, v, w, u, k) && k as real * Scaled(u, e) == Scaled(w, e)
    ensures IsRounding(mode, sign, Scaled(v, e), Scaled(u, e), k)
  {
    hide Scaled;
    DownScales(v, w, u, e);
    UpScales(v, w, u, e);
    HalfScales(v, w, u, e);
  }

  lemma ScaledOne(e: int)
    ensures Scaled(1, e) == Exp2(e)
  {
  }

  lemma {:induction false} ScaledMul(k: int, u: nat, e: int)
    ensures k as real * Scaled(u, e) == Scaled(k * u, e)
  {
    hide Exp2;
    MulReal(k, u);
    RealAssoc(k as real, u as real, Exp2(e));
  }

  /** Sums and differences scale. */
  lemma {:induction false} ScaledSum(a: int, b: int, e: int)
    ensures Scaled(a + b, e) == Scaled(a, e) + Scaled(b, e) && Scaled(a - b, e) == Scaled(a, e) - Scaled(b, e)
    ensures Scaled(-b, e) == -Scaled(b, e)
  {
    hide Exp2;
  }

  lemma {:induction false} ScaledDouble(a: int, e: int)
    ensures Scaled(2 * a, e) == 2.0 * Scaled(a, e)
  {
    hide Exp2;
  }
}
