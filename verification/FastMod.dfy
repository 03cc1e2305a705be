/**
 Remainders and quotients by a fixed divisor, computed by multiplying with a precomputed
 inverse instead of dividing.
 */
module FastMod {
  import opened Arith
  import opened Limbs
  import opened LimbOps
  import opened Bits
  import opened Congruence

  /** The transform's moduli lie between 2^(LIMB_BITS - 3) and 2^(LIMB_BITS - 2). */
  const MOD_MIN: nat := B / 8
  const MOD_MAX: nat := B / 4

  lemma ModRange()
    ensures B == 8 * MOD_MIN && B == 4 * MOD_MAX && MOD_MIN >= 0x2000_0000
  {
  }

  // ----- sums and differences -----

  function AddMod(a: Limb, b: Limb, m: Limb): (r: Limb)
    requires a < m && b < m && 2 * m <= B
    ensures r < m && r == (a + b) % m
  {
    var r := WAdd(a, b);
    DivModUnique(a + b, m, if a + b >= m then 1 else 0, if a + b >= m then a + b - m else a + b);
    if r >= m then WSub(r, m) else r
  }

  function SubMod(a: Limb, b: Limb, m: Limb): (r: Limb)
    requires a < m && b < m
    ensures r < m && r == (a - b) % m
  {
    var r := WSub(a, b);
    DivModUnique(a - b, m, if a < b then -1 else 0, if a < b then a - b + m else a - b);
    if r > a then WAdd(r, m) else r
  }

  // ----- multiplication by a constant with a known inverse -----

  /** floor(b * B / m). */
  function InitMulModFast2(b: Limb, m: Limb): (r: Limb)
    requires b < m
    ensures r * m <= b * B < r * m + m
  {
    InverseBelow(b, m, B);
    b * B / m
  }

  lemma InverseBelow(b: int, m: int, base: int)
    requires 0 <= b < m && base > 0
    ensures var r := b * base / m; 0 <= r < base && r * m <= b * base < r * m + m
  {
    var r := b * base / m;
    DivFacts(b * base, m);
    InverseRange(b, m, r, base);
  }

  lemma InverseRange(b: int, m: int, r: int, base: int)
    requires 0 <= b < m && r * m <= b * base < r * m + m && base > 0
    ensures 0 <= r < base
  {
    MulMono(b + 1, m, base);
    assert (b + 1) * base == b * base + base && m * base == base * m;
    MulCancel(r, base, m);
    MulMono(0, b, base);
    assert (r + 1) * m == r * m + m;
    MulCancel(0, r + 1, m);
  }

  /** The quotient estimate is the true quotient of a * b by m or one less. */
  lemma EstimateNear(a: Limb, b: Limb, m: Limb, bInv: Limb, q: int)
    requires b < m && bInv * m <= b * B < bInv * m + m && q == a * bInv / B
    ensures 0 <= a * b - q * m < 2 * m
  {
    DivFacts(a * bInv, B);
    NearBounds(a, b, m, bInv, q, B, b * B - bInv * m, a * bInv % B);
  }

  lemma NearBounds(a: int, b: int, m: int, v: int, q: int, base: int, e: int, rest: int)
    requires e == b * base - v * m && 0 <= e < m && a * v == q * base + rest && 0 <= rest < base && 0 <= a < base
    ensures 0 <= a * b - q * m < 2 * m
  {
    NearShuffle(a, b, m, v, q, base, e, rest);
    TwoParts(a, e, rest, m, base);
    Below(a * b - q * m, 2, m, base, a * e + rest * m);
  }

  /** Two products, each below base * m. */
  lemma TwoParts(a: int, e: int, rest: int, m: int, base: int)
    requires 0 <= e < m && 0 <= rest < base && 0 <= a < base
    ensures 0 <= a * e <= base * m && 0 <= rest * m < base * m
  {
    MulBetween(a, 0, e, m);
    MulMono(a, base, m);
    MulMono(0, rest, m);
    MulMono(rest + 1, base, m);
    assert (rest + 1) * m == rest * m + m;
  }

  lemma Below(d: int, k: int, m: int, base: int, x: int)
    requires d * base == x && 0 <= x < k * (base * m) && base > 0
    ensures 0 <= d < k * m
  {
    assert k * (base * m) == k * m * base;
    MulCancel(d, k * m, base);
    MulCancel(-1, d, base);
  }

  lemma NearShuffle(a: int, b: int, m: int, v: int, q: int, base: int, e: int, rest: int)
    requires e == b * base - v * m && a * v == q * base + rest
    ensures (a * b - q * m) * base == a * e + rest * m
  {
    assert a * e == a * (b * base) - a * (v * m);
    assert a * (v * m) == (a * v) * m;
    assert (q * base + rest) * m == q * m * base + rest * m;
  }

  lemma NearRemainder(x: int, q: int, m: int)
    requires 0 <= x - q * m < 2 * m <= B
    ensures var r := (x - q * m) % B; 0 <= r < B && r == x - q * m && (r == x % m || r == x % m + m)
  {
    var r := x - q * m;
    DivModUnique(r, B, 0, r);
    assert (q + 1) * m == q * m + m;
    DivModUnique(x, m, if r >= m then q + 1 else q, if r >= m then r - m else r);
  }

  /** a * b mod m, or that plus m. */
  function MulModFast3(a: Limb, b: Limb, m: Limb, bInv: Limb): (r: Limb)
    requires b < m && 2 * m <= B && bInv == InitMulModFast2(b, m)
    ensures r == a * b % m || r == a * b % m + m
  {
    var q := a * bInv / B;
    EstimateNear(a, b, m, bInv, q);
    NearRemainder(a * b, q, m);
    (a * b - q * m) % B
  }

  function MulModFast2(a: Limb, b: Limb, m: Limb, bInv: Limb): (r: Limb)
    requires b < m && 2 * m <= B && bInv == InitMulModFast2(b, m)
    ensures r == a * b % m
  {
    var r := MulModFast3(a, b, m, bInv);
    CongMod(a * b, m);
    if r >= m then r - m else r
  }

  // ----- remainder of a double limb -----

  /** Bitwise and. */
  function And(x: nat, y: nat): nat {
    if x == 0 || y == 0 then 0 else (x % 2) * (y % 2) + 2 * And(x / 2, y / 2)
  }

  lemma {:induction false} AndOnes(x: nat, k: nat)
    requires x < Pow2(k)
    ensures And(x, Pow2(k) - 1) == x
  {
    if x != 0 {
      AndOnes(x / 2, k - 1);
      assert (Pow2(k) - 1) / 2 == Pow2(k - 1) - 1;
    }
  }

  lemma {:induction false} AndMask(x: Limb)
    ensures And(x, 0) == 0 && And(x, B - 1) == x
  {
    hide Pow2, And;
    BaseIsPow2();
    AndOnes(x, LIMB_BITS);
    AndZero(x);
  }

  lemma {:induction false} AndZero(x: nat)
    ensures And(x, 0) == 0
  {
  }

  /** The signed word x shifted right by one. */
  function SignedShift(x: Limb): Limb {
    if 2 * x >= B then (x + B) / 2 else x / 2
  }

  /** floor(2^(LIMB_BITS + LOG2_MIN) / m), cut to a limb. */
  function InitMulModFast(m: Limb): Limb
    requires MOD_MIN <= m < MOD_MAX
  {
    B * MOD_MIN / m % B
  }

  /** The first step of the reduction: subtract the estimated multiple of m and 2m more, modulo B^2. */
  function ModFastStart(r: nat, m: Limb, mInv: Limb): (s: nat)
    requires m > 0
    ensures s < B * B
  {
    var a1 := r / MOD_MIN % B;
    var q := a1 * mInv / B;
    (r - q * m - 2 * m) % (B * B)
  }

  /** Add m while the high limb says the value is negative, twice at most. */
  function ModFastEnd(s: nat, m: Limb): Limb
    requires s < B * B && m < B
  {
    var t0 := SignedShift(HighLimb(s));
    var s' := (s + And(m, t0)) % (B * B);
    CongMod(s + And(m, t0), B * B);
    (s' % B + And(m, HighLimb(s'))) % B
  }

  function HighLimb(s: nat): Limb
    requires s < B * B
  {
    DivFacts(s, B);
    MulCancel(s / B, B, B);
    s / B
  }

  function ModFast(r: nat, m: Limb, mInv: Limb): Limb
    requires m > 0
  {
    ModFastEnd(ModFastStart(r, m, mInv), m)
  }

  /** With the exact inverse the estimate leaves between 0 and 3m. */
  lemma ModEstimate(r: nat, m: Limb, mInv: int, a1: int, q: int)
    requires MOD_MIN < m < MOD_MAX && r < B * MOD_MIN && mInv == B * MOD_MIN / m && a1 == r / MOD_MIN
    requires q == a1 * mInv / B
    ensures 0 <= r - q * m < 3 * m && 0 <= a1 < B
  {
    var c := MOD_MIN;
    ModRange();
    DivFacts(r, c);
    DivFacts(B * c, m);
    DivFacts(a1 * mInv, B);
    MulCancel(a1, B, c);
    MulCancel(-1, a1, c);
    EstimateBounds(r, m, mInv, a1, q, c, B, r % c, B * c % m, a1 * mInv % B);
  }

  /** b (r - q m) expanded: the three roundings cost less than m each. */
  lemma EstimateBounds(r: int, m: int, v: int, a: int, q: int, c: int, b: int, x: int, y: int, z: int)
    requires r == a * c + x && b * c == v * m + y && a * v == q * b + z
    requires 0 <= x < c && 0 <= y < m && 0 <= z < b && 0 < c <= m && 0 <= a < b
    ensures 0 <= r - q * m < 3 * m
  {
    EstimateShuffle(r, m, v, a, q, c, b, x, y, z);
    TwoParts(a, y, z, m, b);
    MulBetween(b, 0, x, m);
    Below(r - q * m, 3, m, b, a * y + z * m + b * x);
  }

  lemma EstimateShuffle(r: int, m: int, v: int, a: int, q: int, c: int, b: int, x: int, y: int, z: int)
    requires r == a * c + x && b * c == v * m + y && a * v == q * b + z
    ensures (r - q * m) * b == a * y + z * m + b * x
  {
    assert a * c * b == a * (b * c);
    assert a * (v * m + y) == (a * v) * m + a * y;
    assert (q * b + z) * m == q * m * b + z * m;
  }

  /** A value between -2m and m, held modulo B^2, is brought into [0, m). */
  lemma {:induction false} EndReduces(x: int, m: Limb)
    requires 0 < m && 2 * m <= B && 0 <= x + 2 * m && x < m
    ensures ModFastEnd(x % (B * B), m) == if x >= 0 then x else if x + m >= 0 then x + m else x + 2 * m
  {
    hide And, SignedShift, HighLimb;
    AndMask(m);
    WrapSmall(x);
    SignMask(x);
    var y := if x >= 0 then x else x + m;
    WrapAdd(x, if x >= 0 then 0 else m);
    WrapSmall(y);
    LowEnd(y, m);
  }

  lemma SignMask(x: int)
    ensures SignedShift(if x >= 0 then 0 else B - 1) == if x >= 0 then 0 else B - 1
  {
  }

  /** Small values wrapped modulo B^2: the high limb is all zeros or all ones. */
  lemma WrapSmall(x: int)
    requires 0 <= x + B && x < B
    ensures x % (B * B) == (if x >= 0 then x else x + B * B)
    ensures 0 <= x % (B * B) < B * B && HighLimb(x % (B * B)) == if x >= 0 then 0 else B - 1
  {
    assert B < B * B;
    DivModUnique(x, B * B, if x >= 0 then 0 else -1, if x >= 0 then x else x + B * B);
    var s := if x >= 0 then x else x + B * B;
    DivModUnique(s, B, if x >= 0 then 0 else B - 1, if x >= 0 then x else x + B);
  }

  lemma WrapAdd(x: int, k: int)
    ensures (x % (B * B) + k) % (B * B) == (x + k) % (B * B)
  {
    var m := B * B;
    CongMod(x, m);
    CongEqual(k, k, m);
    CongLinear(k, k, 1, x % m, x, m);
    CongIffMod(x % m + k, x + k, m);
  }

  lemma {:induction false} LowEnd(y: int, m: Limb)
    requires 0 < m && 2 * m <= B && 0 <= y + m && y < m && 0 <= y % (B * B) < B * B
    ensures ((y % (B * B)) % B + And(m, HighLimb(y % (B * B)))) % B == if y >= 0 then y else y + m
  {
    hide And;
    AndMask(m);
    WrapSmall(y);
    var s := y % (B * B);
    DivModUnique(s, B, if y >= 0 then 0 else B - 1, if y >= 0 then y else y + B);
    var r := if y >= 0 then y else y + m;
    DivModUnique(s % B + (if y >= 0 then 0 else m), B, if y >= 0 then 0 else 1, r);
  }

  /** The reduction gives the true remainder for every modulus whose inverse fits a limb. */
  lemma {:induction false} ModFastCorrect(r: nat, m: Limb)
    requires MOD_MIN < m < MOD_MAX && r < B * MOD_MIN
    ensures ModFast(r, m, InitMulModFast(m)) == r % m
  {
    hide ModFastEnd;
    ModRange();
    var c := MOD_MIN;
    var v := B * c / m;
    InverseFits(m);
    var a1 := r / c;
    var q := a1 * v / B;
    ModEstimate(r, m, v, a1, q);
    DivModUnique(a1, B, 0, a1);
    var x := r - q * m - 2 * m;
    EndReduces(x, m);
    var t := if x >= 0 then 2 else if x + m >= 0 then 1 else 0;
    MulDist(m, q, t);
    DivModUnique(r, m, q + t, r - q * m - t * m);
  }

  lemma InverseFits(m: Limb)
    requires MOD_MIN < m < MOD_MAX
    ensures B * MOD_MIN / m < B && InitMulModFast(m) == B * MOD_MIN / m
  {
    var v := B * MOD_MIN / m;
    assert B * MOD_MIN == m * v + B * MOD_MIN % m;
    if v >= B {
      MulBetween(m, B, v, v);
      MulMono(MOD_MIN + 1, m, B);
    }
    DivModUnique(v, B, 0, v);
  }

  /** The smallest modulus the assertion admits, 2^LOG2_MIN, has an inverse of B that is cut to 0. */
  lemma {:induction false} ModFastFails()
    ensures InitMulModFast(MOD_MIN) == 0 && 3 * MOD_MIN < B * MOD_MIN
    ensures ModFast(3 * MOD_MIN, MOD_MIN, InitMulModFast(MOD_MIN)) != 3 * MOD_MIN % MOD_MIN
  {
    hide ModFastEnd;
    ModRange();
    var c := MOD_MIN;
    DivModUnique(B * c, c, B, 0);
    DivModUnique(3 * c, c, 3, 0);
    EndReduces(c - 1, c);
    SmallStart(c);
    LargeEnd(c);
  }

  lemma SmallStart(c: Limb)
    requires c == MOD_MIN
    ensures ModFastStart(3 * c, c, 0) == c
  {
    ModRange();
    DivModUnique(3 * c, c, 3, 0);
    DivModUnique(c, B * B, 0, c);
  }

  lemma {:induction false} LargeEnd(c: Limb)
    requires c == MOD_MIN
    ensures ModFastEnd(c, c) == c
  {
    hide And;
    AndMask(c);
    WrapSmall(c);
    DivModUnique(c, B, 0, c);
  }

  /** Exactly when mod_fast computes remainders: for every admitted modulus but the smallest. */
  lemma {:induction false} ModFastExact(m: Limb)
    requires MOD_MIN <= m < MOD_MAX
    ensures (forall r: nat | r < B * MOD_MIN :: ModFast(r, m, InitMulModFast(m)) == r % m) <==> m != MOD_MIN
  {
    hide ModFast, InitMulModFast;
    ModRange();
    if m == MOD_MIN {
      ModFastFails();
    } else {
      forall r: nat | r < B * MOD_MIN
        ensures ModFast(r, m, InitMulModFast(m)) == r % m
      {
        ModFastCorrect(r, m);
      }
    }
  }

  function MulModFast(a: Limb, b: Limb, m: Limb, mInv: Limb): Limb
    requires m > 0
  {
    ModFast(a * b, m, mInv)
  }

  // ----- division by a fixed limb -----

  datatype FastDivData = FastDivData(m1: Limb, shift1: nat, shift2: nat)

  /** l with 2^(l-1) < d <= 2^l. */
  function DivisorBits(d: nat): nat
    requires d > 0
  {
    if d == 1 then 0 else BitLength(d - 1)
  }

  lemma {:induction false} DivisorBitsBounds(d: Limb)
    requires d > 0
    ensures var l := DivisorBits(d);
      l <= LIMB_BITS && d <= Pow2(l) <= B && Pow2(l) < 2 * d && (l > 0 ==> Pow2(l) == 2 * Pow2(l - 1))
  {
    if d > 1 {
      BitLengthBounds(d - 1);
      BaseIsPow2();
      BitLengthFits(d - 1, LIMB_BITS);
      Pow2Add(DivisorBits(d), LIMB_BITS - DivisorBits(d));
      MulBetween(Pow2(DivisorBits(d)), 1, Pow2(LIMB_BITS - DivisorBits(d)), Pow2(LIMB_BITS - DivisorBits(d)));
    }
  }

  /** The multiplier floor(B * (2^l - d) / d) + 1. */
  function Multiplier(d: Limb, n: nat): (m: Limb)
    requires 0 < d <= n <= B && n < 2 * d
    ensures (B + m) * d - d <= B * n < (B + m) * d
  {
    MultiplierBounds(d, n, B);
    (n - d) * B / d + 1
  }

  lemma MultiplierBounds(d: int, n: int, b: int)
    requires 0 < d <= n <= b && n < 2 * d && d < b
    ensures var q := (n - d) * b / d; 0 <= q && q + 1 < b && (b + (q + 1)) * d - d <= b * n < (b + (q + 1)) * d
  {
    var q := (n - d) * b / d;
    DivFacts((n - d) * b, d);
    assert (n - d) * b == b * n - d * b;
    assert (b + (q + 1)) * d == d * b + q * d + d;
    MulMono(0, n - d, b);
    assert (q + 1) * d == q * d + d;
    MulCancel(0, q + 1, d);
    MulMono(n - d, d - 1, b);
    assert (d - 1) * b == d * b - b && (b - 1) * d == d * b - d;
    MulCancel(q, b - 1, d);
  }

  /** The truncating shift gives 2^l also for l = LIMB_BITS once d is subtracted modulo B. */
  function FastUdivInit(d: Limb): FastDivData
    requires d > 0
  {
    var l := DivisorBits(d);
    DivisorBitsBounds(d);
    FastDivData(Multiplier(d, Pow2(l)), if l > 1 then 1 else l, if l < 1 then 0 else l - 1)
  }

  function FastUdiv(a: Limb, s: FastDivData): Limb {
    var t1 := s.m1 * a / B;
    assert 0 <= t1 <= a by { HighProduct(s.m1, a, B); }
    var t0 := (a - t1) / Pow2(s.shift1);
    ShiftBelow(a - t1, s.shift1);
    ShiftBelow(t1 + t0, s.shift2);
    (t1 + t0) / Pow2(s.shift2)
  }

  lemma {:induction false} ShiftBelow(x: nat, k: nat)
    ensures Pow2(k) > 0 && 0 <= x / Pow2(k) <= x
  {
    hide Pow2;
    DivFacts(x, Pow2(k));
    var q := x / Pow2(k);
    MulCancel(-1, q, Pow2(k)) by { MulMono(-1, -1, Pow2(k)); }
    MulBetween(q, 1, Pow2(k), Pow2(k));
  }

  lemma HighProduct(m: int, a: int, b: int)
    requires 0 <= m < b && 0 <= a && b > 0
    ensures 0 <= m * a / b <= a
  {
    DivFacts(m * a, b);
    MulMono(m, b, a);
    MulMono(0, m, a);
    assert b * a == a * b;
    var q := m * a / b;
    assert (a + 1) * b == a * b + b && (q + 1) * b == q * b + b;
    MulCancel(q, a + 1, b);
    MulCancel(0, q + 1, b);
  }

  /** Multiplying and shifting is dividing: for every limb and every non-zero divisor. */
  lemma {:induction false} FastUdivCorrect(a: Limb, d: Limb)
    requires d > 0
    ensures FastUdiv(a, FastUdivInit(d)) == a / d
  {
    hide Pow2, DivisorBits, Multiplier;
    var l := DivisorBits(d);
    DivisorBitsBounds(d);
    var n := Pow2(l);
    var m1 := Multiplier(d, n);
    var t1 := m1 * a / B;
    HighProduct(m1, a, B);
    QuotientByReciprocal(a, d, n, m1, B);
    if l == 0 {
      PowTwoSmall();
    } else {
      PowTwoSmall();
      HalfFirst(t1, a - t1);
      DivDiv(t1 + a, 2, Pow2(l - 1));
    }
  }

  lemma {:induction false} PowTwoSmall()
    ensures Pow2(0) == 1 && Pow2(1) == 2
  {
  }

  lemma HalfFirst(t: int, x: int)
    ensures t + x / 2 == (t + t + x) / 2
  {
  }

  /** floor((a + floor(m a / b)) / n) is floor(a / d) when (b + m) d exceeds b n by at most d. */
  lemma QuotientByReciprocal(a: int, d: int, n: int, m: int, b: int)
    requires 0 <= a < b && 0 < d <= n && b > 0 && (b + m) * d - d <= b * n < (b + m) * d
    ensures (a + m * a / b) / n == a / d
  {
    var t, q := m * a / b, a / d;
    DivFacts(m * a, b);
    DivFacts(a, d);
    ReciprocalBounds(a, d, n, m, b, t, m * a % b, q, a % d);
    DivModUnique(a + t, n, q, a + t - q * n);
  }

  /** With y = (b + m) d - b n, x = a mod d and z = m a mod b: b d (a + t - q n) = b n x + a y - d z. */
  lemma ReciprocalBounds(a: int, d: int, n: int, m: int, b: int, t: int, z: int, q: int, x: int)
    requires m * a == t * b + z && 0 <= z < b && a == q * d + x && 0 <= x < d && 0 <= a < b && 0 < d <= n
    requires (b + m) * d - d <= b * n < (b + m) * d
    ensures 0 <= a + t - q * n < n
  {
    var y := (b + m) * d - b * n;
    ReciprocalShuffle(a, d, n, m, b, t, z, q, x, y);
    ReciprocalRange(a, d, n, b, z, x, y, a + t - q * n);
  }

  lemma ReciprocalShuffle(a: int, d: int, n: int, m: int, b: int, t: int, z: int, q: int, x: int, y: int)
    requires m * a == t * b + z && a == q * d + x && y == (b + m) * d - b * n
    ensures (a + t - q * n) * (b * d) == (b * n) * x + a * y - d * z
  {
    assert a * y == a * (b * d) + (m * a) * d - a * (b * n) by { ExpandError(a, b, m, d, n, y); }
    assert (t * b + z) * d == t * (b * d) + d * z;
    ExpandDividend(q, d, x, b, n);
    assert (a + t - q * n) * (b * d) == a * (b * d) + t * (b * d) - q * n * (b * d);
  }

  lemma ExpandError(a: int, b: int, m: int, d: int, n: int, y: int)
    requires y == (b + m) * d - b * n
    ensures a * y == a * (b * d) + (m * a) * d - a * (b * n)
  {
    assert (b + m) * d == b * d + m * d;
    assert a * (m * d) == (m * a) * d;
  }

  lemma ExpandDividend(q: int, d: int, x: int, b: int, n: int)
    ensures (q * d + x) * (b * n) == q * n * (b * d) + (b * n) * x
  {
    assert q * d * (b * n) == q * n * (b * d);
  }

  lemma ReciprocalRange(a: int, d: int, n: int, b: int, z: int, x: int, y: int, e: int)
    requires e * (b * d) == (b * n) * x + a * y - d * z
    requires 0 <= z < b && 0 <= x < d && 0 <= a < b && 0 < y <= d <= n && b > 0
    ensures 0 <= e < n
  {
    MulMono(0, a, y);
    MulMono(a, b - 1, y);
    MulBetween(b - 1, 0, y, n);
    assert (b - 1) * n == b * n - n;
    MulBetween(d, 0, z, b - 1);
    assert d * (b - 1) == b * d - d;
    MulMono(0, b, n);
    MulBetween(b * n, 0, x, d - 1);
    assert (b * n) * (d - 1) == n * (b * d) - b * n;
    MulMono(1, b, d);
    InRange(e, b * d, n, (b * n) * x, a * y, d * z, b * n);
  }

  lemma InRange(e: int, v: int, n: int, s1: int, s2: int, s3: int, u: int)
    requires e * v == s1 + s2 - s3 && 0 <= s1 <= n * v - u && 0 <= s2 <= u - n && 0 <= s3 < v && 0 < n
    ensures 0 <= e < n
  {
    MulCancel(-1, e, v);
    MulCancel(e, n, v);
  }
}
