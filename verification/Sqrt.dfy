/**
 Karatsuba square root with remainder (Zimmermann): one arithmetic step carries every level,
 from the table look-up on eight bits to the recursion on limb arrays.
 */
module Sqrt {
  import opened Arith
  import opened Limbs
  import opened LimbOps
  import opened Division
  import opened Reciprocal

  // ----- the step, on integers -----
  // A number is (s1^2 + r1) * b^2 + a1 * b + a0; s1 * b + q is its root or one more.

  lemma StepShuffles(b: int, s1: int, q: int, u: int)
    ensures (s1 * b + q) * (s1 * b + q) == (s1 * s1) * (b * b) + b * (q * (2 * s1)) + q * q
    ensures b * (q * (2 * s1) + u) == b * (q * (2 * s1)) + u * b
  {
  }

  /** s1 * b + q with remainder u * b + a0 - q^2, before any correction. */
  lemma StepExact(b: int, s1: int, r1: int, a1: int, a0: int, q: int, u: int)
    requires r1 * b + a1 == q * (2 * s1) + u
    ensures (s1 * b + q) * (s1 * b + q) + (u * b + a0 - q * q) == (s1 * s1 + r1) * (b * b) + a1 * b + a0
  {
    StepShuffles(b, s1, q, u);
    MulDist(b * b, s1 * s1, r1);
    assert b * (r1 * b + a1) == r1 * (b * b) + a1 * b;
  }

  /** The half quotient never exceeds b. */
  lemma StepQuotient(b: int, s1: int, r1: int, a1: int, q: int, u: int)
    requires 0 < b <= 2 * s1 && 0 <= r1 <= 2 * s1 && 0 <= a1 < b && 0 <= u < 2 * s1
    requires r1 * b + a1 == q * (2 * s1) + u
    ensures 0 <= q <= b
  {
    MulMono(r1, 2 * s1, b);
    MulMono(0, r1, b);
    if q > b {
      MulMono(b + 1, q, 2 * s1);
      MulDist(2 * s1, b, 1);
      MulComm(b, 2 * s1);
    }
    if q < 0 {
      MulMono(q, -1, 2 * s1);
    }
  }

  /** The remainder is at most 2s, and a negative one is repaired by taking one off the root. */
  lemma StepRange(b: int, s1: int, a0: int, q: int, u: int)
    requires 0 < b <= 2 * s1 && 0 <= a0 < b && 0 <= u < 2 * s1 && 0 <= q <= b
    ensures var s, r := s1 * b + q, u * b + a0 - q * q;
      && -(b * b) <= r <= 2 * s
      && (q == b && u < b ==> r < 0)
      && (r < 0 ==> 0 <= r + 2 * s - 1 <= 2 * (s - 1))
  {
    MulMono(u, 2 * s1 - 1, b);
    MulMono(0, u, b);
    MulDist(b, 2 * s1, -1);
    MulAssoc(2, s1, b);
    MulBetween(q, 0, q, b);
    MulMono(q, b, b);
    MulMono(b, 2 * s1, b);
    if u < b {
      MulMono(u, b - 1, b);
      MulDist(b, b, -1);
    }
  }

  /** A root and its remainder: s^2 + r = a with 0 <= r <= 2s. */
  ghost predicate IsSqrtRem(a: int, s: int, r: int) {
    s * s + r == a && 0 <= r <= 2 * s && 0 <= s
  }

  /** The corrected step. */
  lemma StepCorrect(a: int, b: int, s1: int, r1: int, a1: int, a0: int, q: int, u: int)
    requires 0 < b <= 2 * s1 && 0 <= r1 <= 2 * s1 && 0 <= a1 < b && 0 <= a0 < b && 0 <= u < 2 * s1
    requires r1 * b + a1 == q * (2 * s1) + u
    requires a == (s1 * s1 + r1) * (b * b) + a1 * b + a0
    ensures 0 <= q <= b && (q == b ==> u * b + a0 - q * q < 0)
    ensures var s, r := s1 * b + q, u * b + a0 - q * q;
      && -(b * b) <= r <= 2 * s
      && if r < 0 then IsSqrtRem(a, s - 1, r + 2 * s - 1) else IsSqrtRem(a, s, r)
  {
    var s, r := s1 * b + q, u * b + a0 - q * q;
    StepQuotient(b, s1, r1, a1, q, u);
    StepExact(b, s1, r1, a1, a0, q, u);
    StepRange(b, s1, a0, q, u);
    if q == b {
      FullQuotient(b, s1, r1, a1, u);
    }
    assert (s - 1) * (s - 1) == s * s - 2 * s + 1;
    MulMono(0, s1, b);
  }

  lemma FullQuotient(b: int, s1: int, r1: int, a1: int, u: int)
    requires 0 < b && r1 <= 2 * s1 && a1 < b && r1 * b + a1 == b * (2 * s1) + u
    ensures u < b
  {
    MulMono(r1, 2 * s1, b);
    MulComm(b, 2 * s1);
  }

  // ----- one limb -----

  /** Square roots of sixteen-bit numbers that end in eight zero bits, from 64 * 256 up, sixteen to a row. */
  const SQRT_TABLE: seq<seq<nat>> := [
    [128, 128, 129, 130, 131, 132, 133, 134, 135, 136, 137, 138, 139, 140, 141, 142],
    [143, 144, 144, 145, 146, 147, 148, 149, 150, 150, 151, 152, 153, 154, 155, 155],
    [156, 157, 158, 159, 160, 160, 161, 162, 163, 163, 164, 165, 166, 167, 167, 168],
    [169, 170, 170, 171, 172, 173, 173, 174, 175, 176, 176, 177, 178, 178, 179, 180],
    [181, 181, 182, 183, 183, 184, 185, 185, 186, 187, 187, 188, 189, 189, 190, 191],
    [192, 192, 193, 193, 194, 195, 195, 196, 197, 197, 198, 199, 199, 200, 201, 201],
    [202, 203, 203, 204, 204, 205, 206, 206, 207, 208, 208, 209, 209, 210, 211, 211],
    [212, 212, 213, 214, 214, 215, 215, 216, 217, 217, 218, 218, 219, 219, 220, 221],
    [221, 222, 222, 223, 224, 224, 225, 225, 226, 226, 227, 227, 228, 229, 229, 230],
    [230, 231, 231, 232, 232, 233, 234, 234, 235, 235, 236, 236, 237, 237, 238, 238],
    [239, 240, 240, 241, 241, 242, 242, 243, 243, 244, 244, 245, 245, 246, 246, 247],
    [247, 248, 248, 249, 249, 250, 250, 251, 251, 252, 252, 253, 253, 254, 254, 255]
  ]

  predicate RootAt(i: nat, s: nat) {
    s * s <= 256 * (i + 64) < (s + 1) * (s + 1)
  }

  predicate RowOfRoots(k: nat, row: seq<nat>) {
    |row| == 16 && forall j | 0 <= j < 16 :: RootAt(16 * k + j, row[j])
  }

  lemma TableLow()
    ensures |SQRT_TABLE| == 12 && forall k | 0 <= k < 4 :: RowOfRoots(k, SQRT_TABLE[k])
  {
  }

  lemma TableMiddle()
    ensures |SQRT_TABLE| == 12 && forall k | 4 <= k < 8 :: RowOfRoots(k, SQRT_TABLE[k])
  {
  }

  lemma TableHigh()
    ensures |SQRT_TABLE| == 12 && forall k | 8 <= k < 12 :: RowOfRoots(k, SQRT_TABLE[k])
  {
  }

  /** The table look-up for the eight leading bits t. */
  function TableRoot(t: nat): (s: nat)
    requires 64 <= t < 256
    ensures s * s <= 256 * t < (s + 1) * (s + 1) && 128 <= s < 256
  {
    hide SQRT_TABLE, RowOfRoots;
    TableLow();
    TableMiddle();
    TableHigh();
    var k, j := (t - 64) / 16, (t - 64) % 16;
    RowEntry(k, j);
    var s := SQRT_TABLE[k][j];
    RootSize(s, t);
    s
  }

  lemma {:induction false} RowEntry(k: nat, j: nat)
    requires k < |SQRT_TABLE| && RowOfRoots(k, SQRT_TABLE[k]) && j < 16
    ensures j < |SQRT_TABLE[k]| && RootAt(16 * k + j, SQRT_TABLE[k][j])
  {
  }

  lemma {:induction false} RootSize(s: nat, t: nat)
    requires 64 <= t < 256 && s * s <= 256 * t < (s + 1) * (s + 1)
    ensures 128 <= s < 256
  {
    if s >= 256 {
      MulMono(256, s, s);
    }
    if s < 128 {
      MulMono(s + 1, 128, s + 1);
    }
  }

  /** One refinement in word arithmetic: b bits more of the root from 2b more bits of the number. */
  function SqrtStep(s1: Limb, r1: Limb, b: nat, hi: nat, lo: nat): (res: (Limb, Limb))
    requires 0 < b <= 2 * s1 && s1 < b && r1 <= 2 * s1 && hi < b && lo < b && 4 * (b * b) <= B
    ensures IsSqrtRem((s1 * s1 + r1) * (b * b) + hi * b + lo, res.0, res.1)
  {
    hide IsSqrtRem;
    var num := r1 * b + hi;
    var q := num / (2 * s1);
    var u := num % (2 * s1);
    StepWords(s1, r1, b, hi, lo, num, q, u);
    var s: Limb := s1 * b + q;
    var x: Limb, y: Limb := u * b + lo, q * q;
    var r := WSub(x, y);
    SignedWords(x, y, s);
    if 2 * r >= B then (s - 1, WAdd(r, 2 * (s - 1) + 1)) else (s, r)
  }

  /** Half-range words: the wrapped difference shows its sign in the top bit, and adding 2(s-1)+1 wraps it back. */
  lemma SignedWords(x: Limb, y: Limb, s: Limb)
    requires 2 * x < B && 2 * y <= B && 2 * s + 1 < B
    ensures 2 * WSub(x, y) >= B <==> x < y
    ensures x < y && s >= 1 && 0 <= x - y + 2 * s - 1 ==> WAdd(WSub(x, y), 2 * (s - 1) + 1) == x - y + 2 * s - 1
  {
  }

  lemma {:induction false} StepWords(s1: Limb, r1: Limb, b: nat, hi: nat, lo: nat, num: int, q: int, u: int)
    requires 0 < b <= 2 * s1 && s1 < b && r1 <= 2 * s1 && hi < b && lo < b && 4 * (b * b) <= B
    requires num == r1 * b + hi && q == num / (2 * s1) && u == num % (2 * s1)
    ensures 0 <= u * b + lo && 2 * (u * b + lo) < B && 0 <= q * q && 2 * (q * q) <= B
    ensures 0 <= s1 * b + q && 2 * (s1 * b + q) + 1 < B
    ensures var a, s, r := (s1 * s1 + r1) * (b * b) + hi * b + lo, s1 * b + q, u * b + lo - q * q;
      && (r < 0 ==> s >= 1 && IsSqrtRem(a, s - 1, r + 2 * s - 1))
      && (r >= 0 ==> IsSqrtRem(a, s, r))
  {
    MulBetween(b, 0, r1, r1);
    EuclideanDivision(num, 2 * s1);
    var a := (s1 * s1 + r1) * (b * b) + hi * b + lo;
    StepCorrect(a, b, s1, r1, hi, lo, q, u);
    StepFits(s1, b, lo, q, u);
  }

  /** The parts of a step fit half a word. */
  lemma StepFits(s1: int, b: int, lo: int, q: int, u: int)
    requires 0 <= s1 < b && 0 <= lo < b && 0 <= q <= b && 0 <= u < 2 * b && 4 * (b * b) <= B
    ensures 0 <= u * b + lo && 2 * (u * b + lo) < B && 0 <= q * q && 2 * (q * q) <= B
    ensures 0 <= s1 * b + q && 2 * (s1 * b + q) + 1 < B
  {
    MulMono(u, 2 * b - 1, b);
    MulDist(b, 2 * b, -1);
    MulAssoc(2, b, b);
    MulMono(0, u, b);
    MulBetween(q, 0, q, b);
    MulMono(q, b, b);
    MulMono(s1, b - 1, b);
    MulMono(0, s1, b);
    MulDist(b, b, -1);
    MulMono(1, b, b);
  }

  /** The k leading bits of a limb. */
  function TopBits(a: Limb, k: nat): nat
    requires k <= LIMB_BITS
  {
    hide Pow2;
    EuclideanDivision(a, Pow2(LIMB_BITS - k));
    a / Pow2(LIMB_BITS - k)
  }

  /** j more bits. */
  lemma {:induction false} TopBitsMore(a: Limb, k: nat, j: nat)
    requires k + j <= LIMB_BITS
    ensures TopBits(a, k + j) == TopBits(a, k) * Pow2(j) + TopBits(a, k + j) % Pow2(j)
  {
    hide Pow2;
    Pow2Add(LIMB_BITS - (k + j), j);
    DivDiv(a, Pow2(LIMB_BITS - (k + j)), Pow2(j));
    EuclideanDivision(TopBits(a, k + j), Pow2(j));
  }

  lemma TopBitsEight(a: Limb)
    requires 4 * a >= B
    ensures 64 <= TopBits(a, 8) < 256
  {
    hide Pow2;
    Pow2Values();
    BaseIsPow2();
    var d := Pow2(LIMB_BITS - 8);
    Pow2Add(8, LIMB_BITS - 8);
    EuclideanDivision(a, d);
    if a / d < 64 {
      MulMono(a / d, 63, d);
    }
    if a / d >= 256 {
      MulMono(256, a / d, d);
    }
  }

  lemma TopBitsAll(a: Limb)
    ensures TopBits(a, LIMB_BITS) == a
  {
  }

  /** From the table, corrected by at most one, the root of the sixteen leading bits. */
  function SqrtSixteen(a: Limb): (res: (Limb, Limb))
    requires 4 * a >= B
    ensures IsSqrtRem(TopBits(a, 16), res.0, res.1) && 128 <= res.0 < 256
  {
    hide Pow2, TableRoot, TopBits, IsSqrtRem;
    TopBitsEight(a);
    TopBitsMore(a, 8, 8);
    Pow2Values();
    var t, x := TopBits(a, 8), TopBits(a, 16);
    var s1 := TableRoot(t);
    var r1 := x - s1 * s1;
    TableCorrection(t, x, s1, r1);
    if r1 > 2 * s1 then (s1 + 1, r1 - (2 * s1 + 1)) else (s1, r1)
  }

  lemma {:induction false} TableCorrection(t: nat, x: nat, s: nat, r: int)
    requires 64 <= t < 256 && 256 * t <= x < 256 * t + 256
    requires s * s <= 256 * t < (s + 1) * (s + 1) && 128 <= s < 256 && r == x - s * s
    ensures 0 <= r < 1024
    ensures r <= 2 * s ==> IsSqrtRem(x, s, r)
    ensures r > 2 * s ==> s < 255 && IsSqrtRem(x, s + 1, r - (2 * s + 1))
  {
    assert (s + 1) * (s + 1) == s * s + 2 * s + 1;
    if s == 255 {
      assert s * s == 65025;
    }
  }

  /** A number in [h^2/4, h^2) has its root in [h/2, h). */
  lemma SqrtRange(x: int, s: int, r: int, h: int)
    requires IsSqrtRem(x, s, r) && h > 0 && h % 2 == 0 && x < h * h <= 4 * x
    ensures s < h <= 2 * s
  {
    if s >= h {
      MulMono(h, s, h);
      MulBetween(s, h, s, s);
      MulComm(s, h);
    }
    assert (2 * s + 2) * (2 * s + 2) == 4 * (s * s) + 8 * s + 4;
    if 2 * s <= h - 2 {
      MulMono(2 * s + 2, h, h);
      MulBetween(2 * s + 2, 2 * s + 2, 2 * s + 2, h);
      MulComm(2 * s + 2, h);
    }
  }

  /** Sixteen more bits than the table gives: the root of the 32 leading bits. */
  lemma SqrtThirtyTwo(a: Limb, s1: Limb, r1: Limb)
    requires 4 * a >= B && IsSqrtRem(TopBits(a, 16), s1, r1)
    ensures (s1 * s1 + r1) * (256 * 256) + (TopBits(a, 24) % 256) * 256 + TopBits(a, 32) % 256 == TopBits(a, 32)
    ensures TopBits(a, 32) < 65536 * 65536 <= 4 * TopBits(a, 32)
  {
    hide Pow2, TopBits;
    Pow2Values();
    TopBitsMore(a, 16, 8);
    TopBitsMore(a, 24, 8);
    TopBitsMore(a, 8, 8);
    TopBitsEight(a);
  }

  lemma SqrtSixtyFour(a: Limb, s: Limb, r: Limb)
    requires LIMB_BITS == 64 && IsSqrtRem(TopBits(a, 32), s, r)
    ensures (s * s + r) * (65536 * 65536) + (TopBits(a, 48) % 65536) * 65536 + TopBits(a, 64) % 65536 == a
  {
    hide Pow2, TopBits;
    Pow2Values();
    TopBitsMore(a, 32, 16);
    TopBitsMore(a, 48, 16);
    TopBitsAll(a);
  }

  /** floor(sqrt(a)) and the remainder, for a limb with one of its two top bits set. */
  function SqrtRem1(a: Limb): (res: (Limb, Limb))
    requires 4 * a >= B
    ensures IsSqrtRem(a, res.0, res.1)
  {
    hide SqrtSixteen, SqrtStep, IsSqrtRem, TopBits;
    var (s1, r1) := SqrtSixteen(a);
    SqrtThirtyTwo(a, s1, r1);
    SqrtRemBounds(TopBits(a, 16), s1, r1);
    var (s, r) := SqrtStep(s1, r1, 256, TopBits(a, 24) % 256, TopBits(a, 32) % 256);
    SqrtRemBounds(TopBits(a, 32), s, r);
    SqrtRange(TopBits(a, 32), s, r, 65536);
    TopBitsAll(a);
    if LIMB_BITS == 32 then (s, r)
    else
      SqrtSixtyFour(a, s, r);
      SqrtStep(s, r, 65536, TopBits(a, 48) % 65536, TopBits(a, 64) % 65536)
  }

  lemma SqrtRemBounds(x: int, s: int, r: int)
    requires IsSqrtRem(x, s, r)
    ensures 0 <= r <= 2 * s && 0 <= s
  {
  }

  // ----- two limbs -----

  /** The double-word remainder of the two-limb step: negative ones show in the high word. */
  lemma DoubleWordRemainder(x: int, y: int, s: int, w: int)
    requires 0 <= x < 2 * B && 0 <= y <= B && 0 <= s <= B && w == (if x >= y then x - y else x - y + B * B)
    ensures 0 <= w < B * B && (2 * (w / B) >= B <==> x < y)
  {
    if x >= y {
      MulMono(2, B, B);
      if x - y < B {
        DivModUnique(w, B, 0, x - y);
      } else {
        DivModUnique(w, B, 1, x - y - B);
      }
    } else {
      MulDist(B, B, -1);
      DivModUnique(w, B, B - 1, x - y + B);
    }
  }

  /** The step with b = H, on the limbs a1, a0. */
  lemma TwoLimbStep(a1: Limb, a0: Limb, s1: Limb, r1: Limb, num: int, q: int, u: int)
    requires 4 * a1 >= B && IsSqrtRem(a1, s1, r1)
    requires num == r1 * H + a0 / H && q == num / (2 * s1) && u == num % (2 * s1)
    ensures 0 < s1 < H <= 2 * s1 && 0 <= num && 0 <= q <= H && 0 <= u
    ensures var a, s, x, y := a1 * B + a0, s1 * H + q, u * H + a0 % H, q * q;
      && 0 <= x < 2 * B && 0 <= y <= B && 0 <= s <= B && (q == H ==> x < y && y == B) && (q < H ==> s < B)
      && (x < y ==> s >= 1 && IsSqrtRem(a, s - 1, x - y + 2 * s - 1))
      && (x >= y ==> IsSqrtRem(a, s, x - y))
  {
    RootOfBase();
    SqrtRange(a1, s1, r1, H);
    MulBetween(H, 0, r1, r1);
    EuclideanDivision(a0, H);
    HalfLimb(a0);
    EuclideanDivision(num, 2 * s1);
    var a := a1 * B + a0;
    StepCorrect(a, H, s1, r1, a0 / H, a0 % H, q, u);
    MulMono(u, 2 * H - 1, H);
    MulDist(H, 2 * H, -1);
    MulAssoc(2, H, H);
    MulMono(0, u, H);
    MulBetween(q, 0, q, H);
    MulMono(q, H, H);
    MulMono(s1, H - 1, H);
    MulMono(0, s1, H);
    MulDist(H, H, -1);
  }

  lemma HalfLimb(a0: Limb)
    ensures 0 <= a0 / H < H
  {
    RootOfBase();
    EuclideanDivision(a0, H);
    var h := a0 / H;
    if h >= H {
      MulMono(H, h, H);
    }
  }

  /** The root of two limbs: one limb of root, the remainder in taba[ao] and the returned bit. */
  method SqrtRem2(tabs: array<Limb>, so: nat, taba: array<Limb>, ao: nat) returns (rh: Limb)
    requires so < tabs.Length && ao + 1 < taba.Length && tabs != taba && 4 * taba[ao + 1] >= B
    modifies tabs, taba
    ensures OnlyWindow(tabs, so, so + 1) && OnlyWindow(taba, ao, ao + 1) && rh <= 1
    ensures IsSqrtRem(old(taba[ao + 1] * B + taba[ao]), tabs[so], taba[ao] + rh * B)
  {
    hide SqrtRem1, IsSqrtRem;
    var a0, a1 := taba[ao], taba[ao + 1];
    var (s1, r1) := SqrtRem1(a1);
    RootOfBase();
    SqrtRemPositive(a1, s1, r1);
    var num := r1 * H + a0 / H;
    var q := num / (2 * s1);
    var u := num % (2 * s1);
    TwoLimbStep(a1, a0, s1, r1, num, q, u);
    ghost var s0 := s1 * H + q;
    var s: Limb := if s1 * H + q < B then s1 * H + q else s1 * H + q - B;
    var x := u * H + a0 % H;
    var y := if q / H != 0 then B else q * q;
    assert q / H != 0 <==> q == H by { HalfQuotient(q); }
    var r := if x >= y then x - y else x - y + B * B;
    DoubleWordRemainder(x, y, s0, r);
    if 2 * (r / B) >= B {
      s := WSub(s, 1);
      assert s == s0 - 1;
      r := r + 2 * s + 1 - B * B;
    }
    SqrtRemBounds(a1 * B + a0, s, r);
    RemainderWords(r);
    tabs[so] := s;
    taba[ao] := r % B;
    rh := r / B;
  }

  lemma SqrtRemPositive(x: int, s: int, r: int)
    requires IsSqrtRem(x, s, r) && x > 0
    ensures s > 0
  {
  }

  lemma HalfQuotient(q: int)
    requires 0 <= q <= H
    ensures q / H != 0 <==> q == H
  {
    if q == H {
      DivModUnique(q, H, 1, 0);
    } else {
      DivModUnique(q, H, 0, q);
    }
  }

  lemma RemainderWords(r: int)
    requires 0 <= r < 2 * B
    ensures 0 <= r / B <= 1 && 0 <= r % B < B && r == r % B + (r / B) * B
  {
    if r < B {
      DivModUnique(r, B, 0, r);
    } else {
      DivModUnique(r, B, 1, r - B);
    }
  }

  // ----- limb arrays -----

  /** The root of the limbs a is s; the remainder is r with one more bit on top. */
  ghost predicate IsSqrtRemLimbs(a: seq<Limb>, s: seq<Limb>, r: seq<Limb>, rh: Limb) {
    rh <= 1 && IsSqrtRem(Val(a), Val(s), Val(r) + rh * BPow(|r|))
  }

  /** q and u are quotient and remainder of r1 * b + a1 by 2 * s1. */
  ghost predicate HalfDivision(a1: int, b: int, r1: int, s1: int, q: int, u: int) {
    r1 * b + a1 == q * (2 * s1) + u && 0 <= u < 2 * s1
  }

  /** The weight of the bit k at scale b. */
  function Bit(k: int, b: int): int {
    if k == 0 then 0 else b
  }

  lemma BitProduct(k: int, b: int)
    requires 0 <= k <= 1
    ensures Bit(k, b) == k * b
  {
  }

  lemma {:induction false} ValTopBit(s: seq<Limb>, k: Limb, n: nat)
    requires |s| == n && k <= 1
    ensures Val(s + [k]) == Val(s) + Bit(k, BPow(n))
  {
    hide Val, BPow;
    ValPush(s, k, n);
  }

  /** The half quotient is q with the bit qh on top, the remainder u with the bit rh on top. */
  ghost predicate HalfDivided(a1: seq<Limb>, r1: int, s1: seq<Limb>, q: seq<Limb>, qh: Limb, u: seq<Limb>, rh: Limb)
    requires qh <= 1 && rh <= 1
  {
    HalfDivision(Val(a1), BPow(|a1|), r1, Val(s1), Val(q) + Bit(qh, BPow(|a1|)), Val(u) + Bit(rh, BPow(|s1|)))
  }

  /** Reducing r1 by s1 when its top bit is set leaves h limbs. */
  lemma {:induction false} ReducedRemainder(r: seq<Limb>, s1: seq<Limb>, r': seq<Limb>, k: Limb)
    requires |r| == |s1| == |r'| && Val(r') + Val(s1) == Val(r) + k * BPow(|r|) && k <= 1
    requires Val(r) + BPow(|r|) <= 2 * Val(s1)
    ensures Val(r') == Val(r) + BPow(|r|) - Val(s1)
  {
    hide Val, BPow;
    ValBelow(s1, |r|);
    ValBound(r');
  }

  /** A number halved, and the bit left over. */
  function HalfOf(x: int): (int, int) {
    (x / 2, x % 2)
  }

  ghost predicate WholeDivision(a1: int, b: int, r': int, s1: int, q: int, u: int) {
    a1 + b * r' == q * s1 + u && 0 <= u < s1
  }

  lemma {:induction false} DivisionOfJoin(a1: seq<Limb>, r': seq<Limb>, q: seq<Limb>, s1: seq<Limb>, u: seq<Limb>)
    requires IsDivision(a1 + r', q, s1, u)
    ensures WholeDivision(Val(a1), BPow(|a1|), Val(r'), Val(s1), Val(q), Val(u))
  {
    hide Val, BPow;
    ValAppend(a1, r');
  }

  /** From the quotient by s1 of the reduced remainder r' to the quotient by 2 * s1 of r1. */
  lemma HalveWhole(a1: int, b: int, r1: int, r': int, t: int, s1: int, lo: int, x: int, qt: int, u: int,
                   q: int, qh: int, e: int, ql: int)
    requires WholeDivision(a1, b, r', s1, qt, u) && r1 == r' + Bit(t, s1) && qt == lo + Bit(x, b)
    requires 0 <= t <= 1 && 0 <= x <= 1 && 0 <= qh <= 1
    requires HalfOf(lo + Bit(e, b)) == (q, ql) && HalfOf(t + x) == (qh, e)
    ensures HalfDivision(a1, b, r1, s1, q + Bit(qh, b), u + Bit(ql, s1))
  {
    var q' := q + Bit(qh, b);
    assert qt + Bit(t, b) == 2 * q' + ql;
    HalfShuffles(b, r', t, s1, qt, q', ql);
    MulEqual(qt + Bit(t, b), 2 * q' + ql, s1);
  }

  lemma HalfShuffles(b: int, r': int, t: int, s1: int, qt: int, q: int, ql: int)
    requires 0 <= t <= 1 && 0 <= ql <= 1
    ensures (r' + Bit(t, s1)) * b == b * r' + Bit(t, b) * s1
    ensures (qt + Bit(t, b)) * s1 == qt * s1 + Bit(t, b) * s1
    ensures (2 * q + ql) * s1 == q * (2 * s1) + Bit(ql, s1)
  {
  }

  /** Divide the remainder, reduced by s1 when its top bit is set and followed by l more limbs, by the root s1. */
  method DivideRemainder(tabs: array<Limb>, so: nat, taba: array<Limb>, ao: nat, n: nat, l: nat, h: nat,
      tmp: array<Limb>, qh: Limb)
    returns (ghost r': seq<Limb>)
    requires n == l + h && 1 <= l <= h && so + n <= tabs.Length && ao + 2 * n <= taba.Length && l + 1 <= tmp.Length
    requires tabs != taba && tabs != tmp && taba != tmp
    requires Normalised(tabs[so + l..so + n]) && qh <= 1
    requires Val(taba[ao + 2 * l..ao + 2 * l + h]) + Bit(qh, BPow(h)) <= 2 * Val(tabs[so + l..so + n])
    modifies taba, tmp
    ensures OnlyWindow(taba, ao + l, ao + l + n) && tmp[l] <= 1
    ensures Val(r') + Bit(qh, Val(tabs[so + l..so + n]))
        == old(Val(taba[ao + 2 * l..ao + 2 * l + h])) + Bit(qh, BPow(h))
    ensures IsDivision(old(taba[ao + l..ao + 2 * l]) + r', tmp[0..l + 1], tabs[so + l..so + n],
        taba[ao + l..ao + l + h])
  {
    hide Val, BPow, Normalised, IsDivision;
    ghost var a1, r, s1 := taba[ao + l..ao + 2 * l], taba[ao + 2 * l..ao + 2 * l + h], tabs[so + l..so + n];
    assert tabs[so + l..so + l + h] == s1;
    if qh != 0 {
      var k := Sub(taba, ao + 2 * l, taba, ao + 2 * l, tabs, so + l, h, 0);
      ReducedRemainder(r, s1, taba[ao + 2 * l..ao + 2 * l + h], k);
    }
    r' := taba[ao + 2 * l..ao + 2 * l + h];
    assert taba[ao + l..ao + l + n] == a1 + r';
    assert tabs[so + l..so + l + h] == s1;
    DivNorm(tmp, 0, taba, ao + l, n, tabs, so + l, h);
    assert tmp[0..0 + n - h + 1] == tmp[0..l + 1] && tabs[so + l..so + l + h] == s1 && tabs[so + l..so + n] == s1;
  }

  lemma {:induction false} HalvedQuotient(a1: seq<Limb>, r1: int, t: Limb, s1: seq<Limb>, r': seq<Limb>,
      lo: seq<Limb>, x: Limb, u: seq<Limb>, q: seq<Limb>, qh: Limb, e: Limb, ql: Limb)
    requires |lo| == |a1| && t <= 1 && x <= 1 && qh <= 1
    requires IsDivision(a1 + r', lo + [x], s1, u) && r1 == Val(r') + Bit(t, Val(s1))
    requires HalfOf(Val(lo) + Bit(e, BPow(|a1|))) == (Val(q) as int, ql as int)
    requires HalfOf(t + x) == (qh as int, e as int)
    ensures HalfDivision(Val(a1), BPow(|a1|), r1, Val(s1), Val(q) + Bit(qh, BPow(|a1|)), Val(u) + Bit(ql, Val(s1)))
  {
    hide Val, BPow, HalfDivision, HalfOf, Bit, IsDivision, WholeDivision;
    ValTopBit(lo, x, |a1|);
    DivisionOfJoin(a1, r', lo + [x], s1, u);
    HalveWhole(Val(a1), BPow(|a1|), r1, Val(r'), t, Val(s1), Val(lo), x, Val(lo + [x]), Val(u), Val(q), qh, e, ql);
  }

  lemma {:induction false} HalvedRemainder(a1: seq<Limb>, r1: int, s1: seq<Limb>, q: seq<Limb>, qh: Limb, u: int,
      u': seq<Limb>, rh: Limb)
    requires qh <= 1 && rh <= 1
    requires HalfDivision(Val(a1), BPow(|a1|), r1, Val(s1), Val(q) + Bit(qh, BPow(|a1|)), u)
    requires Val(u') + Bit(rh, BPow(|s1|)) == u
    ensures HalfDivided(a1, r1, s1, q, qh, u', rh)
  {
    hide Val, BPow, HalfDivision;
  }

  /** Halve the quotient; an odd one returns s1 to the remainder. */
  method HalveQuotient(tabs: array<Limb>, so: nat, taba: array<Limb>, ao: nat, n: nat, l: nat, h: nat,
      tmp: array<Limb>, t: Limb, ghost a1: seq<Limb>, ghost r1: int, ghost r': seq<Limb>)
    returns (qh: Limb, rh: Limb)
    requires n == l + h && 1 <= l <= h && so + n <= tabs.Length && ao + 2 * n <= taba.Length && l + 1 <= tmp.Length
    requires tabs != taba && tabs != tmp && taba != tmp && |a1| == l
    requires t <= 1 && tmp[l] <= 1
    requires IsDivision(a1 + r', tmp[0..l + 1], tabs[so + l..so + n], taba[ao + l..ao + l + h])
    requires r1 == Val(r') + Bit(t, Val(tabs[so + l..so + n]))
    modifies tabs, taba
    ensures OnlyWindow(tabs, so, so + l) && OnlyWindow(taba, ao + l, ao + l + h) && qh <= 1 && rh <= 1
    ensures HalfDivided(a1, r1, tabs[so + l..so + n], tabs[so..so + l], qh, taba[ao + l..ao + l + h], rh)
  {
    hide Val, BPow, IsDivision, HalfDivided, HalfDivision, Pow2, Bit, HalfOf;
    ghost var s1, u := tabs[so + l..so + n], taba[ao + l..ao + l + h];
    ghost var lo, x := tmp[0..l], tmp[l];
    assert tmp[0..l + 1] == lo + [x];
    var qs := t + tmp[l];
    CopyLimbs(tabs, so, tmp, 0, l);
    OneBit();
    var ql := ShiftRight(tabs, so, tabs, so, l, 1, qs % 2);
    ghost var q := tabs[so..so + l];
    qh := qs / 2;
    HalvedLimbs(lo, qs % 2, q, ql);
    HalvedBit(qs);
    HalvedQuotient(a1, r1, t, s1, r', lo, x, u, q, qh, qs % 2, ql);
    assert tabs[so + l..so + l + h] == s1;
    rh := 0;
    if ql != 0 {
      rh := Add(taba, ao + l, taba, ao + l, tabs, so + l, h, 0);
    }
    BitProduct(rh, BPow(h));
    BitValue(ql, Val(s1));
    assert tabs[so..so + l] == q && tabs[so + l..so + n] == s1;
    HalvedRemainder(a1, r1, s1, q, qh, Val(u) + Bit(ql, Val(s1)), taba[ao + l..ao + l + h], rh);
  }

  lemma BitValue(k: int, b: int)
    ensures Bit(k, b) == if k == 0 then 0 else b
  {
  }

  lemma {:induction false} HalvedLimbs(lo: seq<Limb>, e: Limb, q: seq<Limb>, ql: Limb)
    requires e <= 1 && ql < Pow2(1) && Pow2(1) * Val(q) + ql == Val(lo) + (e % Pow2(1)) * BPow(|lo|)
    ensures ql <= 1 && HalfOf(Val(lo) + Bit(e, BPow(|lo|))) == (Val(q) as int, ql as int)
  {
    hide Val, BPow;
    OneBit();
    assert e % 2 == e;
    BitProduct(e, BPow(|lo|));
  }

  lemma HalvedBit(x: Limb)
    ensures HalfOf(x) == (x / 2, x % 2)
  {
  }

  lemma {:induction false} OneBit()
    ensures Pow2(1) == 2
  {
  }

  // ----- subtracting the square of the quotient -----

  /** A limb read as a signed word. */
  function Signed(x: Limb): int {
    if 2 * x >= B then x - B else x
  }

  /** Subtract y below limb 2l and pass the borrow c on: rh counts what is owed at the top. */
  lemma {:induction false} SquareBorrow(lo: seq<Limb>, hi: seq<Limb>, lo': seq<Limb>, hi': seq<Limb>, y: int, c: Limb,
      k: Limb, n: nat)
    requires |lo| == |lo'| && |hi| == |hi'| && n == |lo| + |hi|
    requires Val(lo') + y == Val(lo) + c * BPow(|lo|)
    requires Val(hi') + c == Val(hi) + k * BPow(|hi|)
    ensures Val(lo' + hi') + y == Val(lo + hi) + k * BPow(n)
  {
    hide Val, BPow;
    ValJoin(lo, hi, |lo|);
    ValJoin(lo', hi', |lo|);
    BPowAdd(|lo|, |hi|);
    SquareBorrowSum(Val(lo), Val(hi), Val(lo'), Val(hi'), y, c, k, BPow(|lo|), BPow(|hi|));
  }

  lemma SquareBorrowSum(lo: int, hi: int, lo': int, hi': int, y: int, c: int, k: int, p: int, p2: int)
    requires lo' + y == lo + c * p && hi' + c == hi + k * p2
    ensures lo' + p * hi' + y == lo + p * hi + k * (p * p2)
  {
    PassBorrowShuffles(hi, hi', c, k, p, p2);
    MulEqual(hi' + c, hi + k * p2, p);
  }

  /** The square of the half quotient, whose top bit excludes all others. */
  ghost function SquareOf(q: seq<Limb>, qh: Limb): nat {
    if qh == 0 then Val(q) * Val(q) else BPow(2 * |q|)
  }

  /** Put the square above the n limbs. */
  method SquareAbove(tabs: array<Limb>, so: nat, taba: array<Limb>, ao: nat, n: nat, l: nat)
    requires 1 <= l && 2 * l <= n && so + l <= tabs.Length && ao + 2 * n <= taba.Length && tabs != taba
    modifies taba
    ensures OnlyWindow(taba, ao + n, ao + n + 2 * l)
    ensures taba[ao..ao + 2 * l] == old(taba[ao..ao + 2 * l])
    ensures taba[ao + 2 * l..ao + n] == old(taba[ao + 2 * l..ao + n])
    ensures Val(taba[ao + n..ao + n + 2 * l]) == SquareOf(tabs[so..so + l], 0)
  {
    hide Val, BPow;
    MulBasecase(taba, ao + n, tabs, so, l, tabs, so, l);
    assert ao + n + 2 * l == ao + n + l + l;
  }

  /** Take the m limbs above the n limbs off the lowest m. */
  method SubtractAbove(taba: array<Limb>, ao: nat, n: nat, m: nat) returns (c: Limb)
    requires m <= n && ao + n + m <= taba.Length
    modifies taba
    ensures OnlyWindow(taba, ao, ao + m) && taba[ao + m..ao + n] == old(taba[ao + m..ao + n]) && c <= 1
    ensures Val(taba[ao..ao + m]) + old(Val(taba[ao + n..ao + n + m])) == old(Val(taba[ao..ao + m])) + c * BPow(m)
  {
    hide Val, BPow;
    c := Sub(taba, ao, taba, ao, taba, ao + n, m, 0);
  }

  lemma SquareOne(q: seq<Limb>, l: nat)
    requires |q| == l
    ensures SquareOf(q, 1) == BPow(2 * l)
  {
  }

  /** Take the square off the lowest 2l limbs; B^(2l) is only a borrow. */
  method SubtractLowSquare(tabs: array<Limb>, so: nat, taba: array<Limb>, ao: nat, n: nat, l: nat, qh: Limb)
    returns (c: Limb)
    requires 1 <= l && 2 * l <= n && so + l <= tabs.Length && ao + 2 * n <= taba.Length && tabs != taba && qh <= 1
    modifies taba
    ensures OnlyWindow(taba, ao, ao + 2 * n) && taba[ao + 2 * l..ao + n] == old(taba[ao + 2 * l..ao + n]) && c <= 1
    ensures Val(taba[ao..ao + 2 * l]) + SquareOf(tabs[so..so + l], qh)
        == old(Val(taba[ao..ao + 2 * l])) + c * BPow(2 * l)
  {
    hide Val, BPow, SquareOf;
    c := qh;
    if qh == 0 {
      SquareAbove(tabs, so, taba, ao, n, l);
      c := SubtractAbove(taba, ao, n, 2 * l);
    } else {
      SquareOne(tabs[so..so + l], l);
    }
  }

  /** taba -= q^2, where q is the l limbs of tabs or, when qh is set, B^l itself. */
  method SubtractSquare(tabs: array<Limb>, so: nat, taba: array<Limb>, ao: nat, n: nat, l: nat, qh: Limb)
    returns (k: Limb)
    requires 1 <= l && 2 * l <= n && so + l <= tabs.Length && ao + 2 * n <= taba.Length && tabs != taba && qh <= 1
    modifies taba
    ensures OnlyWindow(taba, ao, ao + 2 * n) && k <= 1
    ensures Val(taba[ao..ao + n]) + SquareOf(tabs[so..so + l], qh) == old(Val(taba[ao..ao + n])) + k * BPow(n)
  {
    hide Val, BPow, SquareOf;
    ghost var lo, hi, q := taba[ao..ao + 2 * l], taba[ao + 2 * l..ao + n], tabs[so..so + l];
    TwoSlices(taba, ao, ao + 2 * l, ao + n);
    var c := SubtractLowSquare(tabs, so, taba, ao, n, l, qh);
    ghost var lo' := taba[ao..ao + 2 * l];
    assert ao + 2 * l + (n - 2 * l) == ao + n;
    ghost var s := taba[..];
    k := SubUi(taba, ao + 2 * l, c, n - 2 * l);
    ghost var hi' := taba[ao + 2 * l..ao + n];
    KeptSlice(taba, s, ao + 2 * l, ao + n, ao, ao + 2 * l);
    SquareBorrowBit(n - 2 * l, c, k, hi, hi');
    TwoSlices(taba, ao, ao + 2 * l, ao + n);
    SquareBorrow(lo, hi, lo', hi', SquareOf(q, qh), c, k, n);
  }

  /** With no limbs above, the borrow itself comes back. */
  lemma {:induction false} SquareBorrowBit(m: nat, c: Limb, k: Limb, hi: seq<Limb>, hi': seq<Limb>)
    requires |hi| == |hi'| == m && c <= 1 && (m > 0 ==> k <= 1) && Val(hi') + c == Val(hi) + k * BPow(m)
    ensures k <= 1
  {
    if m == 0 {
      assert hi == [] && hi' == [];
    }
  }

  // ----- the recursion -----

  lemma {:induction false} RootFits(x: int, s: int, r: int, p: int)
    requires IsSqrtRem(x, s, r) && x < p * p && p > 0
    ensures s < p
  {
    if s >= p {
      MulBetween(s, p, s, s);
      MulMono(p, s, p);
      MulComm(s, p);
    }
  }

  /** The half quotient as a number: either l limbs or exactly B^l. */
  lemma {:induction false} SquareValue(q: seq<Limb>, qh: Limb, l: nat)
    requires |q| == l && qh <= 1 && Val(q) + Bit(qh, BPow(l)) <= BPow(l)
    ensures SquareOf(q, qh) == (Val(q) + Bit(qh, BPow(l))) * (Val(q) + Bit(qh, BPow(l)))
  {
    hide Val, BPow;
    BPowAdd(l, l);
  }

  lemma {:induction false} ThreeParts(a0: seq<Limb>, a1: seq<Limb>, hi: seq<Limb>, l: nat)
    requires |a0| == l && |a1| == l
    ensures Val(a0 + a1 + hi) == Val(hi) * (BPow(l) * BPow(l)) + Val(a1) * BPow(l) + Val(a0)
  {
    hide Val, BPow;
    assert a0 + a1 + hi == a0 + (a1 + hi);
    ValJoin(a0, a1 + hi, l);
    ValJoin(a1, hi, l);
    ThreePartsSum(Val(a1 + hi), Val(a1), Val(hi), BPow(l));
  }

  lemma ThreePartsSum(x: int, a1: int, hi: int, b: int)
    requires x == a1 + b * hi
    ensures b * x == hi * (b * b) + a1 * b
  {
    assert b * (a1 + b * hi) == hi * (b * b) + a1 * b;
  }

  /** The Karatsuba step at scale B^l: root s1 * B^l + q, remainder u * B^l + a0 - q^2, one too many when negative. */
  ghost predicate StepOutcome(a: int, b: int, s1: int, a0: int, q: int, u: int) {
    var s, r := s1 * b + q, u * b + a0 - q * q;
    && 0 <= q <= b
    && -(b * b) <= r <= 2 * s
    && (r < 0 ==> IsSqrtRem(a, s - 1, r + 2 * s - 1))
    && (r >= 0 ==> IsSqrtRem(a, s, r))
  }

  lemma {:induction false} StepOnLimbs(a0: seq<Limb>, a1: seq<Limb>, hi: seq<Limb>, s1: seq<Limb>, r1: int,
                                       q: seq<Limb>, qh: Limb, u: seq<Limb>, rh: Limb, l: nat)
    requires |a0| == |a1| == l && qh <= 1 && rh <= 1 && BPow(l) <= 2 * Val(s1)
    requires IsSqrtRem(Val(hi), Val(s1), r1) && HalfDivided(a1, r1, s1, q, qh, u, rh)
    ensures StepOutcome(Val(a0 + a1 + hi), BPow(l), Val(s1), Val(a0), Val(q) + Bit(qh, BPow(l)),
        Val(u) + Bit(rh, BPow(|s1|)))
  {
    hide Val, BPow, Bit, StepOutcome, HalfDivision, HalfDivided, IsSqrtRem;
    HalfDividedMeans(a1, r1, s1, q, qh, u, rh, l);
    ThreeParts(a0, a1, hi, l);
    ValBelow(a0, l);
    ValBelow(a1, l);
    StepOutcomeBy(Val(a0 + a1 + hi), BPow(l), Val(hi), Val(s1), r1, Val(a1), Val(a0),
                  Val(q) + Bit(qh, BPow(l)), Val(u) + Bit(rh, BPow(|s1|)));
  }

  lemma {:induction false} HalfDividedMeans(a1: seq<Limb>, r1: int, s1: seq<Limb>, q: seq<Limb>, qh: Limb,
      u: seq<Limb>, rh: Limb, l: nat)
    requires |a1| == l && qh <= 1 && rh <= 1 && HalfDivided(a1, r1, s1, q, qh, u, rh)
    ensures HalfDivision(Val(a1), BPow(l), r1, Val(s1), Val(q) + Bit(qh, BPow(l)), Val(u) + Bit(rh, BPow(|s1|)))
  {
    hide Val, BPow, Bit, HalfDivision;
  }

  lemma StepOutcomeBy(a: int, b: int, hi: int, s1: int, r1: int, a1: int, a0: int, q: int, u: int)
    requires 0 < b <= 2 * s1 && 0 <= a1 < b && 0 <= a0 < b && IsSqrtRem(hi, s1, r1)
    requires a == hi * (b * b) + a1 * b + a0 && HalfDivision(a1, b, r1, s1, q, u)
    ensures StepOutcome(a, b, s1, a0, q, u)
  {
    MulEqual(hi, s1 * s1 + r1, b * b);
    StepCorrect(a, b, s1, r1, a1, a0, q, u);
  }

  /** The root's limbs below s1, plus the carry out of the top, are s1 * B^l + q. */
  lemma {:induction false} RootLimbs(q: seq<Limb>, qh: Limb, s1: seq<Limb>, s1': seq<Limb>, k: Limb, l: nat, n: nat)
    requires |q| == l && |s1| == |s1'| && n == l + |s1| && qh <= 1 && k <= 1
    requires Val(s1') + k * BPow(|s1|) == Val(s1) + qh
    ensures Val(q + s1') + Bit(k, BPow(n)) == Val(s1) * BPow(l) + (Val(q) + Bit(qh, BPow(l)))
  {
    hide Val, BPow, Bit;
    ValJoin(q, s1', l);
    BPowAdd(l, |s1|);
    BitProduct(k, BPow(n));
    BitProduct(qh, BPow(l));
    RootSum(Val(q), qh, Val(s1), Val(s1'), k, BPow(l), BPow(|s1|));
  }

  lemma RootSum(q: int, qh: int, s1: int, s1': int, k: int, b: int, ph: int)
    requires s1' + k * ph == s1 + qh
    ensures q + b * s1' + k * (b * ph) == s1 * b + (q + qh * b)
  {
    assert b * (s1' + k * ph) == b * (s1 + qh);
    assert b * (k * ph) == k * (b * ph);
  }

  /** The remainder's limbs after the square came off; rh - k is the signed word above them. */
  lemma {:induction false} RemainderLimbs(a0: seq<Limb>, u: seq<Limb>, rh: Limb, q: seq<Limb>, qh: Limb, x: seq<Limb>,
      k: Limb, l: nat, n: nat)
    requires |a0| == |q| == l && n == l + |u| && |x| == n && qh <= 1 && rh <= 1 && k <= 1
    requires Val(q) + Bit(qh, BPow(l)) <= BPow(l)
    requires Val(x) + SquareOf(q, qh) == Val(a0 + u) + k * BPow(n)
    ensures var qv, uv := Val(q) + Bit(qh, BPow(l)), Val(u) + Bit(rh, BPow(|u|));
      Val(x) + Bit(rh, BPow(n)) - Bit(k, BPow(n)) == uv * BPow(l) + Val(a0) - qv * qv
  {
    hide Val, BPow, Bit, SquareOf;
    SquareValue(q, qh, l);
    ValJoin(a0, u, l);
    BPowAdd(l, |u|);
    BitProduct(k, BPow(n));
    BitProduct(rh, BPow(n));
    BitProduct(rh, BPow(|u|));
    assert (Val(u) + rh * BPow(|u|)) * BPow(l) == BPow(l) * Val(u) + rh * (BPow(l) * BPow(|u|)) by {
      RemainderShuffle(Val(u), rh, BPow(l), BPow(|u|));
    }
  }

  lemma RemainderShuffle(u: int, rh: int, b: int, ph: int)
    ensures (u + rh * ph) * b == b * u + rh * (b * ph)
  {
  }

  /** The root one smaller, the remainder 2(s-1)+1 larger: in wrapped words, back in range. */
  method TakeOneOff(tabs: array<Limb>, so: nat, taba: array<Limb>, ao: nat, n: nat, ghost s: int, ghost ks: Limb)
    returns (rh: Limb)
    requires 1 <= n && so + n <= tabs.Length && ao + n <= taba.Length && tabs != taba
    requires ks <= 1 && Val(tabs[so..so + n]) + Bit(ks, BPow(n)) == s && 1 <= s <= BPow(n)
    requires 0 <= Val(taba[ao..ao + n]) - BPow(n) + 2 * s - 1 < 2 * BPow(n)
    modifies tabs, taba
    ensures OnlyWindow(tabs, so, so + n) && OnlyWindow(taba, ao, ao + n) && rh <= 1
    ensures Val(tabs[so..so + n]) == s - 1
    ensures Val(taba[ao..ao + n]) + Bit(rh, BPow(n)) == old(Val(taba[ao..ao + n])) - BPow(n) + 2 * s - 1
  {
    hide Val, BPow, Bit;
    ghost var x, v := Val(taba[ao..ao + n]), Val(tabs[so..so + n]);
    var k := SubUi(tabs, so, 1, n);
    ValBelow(tabs[so..so + n], n);
    BitProduct(ks, BPow(n));
    OneOff(v, Val(tabs[so..so + n]), k, ks, s, BPow(n));
    rh := B - 1;
    var c := AddMul1(taba, ao, tabs, so, n, 2);
    rh := WAdd(rh, c);
    ghost var y := Val(taba[ao..ao + n]);
    var c2 := AddUi(taba, ao, 1, n);
    rh := WAdd(rh, c2);
    ValBelow(taba[ao..ao + n], n);
    BackInRange(x, s, y, c, Val(taba[ao..ao + n]), c2, BPow(n));
    BitProduct(rh, BPow(n));
  }

  lemma OneOff(v: int, v': int, k: int, ks: int, s: int, p: int)
    requires v' + 1 == v + k * p && v + ks * p == s && 0 <= k <= 1 && 0 <= ks <= 1
    requires 1 <= s <= p && 0 <= v' < p && 0 <= v
    ensures v' == s - 1
  {
  }

  lemma BackInRange(x: int, s: int, y: int, c: int, z: int, c2: int, p: int)
    requires y + c * p == (s - 1) * 2 + x && z + c2 * p == y + 1 && 0 <= z < p && 0 <= c && 0 <= c2
    requires 0 <= x - p + 2 * s - 1 < 2 * p
    ensures 1 <= c + c2 <= 2 && z + (c + c2 - 1) * p == x - p + 2 * s - 1
  {
    MulDist(p, c, c2);
    if c + c2 <= 0 {
    }
    if c + c2 >= 3 {
      MulMono(3, c + c2, p);
    }
    assert (c + c2 - 1) * p == (c + c2) * p - p;
  }

  /** What the sign of the top word decides, given that limbs x below it carry the rest. */
  lemma {:induction false} SignDecides(a: int, b: int, s1: int, a0: int, q: int, u: int, x: int, rh: int, k: int,
      v: int, ks: int, p: int)
    requires StepOutcome(a, b, s1, a0, q, u) && 0 <= a < p * p && 0 < p && b * b <= p
    requires 0 <= x < p && 0 <= v < p && 0 <= rh <= 1 && 0 <= k <= 1 && 0 <= ks <= 1 && s1 >= 1 && b >= 1
    requires x + Bit(rh, p) - Bit(k, p) == u * b + a0 - q * q && v + Bit(ks, p) == s1 * b + q
    ensures rh - k >= 0 ==> ks == 0 && IsSqrtRem(a, v, x + Bit(rh - k, p))
    ensures rh - k < 0 ==>
        var s := s1 * b + q; IsSqrtRem(a, s - 1, x - p + 2 * s - 1) && 1 <= s <= p && 0 <= x - p + 2 * s - 1 < 2 * p
  {
    hide IsSqrtRem;
    var s, r := s1 * b + q, u * b + a0 - q * q;
    assert s >= 1 by { MulMono(1, s1, b); }
    if rh - k >= 0 {
      assert r == x + Bit(rh - k, p);
      RootFits(a, s, r, p);
    } else {
      assert r == x - p;
      RootFits(a, s - 1, r + 2 * s - 1, p);
      RemainderRange(a, s - 1, r + 2 * s - 1);
    }
  }

  lemma RemainderRange(a: int, s: int, r: int)
    requires IsSqrtRem(a, s, r)
    ensures 0 <= r <= 2 * s
  {
  }

  /** Write s1 * B^l + q over the root's limbs and take q^2 off the remainder's. */
  method Combine(tabs: array<Limb>, so: nat, taba: array<Limb>, ao: nat, n: nat, l: nat, h: nat, qh: Limb,
      ghost rh: Limb, ghost q: seq<Limb>, ghost s1: seq<Limb>, ghost a0: seq<Limb>, ghost u: seq<Limb>)
    returns (k: Limb, ghost ks: Limb)
    requires n == l + h && 1 <= l <= h && so + n <= tabs.Length && ao + 2 * n <= taba.Length && tabs != taba
    requires q == tabs[so..so + l] && s1 == tabs[so + l..so + n] && a0 == taba[ao..ao + l] && u == taba[ao + l..ao + n]
    requires qh <= 1 && rh <= 1 && Val(q) + Bit(qh, BPow(l)) <= BPow(l)
    modifies tabs, taba
    ensures OnlyWindow(tabs, so, so + n) && OnlyWindow(taba, ao, ao + 2 * n) && k <= 1 && ks <= 1
    ensures Val(tabs[so..so + n]) + Bit(ks, BPow(n)) == Val(s1) * BPow(l) + (Val(q) + Bit(qh, BPow(l)))
    ensures var qv, uv := Val(q) + Bit(qh, BPow(l)), Val(u) + Bit(rh, BPow(h));
      Val(taba[ao..ao + n]) + Bit(rh, BPow(n)) - Bit(k, BPow(n)) == uv * BPow(l) + Val(a0) - qv * qv
  {
    hide Val, BPow, Bit, SquareOf;
    assert tabs[so + l..so + l + h] == s1;
    ks := AddUi(tabs, so + l, qh, h);
    ghost var s1' := tabs[so + l..so + l + h];
    assert tabs[so..so + n] == q + s1' && tabs[so..so + l] == q;
    RootLimbs(q, qh, s1, s1', ks, l, n);
    assert taba[ao..ao + n] == a0 + u;
    k := SubtractSquare(tabs, so, taba, ao, n, l, qh);
    assert tabs[so..so + n] == q + s1' && tabs[so..so + l] == q;
    RemainderLimbs(a0, u, rh, q, qh, taba[ao..ao + n], k, l, n);
  }

  /** From s1, the half quotient and its remainder to the root of all limbs. */
  method FinishRoot(tabs: array<Limb>, so: nat, taba: array<Limb>, ao: nat, n: nat, l: nat, h: nat, qh: Limb,
      rh0: Limb, ghost a: seq<Limb>) returns (rh: Limb)
    requires n == l + h && 1 <= l <= h && so + n <= tabs.Length && ao + 2 * n <= taba.Length && tabs != taba
    requires |a| == 2 * n
    requires qh <= 1 && rh0 <= 1 && 1 <= Val(tabs[so + l..so + n])
    requires StepOutcome(Val(a), BPow(l), Val(tabs[so + l..so + n]), Val(taba[ao..ao + l]),
                         Val(tabs[so..so + l]) + Bit(qh, BPow(l)), Val(taba[ao + l..ao + n]) + Bit(rh0, BPow(h)))
    modifies tabs, taba
    ensures OnlyWindow(tabs, so, so + n) && OnlyWindow(taba, ao, ao + 2 * n)
    ensures IsSqrtRemLimbs(a, tabs[so..so + n], taba[ao..ao + n], rh)
  {
    hide Val, BPow, Bit, StepOutcome, IsSqrtRem;
    ghost var q, s1, a0, u := tabs[so..so + l], tabs[so + l..so + n], taba[ao..ao + l], taba[ao + l..ao + n];
    ghost var qv, uv := Val(q) + Bit(qh, BPow(l)), Val(u) + Bit(rh0, BPow(h));
    OutcomeQuotient(Val(a), BPow(l), Val(s1), Val(a0), qv, uv);
    var k, ks := Combine(tabs, so, taba, ao, n, l, h, qh, rh0, q, s1, a0, u);
    FinishBounds(a, tabs[so..so + n], taba[ao..ao + n], l, n);
    SignDecides(Val(a), BPow(l), Val(s1), Val(a0), qv, uv, Val(taba[ao..ao + n]), rh0, k, Val(tabs[so..so + n]), ks,
        BPow(n));
    rh := WSub(rh0, k);
    if Signed(rh) < 0 {
      rh := TakeOneOff(tabs, so, taba, ao, n, Val(s1) * BPow(l) + qv, ks);
    }
    BitProduct(rh, BPow(n));
  }

  lemma OutcomeQuotient(a: int, b: int, s1: int, a0: int, q: int, u: int)
    requires StepOutcome(a, b, s1, a0, q, u)
    ensures q <= b
  {
  }

  lemma {:induction false} FinishBounds(a: seq<Limb>, s: seq<Limb>, x: seq<Limb>, l: nat, n: nat)
    requires |a| == 2 * n && |s| == |x| == n && 2 * l <= n
    ensures 0 <= Val(a) < BPow(n) * BPow(n) && 0 <= Val(s) < BPow(n) && 0 <= Val(x) < BPow(n)
    ensures 1 <= BPow(l) && BPow(l) * BPow(l) <= BPow(n)
  {
    hide Val, BPow;
    ValBelow(a, 2 * n);
    BPowAdd(n, n);
    ValBelow(s, n);
    ValBelow(x, n);
    BPowAdd(l, l);
    BPowAdd(2 * l, n - 2 * l);
    MulBetween(BPow(2 * l), 1, BPow(n - 2 * l), BPow(n - 2 * l));
  }

  /** Recurse on the high half, then divide its remainder by twice its root. */
  lemma {:induction false} HighRoot(hi: seq<Limb>, s1: seq<Limb>, r: seq<Limb>, rh: Limb, l: nat, h: nat)
    requires 1 <= l <= h && |hi| == 2 * h && |s1| == |r| == h && 4 * hi[2 * h - 1] >= B && IsSqrtRemLimbs(hi, s1, r, rh)
    ensures IsSqrtRem(Val(hi), Val(s1), Val(r) + Bit(rh, BPow(h))) && Normalised(s1)
    ensures Val(r) + Bit(rh, BPow(h)) <= 2 * Val(s1) && BPow(l) <= 2 * Val(s1) && 1 <= Val(s1)
  {
    hide Val, BPow, Bit, IsSqrtRem, Normalised;
    BitProduct(rh, BPow(h));
    RemainderRange(Val(hi), Val(s1), Val(r) + rh * BPow(h));
    TopQuarter(hi, h);
    SqrtRange(Val(hi), Val(s1), Val(r) + rh * BPow(h), BPow(h));
    NormalisedByValue(s1);
    BPowAdd(l, h - l);
    MulBetween(BPow(l), 1, BPow(h - l), BPow(h - l));
  }

  lemma {:induction false} TopQuarter(a: seq<Limb>, h: nat)
    requires 1 <= h && |a| == 2 * h && 4 * a[2 * h - 1] >= B
    ensures Val(a) < BPow(h) * BPow(h) <= 4 * Val(a) && BPow(h) > 0 && BPow(h) % 2 == 0
  {
    hide Val, BPow;
    ValBelow(a, 2 * h);
    BPowAdd(h, h);
    var m := 2 * h - 1;
    ValTake(a, m);
    assert a[..m + 1] == a;
    ValBound(a[..m]);
    BPowStep(m);
    TopQuarterSum(Val(a[..m]), a[m], BPow(m), BPow(2 * h));
    BPowStep(h - 1);
    EvenProduct(BPow(h - 1));
  }

  lemma TopQuarterSum(lo: int, x: int, p: int, p2: int)
    requires 0 <= lo && 4 * x >= B && p >= 0 && p2 == B * p
    ensures p2 <= 4 * (lo + p * x)
  {
    MulMono(B, 4 * x, p);
    assert p * x * 4 == 4 * x * p;
  }

  lemma EvenProduct(p: int)
    ensures (B * p) % 2 == 0
  {
    var half: int := if LIMB_BITS == 32 then 0x8000_0000 else 0x8000_0000_0000_0000;
    MulAssoc(2, half, p);
    TwiceEven(B * p, half * p);
  }

  lemma TwiceEven(x: int, y: int)
    requires x == 2 * y
    ensures x % 2 == 0
  {
  }

  /** Two limbs: the base case in the form of the others. */
  lemma {:induction false} TwoLimbRoot(a: seq<Limb>, s: seq<Limb>, r: seq<Limb>, rh: Limb)
    requires |a| == 2 && |s| == |r| == 1 && rh <= 1 && IsSqrtRem(a[1] * B + a[0], s[0], r[0] + rh * B)
    ensures IsSqrtRemLimbs(a, s, r, rh)
  {
    assert a == [a[0]] + [a[1]];
    ValSnoc([a[0]], a[1]);
    assert s == [s[0]] && r == [r[0]];
    ValSingle(a[0]);
    ValSingle(s[0]);
    ValSingle(r[0]);
    assert BPow(1) == B * BPow(0) && BPow(0) == 1;
  }

  /** The halves of the step before the correction: root s1 of the high part, half quotient q, remainder u. */
  method DivideStep(tabs: array<Limb>, so: nat, taba: array<Limb>, ao: nat, n: nat, l: nat, h: nat, tmp: array<Limb>,
      t: Limb, ghost a: seq<Limb>) returns (qh: Limb, rh: Limb)
    requires n == l + h && 1 <= l <= h && so + n <= tabs.Length && ao + 2 * n <= taba.Length && l + 1 <= tmp.Length
    requires tabs != taba && tabs != tmp && taba != tmp && |a| == 2 * n && 4 * a[2 * n - 1] >= B
    requires taba[ao..ao + 2 * l] == a[..2 * l]
    requires IsSqrtRemLimbs(a[2 * l..], tabs[so + l..so + n], taba[ao + 2 * l..ao + 2 * l + h], t)
    modifies tabs, taba, tmp
    ensures OnlyWindow(tabs, so, so + l) && OnlyWindow(taba, ao + l, ao + l + n) && qh <= 1 && rh <= 1
    ensures 1 <= Val(tabs[so + l..so + n])
    ensures StepOutcome(Val(a), BPow(l), Val(tabs[so + l..so + n]), Val(taba[ao..ao + l]),
                        Val(tabs[so..so + l]) + Bit(qh, BPow(l)), Val(taba[ao + l..ao + n]) + Bit(rh, BPow(h)))
  {
    hide Val, BPow, Bit, StepOutcome, IsSqrtRem, IsSqrtRemLimbs, Normalised, IsDivision, HalfDivided;
    ghost var a0, a1, hi := taba[ao..ao + l], taba[ao + l..ao + 2 * l], a[2 * l..];
    ghost var s1, r := tabs[so + l..so + n], taba[ao + 2 * l..ao + 2 * l + h];
    ghost var r1 := Val(r) + Bit(t, BPow(h));
    assert taba[ao..ao + 2 * l] == a0 + a1;
    LowThenHigh(a, a0, a1, l);
    HighRoot(hi, s1, r, t, l, h);
    assert t <= 1 by { TopBitSmall(hi, s1, r, t); }
    var r' := DivideRemainder(tabs, so, taba, ao, n, l, h, tmp, t);
    assert tabs[so + l..so + n] == s1 && taba[ao..ao + l] == a0;
    qh, rh := HalveQuotient(tabs, so, taba, ao, n, l, h, tmp, t, a1, r1, r');
    assert tabs[so + l..so + n] == s1;
    assert taba[ao..ao + l] == a0;
    assert ao + n == ao + l + h;
    StepOnLimbs(a0, a1, hi, s1, r1, tabs[so..so + l], qh, taba[ao + l..ao + n], rh, l);
  }

  lemma LowThenHigh(a: seq<Limb>, a0: seq<Limb>, a1: seq<Limb>, l: nat)
    requires 2 * l <= |a| && a[..2 * l] == a0 + a1
    ensures a == a0 + a1 + a[2 * l..]
  {
  }

  lemma TopBitSmall(a: seq<Limb>, s: seq<Limb>, r: seq<Limb>, rh: Limb)
    requires IsSqrtRemLimbs(a, s, r, rh)
    ensures rh <= 1
  {
  }

  /** The recursive call, on the limbs above the lowest 2l. */
  method RootOfHigh(tabs: array<Limb>, so: nat, taba: array<Limb>, ao: nat, n: nat, l: nat, tmp: array<Limb>)
    returns (t: Limb)
    requires 1 <= l < n && so + n <= tabs.Length && ao + 2 * n <= taba.Length && n / 2 + 1 <= tmp.Length
    requires tabs != taba && tabs != tmp && taba != tmp && 4 * taba[ao + 2 * n - 1] >= B
    modifies tabs, taba, tmp
    ensures OnlyWindow(tabs, so + l, so + n) && OnlyWindow(taba, ao + 2 * l, ao + 2 * n)
    ensures taba[ao..ao + 2 * l] == old(taba[ao..ao + 2 * n])[..2 * l]
    ensures IsSqrtRemLimbs(old(taba[ao..ao + 2 * n])[2 * l..], tabs[so + l..so + n],
        taba[ao + 2 * l..ao + 2 * l + (n - l)], t)
    decreases n, 0
  {
    hide Val, BPow, IsSqrtRem, IsSqrtRemLimbs;
    var h := n - l;
    assert taba[ao + 2 * l..ao + 2 * l + 2 * h] == taba[ao..ao + 2 * n][2 * l..];
    assert so + l + h == so + n;
    t := SqrtRemRec(tabs, so + l, taba, ao + 2 * l, h, tmp);
  }

  /** Square root with remainder of 2n limbs whose top limb is at least B/4. */
  method SqrtRemRec(tabs: array<Limb>, so: nat, taba: array<Limb>, ao: nat, n: nat, tmp: array<Limb>) returns (rh: Limb)
    requires 1 <= n && so + n <= tabs.Length && ao + 2 * n <= taba.Length && n / 2 + 1 <= tmp.Length
    requires tabs != taba && tabs != tmp && taba != tmp && 4 * taba[ao + 2 * n - 1] >= B
    modifies tabs, taba, tmp
    ensures OnlyWindow(tabs, so, so + n) && OnlyWindow(taba, ao, ao + 2 * n)
    ensures IsSqrtRemLimbs(old(taba[ao..ao + 2 * n]), tabs[so..so + n], taba[ao..ao + n], rh)
    decreases n
  {
    hide Val, BPow, Bit, StepOutcome, IsSqrtRem, IsSqrtRemLimbs;
    ghost var a := taba[ao..ao + 2 * n];
    if n == 1 {
      rh := SqrtRem2(tabs, so, taba, ao);
      TwoLimbRoot(a, tabs[so..so + n], taba[ao..ao + n], rh);
      return;
    }
    var l := n / 2;
    var h := n - l;
    var t := RootOfHigh(tabs, so, taba, ao, n, l, tmp);
    assert taba[ao..ao + 2 * l] == a[..2 * l];
    var qh, rh0 := DivideStep(tabs, so, taba, ao, n, l, h, tmp, t, a);
    rh := FinishRoot(tabs, so, taba, ao, n, l, h, qh, rh0, a);
  }

  /** The entry point: the remainder's top bit lands in limb n of the operand. */
  method SqrtRem(tabs: array<Limb>, so: nat, taba: array<Limb>, ao: nat, n: nat)
    requires 1 <= n && so + n <= tabs.Length && ao + 2 * n <= taba.Length && tabs != taba
    requires 4 * taba[ao + 2 * n - 1] >= B
    modifies tabs, taba
    ensures OnlyWindow(tabs, so, so + n) && OnlyWindow(taba, ao, ao + 2 * n)
    ensures IsSqrtRem(old(Val(taba[ao..ao + 2 * n])), Val(tabs[so..so + n]), Val(taba[ao..ao + n + 1]))
  {
    hide Val, BPow, IsSqrtRem;
    var tmp := new Limb[n / 2 + 1];
    var rh := SqrtRemRec(tabs, so, taba, ao, n, tmp);
    ghost var r := taba[ao..ao + n];
    taba[ao + n] := rh;
    assert taba[ao..ao + n + 1] == r + [rh];
    ValSnoc(r, rh);
  }
}
