/** Single bits and runs of bits of a sequence of limbs, and shifts by less than a limb. */
module Bits {
  import opened Arith
  import opened Limbs

  lemma {:induction false} BPowIsPow2(n: nat)
    ensures BPow(n) == Pow2(n * LIMB_BITS)
  {
    if n > 0 {
      BPowIsPow2(n - 1);
      BaseIsPow2();
      Pow2Add(LIMB_BITS, (n - 1) * LIMB_BITS);
    }
  }

  /** A bit position, as limb index and bit index. */
  lemma {:induction false} PositionPower(pos: nat, i: nat, j: nat)
    requires pos == i * LIMB_BITS + j && j <= LIMB_BITS
    ensures Pow2(pos) == BPow(i) * Pow2(j) && B == Pow2(j) * Pow2(LIMB_BITS - j)
  {
    hide Pow2, BPow;
    BPowIsPow2(i);
    Pow2Add(i * LIMB_BITS, j);
    BaseIsPow2();
    Pow2Add(j, LIMB_BITS - j);
  }

  /** A limb with b * t more above it, divided by a power d of two that divides the base b = d * e. */
  lemma LimbBelow(x: int, t: int, d: int, e: int, b: int)
    requires d > 0 && b == d * e && 0 <= x && 0 <= t
    ensures (x + b * t) / d == x / d + e * t && (x + b * t) % d == x % d
  {
    DivFacts(x, d);
    LimbShuffle(x / d, t, d, e);
    DivModUnique(x + b * t, d, x / d + e * t, x % d);
  }

  lemma LimbShuffle(q: int, t: int, d: int, e: int)
    ensures (q + e * t) * d == q * d + d * e * t
  {
  }

  lemma {:induction false} ValFrom(s: seq<Limb>, i: nat)
    requires i < |s|
    ensures Val(s[i..]) == s[i] + B * Val(s[i + 1..])
  {
    assert s[i..] == [s[i]] + s[i + 1..];
    ValCons(s[i], s[i + 1..]);
  }

  /** Bits from position i * LIMB_BITS + j on, and bits below it: the i low limbs and the j low bits of the next. */
  lemma {:induction false} LowBits(s: seq<Limb>, pos: nat, i: nat, j: nat)
    requires i < |s| && pos == i * LIMB_BITS + j && j <= LIMB_BITS
    ensures Val(s) % Pow2(pos) == Val(s[..i]) + BPow(i) * (s[i] % Pow2(j))
    ensures Val(s) / Pow2(pos) == s[i] / Pow2(j) + Pow2(LIMB_BITS - j) * Val(s[i + 1..])
  {
    hide Pow2, BPow, Val;
    PositionPower(pos, i, j);
    ValSplit(s, i);
    ValBound(s[..i]);
    ValFrom(s, i);
    LowBitsOf(Val(s), Val(s[..i]), s[i], Val(s[i + 1..]), BPow(i), Pow2(j), Pow2(LIMB_BITS - j), Val(s[i..]),
        Pow2(pos));
  }

  lemma {:induction false} BitAt(s: seq<Limb>, pos: nat, i: nat, j: nat)
    requires i < |s| && pos == i * LIMB_BITS + j && j < LIMB_BITS
    ensures Val(s) / Pow2(pos) % 2 == s[i] / Pow2(j) % 2
  {
    hide Pow2, BPow, Val;
    LowBits(s, pos, i, j);
    DivFacts(s[i], Pow2(j));
    MulCancel(-1, s[i] / Pow2(j), Pow2(j)) by { MulMono(-1, -1, Pow2(j)); }
    EvenHigh(s[i] / Pow2(j), j, Val(s[i + 1..]));
  }

  lemma LowBitsOf(v: int, lo: int, x: int, t: int, p: int, d: int, e: int, h: int, w: int)
    requires w == p * d && v == lo + p * h && h == x + B * t && B == d * e && 0 <= lo < p && d > 0 && 0 <= x && 0 <= t
    ensures v / w == x / d + e * t && v % w == lo + p * (x % d)
  {
    LimbBelow(x, t, d, e, B);
    DivFacts(h, d);
    LowBitsSum(v, lo, h, p, d, h / d, h % d);
  }

  /** v = lo + p * h, h = q * d + r: quotient and remainder of v by p * d. */
  lemma LowBitsSum(v: int, lo: int, h: int, p: int, d: int, q: int, r: int)
    requires v == lo + p * h && h == q * d + r && 0 <= lo < p && 0 <= r < d
    ensures v / (p * d) == q && v % (p * d) == lo + p * r
  {
    MulBetween(p, 0, r, d - 1);
    assert p * (d - 1) == p * d - p;
    assert p * (q * d + r) == q * (p * d) + p * r;
    DivModUnique(v, p * d, q, lo + p * r);
  }

  lemma {:induction false} EvenHigh(x: nat, j: nat, t: nat)
    requires j < LIMB_BITS
    ensures (x + Pow2(LIMB_BITS - j) * t) % 2 == x % 2
  {
    assert Pow2(LIMB_BITS - j) == 2 * Pow2(LIMB_BITS - j - 1);
    EvenSum(x, Pow2(LIMB_BITS - j - 1), t);
  }

  lemma EvenSum(x: int, p: int, t: int)
    ensures (x + 2 * p * t) % 2 == x % 2
  {
    assert 2 * p * t == 2 * (p * t);
  }

  /** The bit at a position, 0 outside the limbs. */
  function GetBit(s: seq<Limb>, pos: int): nat {
    var i := pos / LIMB_BITS;
    if i < 0 || i >= |s| then 0 else s[i] / Pow2(pos % LIMB_BITS) % 2
  }

  lemma {:induction false} GetBitValue(s: seq<Limb>, pos: int)
    ensures GetBit(s, pos) == if pos < 0 then 0 else Val(s) / Pow2(pos) % 2
  {
    hide Pow2, BPow, Val;
    if pos >= 0 {
      var i, j := pos / LIMB_BITS, pos % LIMB_BITS;
      if i < |s| {
        BitAt(s, pos, i, j);
      } else {
        ValBound(s);
        BPowIsPow2(|s|);
        Pow2Mono(|s| * LIMB_BITS, pos);
        DivModUnique(Val(s), Pow2(pos), 0, Val(s));
      }
    }
  }

  lemma {:induction false} Pow2Mono(a: nat, b: nat)
    requires a <= b
    ensures Pow2(a) <= Pow2(b)
  {
    hide Pow2;
    Pow2Add(a, b - a);
    MulBetween(Pow2(a), 1, Pow2(b - a), Pow2(b - a));
  }

  /** Is any bit at or below a position set? */
  method ScanBitNz(tab: array<Limb>, l: nat, bitPos: int) returns (nz: bool)
    requires l <= tab.Length && bitPos < l * LIMB_BITS
    ensures nz <==> bitPos >= 0 && Val(tab[..l]) % Pow2(bitPos + 1) != 0
  {
    hide Pow2, BPow, Val;
    var pos := bitPos / LIMB_BITS;
    if pos < 0 {
      return false;
    }
    ghost var s := tab[..l];
    var j := bitPos % LIMB_BITS + 1;
    LowBits(s, bitPos + 1, pos, j);
    assert s[..pos] == tab[..pos];
    var v := tab[pos] % Pow2(j);
    LowPart(Val(tab[..pos]), BPow(pos), v);
    if v != 0 {
      return true;
    }
    nz := ScanLimbs(tab, pos);
  }

  lemma LowPart(lo: nat, p: nat, v: nat)
    requires p > 0
    ensures lo + p * v == 0 <==> lo == 0 && v == 0
  {
    MulBetween(p, 0, v, v);
    if v > 0 {
      MulBetween(p, 1, v, v);
    }
  }

  method ScanLimbs(tab: array<Limb>, n: nat) returns (nz: bool)
    requires n <= tab.Length
    ensures nz <==> Val(tab[..n]) != 0
  {
    hide BPow, Val;
    var pos := n - 1;
    nz := false;
    while pos >= 0
      invariant -1 <= pos < n && forall i | pos < i < n :: tab[i] == 0
    {
      if tab[pos] != 0 {
        ValNonZero(tab[..n], pos);
        return true;
      }
      pos := pos - 1;
    }
    ValZeros(tab[..n]);
  }

  lemma {:induction false} ValNonZero(s: seq<Limb>, i: nat)
    requires i < |s| && s[i] != 0
    ensures Val(s) >= s[i] && Val(s) >= BPow(i)
  {
    hide BPow, Val;
    ValSplit(s, i);
    ValFrom(s, i);
    MulBetween(B, 0, Val(s[i + 1..]), Val(s[i + 1..]));
    MulBetween(BPow(i), 1, Val(s[i..]), Val(s[i..]));
    MulMono(1, BPow(i), Val(s[i..]));
  }

  /** Leading zero limbs carry no value. */
  method TrimTop(tab: array<Limb>, len: nat) returns (l: nat)
    requires len <= tab.Length
    ensures l <= len && Val(tab[..l]) == Val(tab[..len]) && (l > 0 ==> tab[l - 1] != 0)
  {
    hide BPow, Val;
    l := len;
    while l > 0 && tab[l - 1] == 0
      invariant l <= len && Val(tab[..l]) == Val(tab[..len])
    {
      ValTake(tab[..len], l - 1);
      assert tab[..len][..l] == tab[..l] && tab[..len][..l - 1] == tab[..l - 1];
      l := l - 1;
    }
  }

  /** The number of bits of x: the word size less its leading zeros. */
  function BitLength(x: nat): nat {
    if x == 0 then 0 else 1 + BitLength(x / 2)
  }

  lemma {:induction false} BitLengthBounds(x: nat)
    requires x > 0
    ensures BitLength(x) >= 1 && Pow2(BitLength(x) - 1) <= x < Pow2(BitLength(x))
  {
    if x > 1 {
      BitLengthBounds(x / 2);
    }
  }

  lemma {:induction false} BitLengthFits(x: nat, k: nat)
    requires x < Pow2(k)
    ensures BitLength(x) <= k
  {
    if x > 0 {
      BitLengthFits(x / 2, k - 1);
    }
  }

  // ----- shifting left -----

  /** The limb written by a left shift: the low bits of a moved up, the high bits of v below them. */
  function ShiftedLimb(a: Limb, v: Limb, shift: nat): Limb
    requires 1 <= shift < LIMB_BITS
  {
    ShiftedParts(a, v, shift);
    a * Pow2(shift) % B + v / Pow2(LIMB_BITS - shift)
  }

  lemma {:induction false} ShiftedParts(a: Limb, v: Limb, shift: nat)
    requires 1 <= shift < LIMB_BITS
    ensures B == Pow2(shift) * Pow2(LIMB_BITS - shift)
    ensures 0 <= v / Pow2(LIMB_BITS - shift) < Pow2(shift)
    ensures 0 <= a * Pow2(shift) % B + v / Pow2(LIMB_BITS - shift) < B
    ensures a * Pow2(shift) == a / Pow2(LIMB_BITS - shift) * B + a * Pow2(shift) % B
  {
    hide Pow2;
    BaseIsPow2();
    Pow2Add(shift, LIMB_BITS - shift);
    ShiftedBounds(a, v, Pow2(shift), Pow2(LIMB_BITS - shift), B);
  }

  lemma ShiftedBounds(a: int, v: int, d: int, e: int, b: int)
    requires d > 0 && e > 0 && b == d * e && 0 <= a < b && 0 <= v < b
    ensures 0 <= v / e < d && 0 <= a * d % b + v / e < b
    ensures a * d == a / e * b + a * d % b
  {
    DivFacts(v, e);
    MulCancel(v / e, d, e);
    MulCancel(-1, v / e, e);
    DivFacts(a, e);
    var x, y := a / e, a % e;
    assert a * d == x * b + y * d by { assert (x * e + y) * d == x * (d * e) + y * d; }
    MulMono(y, e - 1, d);
    MulMono(0, y, d);
    assert (e - 1) * d == b - d;
    DivModUnique(a * d, b, x, y * d);
  }

  /** After i limbs: what is written, plus the bits still held, is the low part shifted. */
  lemma {:induction false} ShiftStepUp(u: seq<Limb>, r: seq<Limb>, i: nat, v: Limb, shift: nat)
    requires i < |u| && |r| == i && 1 <= shift < LIMB_BITS
    requires Val(r) + v / Pow2(LIMB_BITS - shift) * BPow(i) == Val(u[..i]) * Pow2(shift)
    ensures Val(r + [ShiftedLimb(u[i], v, shift)]) + u[i] / Pow2(LIMB_BITS - shift) * BPow(i + 1)
        == Val(u[..i + 1]) * Pow2(shift)
  {
    hide Pow2, BPow, Val;
    ShiftedParts(u[i], v, shift);
    ValPush(r, ShiftedLimb(u[i], v, shift), i);
    ValTake(u, i);
    BPowStep(i);
    ShiftSum(Val(r), v / Pow2(LIMB_BITS - shift), BPow(i), Val(u[..i]), Pow2(shift), u[i], u[i] * Pow2(shift) % B,
             u[i] / Pow2(LIMB_BITS - shift), B);
  }

  lemma ShiftSum(r: int, c: int, p: int, u: int, d: int, x: int, lo: int, hi: int, b: int)
    requires r + c * p == u * d && x * d == hi * b + lo
    ensures r + (lo + c) * p + hi * (b * p) == (u + x * p) * d
  {
    assert x * p * d == (x * d) * p;
    assert (hi * b + lo) * p == hi * (b * p) + lo * p;
  }

  /** Shift l limbs left in place; nothing may be lost at the top. */
  method ShiftUp(tab: array<Limb>, l: nat, shift: nat)
    requires 1 <= l <= tab.Length && 1 <= shift < LIMB_BITS && tab[l - 1] * Pow2(shift) < B
    modifies tab
    ensures OnlyWindow(tab, 0, l) && Val(tab[..l]) == old(Val(tab[..l])) * Pow2(shift)
  {
    hide Pow2, BPow, Val, ShiftedLimb;
    ghost var u := tab[..l];
    var v: Limb := 0;
    var i := 0;
    ShiftBegin(u, shift);
    assert tab[..0] == [];
    while i < l
      invariant 0 <= i <= l && (i > 0 ==> v == u[i - 1])
      invariant OnlyWindow(tab, 0, i)
      invariant Val(tab[..i]) + v / Pow2(LIMB_BITS - shift) * BPow(i) == Val(u[..i]) * Pow2(shift)
    {
      ghost var r := tab[..i];
      var a := tab[i];
      assert a == u[i];
      ShiftStepUp(u, r, i, v, shift);
      tab[i] := ShiftedLimb(a, v, shift);
      assert tab[..i + 1] == r + [ShiftedLimb(a, v, shift)];
      v := a;
      i := i + 1;
    }
    TopStays(v, shift);
    assert u[..l] == u;
  }

  lemma {:induction false} ShiftBegin(u: seq<Limb>, shift: nat)
    ensures Val([]) + 0 / Pow2(if shift < LIMB_BITS then LIMB_BITS - shift else 0) * BPow(0)
        == Val(u[..0]) * Pow2(shift)
  {
    assert u[..0] == [];
  }

  lemma {:induction false} TopStays(v: Limb, shift: nat)
    requires 1 <= shift < LIMB_BITS && v * Pow2(shift) < B
    ensures v / Pow2(LIMB_BITS - shift) == 0
  {
    hide Pow2;
    BaseIsPow2();
    Pow2Add(shift, LIMB_BITS - shift);
    MulCancel(v, Pow2(LIMB_BITS - shift), Pow2(shift)) by { MulComm(Pow2(LIMB_BITS - shift), Pow2(shift)); }
    DivModUnique(v, Pow2(LIMB_BITS - shift), 0, v);
  }

  /** The top bit, in the limbs and in the value. */
  lemma {:induction false} TopBitValue(s: seq<Limb>)
    requires |s| > 0
    ensures 2 * s[|s| - 1] >= B <==> 2 * Val(s) >= BPow(|s|)
  {
    hide Val, BPow;
    var m := |s| - 1;
    ValTake(s, m);
    assert s[..m + 1] == s;
    ValBound(s[..m]);
    BPowStep(m);
    TopBitSum(Val(s[..m]), s[m], BPow(m));
  }

  lemma TopBitSum(lo: int, x: int, p: int)
    requires 0 <= lo < p
    ensures 2 * x >= B <==> 2 * (lo + x * p) >= B * p
  {
    if 2 * x >= B {
      MulMono(B, 2 * x, p);
    } else {
      assert B % 2 == 0;
      MulMono(2 * x + 2, B, p);
      assert (2 * x + 2) * p == 2 * (x * p) + 2 * p;
    }
  }

  // ----- a limb's worth of bits at any position -----

  function LimbAt(s: seq<Limb>, i: int): Limb {
    if 0 <= i < |s| then s[i] else 0
  }

  /** LIMB_BITS bits from position pos on; positions may be negative. */
  function GetBits(s: seq<Limb>, pos: int): Limb {
    var i, p := pos / LIMB_BITS, pos % LIMB_BITS;
    if p == 0 then LimbAt(s, i) else ShiftedLimb(LimbAt(s, i + 1), LimbAt(s, i), LIMB_BITS - p)
  }

  /** Any limb and all above it, with zeros past the end. */
  lemma {:induction false} ValFromAny(s: seq<Limb>, i: nat)
    ensures var t := if i <= |s| then Val(s[i..]) else 0; var t' := if i + 1 <= |s| then Val(s[i + 1..]) else 0;
      t == LimbAt(s, i) + B * t'
  {
    if i < |s| {
      ValFrom(s, i);
    } else if i == |s| {
      assert s[i..] == [];
    }
  }

  /** The value shifted right by i limbs. */
  lemma {:induction false} ValShifted(s: seq<Limb>, i: nat)
    ensures Val(s) / BPow(i) == if i <= |s| then Val(s[i..]) else 0
  {
    hide Val, BPow;
    if i <= |s| {
      ValDiv(s, i);
    } else {
      ValBound(s);
      BPowAdd(|s|, i - |s|);
      MulBetween(BPow(|s|), 1, BPow(i - |s|), BPow(i - |s|));
      DivModUnique(Val(s), BPow(i), 0, Val(s));
    }
  }

  lemma {:induction false} GetBitsValue(s: seq<Limb>, pos: int)
    ensures GetBits(s, pos) == if pos >= 0 then Val(s) / Pow2(pos) % B else Val(s) * Pow2(-pos) % B
  {
    if pos >= 0 {
      GetBitsUp(s, pos, pos / LIMB_BITS, pos % LIMB_BITS);
    } else {
      GetBitsDown(s, -pos);
    }
  }

  lemma {:induction false} GetBitsUp(s: seq<Limb>, pos: nat, i: nat, p: nat)
    requires pos == i * LIMB_BITS + p && p < LIMB_BITS && i == pos / LIMB_BITS && p == pos % LIMB_BITS
    ensures GetBits(s, pos) == Val(s) / Pow2(pos) % B
  {
    hide Val, BPow, Pow2, LimbAt, ShiftedLimb;
    PositionPower(pos, i, p);
    DivDiv(Val(s), BPow(i), Pow2(p));
    ValShifted(s, i);
    ValFromAny(s, i);
    ValFromAny(s, i + 1);
    var t1 := if i + 1 <= |s| then Val(s[i + 1..]) else 0;
    var t2 := if i + 2 <= |s| then Val(s[i + 2..]) else 0;
    if p == 0 {
      WindowAligned(LimbAt(s, i), t1, Val(s) / BPow(i));
    } else {
      WindowShifted(LimbAt(s, i), LimbAt(s, i + 1), t1, t2, p, Val(s) / BPow(i));
    }
  }

  lemma {:induction false} WindowAligned(a: Limb, t: int, x: int)
    requires x == a + B * t
    ensures x / Pow2(0) % B == a
  {
    DivModUnique(x, 1, x, 0);
    MulComm(B, t);
    DivModUnique(x, B, t, a);
  }

  lemma {:induction false} WindowShifted(a: Limb, a1: Limb, t1: nat, t2: nat, p: nat, x: int)
    requires 1 <= p < LIMB_BITS && x == a + B * t1 && t1 == a1 + B * t2
    ensures x / Pow2(p) % B == ShiftedLimb(a1, a, LIMB_BITS - p)
  {
    hide Pow2;
    PositionPower(p, 0, p);
    LimbBelow(a, t1, Pow2(p), Pow2(LIMB_BITS - p), B);
    ShiftedParts(a1, a, LIMB_BITS - p);
    WindowSum(a / Pow2(p), a1, t2, Pow2(LIMB_BITS - p), t1, a1 * Pow2(LIMB_BITS - p) % B, a1 / Pow2(p));
  }

  /** x + e * t1 modulo B, with t1 = a1 + B * t2. */
  lemma WindowSum(x: int, a1: int, t2: int, e: int, t1: int, lo: int, hi: int)
    requires t1 == a1 + B * t2 && a1 * e == hi * B + lo && 0 <= lo + x < B
    ensures (x + e * t1) % B == lo + x
  {
    assert e * (a1 + B * t2) == a1 * e + e * t2 * B;
    assert (hi + e * t2) * B == hi * B + e * t2 * B;
    DivModUnique(x + e * t1, B, hi + e * t2, lo + x);
  }

  lemma {:induction false} GetBitsDown(s: seq<Limb>, k: int)
    requires k >= 1
    ensures GetBits(s, -k) == Val(s) * Pow2(k) % B
  {
    hide Val, BPow, Pow2, LimbAt;
    BaseIsPow2();
    ValFromAny(s, 0);
    assert s[0..] == s;
    var a := LimbAt(s, 0);
    var t := if 1 <= |s| then Val(s[1..]) else 0;
    NegativeIndex(s);
    if k >= LIMB_BITS {
      Pow2Add(k - LIMB_BITS, LIMB_BITS);
      MulAssoc(Val(s), Pow2(k - LIMB_BITS), B);
      DivModUnique(Val(s) * Pow2(k), B, Val(s) * Pow2(k - LIMB_BITS), 0);
      NegativeWindow(s, k);
    } else {
      DivModUnique(-k, LIMB_BITS, -1, LIMB_BITS - k);
      ShiftedParts(a, 0, k);
      DivModUnique(0, Pow2(LIMB_BITS - k), 0, 0);
      LowProduct(a, t, Pow2(k), a * Pow2(k) % B, a / Pow2(LIMB_BITS - k));
    }
  }

  lemma NegativeIndex(s: seq<Limb>)
    ensures forall i | i < 0 :: LimbAt(s, i) == 0
  {
  }

  /** Far below the first limb there is nothing. */
  lemma {:induction false} NegativeWindow(s: seq<Limb>, k: int)
    requires k >= LIMB_BITS
    ensures GetBits(s, -k) == 0
  {
    hide Pow2, LimbAt;
    NegativeIndex(s);
    var i, p := -k / LIMB_BITS, -k % LIMB_BITS;
    assert i < 0 && (p != 0 ==> i + 1 < 0);
    if p != 0 {
      ShiftedParts(0, 0, LIMB_BITS - p);
      DivModUnique(0, Pow2(p), 0, 0);
      DivModUnique(0, B, 0, 0);
    }
  }

  lemma LowProduct(a: int, t: int, d: int, lo: int, hi: int)
    requires a * d == hi * B + lo && 0 <= lo < B
    ensures (a + B * t) * d % B == lo
  {
    assert (a + B * t) * d == a * d + t * d * B;
    assert (hi + t * d) * B == hi * B + t * d * B;
    DivModUnique((a + B * t) * d, B, hi + t * d, lo);
  }
}
