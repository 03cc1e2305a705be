/**
 Numbers as little-endian sequences of machine words ("limbs"). The word size is left
 open: every result below holds for both sizes the library can be built with.
 */
module Limbs {
  import opened Arith

  type LimbWidth = w: nat | w == 32 || w == 64 witness 32

  const LIMB_BITS: LimbWidth

  /** The base: one more than the largest limb. */
  const B: nat := if LIMB_BITS == 32 then 0x1_0000_0000 else 0x1_0000_0000_0000_0000

  /** The square root of the base. */
  const H: nat := if LIMB_BITS == 32 then 0x1_0000 else 0x1_0000_0000

  lemma RootOfBase()
    ensures B == H * H && H % 2 == 0 && H >= 65536
  {
  }

  lemma {:induction false} BaseIsPow2()
    ensures B == Pow2(LIMB_BITS)
  {
    hide Pow2;
    Pow2Values();
  }

  type Limb = x: nat | x < B witness 0

  /** The number a sequence of limbs stands for, least significant limb first. */
  function Val(s: seq<Limb>): nat {
    if s == [] then 0 else s[0] + B * Val(s[1..])
  }

  function BPow(n: nat): (p: nat)
    ensures p > 0
  {
    if n == 0 then 1 else B * BPow(n - 1)
  }

  lemma {:induction false} BPowStep(n: nat)
    ensures BPow(0) == 1 && BPow(n + 1) == B * BPow(n)
  {
  }

  lemma {:induction false} BPowAdd(m: nat, n: nat)
    ensures BPow(m + n) == BPow(m) * BPow(n)
    decreases m
  {
    if m > 0 {
      BPowAdd(m - 1, n);
      MulAssoc(B, BPow(m - 1), BPow(n));
    }
  }

  lemma DistStep(b: int, x: int, p: int, t: int)
    ensures b * (x + p * t) == b * x + (b * p) * t
  {
  }

  lemma {:induction false} ValAppend(s: seq<Limb>, t: seq<Limb>)
    ensures Val(s + t) == Val(s) + BPow(|s|) * Val(t)
  {
    if s == [] {
      assert s + t == t;
    } else {
      assert (s + t)[1..] == s[1..] + t;
      ValAppend(s[1..], t);
      DistStep(B, Val(s[1..]), BPow(|s| - 1), Val(t));
    }
  }

  lemma {:induction false} ValJoin(s: seq<Limb>, t: seq<Limb>, n: nat)
    requires |s| == n
    ensures Val(s + t) == Val(s) + BPow(n) * Val(t)
  {
    hide Val, BPow;
    ValAppend(s, t);
  }

  lemma {:induction false} ValSingle(x: Limb)
    ensures Val([x]) == x
  {
    assert Val([x][1..]) == 0;
  }

  lemma {:induction false} ValCons(x: Limb, s: seq<Limb>)
    ensures Val([x] + s) == x + B * Val(s)
  {
    assert ([x] + s)[1..] == s;
  }

  lemma {:induction false} ValSnoc(s: seq<Limb>, x: Limb)
    ensures Val(s + [x]) == Val(s) + x * BPow(|s|)
  {
    ValAppend(s, [x]);
    ValSingle(x);
    MulComm(BPow(|s|), x);
  }

  lemma {:induction false} ValPush(s: seq<Limb>, x: Limb, n: nat)
    requires |s| == n
    ensures Val(s + [x]) == Val(s) + x * BPow(n)
  {
    hide Val, BPow;
    ValSnoc(s, x);
  }

  lemma {:induction false} ValTake(s: seq<Limb>, i: nat)
    requires i < |s|
    ensures Val(s[..i + 1]) == Val(s[..i]) + s[i] * BPow(i)
  {
    assert s[..i + 1] == s[..i] + [s[i]];
    ValSnoc(s[..i], s[i]);
  }

  lemma {:induction false} ValSplit(s: seq<Limb>, k: nat)
    requires k <= |s|
    ensures Val(s) == Val(s[..k]) + BPow(k) * Val(s[k..])
  {
    assert s == s[..k] + s[k..];
    ValAppend(s[..k], s[k..]);
  }

  lemma {:induction false} ValBound(s: seq<Limb>)
    ensures Val(s) < BPow(|s|)
  {
    if s != [] {
      ValBound(s[1..]);
      MulMono(Val(s[1..]), BPow(|s| - 1) - 1, B);
      assert B * (BPow(|s| - 1) - 1) == B * BPow(|s| - 1) - B;
    }
  }

  lemma {:induction false} ValBelow(s: seq<Limb>, n: nat)
    requires |s| == n
    ensures Val(s) < BPow(n)
  {
    hide Val, BPow;
    ValBound(s);
  }

  /** Dropping low limbs divides; keeping them takes the remainder. */
  lemma {:induction false} ValDiv(s: seq<Limb>, k: nat)
    requires k <= |s|
    ensures Val(s[k..]) == Val(s) / BPow(k) && Val(s[..k]) == Val(s) % BPow(k)
  {
    hide Val, BPow;
    ValSplit(s, k);
    ValBound(s[..k]);
    MulComm(BPow(k), Val(s[k..]));
    DivModUnique(Val(s), BPow(k), Val(s[k..]), Val(s[..k]));
  }

  lemma {:induction false} ValZeros(s: seq<Limb>)
    requires forall i | 0 <= i < |s| :: s[i] == 0
    ensures Val(s) == 0
  {
    if s != [] {
      ValZeros(s[1..]);
    }
  }

  function Zeros(n: nat): (z: seq<Limb>)
    ensures |z| == n && (forall i | 0 <= i < n :: z[i] == 0) && Val(z) == 0
  {
    var z := seq(n, _ => 0);
    ValZeros(z);
    z
  }

  /** Writing `res` limb by limb upwards never overwrites a limb of `a` not yet read. */
  predicate Upward(res: array<Limb>, ro: nat, a: array<Limb>, ao: nat, n: nat) {
    res != a || ro <= ao || ao + n <= ro
  }

  /** Outside the window [lo, hi) the array holds what it held before. */
  twostate predicate OnlyWindow(a: array<Limb>, lo: int, hi: int)
    reads a
  {
    forall i | 0 <= i < a.Length && (i < lo || hi <= i) :: a[i] == old(a[i])
  }

  /** A slice outside the window is as it was when the limbs were s. */
  lemma {:induction false} KeptSlice(a: array<Limb>, s: seq<Limb>, lo: int, hi: int, i: nat, j: nat)
    requires |s| == a.Length && (forall k | 0 <= k < a.Length && (k < lo || hi <= k) :: a[k] == s[k])
    requires i <= j <= a.Length && (j <= lo || hi <= i)
    ensures a[i..j] == s[i..j]
  {
  }

  lemma {:induction false} TwoSlices(a: array<Limb>, i: nat, j: nat, k: nat)
    requires i <= j <= k <= a.Length
    ensures a[i..k] == a[i..j] + a[j..k]
  {
  }

  lemma {:induction false} SliceOfSlice(a: array<Limb>, ao: nat, n: nat, i: nat, j: nat)
    requires i <= j <= n && ao + n <= a.Length
    ensures a[ao..ao + n][i..j] == a[ao + i..ao + j]
  {
    var u, v := a[ao..ao + n][i..j], a[ao + i..ao + j];
    assert |u| == |v|;
    forall k | 0 <= k < |u|
      ensures u[k] == v[k]
    {
      assert u[k] == a[ao..ao + n][i + k] == a[ao + (i + k)];
    }
  }
}
