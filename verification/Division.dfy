/** Division of limb arrays by a divisor whose top bit is set. */
module Division {
  import opened Arith
  import opened Limbs
  import opened LimbOps

  // ----- one digit of the quotient -----

  /** Dividing the leading two limbs by the leading limb of the divisor is never too small ... */
  lemma EstimateHigh(p: int, b1: int, b0: int, x: int, w0: int, q: int)
    requires p > 0 && 0 <= b0 && 0 <= w0 < p && 0 <= q
    requires x < (q + 1) * b1
    ensures x * p + w0 < (q + 1) * (b1 * p + b0)
  {
    MulMono(x + 1, (q + 1) * b1, p);
    MulDist(p, x, 1);
    assert ((q + 1) * b1) * p == (q + 1) * (b1 * p);
    MulDist(q + 1, b1 * p, b0);
    MulMono(0, b0, q + 1);
    MulComm(b0, q + 1);
  }

  /** ... and too large by two at most. */
  lemma EstimateLow(p: int, b1: int, b0: int, x: int, w0: int, q: int)
    requires p > 0 && 0 <= b0 < p && 0 <= w0 && 0 <= b1 && 0 <= q && 0 <= x
    requires q <= 2 * b1 + 2 && q * b1 <= x
    ensures (q - 2) * (b1 * p + b0) <= x * p + w0
  {
    if q >= 2 {
      MulMono(b0, p, q - 2);
      assert (q - 2) * (b1 * p + b0) == (q - 2) * (b1 * p) + b0 * (q - 2);
      assert (q - 2) * (b1 * p) + p * (q - 2) == ((q - 2) * (b1 + 1)) * p;
      assert (q - 2) * (b1 + 1) == q * b1 + q - 2 * b1 - 2;
      MulMono((q - 2) * (b1 + 1), x, p);
    } else {
      MulMono(q - 2, 0, b1 * p + b0);
      MulMono(0, b1, p);
      MulMono(0, x, p);
    }
  }

  // ----- dividing two limbs by one -----

  /** What the precomputed inverse satisfies: (B + dInv) * d = B^2 - k with 1 <= k <= d. */
  lemma InverseBounds(b: int, d: int, dInv: int)
    requires 0 < d < b <= 2 * d
    requires dInv == (b * b - d * b - 1) / d
    ensures 0 <= dInv < b && 1 <= b * b - (b + dInv) * d <= d
  {
    var t := b * b - d * b - 1;
    MulMono(d + 1, b, b);
    MulDist(b, d, 1);
    assert t == dInv * d + t % d;
    MulDist(d, b, dInv);
    if dInv >= b {
      MulMono(b, dInv, d);
      MulMono(b - d, d, b);
      MulDist(b, b, -d);
    }
    if dInv < 0 {
      MulMono(dInv, -1, d);
    }
  }

  /** The estimate leaves a remainder in [0, 2d). */
  lemma UdivEstimate(b: int, d: int, dInv: int, a1: int, a0: int, top: int, adj: int, x: int, q: int)
    requires 0 < d < b <= 2 * d && 0 <= a1 < d && 0 <= a0 < b
    requires 1 <= b * b - (b + dInv) * d <= d
    requires top == (if 2 * a0 >= b then 1 else 0) && adj == (if 2 * a0 >= b then a0 + d - b else a0)
    requires x == dInv * (a1 + top) + adj && q == x / b + a1
    ensures 0 <= a1 * b + a0 - q * d < 2 * d
  {
    var w, x0 := DividedBy(x, b);
    assert q - a1 == w;
    assert adj == a0 + top * (d - b);
    UdivRest(b, d, dInv, a1, a0, top, adj, x, q, b * b - (b + dInv) * d, x0);
  }

  lemma DividedBy(t: int, d: int) returns (q: int, r: int)
    requires d > 0
    ensures q == t / d && t == d * q + r && 0 <= r < d
  {
    q, r := t / d, t % d;
  }

  lemma UdivRest(b: int, d: int, dInv: int, a1: int, a0: int, top: int, adj: int, x: int, q: int, k: int, x0: int)
    requires 0 < d < b && 0 <= a1 < d && 0 <= top <= 1 && 0 <= adj <= d - 1 && 0 <= x0 < b && 1 <= k <= d
    requires k == b * b - (b + dInv) * d && x == b * (q - a1) + x0
    requires adj == a0 + top * (d - b) && x == dInv * (a1 + top) + adj
    ensures 0 <= a1 * b + a0 - q * d < 2 * d
  {
    var rest := a1 * b + a0 - q * d;
    assert b * rest == (b - d) * adj + k * (a1 + top) + d * x0 by {
      UdivIdentity(b, d, dInv, a1, a0, top, adj, x, q, k, x0);
    }
    UdivTerms(b, d, k, a1 + top, top, adj, x0);
    Unscale(b, rest, 2 * d);
  }

  lemma Unscale(b: int, x: int, y: int)
    requires b > 0 && 0 <= b * x < y * b
    ensures 0 <= x < y
  {
    if x < 0 {
      MulMono(x, -1, b);
    }
    if x >= y {
      MulMono(y, x, b);
    }
  }

  lemma UdivIdentity(b: int, d: int, dInv: int, a1: int, a0: int, top: int, adj: int, x: int, q: int, k: int, x0: int)
    requires b > 0 && k == b * b - (b + dInv) * d && x == b * (q - a1) + x0
    requires adj == a0 + top * (d - b) && x == dInv * (a1 + top) + adj
    ensures b * (a1 * b + a0 - q * d) == (b - d) * adj + k * (a1 + top) + d * x0
  {
  }

  lemma UdivTerms(b: int, d: int, k: int, y: int, top: int, adj: int, x0: int)
    requires 0 < d < b && 0 <= top <= 1 && 1 <= k <= d && 0 <= x0 < b
    requires 0 <= adj <= d - 1 && 0 <= y <= d - 1 + top
    ensures 0 <= (b - d) * adj + k * y + d * x0 < (2 * d) * b
  {
    MulBetween(b - d, 0, adj, d - 1);
    MulBetween(k, 0, y, d - 1 + top);
    MulMono(k, d, d - 1 + top);
    MulBetween(d, 0, x0, b - 1);
    UdivSum(b, d, top);
  }

  lemma UdivSum(b: int, d: int, top: int)
    requires 0 < d < b && 0 <= top <= 1
    ensures (b - d) * (d - 1) + d * (d - 1 + top) + d * (b - 1) < (2 * d) * b
  {
  }

  /** The divisor's inverse: floor((B^2 - 1) / d) - B. */
  function Udiv1NormInit(d: Limb): (r: Limb)
    requires 2 * d >= B
    ensures 1 <= B * B - (B + r) * d <= d
  {
    var t := (B - d - 1) * B + (B - 1);
    assert t == B * B - d * B - 1;
    InverseBounds(B, d, t / d);
    t / d
  }

  /** `mask & d` where the mask is a sign word: no bit or every bit. */
  function Masked(mask: Limb, d: Limb): Limb
    requires mask == 0 || mask == B - 1
  {
    if mask == 0 then 0 else d
  }

  /** The intermediate words of the division: no sum wraps and the last high word is a sign word. */
  lemma UdivWords(a1: Limb, a0: Limb, d: Limb, dInv: Limb, n1: Limb, adj: Limb, t: int, q: int, a: int)
    requires 2 * d >= B && a1 < d && 1 <= B * B - (B + dInv) * d <= d
    requires n1 == (if 2 * a0 >= B then a1 + 1 else a1)
    requires adj == (if 2 * a0 >= B then WAdd(a0, d) else a0)
    requires t == dInv * n1 + adj && q == t / B + a1 && a == a1 * B + a0 - q * d - d
    ensures 0 <= t < B * B && 0 <= q < B && -(d as int) <= a < d
  {
    MulAddFits(dInv, n1, adj, 0);
    var top := if 2 * a0 >= B then 1 else 0;
    UdivEstimate(B, d, dInv, a1, a0, top, adj, t, q);
    QuotientFits(a1, a0, d, q, a + d);
  }

  /** The wrapped difference `a`, split into words, repairs quotient and remainder. */
  lemma UdivRepair(a: int, d: Limb, w: int)
    requires -(d as int) <= a < d && w == (if a < 0 then a + B * B else a)
    ensures 0 <= w < B * B
    ensures w / B == (if a < 0 then B - 1 else 0)
    ensures w % B == (if a < 0 then a + B else a)
  {
    if a < 0 {
      DivModUnique(w, B, B - 1, a + B);
    } else {
      DivModUnique(w, B, 0, a);
    }
  }

  lemma QuotientFits(a1: Limb, a0: Limb, d: Limb, q: int, r: int)
    requires a1 < d && a1 * B + a0 == q * d + r && 0 <= r
    ensures q < B
  {
    if q >= B {
      MulMono(B, q, d);
      MulMono(a1 + 1, d, B);
      MulDist(B, a1, 1);
      MulComm(B, d);
    }
  }

  /** The quotient and the remainder of a1 * B + a0 by d, without dividing. */
  function Udiv1Norm(a1: Limb, a0: Limb, d: Limb, dInv: Limb): (r: (Limb, Limb))
    requires 2 * d >= B && a1 < d && dInv == Udiv1NormInit(d)
    ensures a1 * B + a0 == r.0 * d + r.1 && r.1 < d
  {
    hide Udiv1NormInit;
    var n1m := 2 * a0 >= B;
    var nAdj := if n1m then WAdd(a0, d) else a0;
    var n1: Limb := if n1m then a1 + 1 else a1;
    var t := dInv * n1 + nAdj;
    var q := t / B + a1;
    var a := a1 * B + a0 - q * d - d;
    UdivWords(a1, a0, d, dInv, n1, nAdj, t, q, a);
    var w := if a < 0 then a + B * B else a;
    UdivRepair(a, d, w);
    var ah := w / B;
    assert a < 0 ==> WAdd(WAdd(q, 1), ah) == q;
    assert a1 * B + a0 == (q + 1) * d + a && a1 * B + a0 == q * d + (a + d) by { MulDist(d, q, 1); }
    assert a >= 0 ==> WAdd(WAdd(q, 1), ah) == q + 1 by { if a >= 0 { QuotientFits(a1, a0, d, q + 1, a); } }
    (WAdd(WAdd(q, 1), ah), WAdd(w % B, Masked(ah, d)))
  }

  const UDIV1NORM_THRESHOLD := 3

  /** Both ways the library divides two limbs by one. */
  function DivLimb(a1: Limb, a0: Limb, d: Limb, dInv: Limb, fast: bool): (r: (Limb, Limb))
    requires 2 * d >= B && a1 < d && (fast ==> dInv == Udiv1NormInit(d))
    ensures a1 * B + a0 == r.0 * d + r.1 && r.1 < d
  {
    hide Udiv1NormInit, Udiv1Norm;
    if fast then Udiv1Norm(a1, a0, d, dInv)
    else
      var t := a1 * B + a0;
      EuclideanDivision(t, d);
      QuotientFits(a1, a0, d, t / d, t % d);
      (t / d, t % d)
  }

  lemma EuclideanDivision(t: int, d: int)
    requires t >= 0 && d > 0
    ensures t == (t / d) * d + t % d && 0 <= t / d && 0 <= t % d < d
  {
  }

  /** The high part of the number, divided: quotient limbs w, remainder r. */
  ghost predicate Divided(w: seq<Limb>, d: Limb, r: Limb, u: seq<Limb>, r0: Limb) {
    Val(w) * d + r == Val(u) + r0 * BPow(|u|)
  }

  lemma DividedNone(d: Limb, r: Limb)
    ensures Divided([], d, r, [], r)
  {
  }

  lemma DivideWord(b: int, w: int, w': int, d: int, r: int, r': int, u: int, u': int, e: int, x: int, y: int)
    requires w * d + r == u + e && r * b + x == y * d + r'
    requires w' == y + b * w && u' == x + b * u
    ensures w' * d + r' == u' + b * e
  {
    assert (b * w) * d == b * (w * d);
    assert b * (w * d + r) == b * (u + e);
  }

  lemma {:induction false} DivideStep(w: seq<Limb>, d: Limb, r: Limb, u: seq<Limb>, r0: Limb, x: Limb, y: Limb,
      r': Limb)
    requires |w| == |u| && Divided(w, d, r, u, r0)
    requires r * B + x == y * d + r'
    ensures Divided([y] + w, d, r', [x] + u, r0)
  {
    hide Val, BPow;
    ValCons(y, w);
    ValCons(x, u);
    BPowStep(|u|);
    var e := r0 * BPow(|u|);
    DivideWord(B, Val(w), Val([y] + w), d, r, r', Val(u), Val([x] + u), e, x, y);
    assert B * e == r0 * (B * BPow(|u|));
  }

  /** Divide by one normalised limb. */
  method Div1Norm(res: array<Limb>, ro: nat, a: array<Limb>, ao: nat, n: nat, b: Limb, r0: Limb) returns (r: Limb)
    requires ro + n <= res.Length && ao + n <= a.Length
    requires res != a || ao <= ro || ro + n <= ao
    requires 2 * b >= B && r0 < b
    modifies res
    ensures r < b && OnlyWindow(res, ro, ro + n)
    ensures Val(res[ro..ro + n]) * b + r == old(Val(a[ao..ao + n])) + r0 * BPow(n)
  {
    hide Val, BPow, Divided, Udiv1NormInit, DivLimb;
    ghost var u := a[ao..ao + n];
    DividedNone(b, r0);
    assert res[ro + n..ro + n] == [] && u[n..] == [];
    r := r0;
    var fast := n >= UDIV1NORM_THRESHOLD;
    var bInv := if fast then Udiv1NormInit(b) else 0;
    var i := n;
    while i > 0
      invariant 0 <= i <= n && r < b
      invariant OnlyWindow(res, ro + i, ro + n)
      invariant Divided(res[ro + i..ro + n], b, r, u[i..], r0)
    {
      i := i - 1;
      ghost var w, r1 := res[ro + i + 1..ro + n], r;
      var x := a[ao + i];
      assert x == u[i];
      var (y, r') := DivLimb(r, x, b, bInv, fast);
      res[ro + i] := y;
      r := r';
      assert res[ro + i..ro + n] == [y] + w;
      assert u[i..] == [x] + u[i + 1..];
      DivideStep(w, b, r1, u[i + 1..], r0, x, y, r');
    }
    assert u[0..] == u;
    DividedMeans(res[ro..ro + n], b, r, u, r0);
  }

  lemma {:induction false} DividedMeans(w: seq<Limb>, d: Limb, r: Limb, u: seq<Limb>, r0: Limb)
    requires Divided(w, d, r, u, r0)
    ensures Val(w) * d + r == Val(u) + r0 * BPow(|u|)
  {
  }

  // ----- subtracting one digit's multiple of the divisor -----

  /** The window holds w - q * b, short of B^|win| when that is negative. */
  ghost predicate Owing(win: seq<Limb>, q: int, b: int, w: int, c: int) {
    Val(win) + q * b == w + c * BPow(|win|)
  }

  lemma {:induction false} SubtractedWindow(lo: seq<Limb>, x: Limb, lo0: seq<Limb>, v: Limb, r: Limb, q: Limb, b: int,
      c: Limb)
    requires |lo| == |lo0|
    requires b * q + Val(lo) == Val(lo0) + r * BPow(|lo|)
    requires x + r == v + c * B
    ensures Owing(lo + [x], q, b, Val(lo0 + [v]), c)
  {
    hide Val, BPow;
    ValSnoc(lo, x);
    ValSnoc(lo0, v);
    BPowStep(|lo|);
    var p := BPow(|lo|);
    assert x * p + r * p == v * p + c * (B * p) by { CarryWord(p, B, x, r, 0, v, c); }
  }

  lemma {:induction false} AddedBackWindow(lo: seq<Limb>, x: Limb, lo': seq<Limb>, x': Limb, k: Limb, k': Limb,
      q: int, b: int, w: int)
    requires |lo| == |lo'| && Owing(lo + [x], q, b, w, 1)
    requires Val(lo') + k * BPow(|lo|) == Val(lo) + b
    requires x' + k' * B == x + k && k' <= 1
    ensures Owing(lo' + [x'], q - 1, b, w, 1 - k')
  {
    hide Val, BPow;
    ValSnoc(lo, x);
    ValSnoc(lo', x');
    BPowStep(|lo|);
    AddedBack(Val(lo), x, Val(lo'), x', k, k', q, b, w, BPow(|lo|), B);
  }

  lemma AddedBack(lo: int, x: int, lo': int, x': int, k: int, k': int, q: int, b: int, w: int, p: int, bb: int)
    requires lo + x * p + q * b == w + 1 * (bb * p)
    requires lo' + k * p == lo + b && x' + k' * bb == x + k
    ensures lo' + x' * p + (q - 1) * b == w + (1 - k') * (bb * p)
  {
    assert x' * p == (x + k - k' * bb) * p;
    AddedBackShuffles(x, k, k', q, b, p, bb);
  }

  lemma AddedBackShuffles(x: int, k: int, k': int, q: int, b: int, p: int, bb: int)
    ensures (x + k - k' * bb) * p == x * p + k * p - k' * (bb * p)
    ensures (q - 1) * b == q * b - b && (1 - k') * (bb * p) == bb * p - k' * (bb * p)
  {
  }

  /** A window that owes nothing holds the remainder; one that owes B^|win| stands for a negative number. */
  lemma {:induction false} OwingMeans(win: seq<Limb>, q: int, b: int, w: int, c: int)
    requires Owing(win, q, b, w, c) && (c == 0 || c == 1)
    ensures c == 0 ==> Val(win) == w - q * b
    ensures c == 1 ==> w < q * b
  {
    ValBound(win);
  }

  lemma {:induction false} TopLimbZero(lo: seq<Limb>, x: Limb)
    requires Val(lo + [x]) < BPow(|lo|)
    ensures x == 0 && Val(lo + [x]) == Val(lo)
  {
    hide Val, BPow;
    ValSnoc(lo, x);
    if x >= 1 {
      MulMono(1, x, BPow(|lo|));
    }
  }

  /** While the digit is too large it exceeds the true one, which is at least q0 - 2. */
  lemma DigitsLeft(q: int, q0: int, b: int, w: int)
    requires b > 0 && (q0 - 2) * b <= w < q * b
    ensures q >= q0 - 1
  {
    if q <= q0 - 2 {
      MulMono(q, q0 - 2, b);
    }
  }

  /**
   Take q0 * b off the window; while that is negative, add b back. An estimate too large by
   at most two needs at most two rounds.
   */
  method SubtractDigit(a: array<Limb>, o: nat, b: array<Limb>, bo: nat, nb: nat, q0: Limb)
    returns (q: Limb, ghost rounds: nat)
    requires a != b && nb >= 1 && o + nb + 1 <= a.Length && bo + nb <= b.Length
    requires Val(b[bo..bo + nb]) > 0
    requires (q0 - 2) * Val(b[bo..bo + nb]) <= Val(a[o..o + nb + 1]) < (q0 + 1) * Val(b[bo..bo + nb])
    modifies a
    ensures OnlyWindow(a, o, o + nb + 1)
    ensures q == q0 - rounds && rounds <= 2
    ensures Val(a[o..o + nb + 1]) == old(Val(a[o..o + nb + 1])) - q * Val(b[bo..bo + nb])
    ensures Val(a[o..o + nb + 1]) < Val(b[bo..bo + nb])
  {
    hide Val, BPow, Owing;
    ghost var bv, w := Val(b[bo..bo + nb]), Val(a[o..o + nb + 1]);
    ghost var lo0 := a[o..o + nb];
    assert a[o..o + nb + 1] == lo0 + [a[o + nb]];
    q, rounds := q0, 0;
    var r := SubMul1(a, o, b, bo, nb, q);
    var v := a[o + nb];
    var (x, c) := SubUiWord(v, r);
    SubtractedWindow(a[o..o + nb], x, lo0, v, r, q, bv, c);
    ghost var lo := a[o..o + nb];
    a[o + nb] := x;
    assert a[o..o + nb + 1] == lo + [x];
    OwingMeans(lo + [x], q, bv, w, c);
    if c != 0 {
      while true
        invariant OnlyWindow(a, o, o + nb + 1)
        invariant q == q0 - rounds && (q0 - 2) * bv <= w < q * bv
        invariant Owing(a[o..o + nb + 1], q, bv, w, 1)
        decreases q
      {
        DigitsLeft(q, q0, bv, w);
        PositiveFactor(q, bv, w);
        lo, x := a[o..o + nb], a[o + nb];
        assert a[o..o + nb + 1] == lo + [x];
        q, rounds := q - 1, rounds + 1;
        var k := Add(a, o, a, o, b, bo, nb, 0);
        ghost var lo' := a[o..o + nb];
        if k != 0 {
          var (x', k') := AddUiWord(x, 1);
          AddedBackWindow(lo, x, lo', x', k, k', q + 1, bv, w);
          a[o + nb] := x';
          assert a[o..o + nb + 1] == lo' + [x'];
          OwingMeans(lo' + [x'], q, bv, w, 1 - k');
          if x' == 0 {
            break;
          }
        } else {
          AddedBackWindow(lo, x, lo', x, k, 0, q + 1, bv, w);
          assert a[o..o + nb + 1] == lo' + [x];
          OwingMeans(lo' + [x], q, bv, w, 1);
        }
      }
    }
    BelowDivisor(q, bv, w);
  }

  lemma BelowDivisor(q: int, b: int, w: int)
    requires w < (q + 1) * b
    ensures w - q * b < b
  {
  }

  lemma PositiveFactor(q: int, b: int, w: int)
    requires 0 <= w < q * b && b > 0
    ensures q > 0
  {
  }

  // ----- schoolbook long division -----

  /** The divisor's top bit is set. */
  ghost predicate Normalised(s: seq<Limb>) {
    |s| > 0 && 2 * s[|s| - 1] >= B
  }

  lemma {:induction false} NormalisedValue(s: seq<Limb>)
    requires Normalised(s)
    ensures Val(s) == Val(s[..|s| - 1]) + s[|s| - 1] * BPow(|s| - 1)
    ensures 2 * Val(s) >= BPow(|s|)
  {
    hide Val, BPow;
    var m := |s| - 1;
    ValTake(s, m);
    assert s[..m + 1] == s;
    BPowStep(m);
    MulMono(B, 2 * (s[m] as int), BPow(m));
    assert (2 * s[m]) * BPow(m) == 2 * (s[m] * BPow(m));
  }

  lemma {:induction false} TopTwo(win: seq<Limb>)
    requires |win| >= 2
    ensures var m := |win| - 2;
      Val(win) == (win[m + 1] * B + win[m]) * BPow(m) + Val(win[..m])
  {
    hide Val, BPow;
    var m := |win| - 2;
    ValTake(win, m + 1);
    ValTake(win, m);
    assert win[..m + 2] == win;
    BPowStep(m);
    MulDist(BPow(m), win[m + 1] * B, win[m]);
    MulAssoc(win[m + 1], B, BPow(m));
  }

  lemma {:induction false} WindowBelow(win: seq<Limb>, b: int)
    requires |win| > 0 && Val(win[1..]) < b
    ensures Val(win) < B * b
  {
    hide Val, BPow;
    assert win == [win[0]] + win[1..];
    ValCons(win[0], win[1..]);
    MulBetween(B, 0, Val(win[1..]), b - 1);
    MulDist(B, b, -1);
  }

  /** Each estimated digit is the true one, or one or two more. */
  lemma {:induction false} EstimateDigit(win: seq<Limb>, bs: seq<Limb>, q: Limb, r: Limb)
    requires |win| == |bs| + 1 && Normalised(bs) && Val(win[1..]) < Val(bs)
    requires win[|bs|] >= bs[|bs| - 1] ==> q == B - 1
    requires win[|bs|] < bs[|bs| - 1] ==>
      win[|bs|] * B + win[|bs| - 1] == q * bs[|bs| - 1] + r && r < bs[|bs| - 1]
    ensures (q - 2) * Val(bs) <= Val(win) < (q + 1) * Val(bs)
  {
    hide Val, BPow;
    var m := |bs| - 1;
    var p, b1, b0 := BPow(m), bs[m], Val(bs[..m]);
    var x, w0 := win[m + 1] * B + win[m], Val(win[..m]);
    NormalisedValue(bs);
    TopTwo(win);
    ValBound(bs[..m]);
    ValBound(win[..m]);
    WindowBelow(win, Val(bs));
    MulMono(0, win[m + 1], B);
    if win[m + 1] >= b1 {
      MulMono(b1, win[m + 1], B);
      MulDist(b1, B, -1);
      MulComm(b1, B);
      EstimateLow(p, b1, b0, x, w0, q);
    } else {
      MulDist(b1, q, 1);
      EstimateHigh(p, b1, b0, x, w0, q);
      EstimateLow(p, b1, b0, x, w0, q);
    }
  }

  /** Quotient limbs from i up are final, and what is left fits below them. */
  ghost predicate Reduced(u: seq<Limb>, cur: seq<Limb>, q: seq<Limb>, b: int, nb: nat, i: nat)
    requires i <= |q| && i + nb <= |cur|
  {
    && Val(u) == (Val(q[i..]) * BPow(i)) * b + Val(cur[..i + nb])
    && Val(cur[i..i + nb]) < b
  }

  lemma {:induction false} ReducedStart(low: seq<Limb>, top: seq<Limb>, top': seq<Limb>, q: seq<Limb>, b: int)
    requires |q| == |low| + 1 && |top| == |top'|
    requires Val(top) == q[|low|] * b + Val(top') && Val(top') < b
    ensures Reduced(low + top, low + top', q, b, |top|, |low|)
  {
    hide Val, BPow;
    var n := |low|;
    ValAppend(low, top);
    ValAppend(low, top');
    assert (low + top')[..n + |top|] == low + top' && (low + top')[n..n + |top|] == top';
    assert q[n..] == [q[n]];
    ValSingle(q[n]);
    StartWord(BPow(n), Val(low), Val(top), Val(top'), q[n], b);
  }

  lemma StartWord(p: int, low: int, top: int, top': int, q: int, b: int)
    requires top == q * b + top'
    ensures low + p * top == (q * p) * b + (low + p * top')
  {
    assert p * (q * b) == (q * p) * b;
  }

  lemma ReducedWord(p: int, bb: int, low: int, w: int, w': int, x: int, qh: int, q: int, b: int)
    requires w == x * b + w' && q == x + bb * qh
    ensures (qh * (bb * p)) * b + (low + p * w) == (q * p) * b + (low + p * w')
  {
    assert p * w == p * (x * b) + p * w';
    assert p * (x * b) == (x * p) * b;
    assert (q * p) * b == (x * p) * b + ((bb * qh) * p) * b;
    assert (bb * qh) * p == qh * (bb * p);
  }

  lemma {:induction false} ReducedStep(u: seq<Limb>, cur: seq<Limb>, cur': seq<Limb>, q: seq<Limb>, x: Limb, b: int,
      nb: nat, i: nat)
    requires i + 1 + nb <= |cur| == |cur'| && 0 <= b <= BPow(nb) && i < |q|
    requires Reduced(u, cur, q, b, nb, i + 1)
    requires cur'[..i] == cur[..i]
    requires Val(cur'[i..i + nb + 1]) == Val(cur[i..i + nb + 1]) - x * b && Val(cur'[i..i + nb + 1]) < b
    ensures Reduced(u, cur', q[i := x], b, nb, i)
  {
    hide Val, BPow;
    var m := i + 1 + nb;
    ValSplit(cur[..m], i);
    assert cur[..m][..i] == cur[..i] && cur[..m][i..] == cur[i..m];
    var lo, y := cur'[i..i + nb], cur'[i + nb];
    assert cur'[i..m] == lo + [y];
    TopLimbZero(lo, y);
    ValSplit(cur'[..i + nb], i);
    assert cur'[..i + nb][..i] == cur'[..i] && cur'[..i + nb][i..] == lo;
    var q' := q[i := x];
    assert q'[i..] == [x] + q[i + 1..];
    ValCons(x, q[i + 1..]);
    BPowStep(i);
    ReducedWord(BPow(i), B, Val(cur[..i]), Val(cur[i..m]), Val(lo), x, Val(q[i + 1..]), Val(q'[i..]), b);
  }

  /** u = q * b + r with r < b. */
  ghost predicate IsDivision(u: seq<Limb>, q: seq<Limb>, b: seq<Limb>, r: seq<Limb>) {
    Val(u) == Val(q) * Val(b) + Val(r) && Val(r) < Val(b)
  }

  lemma {:induction false} ReducedDone(u: seq<Limb>, cur: seq<Limb>, q: seq<Limb>, b: seq<Limb>, nb: nat)
    requires nb <= |cur| && Reduced(u, cur, q, Val(b), nb, 0)
    ensures IsDivision(u, q, b, cur[..nb])
  {
    hide Val;
    assert q[0..] == q && cur[0..nb] == cur[..nb];
  }

  lemma FirstDigit(top: int, b: int, p: int)
    requires 0 <= top < p <= 2 * b
    ensures top >= b ==> top - b < b
  {
  }

  /** The leading digit of the quotient is only 0 or 1. */
  method LeadingDigit(taba: array<Limb>, o: nat, tabb: array<Limb>, bo: nat, nb: nat) returns (q: Limb)
    requires o + nb <= taba.Length && bo + nb <= tabb.Length && taba != tabb
    requires Normalised(tabb[bo..bo + nb])
    modifies taba
    ensures OnlyWindow(taba, o, o + nb) && q <= 1
    ensures old(Val(taba[o..o + nb])) == q * Val(tabb[bo..bo + nb]) + Val(taba[o..o + nb])
    ensures Val(taba[o..o + nb]) < Val(tabb[bo..bo + nb])
  {
    hide Val, BPow, Normalised;
    ghost var top, bs := taba[o..o + nb], tabb[bo..bo + nb];
    NormalisedFacts(bs);
    ValBound(top);
    FirstDigit(Val(top), Val(bs), BPow(nb));
    var c := Cmp(taba, o, tabb, bo, nb);
    q := if c < 0 then 0 else 1;
    if c >= 0 {
      var k := Sub(taba, o, taba, o, tabb, bo, nb, 0);
      NoBorrow(taba[o..o + nb], Val(top) - Val(bs), k);
    }
  }

  /** Estimate the digit for the window at o from its two leading limbs and reduce the window by it. */
  method NextDigit(taba: array<Limb>, o: nat, tabb: array<Limb>, bo: nat, nb: nat, b1Inv: Limb, fast: bool)
    returns (q: Limb)
    requires o + nb + 1 <= taba.Length && bo + nb <= tabb.Length && taba != tabb
    requires Normalised(tabb[bo..bo + nb]) && Val(taba[o + 1..o + 1 + nb]) < Val(tabb[bo..bo + nb])
    requires fast ==> b1Inv == Udiv1NormInit(tabb[bo + nb - 1])
    modifies taba
    ensures OnlyWindow(taba, o, o + nb + 1)
    ensures Val(taba[o..o + nb + 1]) == old(Val(taba[o..o + nb + 1])) - q * Val(tabb[bo..bo + nb])
    ensures Val(taba[o..o + nb + 1]) < Val(tabb[bo..bo + nb])
  {
    hide Val, BPow, Normalised, Udiv1NormInit, DivLimb;
    ghost var win, bs := taba[o..o + nb + 1], tabb[bo..bo + nb];
    NormalisedFacts(bs);
    assert win[1..] == taba[o + 1..o + 1 + nb];
    var b1 := tabb[bo + nb - 1];
    ghost var r: Limb := 0;
    if taba[o + nb] >= b1 {
      q := B - 1;
    } else {
      var d := DivLimb(taba[o + nb], taba[o + nb - 1], b1, b1Inv, fast);
      q, r := d.0, d.1;
    }
    EstimateDigit(win, bs, q, r);
    ghost var rounds;
    q, rounds := SubtractDigit(taba, o, tabb, bo, nb, q);
  }

  /** One round of long division: quotient limb i is fixed and the number left shrinks by a limb. */
  method DivNormRound(tabq: array<Limb>, qo: nat, taba: array<Limb>, ao: nat, na: nat, tabb: array<Limb>, bo: nat,
      nb: nat, b1Inv: Limb, fast: bool, i: nat, ghost u: seq<Limb>)
    requires 1 <= nb <= na && ao + na <= taba.Length && bo + nb <= tabb.Length && qo + na - nb + 1 <= tabq.Length
    requires tabq != taba && tabq != tabb && taba != tabb
    requires Normalised(tabb[bo..bo + nb]) && (fast ==> b1Inv == Udiv1NormInit(tabb[bo + nb - 1]))
    requires i < na - nb
    requires Reduced(u, taba[ao..ao + na], tabq[qo..qo + na - nb + 1], Val(tabb[bo..bo + nb]), nb, i + 1)
    modifies tabq, taba
    ensures OnlyWindow(tabq, qo, qo + na - nb + 1) && OnlyWindow(taba, ao, ao + na)
    ensures tabb[..] == old(tabb[..])
    ensures Reduced(u, taba[ao..ao + na], tabq[qo..qo + na - nb + 1], Val(tabb[bo..bo + nb]), nb, i)
  {
    hide Val, BPow, Reduced, Normalised, Udiv1NormInit;
    ghost var bs := tabb[bo..bo + nb];
    NormalisedFacts(bs);
    ghost var cur, qs := taba[ao..ao + na], tabq[qo..qo + na - nb + 1];
    ReducedBelow(u, cur, qs, Val(bs), nb, i + 1);
    SliceOfSlice(taba, ao, na, i + 1, i + 1 + nb);
    SliceOfSlice(taba, ao, na, i, i + nb + 1);
    var q := NextDigit(taba, ao + i, tabb, bo, nb, b1Inv, fast);
    ghost var cur' := taba[ao..ao + na];
    SliceOfSlice(taba, ao, na, i, i + nb + 1);
    assert cur'[..i] == cur[..i];
    ReducedStep(u, cur, cur', qs, q, Val(bs), nb, i);
    tabq[qo + i] := q;
    assert tabq[qo..qo + na - nb + 1] == qs[i := q];
    assert taba[ao..ao + na] == cur' && tabb[bo..bo + nb] == bs;
  }

  method DivNormBase(tabq: array<Limb>, qo: nat, taba: array<Limb>, ao: nat, na: nat, tabb: array<Limb>, bo: nat,
      nb: nat)
    requires 1 <= nb <= na && ao + na <= taba.Length && bo + nb <= tabb.Length && qo + na - nb + 1 <= tabq.Length
    requires tabq != taba && tabq != tabb && taba != tabb
    requires Normalised(tabb[bo..bo + nb])
    modifies tabq, taba
    ensures OnlyWindow(tabq, qo, qo + na - nb + 1) && OnlyWindow(taba, ao, ao + na)
    ensures IsDivision(old(taba[ao..ao + na]), tabq[qo..qo + na - nb + 1], tabb[bo..bo + nb], taba[ao..ao + nb])
  {
    hide Val, BPow, Reduced, Normalised, Udiv1NormInit, IsDivision;
    var n := na - nb;
    ghost var u, bs := taba[ao..ao + na], tabb[bo..bo + nb];
    NormalisedFacts(bs);
    var fast := n >= UDIV1NORM_THRESHOLD;
    var b1Inv := if fast then Udiv1NormInit(tabb[bo + nb - 1]) else 0;

    ghost var low, top := taba[ao..ao + n], taba[ao + n..ao + na];
    assert u == low + top;
    var q := LeadingDigit(taba, ao + n, tabb, bo, nb);
    tabq[qo + n] := q;
    assert taba[ao..ao + na] == low + taba[ao + n..ao + na];
    ReducedStart(low, top, taba[ao + n..ao + na], tabq[qo..qo + n + 1], Val(bs));

    var i := n;
    while i > 0
      invariant 0 <= i <= n && tabb[..] == old(tabb[..])
      invariant OnlyWindow(tabq, qo, qo + n + 1) && OnlyWindow(taba, ao, ao + na)
      invariant Reduced(u, taba[ao..ao + na], tabq[qo..qo + n + 1], Val(tabb[bo..bo + nb]), nb, i)
    {
      i := i - 1;
      assert tabb[bo..bo + nb] == bs;
      DivNormRound(tabq, qo, taba, ao, na, tabb, bo, nb, b1Inv, fast, i, u);
    }
    ReducedDone(u, taba[ao..ao + na], tabq[qo..qo + n + 1], tabb[bo..bo + nb], nb);
    LowPart(taba[..], ao, na, nb);
    assert taba[ao..ao + na] == taba[..][ao..ao + na] && taba[ao..ao + nb] == taba[..][ao..ao + nb];
  }

  lemma LowPart(s: seq<Limb>, i: nat, n: nat, m: nat)
    requires m <= n && i + n <= |s|
    ensures s[i..i + n][..m] == s[i..i + m]
  {
  }

  lemma {:induction false} NormalisedFacts(s: seq<Limb>)
    requires Normalised(s)
    ensures |s| > 0 && 2 * s[|s| - 1] >= B && 0 < Val(s) < BPow(|s|) <= 2 * Val(s)
  {
    hide Val, BPow;
    NormalisedValue(s);
    ValBound(s);
  }

  lemma {:induction false} NoBorrow(s: seq<Limb>, v: int, k: Limb)
    requires Val(s) == v + k * BPow(|s|) && 0 <= v
    ensures k == 0 && Val(s) == v
  {
    hide Val, BPow;
    ValBound(s);
    if k >= 1 {
      MulMono(1, k, BPow(|s|));
    }
  }

  lemma {:induction false} ReducedBelow(u: seq<Limb>, cur: seq<Limb>, q: seq<Limb>, b: int, nb: nat, i: nat)
    requires i <= |q| && i + nb <= |cur| && Reduced(u, cur, q, b, nb, i)
    ensures Val(cur[i..i + nb]) < b
  {
  }
}
