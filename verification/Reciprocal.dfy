/**
 Newton's iteration for the reciprocal of a limb array, and the division that multiplies by
 it (Modern Computer Arithmetic, algorithm 3.5).
 */
module Reciprocal {
  import opened Arith
  import opened Limbs
  import opened LimbOps
  import opened Division

  /** r is the reciprocal of a at scale p, short by less than two units. */
  ghost predicate IsRecip(a: int, r: int, p: int) {
    a * r < p * p < a * (r + 2)
  }

  lemma RecipRange(a: int, r: int, p: int)
    requires 0 < a < p <= 2 * a && IsRecip(a, r, p)
    ensures p <= r < 2 * p
  {
    if r < p {
      if r + 2 >= 0 {
        MulMono(a, p - 1, r + 2);
        MulBetween(p - 1, r + 2, r + 2, p + 1);
      } else {
        MulMono(r + 2, 0, a);
      }
    }
    if r >= 2 * p {
      MulBetween(a, 2 * p, r, r);
      MulMono(p, 2 * a, p);
      MulAssoc(2, a, p);
    }
  }

  // ----- one Newton step, on integers -----
  // pl, ph: powers of the base for the low and the high part; pn = pl * ph for the whole number.

  /** With the high part's reciprocal, a * xh misses pn * ph by at most 2a from below. */
  lemma HighPartClose(a: int, ah: int, al: int, xh: int, pl: int, ph: int)
    requires pl > 0 && ph > 0 && 0 <= al && a == ah * pl + al && 0 <= xh
    requires IsRecip(ah, xh, ph)
    ensures (pl * ph) * ph - 2 * a <= a * xh
  {
    assert ph * ph <= ah * xh + 2 * ah;
    MulBetween(pl, ph * ph, ah * xh + 2 * ah, ah * xh + 2 * ah);
    assert pl * (ph * ph) == (pl * ph) * ph;
    assert pl * (ah * xh + 2 * ah) == (ah * pl) * xh + 2 * (ah * pl);
    MulMono(0, al, xh);
    MulDist(xh, ah * pl, al);
  }

  /** The correction never overshoots ... */
  lemma CorrectionBelow(a: int, xh: int, t: int, tm: int, xl: int, pl: int, ph: int, pk: int)
    requires a > 0 && xh > 0 && pl > 0 && ph > 0 && pk * pl == ph * ph
    requires 0 < t && a * xh == (pl * ph) * ph - t
    requires tm * pl <= t && xl * pk <= tm * xh && 0 <= xl && 0 <= tm
    ensures a * xl < t * pl
  {
    var c := ph * ph;
    MulMono(xl * pk, tm * xh, pl);
    MulMono(tm * pl, t, xh);
    assert (xl * pk) * pl == xl * c by { MulAssoc(xl, pk, pl); }
    assert (tm * xh) * pl == (tm * pl) * xh;
    assert xl * c <= t * xh;
    MulBetween(a, xl * c, t * xh, t * xh);
    assert a * (t * xh) == t * (a * xh);
    assert t * (a * xh) == t * ((pl * ph) * ph) - t * t by { MulDist(t, (pl * ph) * ph, -t); }
    assert t * ((pl * ph) * ph) == (t * pl) * c by { MulAssoc(pl, ph, ph); MulAssoc(t, pl, c); }
    assert a * (xl * c) == (a * xl) * c;
    MulMono(1, t, t);
    assert (a * xl) * c < (t * pl) * c;
    if a * xl >= t * pl {
      MulMono(t * pl, a * xl, c);
    }
  }

  /** The neglected terms together stay below one unit a. */
  lemma NeglectedTerms(a: int, t: int, pl: int, ph: int)
    requires 0 < pl && 7 * pl <= ph && 0 < t <= 2 * a && a < pl * ph <= 2 * a
    ensures t * t + pl * (pl * (ph * ph)) < a * (ph * ph)
  {
    var e := pl * ph;
    SquareBelow(a, t, e);
    NeglectedShuffles(a, pl, ph);
    MulMono(e, 2 * a, e);
    MulMono(7 * pl, ph, ph);
    MulBetween(a, 7 * e, ph * ph, ph * ph);
    MulBetween(a, 1, e, e);
  }

  lemma SquareBelow(a: int, t: int, e: int)
    requires 0 < t <= 2 * a && a < e
    ensures t * t <= 4 * (a * e)
  {
    MulBetween(t, 0, t, 2 * a);
    MulMono(t, 2 * a, 2 * a);
    MulBetween(a, 0, a, e);
    assert (2 * a) * (2 * a) == 4 * (a * a);
  }

  lemma NeglectedShuffles(a: int, pl: int, ph: int)
    ensures pl * (pl * (ph * ph)) == (pl * ph) * (pl * ph)
    ensures (2 * a) * (pl * ph) == 2 * (a * (pl * ph))
    ensures (7 * pl) * ph == 7 * (pl * ph) && a * (7 * (pl * ph)) == 7 * (a * (pl * ph))
  {
  }

  /** ... and stays within two units. */
  lemma CorrectionAbove(a: int, xh: int, t: int, tm: int, xl: int, pl: int, ph: int, pk: int)
    requires a > 0 && xh > 0 && 0 < pl && 7 * pl <= ph && pk * pl == ph * ph && a < pl * ph <= 2 * a
    requires 0 < t <= 2 * a && a * xh == (pl * ph) * ph - t
    requires t < (tm + 1) * pl && tm * xh < (xl + 1) * pk
    ensures t * pl < a * xl + 2 * a
  {
    var c := ph * ph;
    assert (xl + 1) * c > t * xh - pl * xh by { CorrectionProduct(xh, t, tm, xl, pl, c, pk); }
    assert a * (t * xh - pl * xh) >= (t * pl) * c - t * t - pl * (pl * c) by {
      CorrectionScaled(a, xh, t, pl, ph, c);
    }
    NeglectedTerms(a, t, pl, ph);
    assert a * ((xl + 1) * c) > a * (t * xh - pl * xh) by {
      MulBetween(a, t * xh - pl * xh + 1, (xl + 1) * c, (xl + 1) * c);
      MulDist(a, t * xh - pl * xh, 1);
    }
    assert a * ((xl + 1) * c) == (a * (xl + 1)) * c by { MulAssoc(a, xl + 1, c); }
    MulDist(c, a * (xl + 1), a);
    if t * pl >= a * (xl + 1) + a {
      MulMono(a * (xl + 1) + a, t * pl, c);
    }
    MulDist(a, xl, 1);
  }

  lemma CorrectionProduct(xh: int, t: int, tm: int, xl: int, pl: int, c: int, pk: int)
    requires xh > 0 && pl > 0 && pk * pl == c
    requires t < (tm + 1) * pl && tm * xh < (xl + 1) * pk
    ensures (xl + 1) * c > t * xh - pl * xh
  {
    MulMono(tm * xh + 1, (xl + 1) * pk, pl);
    MulDist(pl, tm * xh, 1);
    MulAssoc(xl + 1, pk, pl);
    MulDist(pl, tm, 1);
    MulMono(t - pl, tm * pl, xh);
    MulDist(xh, t, -pl);
    assert (tm * xh) * pl == (tm * pl) * xh;
  }

  lemma CorrectionScaled(a: int, xh: int, t: int, pl: int, ph: int, c: int)
    requires c == ph * ph && pl > 0 && t > 0 && a * xh == (pl * ph) * ph - t
    ensures a * (t * xh - pl * xh) >= (t * pl) * c - t * t - pl * (pl * c)
  {
    var g := pl * c;
    assert (pl * ph) * ph == g by { MulAssoc(pl, ph, ph); }
    assert a * (t * xh - pl * xh) == t * (a * xh) - pl * (a * xh);
    assert t * (g - t) == t * g - t * t;
    assert pl * (g - t) == pl * g - pl * t;
    MulBetween(pl, 0, t, t);
    MulAssoc(t, pl, c);
  }

  /** A Newton step doubles the length of a reciprocal and keeps its error below two units. */
  lemma NewtonStep(a: int, xh: int, t: int, tm: int, xl: int, pl: int, ph: int, pk: int)
    requires a > 0 && xh > 0 && 0 < pl && 7 * pl <= ph && pk > 0 && pk * pl == ph * ph && a < pl * ph <= 2 * a
    requires 0 < t <= 2 * a && a * xh == (pl * ph) * ph - t
    requires tm == t / pl && xl == (tm * xh) / pk
    ensures IsRecip(a, xh * pl + xl, pl * ph) && 0 <= xl < 2 * pl
  {
    assert tm * pl <= t < (tm + 1) * pl && 0 <= tm by { QuotientBrackets(t, pl); }
    assert xl * pk <= tm * xh < (xl + 1) * pk && 0 <= xl by {
      MulBetween(xh, 0, tm, tm);
      QuotientBrackets(tm * xh, pk);
    }
    CorrectionBelow(a, xh, t, tm, xl, pl, ph, pk);
    CorrectionAbove(a, xh, t, tm, xl, pl, ph, pk);
    NewtonSum(a, xh, t, xl, pl, ph);
    CorrectionShort(a, t, xl, pl);
  }

  lemma QuotientBrackets(t: int, d: int)
    requires t >= 0 && d > 0
    ensures (t / d) * d <= t < (t / d + 1) * d && 0 <= t / d
  {
    EuclideanDivision(t, d);
    MulDist(d, t / d, 1);
  }

  lemma NewtonSum(a: int, xh: int, t: int, xl: int, pl: int, ph: int)
    requires a * xh == (pl * ph) * ph - t
    requires a * xl < t * pl < a * xl + 2 * a
    ensures IsRecip(a, xh * pl + xl, pl * ph)
  {
    var pn := pl * ph;
    assert a * (xh * pl + xl) == (a * xh) * pl + a * xl by {
      MulDist(a, xh * pl, xl);
      MulAssoc(a, xh, pl);
    }
    assert (a * xh) * pl == pn * pn - t * pl by {
      MulDist(pl, pn * ph, -t);
      assert (pn * ph) * pl == pn * pn;
    }
    MulDist(a, xh * pl + xl, 2);
  }

  lemma CorrectionShort(a: int, t: int, xl: int, pl: int)
    requires a > 0 && pl > 0 && t <= 2 * a && a * xl < t * pl
    ensures xl < 2 * pl
  {
    if xl >= 2 * pl {
      MulBetween(a, 2 * pl, xl, xl);
      MulMono(t, 2 * a, pl);
      MulAssoc(2, a, pl);
    }
  }

  // ----- the step on limb arrays -----

  /** Is any limb of the window non-zero? */
  method ScanNz(tab: array<Limb>, o: nat, n: nat) returns (nz: bool)
    requires o + n <= tab.Length
    ensures nz <==> Val(tab[o..o + n]) != 0
  {
    hide Val, BPow;
    var i := 0;
    while i < n
      invariant 0 <= i <= n
      invariant forall j | o <= j < o + i :: tab[j] == 0
    {
      if tab[o + i] != 0 {
        NonZeroLimb(tab[o..o + n], i);
        return true;
      }
      i := i + 1;
    }
    ValZeros(tab[o..o + n]);
    return false;
  }

  lemma {:induction false} NonZeroLimb(s: seq<Limb>, i: nat)
    requires i < |s| && s[i] != 0
    ensures Val(s) > 0
  {
    hide Val, BPow;
    ValSplit(s, i + 1);
    ValTake(s, i);
    MulMono(1, s[i], BPow(i));
    MulBetween(BPow(i + 1), 0, Val(s[i + 1..]), Val(s[i + 1..]));
  }

  /** The top limb of a number between B^n and 2 * B^n is one. */
  lemma {:induction false} TopLimbOne(s: seq<Limb>)
    requires |s| > 0 && BPow(|s| - 1) <= Val(s) < 2 * BPow(|s| - 1)
    ensures s[|s| - 1] == 1
  {
    hide Val, BPow;
    var m := |s| - 1;
    ValTake(s, m);
    assert s[..m + 1] == s;
    ValBound(s[..m]);
    if s[m] >= 2 {
      MulMono(2, s[m], BPow(m));
    }
  }

  lemma {:induction false} TopLimbNonZero(s: seq<Limb>)
    requires |s| > 0
    ensures s[|s| - 1] != 0 <==> Val(s) >= BPow(|s| - 1)
  {
    hide Val, BPow;
    var m := |s| - 1;
    ValTake(s, m);
    assert s[..m + 1] == s;
    ValBound(s[..m]);
    if s[m] != 0 {
      MulMono(1, s[m], BPow(m));
    }
  }

  /** Subtracting from the low part and passing the borrow on subtracts from the whole. */
  lemma {:induction false} SubtractLow(lo: seq<Limb>, hi: seq<Limb>, lo': seq<Limb>, hi': seq<Limb>, a: int, c: Limb,
      k: Limb)
    requires |lo| == |lo'| && |hi| == |hi'|
    requires Val(lo') + a == Val(lo) + c * BPow(|lo|)
    requires Val(hi') + c == Val(hi) + k * BPow(|hi|)
    requires 0 <= a <= Val(lo + hi)
    ensures Val(lo' + hi') == Val(lo + hi) - a
  {
    hide Val, BPow;
    ValJoin(lo, hi, |lo|);
    ValJoin(lo', hi', |lo|);
    ValBound(lo' + hi');
    assert BPow(|lo' + hi'|) == BPow(|lo|) * BPow(|hi|) by { BPowAdd(|lo|, |hi|); }
    PassBorrow(Val(lo), Val(hi), Val(lo'), Val(hi'), a, c, k, BPow(|lo|), BPow(|hi|));
  }

  lemma PassBorrow(lo: int, hi: int, lo': int, hi': int, a: int, c: int, k: int, p: int, p2: int)
    requires lo' + a == lo + c * p && hi' + c == hi + k * p2
    requires 0 <= a <= lo + p * hi && lo' + p * hi' < p * p2 && 0 <= k && p > 0 && p2 > 0
    ensures lo' + p * hi' == lo + p * hi - a
  {
    assert p * (hi' + c) == p * (hi + k * p2);
    PassBorrowShuffles(hi, hi', c, k, p, p2);
    if k >= 1 {
      MulMono(1, k, p * p2);
    }
  }

  lemma PassBorrowShuffles(hi: int, hi': int, c: int, k: int, p: int, p2: int)
    ensures p * (hi' + c) == p * hi' + c * p
    ensures p * (hi + k * p2) == p * hi + k * (p * p2)
  {
  }

  /** t -= a, where a is shorter: the borrow runs on into the limbs above. */
  method SubtractShorter(tabt: array<Limb>, taba: array<Limb>, ao: nat, n: nat, m: nat)
    requires n + m == tabt.Length && ao + n <= taba.Length && tabt != taba
    requires Val(taba[ao..ao + n]) <= Val(tabt[..])
    modifies tabt
    ensures Val(tabt[..]) == old(Val(tabt[..])) - Val(taba[ao..ao + n])
  {
    hide Val, BPow;
    ghost var a, lo, hi := Val(taba[ao..ao + n]), tabt[0..n], tabt[n..n + m];
    assert tabt[..] == lo + hi;
    var c := Sub(tabt, 0, tabt, 0, taba, ao, n, 0);
    ghost var lo' := tabt[0..n];
    assert tabt[n..n + m] == hi;
    var k := SubUi(tabt, n, c, m);
    assert tabt[0..n] == lo';
    assert tabt[..] == lo' + tabt[n..n + m];
    SubtractLow(lo, hi, lo', tabt[n..n + m], a, c, k);
  }

  /** While a * xh is too large, take one off xh. */
  method CorrectHigh(tabr: array<Limb>, xo: nat, tabt: array<Limb>, taba: array<Limb>, ao: nat, n: nat, h: nat)
    requires xo + h + 1 <= tabr.Length && n + h + 1 == tabt.Length && ao + n <= taba.Length && n >= 1
    requires tabr != tabt && tabr != taba && tabt != taba
    requires 0 < Val(taba[ao..ao + n])
    requires Val(tabt[..]) == Val(taba[ao..ao + n]) * Val(tabr[xo..xo + h + 1])
    requires BPow(n + h) - 2 * Val(taba[ao..ao + n]) <= Val(tabt[..])
    requires BPow(h) <= Val(tabr[xo..xo + h + 1])
    modifies tabr, tabt
    ensures OnlyWindow(tabr, xo, xo + h + 1)
    ensures Val(tabt[..]) == Val(taba[ao..ao + n]) * Val(tabr[xo..xo + h + 1])
    ensures BPow(n + h) - 2 * Val(taba[ao..ao + n]) <= Val(tabt[..]) < BPow(n + h)
    ensures BPow(h) <= Val(tabr[xo..xo + h + 1]) <= old(Val(tabr[xo..xo + h + 1]))
  {
    hide Val, BPow;
    ghost var a := Val(taba[ao..ao + n]);
    TopLimbNonZero(tabt[..]);
    while tabt[n + h] != 0
      invariant OnlyWindow(tabr, xo, xo + h + 1)
      invariant taba[ao..ao + n] == old(taba[ao..ao + n])
      invariant Val(tabt[..]) == a * Val(tabr[xo..xo + h + 1])
      invariant BPow(n + h) - 2 * a <= Val(tabt[..])
      invariant tabt[n + h] != 0 <==> Val(tabt[..]) >= BPow(n + h)
      invariant BPow(h) <= Val(tabr[xo..xo + h + 1]) <= old(Val(tabr[xo..xo + h + 1]))
      decreases Val(tabr[xo..xo + h + 1])
    {
      ghost var x := Val(tabr[xo..xo + h + 1]);
      ValBound(taba[ao..ao + n]);
      BPowAdd(n, h);
      AboveScale(a, x, BPow(n), BPow(h));
      var k := SubUi(tabr, xo, 1, h + 1);
      NoBorrow(tabr[xo..xo + h + 1], x - 1, k);
      MulBetween(a, 1, x, x);
      SubtractShorter(tabt, taba, ao, n, h + 1);
      MulDist(a, x, -1);
      TopLimbNonZero(tabt[..]);
    }
  }

  lemma AboveScale(a: int, x: int, pn: int, ph: int)
    requires 0 < a < pn && ph > 0 && a * x >= pn * ph
    ensures x > ph
  {
    if x <= ph {
      MulBetween(a, x, x, ph);
      MulMono(a + 1, pn, ph);
      MulDist(ph, a, 1);
    }
  }

  lemma {:induction false} ComplementTop(lo: seq<Limb>, x: Limb, v: int)
    requires 0 < v <= BPow(|lo|) && Val(lo + [x]) == BPow(|lo| + 1) - v
    ensures x == B - 1 && Val(lo + [0]) == BPow(|lo|) - v
  {
    hide Val, BPow;
    ValSnoc(lo, x);
    ValSnoc(lo, 0);
    ValBound(lo);
    BPowStep(|lo|);
    var p := BPow(|lo|);
    if x < B - 1 {
      MulMono(x, B - 2, p);
      MulDist(p, B, -2);
    }
    MulDist(p, B, -1);
  }

  /** T = B^m - T, as a negation and an increment of the top limb. */
  method Complement(tabt: array<Limb>, m: nat)
    requires tabt.Length == m + 1 && 0 < Val(tabt[..]) < BPow(m)
    modifies tabt
    ensures Val(tabt[..]) == BPow(m) - old(Val(tabt[..]))
  {
    hide Val, BPow;
    ghost var v := Val(tabt[..]);
    assert tabt[0..m + 1] == tabt[..];
    var k := Neg(tabt, 0, tabt, 0, m + 1, 0);
    ghost var lo := tabt[..m];
    assert tabt[0..m + 1] == lo + [tabt[m]];
    ComplementTop(lo, tabt[m], v);
    tabt[m] := WAdd(tabt[m], 1);
    assert tabt[..] == lo + [0];
  }

  /** Only one more limb than l can be set in a number below 2 * B^l. */
  lemma {:induction false} ShortNumber(up: seq<Limb>, l: nat, h: nat)
    requires l + h <= |up| && 1 <= h && Val(up) < 2 * BPow(l)
    ensures Val(up) == Val(up[..l]) + BPow(l) * Val(up[l..l + h])
  {
    hide Val, BPow;
    ValSplit(up, l);
    var hi := up[l..];
    SmallFactor(Val(up[..l]), BPow(l), Val(hi));
    ValSplit(hi, h);
    assert hi[..h] == up[l..l + h];
    BPowStep(h - 1);
    MulMono(2, B, BPow(h - 1));
    SmallFactor(Val(hi[..h]), BPow(h), Val(hi[h..]));
    MulBetween(BPow(h), 0, Val(hi[h..]), Val(hi[h..]));
  }

  lemma SmallFactor(lo: int, p: int, x: int)
    requires 0 <= lo && 0 < p && 0 <= x
    ensures lo + p * x < 2 * p ==> x <= 1
    ensures lo + p * x < p ==> x == 0
  {
    if x >= 1 {
      MulBetween(p, 1, x, x);
    }
    if x >= 2 {
      MulBetween(p, 2, x, x);
    }
  }

  lemma AssembledSum(ulo: int, uhi: int, mid: int, mid': int, c: int, pl: int, ph: int)
    requires pl > 0 && ph > 0 && 0 <= c <= 1 && 0 <= ulo && 0 <= mid' && mid' + c * ph == mid + uhi
    requires (mid + ph) * pl + (ulo + pl * uhi) < 2 * (pl * ph)
    ensures (mid + ph) * pl + (ulo + pl * uhi) == ulo + pl * (mid' + ph)
  {
    assert (mid + ph) * pl + (ulo + pl * uhi) == ulo + pl * (mid' + c * ph) + pl * ph;
    if c == 1 {
      MulBetween(pl, ph, mid' + ph, mid' + ph);
    }
    MulDist(pl, mid', ph);
  }

  lemma {:induction false} AssembledLimbs(up: seq<Limb>, mid: seq<Limb>, mid': seq<Limb>, c: Limb, l: nat, h: nat)
    requires 1 <= h == |mid| == |mid'| && l + h <= |up| && Val(up) < 2 * BPow(l) && c <= 1
    requires Val(mid') + c * BPow(h) == Val(mid) + Val(up[l..l + h])
    requires Val(mid + [1]) * BPow(l) + Val(up) < 2 * BPow(l + h)
    ensures Val(up[..l] + (mid' + [1])) == Val(mid + [1]) * BPow(l) + Val(up)
  {
    hide Val, BPow;
    ValSnoc(mid, 1);
    ValAppend(up[..l], mid' + [1]);
    ValSnoc(mid', 1);
    ShortNumber(up, l, h);
    BPowAdd(l, h);
    AssembledSum(Val(up[..l]), Val(up[l..l + h]), Val(mid), Val(mid'), c, BPow(l), BPow(h));
  }

  lemma UpperPart(s: seq<Limb>, k: nat, l: nat, h: nat)
    requires k + l == 2 * h && 3 * h <= |s|
    ensures s[2 * h..2 * h + h] == s[k..][l..l + h]
  {
  }

  /** Add h limbs to those above the l lowest. */
  method AddAbove(tabr: array<Limb>, ro: nat, l: nat, tabu: array<Limb>, uo: nat, h: nat) returns (c: Limb)
    requires ro + l + h <= tabr.Length && uo + h <= tabu.Length && tabr != tabu
    modifies tabr
    ensures OnlyWindow(tabr, ro + l, ro + l + h) && tabr[ro..ro + l] == old(tabr[ro..ro + l]) && c <= 1
    ensures Val(tabr[ro + l..ro + l + h]) + c * BPow(h) == old(Val(tabr[ro + l..ro + l + h])) + Val(tabu[uo..uo + h])
  {
    hide Val, BPow;
    c := Add(tabr, ro + l, tabr, ro + l, tabu, uo, h, 0);
  }

  lemma TwoAndOne(a: array<Limb>, i: nat, j: nat, k: nat)
    requires i <= j <= k < a.Length
    ensures a[i..k + 1] == a[i..j] + (a[j..k] + [a[k]])
  {
  }

  /** X = Xh * B^l + Xl: copy the low limbs, add what is above them; the top carry is dropped. */
  method Assemble(tabr: array<Limb>, ro: nat, tabu: array<Limb>, n: nat, h: nat, l: nat)
    requires n == h + l && 1 <= h && l <= 2 * h && ro + n + 1 <= tabr.Length && tabr != tabu
    requires tabu.Length == n + 2 * h - l + 2
    requires Val(tabu[2 * h - l..]) < 2 * BPow(l) && tabr[ro + n] == 1
    requires Val(tabr[ro + l..ro + n + 1]) * BPow(l) + Val(tabu[2 * h - l..]) < 2 * BPow(n)
    modifies tabr
    ensures OnlyWindow(tabr, ro, ro + n + 1)
    ensures Val(tabr[ro..ro + n + 1])
         == old(Val(tabr[ro + l..ro + n + 1])) * BPow(l) + Val(tabu[2 * h - l..])
  {
    hide Val, BPow;
    var k := 2 * h - l;
    ghost var up, mid := tabu[..][k..], tabr[ro + l..ro + n];
    assert tabu[k..] == up;
    assert tabr[ro + l..ro + n + 1] == mid + [1];
    CopyLimbs(tabr, ro, tabu, k, l);
    assert tabu[k..k + l] == up[..l];
    assert tabr[ro..ro + l] == up[..l];
    assert tabr[ro + l..ro + n] == mid;
    UpperPart(tabu[..], k, l, h);
    assert tabu[2 * h..2 * h + h] == tabu[..][2 * h..2 * h + h];
    var c := AddAbove(tabr, ro, l, tabu, 2 * h, h);
    ghost var mid' := tabr[ro + l..ro + n];
    TwoAndOne(tabr, ro, ro + l, ro + n);
    AssembledLimbs(up, mid, mid', c, l, h);
  }

  // ----- multiplying by the reciprocal -----

  /** A quotient by an approximate reciprocal is never too large and misses little. */
  lemma ApproxQuotient(a: int, at: int, al: int, pe: int, ps: int, r: int, b: int, q: int)
    requires b > 0 && ps > 0 && 0 < pe <= b && 0 <= at <= ps && 0 <= al < pe && a == at * pe + al && 0 <= r
    requires r * b <= ps * pe <= (r + 8) * b
    requires q == (r * at) / ps
    ensures 0 <= a - q * b < 10 * b
  {
    MulBetween(r, 0, at, at);
    QuotientBrackets(r * at, ps);
    ApproxBelow(at, pe, ps, r, b, q);
    ApproxAbove(at, pe, ps, r, b, q);
    ApproxShuffles(at, pe, ps, r, b, q);
    if a < q * b {
      MulBetween(ps, at * pe + 1, q * b, q * b);
      MulDist(ps, at * pe, 1);
    }
    if at * pe >= (q + 9) * b {
      MulBetween(ps, (q + 9) * b, at * pe, at * pe);
    }
    MulDist(b, q, 9);
  }

  lemma ApproxShuffles(at: int, pe: int, ps: int, r: int, b: int, q: int)
    ensures ps * (at * pe) == (ps * pe) * at
    ensures (q * ps) * b == ps * (q * b) && (r * at) * b == (r * b) * at
    ensures ((r + 8) * b) * at == (r * at) * b + at * (8 * b)
    ensures ((q + 1) * ps) * b + ps * (8 * b) == ps * ((q + 9) * b)
  {
  }

  lemma ApproxBelow(at: int, pe: int, ps: int, r: int, b: int, q: int)
    requires b > 0 && 0 <= at && q * ps <= r * at && r * b <= ps * pe
    ensures ps * (q * b) <= (ps * pe) * at
  {
    MulMono(q * ps, r * at, b);
    MulMono(r * b, ps * pe, at);
    ApproxShuffles(at, pe, ps, r, b, q);
  }

  lemma ApproxAbove(at: int, pe: int, ps: int, r: int, b: int, q: int)
    requires b > 0 && 0 <= at <= ps && r * at < (q + 1) * ps && ps * pe <= (r + 8) * b
    ensures (ps * pe) * at < ps * ((q + 9) * b)
  {
    MulMono(ps * pe, (r + 8) * b, at);
    MulMono(r * at + 1, (q + 1) * ps, b);
    MulDist(b, r * at, 1);
    MulMono(at, ps, 8 * b);
    ApproxShuffles(at, pe, ps, r, b, q);
  }

  /** r times b comes close to p from below. */
  ghost predicate IsApproxInverse(b: int, r: int, p: int) {
    r * b <= p <= (r + 8) * b
  }

  /** The inverse of the divisor padded with zero limbs. */
  lemma PaddedInverse(b: int, r: int, pn: int, pd: int, p: int)
    requires b > 0 && pd > 0 && p * pd == pn * pn && IsRecip(b * pd, r, pn)
    ensures IsApproxInverse(b, r, p)
  {
    assert (b * pd) * r == (r * b) * pd && (b * pd) * (r + 2) == ((r + 2) * b) * pd;
    if r * b > p {
      MulMono(p, r * b, pd);
    }
    if p > (r + 2) * b {
      MulMono((r + 2) * b, p, pd);
    }
    MulDist(b, r + 2, 6);
  }

  /** The inverse of the leading part of the divisor, rounded up. */
  lemma TruncatedInverse(b: int, t: int, r: int, pn: int, pd: int)
    requires b > 0 && pn >= 2 && pd > 0 && b <= t * pd <= b + pd && pn * pd <= 2 * b
    requires 0 <= r <= 2 * pn && t * r <= pn * pn < t * (r + 2)
    ensures IsApproxInverse(b, r, (pn * pn) * pd)
  {
    TruncatedShuffles(b, t, r, pn, pd);
    MulBetween(r, b, t * pd, t * pd);
    MulMono(t * r, pn * pn, pd);
    MulMono(pn * pn, t * (r + 2), pd);
    MulBetween(r + 2, t * pd, t * pd, b + pd);
    MulMono(r + 2, 3 * pn, pd);
  }

  lemma TruncatedShuffles(b: int, t: int, r: int, pn: int, pd: int)
    ensures (t * r) * pd == r * (t * pd) && (t * (r + 2)) * pd == (r + 2) * (t * pd)
    ensures (r + 2) * (b + pd) == r * b + 2 * b + (r + 2) * pd
    ensures (3 * pn) * pd == 3 * (pn * pd) && (r + 8) * b == r * b + 8 * b && r * b == b * r
  {
  }

  lemma {:induction false} NormalisedByValue(s: seq<Limb>)
    requires |s| > 0 && 2 * Val(s) >= BPow(|s|)
    ensures Normalised(s)
  {
    hide Val, BPow;
    var m := |s| - 1;
    ValTake(s, m);
    assert s[..m + 1] == s;
    ValBound(s[..m]);
    BPowStep(m);
    var x: int := s[m];
    if 2 * x <= B - 2 {
      MulMono(2 * x, B - 2, BPow(m));
      MulAssoc(2, x, BPow(m));
      MulDist(BPow(m), B, -2);
    }
  }

  // ----- reciprocal and division call each other -----

  const DIVNORM_LARGE_THRESHOLD := 50

  /** The limb powers of the two halves fit the Newton step. */
  lemma {:induction false} HalfPowers(n: nat, l: nat, h: nat)
    requires n == l + h && l + 1 <= h
    ensures BPow(n) == BPow(l) * BPow(h) && BPow(n + h) == BPow(n) * BPow(h)
    ensures BPow(2 * h - l) * BPow(l) == BPow(h) * BPow(h)
    ensures 7 * BPow(l) <= BPow(h)
  {
    hide BPow;
    BPowAdd(l, h);
    BPowAdd(n, h);
    BPowAdd(2 * h - l, l);
    BPowAdd(h, h);
    BPowAdd(h - l, l);
    BPowStep(h - l - 1);
    MulMono(1, BPow(h - l - 1), B);
    MulComm(B, BPow(h - l - 1));
    MulMono(7, BPow(h - l), BPow(l));
  }

  lemma {:induction false} HalvesOf(s: seq<Limb>, l: nat)
    requires Normalised(s) && l < |s|
    ensures Normalised(s[l..])
    ensures Val(s) == Val(s[l..]) * BPow(l) + Val(s[..l])
    ensures 0 < Val(s[l..]) < BPow(|s| - l) <= 2 * Val(s[l..])
    ensures 0 < Val(s) < BPow(|s|) <= 2 * Val(s)
  {
    hide Val, BPow;
    assert s[l..][|s| - l - 1] == s[|s| - 1];
    NormalisedFacts(s);
    NormalisedFacts(s[l..]);
    ValSplit(s, l);
    MulComm(BPow(l), Val(s[l..]));
  }

  /** The first half of a Newton step: a reciprocal xh of the high limbs and t = B^(n+h) - a * xh. */
  method RecipHigh(tabr: array<Limb>, ro: nat, taba: array<Limb>, ao: nat, n: nat, l: nat, h: nat)
    returns (tabt: array<Limb>)
    requires n > 2 && l == (n - 1) / 2 && h == n - l
    requires ro + n + 1 <= tabr.Length && ao + n <= taba.Length && tabr != taba && Normalised(taba[ao..ao + n])
    modifies tabr
    ensures OnlyWindow(tabr, ro + l, ro + n + 1) && fresh(tabt) && tabt.Length == n + h + 1
    ensures var a, xh, t := Val(taba[ao..ao + n]), Val(tabr[ro + l..ro + n + 1]), Val(tabt[..]);
      0 < t <= 2 * a && a * xh == BPow(n + h) - t && BPow(h) <= xh < 2 * BPow(h)
    decreases 1, n, 0
  {
    hide Val, BPow, Normalised, IsRecip;
    ghost var limbs := taba[ao..ao + n];
    HalvesOf(limbs, l);
    SliceOfSlice(taba, ao, n, l, n);
    assert limbs[l..] == limbs[l..n];
    tabt := new Limb[n + h + 1];
    Recip(tabr, ro + l, taba, ao + l, h);
    ghost var ah, xh := Val(limbs[l..]), Val(tabr[ro + l..ro + n + 1]);
    assert taba[ao + l..ao + l + h] == limbs[l..];
    RecipRange(ah, xh, BPow(h));
    HalfPowers(n, l, h);
    HighPartClose(Val(limbs), ah, Val(limbs[..l]), xh, BPow(l), BPow(h));
    MulBasecase(tabt, 0, taba, ao, n, tabr, ro + l, h + 1);
    assert tabt[0..0 + n + (h + 1)] == tabt[..];
    CorrectHigh(tabr, ro + l, tabt, taba, ao, n, h);
    ghost var x := Val(tabr[ro + l..ro + n + 1]);
    assert Val(limbs) * x > 0 by { MulBetween(Val(limbs), 1, x, x); }
    Complement(tabt, n + h);
  }

  method Recip(tabr: array<Limb>, ro: nat, taba: array<Limb>, ao: nat, n: nat)
    requires n >= 1 && ro + n + 1 <= tabr.Length && ao + n <= taba.Length && tabr != taba
    requires Normalised(taba[ao..ao + n])
    modifies tabr
    ensures OnlyWindow(tabr, ro, ro + n + 1) && tabr[ro + n] == 1
    ensures IsRecip(Val(taba[ao..ao + n]), Val(tabr[ro..ro + n + 1]), BPow(n))
    decreases 1, n, 2
  {
    hide Val, BPow, Normalised, IsRecip;
    ghost var limbs := taba[ao..ao + n];
    NormalisedFacts(limbs);
    if n <= 2 {
      RecipBase(tabr, ro, taba, ao, n);
    } else {
      var l := (n - 1) / 2;
      var h := n - l;
      var tabt := RecipHigh(tabr, ro, taba, ao, n, l, h);
      ghost var xh, t := Val(tabr[ro + l..ro + n + 1]), Val(tabt[..]);
      TopLimbOne(tabr[ro + l..ro + n + 1]);
      var tabu := new Limb[n + 2 * h - l + 2];
      MulBasecase(tabu, 0, tabt, l, n + h + 1 - l, tabr, ro + l, h + 1);
      assert tabt[l..l + (n + h + 1 - l)] == tabt[..][l..];
      assert tabu[0..0 + (n + h + 1 - l) + (h + 1)] == tabu[..];
      ValDiv(tabt[..], l);
      ValDiv(tabu[..], 2 * h - l);
      assert tabu[..][2 * h - l..] == tabu[2 * h - l..];
      HalfPowers(n, l, h);
      ghost var xl := Val(tabu[2 * h - l..]);
      NewtonStep(Val(limbs), xh, t, t / BPow(l), xl, BPow(l), BPow(h), BPow(2 * h - l));
      RecipRange(Val(limbs), xh * BPow(l) + xl, BPow(n));
      Assemble(tabr, ro, tabu, n, h, l);
    }
    RecipRange(Val(limbs), Val(tabr[ro..ro + n + 1]), BPow(n));
    TopLimbOne(tabr[ro..ro + n + 1]);
  }

  lemma {:induction false} BaseReciprocal(a: seq<Limb>, q: seq<Limb>, exact: bool, x: int)
    requires IsPowerQuotient(a, q, exact)
    requires x == if exact then Val(q) - 1 else Val(q)
    ensures IsRecip(Val(a), x, BPow(|a|))
  {
    hide Val, BPow;
    BPowAdd(|a|, |a|);
    MulDist(Val(a), Val(q), -1);
    MulDist(Val(a), Val(q), 2);
    MulDist(Val(a), Val(q), 1);
  }

  lemma {:induction false} ValPower(s: seq<Limb>)
    requires |s| > 0 && s[|s| - 1] == 1 && forall i | 0 <= i < |s| - 1 :: s[i] == 0
    ensures Val(s) == BPow(|s| - 1)
  {
    hide Val, BPow;
    var m := |s| - 1;
    ValTake(s, m);
    assert s[..m + 1] == s;
    ValZeros(s[..m]);
  }

  lemma ShortQuotient(q: int, a: int, r: int, p: int)
    requires p * p == q * a + r && 0 <= r < a < p <= 2 * a
    ensures 1 <= q <= 2 * p
  {
    if q > 2 * p {
      MulMono(2 * p + 1, q, a);
      MulBetween(p, p, p, 2 * a);
      MulDist(a, 2 * p, 1);
      MulAssoc(2, a, p);
    }
    if q <= 0 {
      MulMono(q, 0, a);
      MulMono(1, p, p);
    }
  }

  /** The limbs of B^n. */
  method PowerLimbs(n: nat) returns (t: array<Limb>)
    ensures fresh(t) && t.Length == n + 1 && t[n] == 1 && forall i | 0 <= i < n :: t[i] == 0
  {
    t := new Limb[n + 1](i => 0);
    t[n] := 1;
  }

  /** B^(2n) divided by a: the quotient's lowest n + 1 limbs hold all of it. */
  method PowerQuotient(taba: array<Limb>, ao: nat, n: nat) returns (tabt: array<Limb>, exact: bool)
    requires 1 <= n <= 2 && ao + n <= taba.Length && Normalised(taba[ao..ao + n])
    ensures fresh(tabt) && tabt.Length == n + 2
    ensures IsPowerQuotient(taba[ao..ao + n], tabt[0..n + 1], exact)
    decreases 1, n, 0
  {
    hide Val, BPow, Normalised, IsDivision, IsPowerQuotient;
    ghost var limbs := taba[ao..ao + n];
    var tabu := PowerLimbs(2 * n);
    tabt := new Limb[n + 2];
    ghost var u := tabu[..];
    assert tabu[0..0 + (2 * n + 1)] == u;
    DivNorm(tabt, 0, tabu, 0, 2 * n + 1, taba, ao, n);
    ghost var lo := tabt[0..n + 1];
    assert tabt[0..0 + (2 * n + 1) - n + 1] == lo + [tabt[n + 1]];
    assert taba[ao..ao + n] == limbs;
    var nz := ScanNz(tabu, 0, n);
    exact := !nz;
    PowerQuotientShort(u, lo, tabt[n + 1], limbs, tabu[0..0 + n], exact);
  }

  /** q and the remainder's vanishing are those of B^(2|a|) divided by a. */
  ghost predicate IsPowerQuotient(a: seq<Limb>, q: seq<Limb>, exact: bool) {
    var r := BPow(2 * |a|) - Val(q) * Val(a);
    0 <= r < Val(a) && exact == (r == 0)
  }

  lemma {:induction false} PowerQuotientShort(u: seq<Limb>, lo: seq<Limb>, x: Limb, a: seq<Limb>, r: seq<Limb>,
      exact: bool)
    requires Normalised(a) && |lo| == |a| + 1 && |u| == 2 * |a| + 1
    requires u[2 * |a|] == 1 && forall i | 0 <= i < 2 * |a| :: u[i] == 0
    requires IsDivision(u, lo + [x], a, r) && exact == (Val(r) == 0)
    ensures IsPowerQuotient(a, lo, exact)
  {
    hide Val, BPow, Normalised;
    var n := |a|;
    NormalisedFacts(a);
    ValPower(u);
    BPowAdd(n, n);
    ShortQuotient(Val(lo + [x]), Val(a), Val(r), BPow(n));
    assert 2 * BPow(n) < BPow(n + 1) by {
      BPowStep(n);
      MulMono(3, B, BPow(n));
    }
    TopLimbZero(lo, x);
  }

  /** For one or two limbs: ceil(B^(2n) / a) - 1. */
  method RecipBase(tabr: array<Limb>, ro: nat, taba: array<Limb>, ao: nat, n: nat)
    requires 1 <= n <= 2 && ro + n + 1 <= tabr.Length && ao + n <= taba.Length && tabr != taba
    requires Normalised(taba[ao..ao + n])
    modifies tabr
    ensures OnlyWindow(tabr, ro, ro + n + 1)
    ensures IsRecip(Val(taba[ao..ao + n]), Val(tabr[ro..ro + n + 1]), BPow(n))
    decreases 1, n, 1
  {
    hide Val, BPow, Normalised, IsRecip, IsPowerQuotient;
    ghost var limbs := taba[ao..ao + n];
    var tabt, exact := PowerQuotient(taba, ao, n);
    ghost var q := tabt[0..n + 1];
    assert taba[ao..ao + n] == limbs;
    CopyLimbs(tabr, ro, tabt, 0, n + 1);
    assert tabr[ro..ro + n + 1] == q;
    PowerQuotientPositive(limbs, q, exact);
    if exact {
      // only for a = B^n / 2
      var k := SubUi(tabr, ro, 1, n + 1);
      NoBorrow(tabr[ro..ro + n + 1], Val(q) - 1, k);
    }
    BaseReciprocal(limbs, q, exact, Val(tabr[ro..ro + n + 1]));
    assert taba[ao..ao + n] == limbs;
  }

  lemma {:induction false} PowerQuotientPositive(a: seq<Limb>, q: seq<Limb>, exact: bool)
    requires Normalised(a) && IsPowerQuotient(a, q, exact)
    ensures Val(q) >= 1
  {
    hide Val, BPow, Normalised;
    NormalisedFacts(a);
    BPowAdd(|a|, |a|);
    ShortQuotient(Val(q), Val(a), BPow(2 * |a|) - Val(q) * Val(a), BPow(|a|));
  }

  /** The reciprocal of the divisor followed by zero limbs. */
  method PaddedRecip(tabb: array<Limb>, bo: nat, nb: nat, n: nat) returns (inv: array<Limb>)
    requires 1 <= nb <= n && bo + nb <= tabb.Length && Normalised(tabb[bo..bo + nb])
    ensures fresh(inv) && inv.Length == n + 1
    ensures IsApproxInverse(Val(tabb[bo..bo + nb]), Val(inv[..]), BPow(n + nb))
    decreases 2, 0, 0
  {
    hide Val, BPow, Normalised, IsRecip, IsApproxInverse;
    ghost var bs := tabb[bo..bo + nb];
    NormalisedFacts(bs);
    inv := new Limb[n + 1];
    var tabt := new Limb[n](i => 0);
    CopyLimbs(tabt, n - nb, tabb, bo, nb);
    PaddedLimbs(tabt[..], bs);
    assert tabt[0..0 + n] == tabt[..];
    Recip(inv, 0, tabt, 0, n);
    assert inv[0..0 + n + 1] == inv[..];
    BPowAdd(n + nb, n - nb);
    BPowAdd(n, n);
    PaddedInverse(Val(bs), Val(inv[..]), BPow(n), BPow(n - nb), BPow(n + nb));
  }

  /** The reciprocal of the divisor's n leading limbs, incremented so that it is not too large. */
  method TruncatedRecip(tabb: array<Limb>, bo: nat, nb: nat, n: nat) returns (inv: array<Limb>)
    requires 1 <= n < nb && bo + nb <= tabb.Length && Normalised(tabb[bo..bo + nb])
    ensures fresh(inv) && inv.Length == n + 1
    ensures IsApproxInverse(Val(tabb[bo..bo + nb]), Val(inv[..]), BPow(n + nb))
    decreases 2, 0, 0
  {
    hide Val, BPow, Normalised, IsRecip, IsApproxInverse;
    ghost var bs := tabb[bo..bo + nb];
    NormalisedFacts(bs);
    inv := new Limb[n + 1](i => 0);
    var tabt := new Limb[n];
    CopyLimbs(tabt, 0, tabb, bo + nb - n, n);
    assert tabt[0..0 + n] == bs[nb - n..];
    TruncatedLimbs(bs, n);
    TruncatedPowers(n, nb);
    ghost var t := Val(bs[nb - n..]) + 1;
    var c := AddUi(tabt, 0, 1, n);
    if c != 0 {
      // t = B^n, and B^n is its inverse
      CarriedOut(tabt[0..0 + n], t, c);
      inv[n] := 1;
      ValPower(inv[..]);
      MulBetween(BPow(n), BPow(n) + 1, BPow(n) + 2, BPow(n) + 2);
      MulDist(BPow(n), BPow(n), 1);
      TruncatedInverse(Val(bs), t, BPow(n), BPow(n), BPow(nb - n));
    } else {
      NormalisedByValue(tabt[0..0 + n]);
      ValBound(tabt[0..0 + n]);
      Recip(inv, 0, tabt, 0, n);
      assert inv[0..0 + n + 1] == inv[..];
      RecipRange(t, Val(inv[..]), BPow(n));
      RecipMeans(t, Val(inv[..]), BPow(n));
      TruncatedInverse(Val(bs), t, Val(inv[..]), BPow(n), BPow(nb - n));
    }
  }

  lemma RecipMeans(a: int, r: int, p: int)
    requires IsRecip(a, r, p)
    ensures a * r < p * p < a * (r + 2)
  {
  }

  lemma {:induction false} PaddedLimbs(s: seq<Limb>, b: seq<Limb>)
    requires Normalised(b) && |b| <= |s| && s[|s| - |b|..] == b
    requires forall i | 0 <= i < |s| - |b| :: s[i] == 0
    ensures Normalised(s) && Val(s) == Val(b) * BPow(|s| - |b|)
  {
    hide Val, BPow;
    var k := |s| - |b|;
    ValSplit(s, k);
    ValZeros(s[..k]);
    MulComm(BPow(k), Val(b));
    assert s[|s| - 1] == b[|b| - 1];
  }

  /** The leading n limbs, incremented, bound the whole from above by less than one unit. */
  lemma {:induction false} TruncatedLimbs(b: seq<Limb>, n: nat)
    requires Normalised(b) && 1 <= n < |b|
    ensures var pd, t := BPow(|b| - n), Val(b[|b| - n..]) + 1;
      Val(b) <= t * pd <= Val(b) + pd && t <= BPow(n) <= 2 * t
    ensures BPow(n) * BPow(|b| - n) <= 2 * Val(b)
  {
    hide Val, BPow;
    var k := |b| - n;
    HalvesOf(b, k);
    ValBound(b[..k]);
    MulDist(BPow(k), Val(b[k..]), 1);
    BPowAdd(n, k);
  }

  lemma {:induction false} CarriedOut(s: seq<Limb>, v: int, c: Limb)
    requires Val(s) + c * BPow(|s|) == v && v <= BPow(|s|) && c != 0
    ensures v == BPow(|s|)
  {
    hide Val, BPow;
    MulMono(1, c, BPow(|s|));
  }

  lemma {:induction false} TruncatedPowers(n: nat, nb: nat)
    requires 1 <= n < nb
    ensures BPow(n + nb) == (BPow(n) * BPow(n)) * BPow(nb - n)
    ensures BPow(n) >= 2
  {
    hide BPow;
    BPowAdd(n, n);
    BPowAdd(n + n, nb - n);
    BPowStep(n - 1);
    MulMono(2, B, BPow(n - 1));
  }

  lemma {:induction false} QuotientTop(q: seq<Limb>, b: seq<Limb>, u: seq<Limb>, r: seq<Limb>)
    requires |q| > 0 && Normalised(b) && IsDivision(u, q, b, r) && |u| == |q| - 1 + |b|
    ensures q[|q| - 1] <= 1
  {
    hide Val, BPow, Normalised;
    NormalisedFacts(b);
    ValBound(u);
    BPowAdd(|q| - 1, |b|);
    QuotientBelow(Val(q), Val(b), Val(u), BPow(|q| - 1), BPow(|b|));
    TopLimbSmall(q);
  }

  lemma QuotientBelow(q: int, b: int, u: int, pn: int, pb: int)
    requires q * b <= u < pn * pb && pb <= 2 * b && pn > 0 && b > 0
    ensures q < 2 * pn
  {
    if q >= 2 * pn {
      MulMono(2 * pn, q, b);
      MulBetween(pn, pb, pb, 2 * b);
      MulAssoc(2, pn, b);
    }
  }

  lemma {:induction false} TopLimbSmall(s: seq<Limb>)
    requires |s| > 0 && Val(s) < 2 * BPow(|s| - 1)
    ensures s[|s| - 1] <= 1
  {
    hide Val, BPow;
    if Val(s) >= BPow(|s| - 1) {
      TopLimbOne(s);
    } else {
      TopLimbNonZero(s);
    }
  }

  /** Divide na limbs by nb normalised limbs: quotient in tabq, remainder left in taba. */
  method DivNorm(tabq: array<Limb>, qo: nat, taba: array<Limb>, ao: nat, na: nat, tabb: array<Limb>, bo: nat, nb: nat)
    requires 1 <= nb <= na && ao + na <= taba.Length && bo + nb <= tabb.Length && qo + na - nb + 1 <= tabq.Length
    requires tabq != taba && tabq != tabb && taba != tabb
    requires Normalised(tabb[bo..bo + nb])
    modifies tabq, taba
    ensures OnlyWindow(tabq, qo, qo + na - nb + 1) && OnlyWindow(taba, ao, ao + na)
    ensures IsDivision(old(taba[ao..ao + na]), tabq[qo..qo + na - nb + 1], tabb[bo..bo + nb], taba[ao..ao + nb])
    ensures tabq[qo + na - nb] <= 1
    decreases if na - nb >= DIVNORM_LARGE_THRESHOLD && nb >= DIVNORM_LARGE_THRESHOLD then 3 else 0, 0, 0
  {
    hide Val, BPow, Normalised, Divided, IsDivision;
    ghost var u, bs := taba[ao..ao + na], tabb[bo..bo + nb];
    NormalisedFacts(bs);
    ValBound(u);
    if nb == 1 {
      var r := Div1Norm(tabq, qo, taba, ao, na, tabb[bo], 0);
      taba[ao] := r;
      assert bs == [tabb[bo]] && taba[ao..ao + nb] == [r];
      DivisionByLimb(u, tabq[qo..qo + na - nb + 1], tabb[bo], r);
    } else if na - nb >= DIVNORM_LARGE_THRESHOLD && nb >= DIVNORM_LARGE_THRESHOLD {
      DivNormLarge(tabq, qo, taba, ao, na, tabb, bo, nb);
    } else {
      DivNormBase(tabq, qo, taba, ao, na, tabb, bo, nb);
    }
    assert tabb[bo..bo + nb] == bs;
    QuotientTop(tabq[qo..qo + na - nb + 1], bs, u, taba[ao..ao + nb]);
  }

  lemma {:induction false} DivisionByLimb(u: seq<Limb>, q: seq<Limb>, d: Limb, r: Limb)
    requires Val(q) * d + r == Val(u) && r < d
    ensures IsDivision(u, q, [d], [r])
  {
    hide Val;
    ValSingle(d);
    ValSingle(r);
  }

  method DivNormLarge(tabq: array<Limb>, qo: nat, taba: array<Limb>, ao: nat, na: nat, tabb: array<Limb>, bo: nat,
      nb: nat)
    requires 1 <= nb <= na && ao + na <= taba.Length && bo + nb <= tabb.Length && qo + na - nb + 1 <= tabq.Length
    requires tabq != taba && tabq != tabb && taba != tabb
    requires na - nb >= 1 && nb >= 2
    requires Normalised(tabb[bo..bo + nb])
    modifies tabq, taba
    ensures OnlyWindow(tabq, qo, qo + na - nb + 1) && OnlyWindow(taba, ao, ao + na)
    ensures IsDivision(old(taba[ao..ao + na]), tabq[qo..qo + na - nb + 1], tabb[bo..bo + nb], taba[ao..ao + nb])
    decreases 2, 0, 1
  {
    hide Val, BPow, Normalised, IsApproxInverse, NearQuotient, Remaining, IsDivision;
    var nq := na - nb;
    var n := if nq < nb then nq + 1 else nq;
    ghost var u, bs := taba[ao..ao + na], tabb[bo..bo + nb];
    var inv;
    if n >= nb {
      inv := PaddedRecip(tabb, bo, nb, n);
    } else {
      inv := TruncatedRecip(tabb, bo, nb, n);
    }
    ApproximateQuotient(tabq, qo, taba, ao, na, tabb, bo, nb, inv, n);
    SubtractProduct(tabq, qo, taba, ao, na, tabb, bo, nb);
    ValBound(u);
    IncrementQuotient(tabq, qo, taba, ao, na, tabb, bo, nb, u);
  }

  /** Q = A * B^-1, from the leading n + 1 limbs of A. */
  method ApproximateQuotient(tabq: array<Limb>, qo: nat, taba: array<Limb>, ao: nat, na: nat,
                             tabb: array<Limb>, bo: nat, nb: nat, inv: array<Limb>, n: nat)
    requires 2 <= nb < na && ao + na <= taba.Length && bo + nb <= tabb.Length && qo + na - nb + 1 <= tabq.Length
    requires tabq != taba && tabq != tabb && tabq != inv
    requires n == (if na - nb < nb then na - nb + 1 else na - nb) && inv.Length == n + 1
    requires Normalised(tabb[bo..bo + nb])
    requires IsApproxInverse(Val(tabb[bo..bo + nb]), Val(inv[..]), BPow(n + nb))
    modifies tabq
    ensures OnlyWindow(tabq, qo, qo + na - nb + 1)
    ensures NearQuotient(taba[ao..ao + na], tabq[qo..qo + na - nb + 1], tabb[bo..bo + nb])
  {
    hide Val, BPow, Normalised, IsApproxInverse, NearQuotient;
    var nq := na - nb;
    ghost var u := taba[ao..ao + na];
    var s := 2 * (n + 1) - (nq + 1);
    var tabt := new Limb[2 * (n + 1)];
    MulBasecase(tabt, 0, inv, 0, n + 1, taba, ao + na - (n + 1), n + 1);
    CopyLimbs(tabq, qo, tabt, s, nq + 1);
    assert tabt[s..s + (nq + 1)] == tabt[..][s..];
    assert tabt[0..0 + (n + 1) + (n + 1)] == tabt[..] && inv[0..0 + (n + 1)] == inv[..];
    assert taba[ao + na - (n + 1)..ao + na - (n + 1) + (n + 1)] == u[na - (n + 1)..];
    ValDiv(tabt[..], s);
    ApproximateLimbs(u, tabb[bo..bo + nb], Val(inv[..]), tabq[qo..qo + nq + 1], n);
    assert taba[ao..ao + na] == u;
  }

  /** q falls short of u / b by less than ten. */
  ghost predicate NearQuotient(u: seq<Limb>, q: seq<Limb>, b: seq<Limb>) {
    0 <= Val(u) - Val(q) * Val(b) < 10 * Val(b)
  }

  /** u = q * b + r. */
  ghost predicate Remaining(u: seq<Limb>, q: seq<Limb>, b: seq<Limb>, r: seq<Limb>) {
    Val(u) == Val(q) * Val(b) + Val(r)
  }

  lemma {:induction false} ApproximateLimbs(u: seq<Limb>, b: seq<Limb>, r: nat, q: seq<Limb>, n: nat)
    requires 2 <= |b| < |u| && Normalised(b)
    requires n == (if |u| - |b| < |b| then |u| - |b| + 1 else |u| - |b|)
    requires IsApproxInverse(Val(b), r, BPow(n + |b|))
    requires Val(q) == (r * Val(u[|u| - (n + 1)..])) / BPow(2 * (n + 1) - (|u| - |b| + 1))
    ensures NearQuotient(u, q, b)
  {
    hide Val, BPow, Normalised;
    var e, s := |u| - (n + 1), 2 * (n + 1) - (|u| - |b| + 1);
    ValSplit(u, e);
    ValBound(u[..e]);
    ValBound(u[e..]);
    MulComm(BPow(e), Val(u[e..]));
    BPowAdd(s, e);
    BPowMono(n + 1, s);
    BPowMono(e, |b| - 1);
    PowerBelow(b);
    ApproxQuotient(Val(u), Val(u[e..]), Val(u[..e]), BPow(e), BPow(s), r, Val(b), Val(q));
  }

  lemma {:induction false} BPowMono(m: nat, n: nat)
    requires m <= n
    ensures BPow(m) <= BPow(n)
  {
    hide BPow;
    BPowAdd(m, n - m);
    MulBetween(BPow(m), 1, BPow(n - m), BPow(n - m));
  }

  lemma {:induction false} PowerBelow(b: seq<Limb>)
    requires Normalised(b)
    ensures 0 < BPow(|b| - 1) <= Val(b)
  {
    hide Val, BPow;
    NormalisedFacts(b);
    BPowStep(|b| - 1);
    MulMono(2, B, BPow(|b| - 1));
  }

  /** R = A - B * Q: it fits nb + 1 limbs, so only those are subtracted. */
  method SubtractProduct(tabq: array<Limb>, qo: nat, taba: array<Limb>, ao: nat, na: nat, tabb: array<Limb>, bo: nat,
      nb: nat)
    requires 2 <= nb < na && ao + na <= taba.Length && bo + nb <= tabb.Length && qo + na - nb + 1 <= tabq.Length
    requires tabq != taba && taba != tabb
    requires NearQuotient(taba[ao..ao + na], tabq[qo..qo + na - nb + 1], tabb[bo..bo + nb])
    modifies taba
    ensures OnlyWindow(taba, ao, ao + na)
    ensures Remaining(old(taba[ao..ao + na]), tabq[qo..qo + na - nb + 1], tabb[bo..bo + nb], taba[ao..ao + nb + 1])
  {
    hide Val, BPow, NearQuotient, Remaining;
    var nq := na - nb;
    ghost var u, q, b := taba[ao..ao + na], tabq[qo..qo + nq + 1], tabb[bo..bo + nb];
    var tabt := new Limb[na + 1];
    MulBasecase(tabt, 0, tabq, qo, nq + 1, tabb, bo, nb);
    assert tabt[0..0 + (nq + 1) + nb] == tabt[..] && tabq[qo..qo + (nq + 1)] == q && tabb[bo..bo + nb] == b;
    ghost var t := tabt[..];
    SliceOfSlice(taba, ao, na, 0, nb + 1);
    assert u[0..nb + 1] == u[..nb + 1] && tabt[0..0 + (nb + 1)] == t[..nb + 1];
    assert Val(t) == Val(q) * Val(b);
    var k := Sub(taba, ao, taba, ao, tabt, 0, nb + 1, 0);
    NearRemainder(u, q, b, t, taba[ao..ao + (nb + 1)], k);
  }

  lemma {:induction false} NearRemainder(u: seq<Limb>, q: seq<Limb>, b: seq<Limb>, t: seq<Limb>, d: seq<Limb>, k: Limb)
    requires |d| == |b| + 1 && |d| <= |u| && |d| <= |t|
    requires NearQuotient(u, q, b) && Val(t) == Val(q) * Val(b)
    requires Val(d) + Val(t[..|d|]) == Val(u[..|d|]) + k * BPow(|d|)
    ensures Remaining(u, q, b, d)
  {
    hide Val, BPow;
    ValBound(b);
    TenBelow(Val(b), |b|);
    LowDifference(u, t, d, k);
  }

  lemma {:induction false} TenBelow(b: int, nb: nat)
    requires 0 <= b < BPow(nb)
    ensures 10 * b < BPow(nb + 1)
  {
    hide BPow;
    BPowStep(nb);
    MulMono(10, B, BPow(nb));
  }

  /** A difference that fits m limbs is the difference of the lowest m limbs. */
  lemma {:induction false} LowDifference(u: seq<Limb>, t: seq<Limb>, d: seq<Limb>, k: Limb)
    requires |d| <= |u| && |d| <= |t|
    requires Val(d) + Val(t[..|d|]) == Val(u[..|d|]) + k * BPow(|d|)
    requires 0 <= Val(u) - Val(t) < BPow(|d|)
    ensures Val(d) == Val(u) - Val(t)
  {
    hide Val, BPow;
    var m := |d|;
    ValSplit(u, m);
    ValSplit(t, m);
    ValBound(d);
    LowCongruent(Val(d), Val(u) - Val(t), k, Val(t[m..]), Val(u[m..]), BPow(m));
  }

  lemma LowCongruent(x: int, y: int, c: int, t: int, u: int, p: int)
    requires 0 <= x < p && 0 <= y < p && x == y + c * p + p * t - p * u
    ensures x == y
  {
    var k := c + t - u;
    assert x == y + k * p;
    if k >= 1 {
      MulMono(1, k, p);
    } else if k <= -1 {
      MulMono(k, -1, p);
    }
  }

  /** While the remainder is too large, one more divisor comes off it and onto the quotient. */
  method IncrementQuotient(tabq: array<Limb>, qo: nat, taba: array<Limb>, ao: nat, na: nat,
                           tabb: array<Limb>, bo: nat, nb: nat, ghost u: seq<Limb>)
    requires 2 <= nb < na && ao + na <= taba.Length && bo + nb <= tabb.Length && qo + na - nb + 1 <= tabq.Length
    requires tabq != taba && tabq != tabb && taba != tabb
    requires Normalised(tabb[bo..bo + nb]) && |u| == na
    requires Remaining(u, tabq[qo..qo + na - nb + 1], tabb[bo..bo + nb], taba[ao..ao + nb + 1])
    modifies tabq, taba
    ensures OnlyWindow(tabq, qo, qo + na - nb + 1) && OnlyWindow(taba, ao, ao + na)
    ensures IsDivision(u, tabq[qo..qo + na - nb + 1], tabb[bo..bo + nb], taba[ao..ao + nb])
  {
    hide Val, BPow, Normalised, Remaining, IsDivision;
    var nq := na - nb;
    ghost var b := tabb[bo..bo + nb];
    NormalisedFacts(b);
    while true
      invariant OnlyWindow(tabq, qo, qo + nq + 1) && OnlyWindow(taba, ao, ao + na)
      invariant tabb[bo..bo + nb] == b
      invariant Remaining(u, tabq[qo..qo + nq + 1], b, taba[ao..ao + nb + 1])
      decreases Val(taba[ao..ao + nb + 1])
    {
      ghost var q, r := tabq[qo..qo + nq + 1], taba[ao..ao + nb + 1];
      assert r == taba[ao..ao + nb] + [taba[ao + nb]];
      var c := Cmp(taba, ao, tabb, bo, nb);
      RemainderSize(u, q, b, taba[ao..ao + nb], taba[ao + nb]);
      if taba[ao + nb] == 0 && c < 0 {
        break;
      }
      TakeDivisor(taba, ao, tabb, bo, nb);
      assert tabq[qo..qo + (nq + 1)] == q;
      ghost var r' := taba[ao..ao + nb + 1];
      var k := AddUi(tabq, qo, 1, nq + 1);
      RemainingStep(u, q, b, r, tabq[qo..qo + (nq + 1)], r', k);
      assert taba[ao..ao + nb + 1] == r';
    }
  }

  lemma {:induction false} RemainderSize(u: seq<Limb>, q: seq<Limb>, b: seq<Limb>, lo: seq<Limb>, x: Limb)
    requires |lo| == |b| && Remaining(u, q, b, lo + [x])
    ensures x == 0 && Val(lo) < Val(b) ==> IsDivision(u, q, b, lo)
    ensures !(x == 0 && Val(lo) < Val(b)) ==> Val(b) <= Val(lo + [x])
  {
    hide Val, BPow;
    ValSnoc(lo, x);
    ValBound(b);
    if x != 0 {
      MulMono(1, x, BPow(|lo|));
    }
  }

  lemma {:induction false} RemainingStep(u: seq<Limb>, q: seq<Limb>, b: seq<Limb>, r: seq<Limb>, q': seq<Limb>,
      r': seq<Limb>, k: Limb)
    requires Normalised(b) && |q| == |q'| > 0 && |u| == |q| - 1 + |b|
    requires Remaining(u, q, b, r) && Val(r') == Val(r) - Val(b) && Val(q') + k * BPow(|q'|) == Val(q) + 1
    ensures Remaining(u, q', b, r') && Val(r') < Val(r)
  {
    hide Val, BPow, Normalised;
    var x := Val(q) + 1;
    ValBound(u);
    NormalisedFacts(b);
    OneMore(Val(u), Val(q), x, Val(b), Val(r), Val(r'));
    NoOverflow(q', x, k, Val(b), Val(u), |u|, |b|);
    MulEqual(Val(q'), x, Val(b));
  }

  lemma OneMore(u: int, q: int, q': int, b: int, r: int, r': int)
    requires u == q * b + r && r' == r - b && 0 <= r' && q' == q + 1
    ensures u == q' * b + r' && q' * b <= u
  {
  }

  lemma {:induction false} NoOverflow(s: seq<Limb>, q: int, k: Limb, b: int, u: int, m: nat, nb: nat)
    requires |s| > 0 && m == |s| - 1 + nb && Val(s) + k * BPow(|s|) == q && b > 0
    requires q * b <= u < BPow(m) && BPow(nb) <= 2 * b
    ensures Val(s) == q
  {
    hide Val, BPow;
    var n := |s| - 1;
    BPowAdd(n, nb);
    QuotientBelow(q, b, u, BPow(n), BPow(nb));
    BPowStep(n);
    MulMono(2, B, BPow(n));
    if k >= 1 {
      MulMono(1, k, BPow(|s|));
    }
  }

  lemma {:induction false} BorrowCovered(lo: seq<Limb>, x: Limb, lo': seq<Limb>, k: Limb, y: Limb, b: int)
    requires |lo| == |lo'| && k <= 1 && y == WSub(x, k) && b <= Val(lo + [x])
    requires Val(lo') + b == Val(lo) + k * BPow(|lo|)
    ensures Val(lo' + [y]) == Val(lo + [x]) - b
  {
    hide Val, BPow;
    ValSnoc(lo, x);
    ValSnoc(lo', y);
    ValBound(lo');
    BorrowSum(Val(lo), x, Val(lo'), k, y, b, BPow(|lo|), B);
  }

  lemma BorrowSum(lo: int, x: int, lo': int, k: int, y: int, b: int, p: int, bb: int)
    requires 0 <= lo' < p && 0 <= k <= 1 && 0 <= x && y == (if x >= k then x - k else x - k + bb)
    requires lo' + b == lo + k * p && b <= lo + x * p
    ensures lo' + y * p == lo + x * p - b
  {
    if k == 1 {
      if x == 0 {
      } else {
        MulDist(p, x, -1);
      }
    }
  }

  /** One subtraction of the divisor from a remainder one limb longer. */
  method TakeDivisor(taba: array<Limb>, ao: nat, tabb: array<Limb>, bo: nat, nb: nat)
    requires ao + nb + 1 <= taba.Length && bo + nb <= tabb.Length && taba != tabb
    requires Val(tabb[bo..bo + nb]) <= Val(taba[ao..ao + nb + 1])
    modifies taba
    ensures OnlyWindow(taba, ao, ao + nb + 1)
    ensures Val(taba[ao..ao + nb + 1]) == old(Val(taba[ao..ao + nb + 1])) - Val(tabb[bo..bo + nb])
  {
    hide Val, BPow;
    ghost var lo, x := taba[ao..ao + nb], taba[ao + nb];
    assert taba[ao..ao + nb + 1] == lo + [x];
    var k := Sub(taba, ao, taba, ao, tabb, bo, nb, 0);
    ghost var lo' := taba[ao..ao + nb];
    taba[ao + nb] := WSub(taba[ao + nb], k);
    BorrowCovered(lo, x, lo', k, taba[ao + nb], Val(tabb[bo..bo + nb]));
    assert taba[ao..ao + nb + 1] == lo' + [taba[ao + nb]];
  }
}
