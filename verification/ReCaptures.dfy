/**
 Captures do not decide what matches: outcomes from two starts that differ in captures only
 differ in captures only, and not in those that every match sets or clears.
 */
module ReCaptures {
  import opened ReCode
  import opened ReText
  import opened ReSyntax
  import opened ReSpec

  /** Every match sets or clears every group of the expression, as compiled. */
  predicate Refills(r: Re) {
    Groups(r) == 0 ||
    match r
    case Cat(a, b) => Refills(a) && Refills(b)
    case Capture(a) => Refills(a)
    case Quant(a, min, max, _) => min == 0 || (max > 0 && Refills(a))
    case Look(negated, a) => !negated && Refills(a)
    case _ => false
  }

  /** The places of n groups from cc on. */
  function Slots(cc: nat, n: nat): (s: set<nat>)
    ensures forall i :: i in s <==> 2 * cc <= i < 2 * (cc + n)
    decreases n
  {
    if n == 0 then {} else {2 * cc, 2 * cc + 1} + Slots(cc + 1, n - 1)
  }

  /** The same but for the captures in d. */
  predicate Like(o: Out, p: Out, d: set<nat>) {
    o.pos == p.pos && |o.caps| == |p.caps| && forall i | 0 <= i < |o.caps| && i !in d :: o.caps[i] == p.caps[i]
  }

  predicate AllLike(os: seq<Out>, ps: seq<Out>, d: set<nat>) {
    |os| == |ps| && forall k | 0 <= k < |os| :: Like(os[k], ps[k], d)
  }

  /** What may still differ after a match of r. */
  function Left(r: Re, cc: nat, d: set<nat>): set<nat> {
    if Refills(r) then d - Slots(cc, Groups(r)) else d
  }

  lemma LikeMore(os: seq<Out>, ps: seq<Out>, d: set<nat>, e: set<nat>)
    requires AllLike(os, ps, d) && d <= e
    ensures AllLike(os, ps, e)
  {
  }

  lemma LikeEqual(os: seq<Out>, ps: seq<Out>)
    requires AllLike(os, ps, {})
    ensures os == ps
  {
    forall k | 0 <= k < |os|
      ensures os[k] == ps[k]
    {
      assert Like(os[k], ps[k], {});
      assert os[k].caps == ps[k].caps;
    }
  }

  lemma LikeAppend(os: seq<Out>, ps: seq<Out>, os': seq<Out>, ps': seq<Out>, d: set<nat>)
    requires AllLike(os, ps, d) && AllLike(os', ps', d)
    ensures AllLike(os + os', ps + ps', d)
  {
    hide Like;
  }

  lemma LikeTail(os: seq<Out>, ps: seq<Out>, d: set<nat>)
    requires AllLike(os, ps, d) && os != []
    ensures Like(os[0], ps[0], d) && AllLike(os[1..], ps[1..], d) && os[0].pos == ps[0].pos
  {
  }

  lemma LikeOne(o: Out, p: Out, d: set<nat>)
    requires Like(o, p, d)
    ensures AllLike([o], [p], d) && AllLike([], [], d)
  {
  }

  lemma LikeOrder(greedy: bool, os: seq<Out>, ps: seq<Out>, o: Out, p: Out, d: set<nat>)
    requires AllLike(os, ps, d) && Like(o, p, d)
    ensures AllLike(Order(greedy, os, o), Order(greedy, ps, p), d)
  {
    hide AllLike, Like;
    LikeOne(o, p, d);
    LikeAppend(os, ps, [o], [p], d);
    LikeAppend([o], [p], os, ps, d);
  }

  lemma {:induction false} LikeAdvanced(os: seq<Out>, ps: seq<Out>, q: nat, d: set<nat>)
    requires AllLike(os, ps, d)
    ensures AllLike(Advanced(os, q), Advanced(ps, q), d)
    decreases |os|
  {
    hide AllLike, Like;
    if os != [] {
      LikeSize(os, ps, d);
      LikeTail(os, ps, d);
      LikeOne(os[0], ps[0], d);
      LikeAdvanced(os[1..], ps[1..], q, d);
      var first := if os[0].pos > q then [os[0]] else [];
      var first' := if ps[0].pos > q then [ps[0]] else [];
      LikeAppend(first, first', Advanced(os[1..], q), Advanced(ps[1..], q), d);
    } else {
      LikeSize(os, ps, d);
    }
  }

  lemma LikeSize(os: seq<Out>, ps: seq<Out>, d: set<nat>)
    requires AllLike(os, ps, d)
    ensures |os| == |ps|
  {
  }

  lemma LikeClear(o: Out, p: Out, cc: nat, n: nat, d: set<nat>)
    requires Like(o, p, d)
    ensures Like(ClearCaps(o, cc, n), ClearCaps(p, cc, n), d - Slots(cc, n))
  {
  }

  lemma LikeSet(o: Out, p: Out, i: nat, d: set<nat>)
    requires Like(o, p, d)
    ensures Like(SetCap(o, i), SetCap(p, i), d - {i})
  {
  }

  lemma LikeSetAll(os: seq<Out>, ps: seq<Out>, i: nat, d: set<nat>)
    requires AllLike(os, ps, d)
    ensures AllLike(SetAll(os, i), SetAll(ps, i), d - {i})
  {
    hide Like, SetCap;
    forall k | 0 <= k < |os|
      ensures Like(SetAll(os, i)[k], SetAll(ps, i)[k], d - {i})
    {
      LikeSet(os[k], ps[k], i, d);
    }
  }

  lemma LikeInText(o: Out, p: Out, d: set<nat>)
    requires Like(o, p, d)
    ensures o.pos == p.pos && |o.caps| == |p.caps|
  {
  }

  // ----- the induction -----

  lemma {:induction false} ThenLike(b: Re, cc: nat, t: Text, os: seq<Out>, ps: seq<Out>, rd: Reading, lo: nat, n: nat,
      d: set<nat>)
    requires !rd.Ecma? && AllLike(os, ps, d) && Within(os, lo, |t.input|, n) && Within(ps, lo, |t.input|, n)
    ensures AllLike(Then(b, cc, t, os, rd, lo, n), Then(b, cc, t, ps, rd, lo, n), Left(b, cc, d))
    decreases b, 1, 0, 0, 0, |os|
  {
    hide Matches, Left, AllLike, Like;
    LikeSize(os, ps, d);
    if os != [] {
      LikeTail(os, ps, d);
      MatchesLike(b, cc, t, os[0], ps[0], rd, d);
      ThenLike(b, cc, t, os[1..], ps[1..], rd, lo, n, d);
      LikeAppend(Matches(b, cc, t, os[0], rd), Matches(b, cc, t, ps[0], rd),
                 Then(b, cc, t, os[1..], rd, lo, n), Then(b, cc, t, ps[1..], rd, lo, n), Left(b, cc, d));
    } else {
      LikeNone(Left(b, cc, d));
    }
  }

  lemma LikeNone(d: set<nat>)
    ensures AllLike([], [], d)
  {
  }

  lemma LeftLess(r: Re, cc: nat, d: set<nat>)
    ensures Left(r, cc, d) <= d
  {
  }

  lemma {:induction false} RepeatLike(a: Re, cc: nat, t: Text, o: Out, p: Out, min: nat, max: nat, greedy: bool,
      rd: Reading, d: set<nat>)
    requires !rd.Ecma? && Like(o, p, d) && o.pos <= |t.input|
    ensures AllLike(Repeat(a, cc, t, o, min, max, greedy, rd), Repeat(a, cc, t, p, min, max, greedy, rd), d)
    ensures min > 0 && max > 0 ==>
      AllLike(Repeat(a, cc, t, o, min, max, greedy, rd), Repeat(a, cc, t, p, min, max, greedy, rd), Left(a, cc, d))
    decreases a, 2, min, Fuel(max, rd), |t.input| - o.pos + 1, 0
  {
    hide Matches, Left, AllLike, Like, Iterate, Advanced, Order, Within;
    LikeInText(o, p, d);
    if max == 0 {
      LikeOne(o, p, d);
      return;
    }
    var e, n := Left(a, cc, d), |o.caps|;
    var once, once' := Matches(a, cc, t, o, rd), Matches(a, cc, t, p, rd);
    MatchesLike(a, cc, t, o, p, rd, d);
    LeftLess(a, cc, d);
    LikeMore(once, once', e, d);
    if min > 0 {
      IterateLike(a, cc, t, once, once', min - 1, Less(max), greedy, rd, false, o.pos, n, e);
      LikeMore(Repeat(a, cc, t, o, min, max, greedy, rd), Repeat(a, cc, t, p, min, max, greedy, rd), e, d);
    } else if rd.AsWritten? && max != INT32_MAX {
      IterateLike(a, cc, t, once, once', 0, max - 1, greedy, rd, false, o.pos, n, d);
      LikeOrder(greedy, Iterate(a, cc, t, once, 0, max - 1, greedy, rd, false, o.pos, n),
                Iterate(a, cc, t, once', 0, max - 1, greedy, rd, false, o.pos, n), o, p, d);
    } else if rd.AsWritten? && greedy {
      IterateLike(a, cc, t, once, once', 0, max, greedy, rd, true, o.pos, n, d);
      LikeOrder(greedy, Iterate(a, cc, t, once, 0, max, greedy, rd, true, o.pos, n),
                Iterate(a, cc, t, once', 0, max, greedy, rd, true, o.pos, n), o, p, d);
    } else if o.pos == |t.input| {
      LikeOne(o, p, d);
    } else {
      var moved, moved' := Advanced(once, o.pos), Advanced(once', o.pos);
      AdvancedWithin(once, o.pos, o.pos, |t.input|, n);
      AdvancedWithin(once', o.pos, o.pos, |t.input|, n);
      LikeAdvanced(once, once', o.pos, d);
      IterateLike(a, cc, t, moved, moved', 0, Less(max), greedy, rd, false, o.pos + 1, n, d);
      LikeOrder(greedy, Iterate(a, cc, t, moved, 0, Less(max), greedy, rd, false, o.pos + 1, n),
                Iterate(a, cc, t, moved', 0, Less(max), greedy, rd, false, o.pos + 1, n), o, p, d);
    }
  }

  lemma {:induction false} IterateLike(a: Re, cc: nat, t: Text, os: seq<Out>, ps: seq<Out>, min: nat, max: nat,
      greedy: bool, rd: Reading, halt: bool, lo: nat, n: nat, d: set<nat>)
    requires !rd.Ecma? && AllLike(os, ps, d) && lo <= |t.input|
    requires Within(os, lo, |t.input|, n) && Within(ps, lo, |t.input|, n)
    ensures AllLike(Iterate(a, cc, t, os, min, max, greedy, rd, halt, lo, n),
        Iterate(a, cc, t, ps, min, max, greedy, rd, halt, lo, n), d)
    decreases a, 2, min, Fuel(max, rd), |t.input| - lo + (if halt then 0 else 1), |os|
  {
    hide Repeat, AllLike, Like;
    LikeSize(os, ps, d);
    if os != [] {
      LikeTail(os, ps, d);
      var o, p := os[0], ps[0];
      if halt && o.pos == lo {
        LikeOne(o, p, d);
      } else {
        RepeatLike(a, cc, t, o, p, min, max, greedy, rd, d);
      }
      IterateLike(a, cc, t, os[1..], ps[1..], min, max, greedy, rd, halt, lo, n, d);
      LikeAppend(if halt && o.pos == lo then [o] else Repeat(a, cc, t, o, min, max, greedy, rd),
                 if halt && p.pos == lo then [p] else Repeat(a, cc, t, p, min, max, greedy, rd),
                 Iterate(a, cc, t, os[1..], min, max, greedy, rd, halt, lo, n),
                 Iterate(a, cc, t, ps[1..], min, max, greedy, rd, halt, lo, n), d);
    } else {
      LikeNone(d);
    }
  }

  /** From starts that differ in d only, r has the same matches but for what d still leaves open. */
  lemma {:induction false} MatchesLike(r: Re, cc: nat, t: Text, o: Out, p: Out, rd: Reading, d: set<nat>)
    requires !rd.Ecma? && Like(o, p, d) && o.pos <= |t.input|
    ensures AllLike(Matches(r, cc, t, o, rd), Matches(r, cc, t, p, rd), Left(r, cc, d))
    decreases r, 0, 0, 0, 0, 1
  {
    hide Matches, Left, AllLike, Like, Then, Repeat, ClearCaps, SetAll, SetCap;
    LikeInText(o, p, d);
    match r
    case Cat(a, b) =>
      MatchesCat(a, b, cc, t, o, rd);
      MatchesCat(a, b, cc, t, p, rd);
      var e := Left(a, cc, d);
      MatchesLike(a, cc, t, o, p, rd, d);
      ThenLike(b, cc + Groups(a), t, Matches(a, cc, t, o, rd), Matches(a, cc, t, p, rd), rd, o.pos, |o.caps|, e);
      LeftCat(a, b, cc, d);
      LikeMore(Matches(r, cc, t, o, rd), Matches(r, cc, t, p, rd), Left(b, cc + Groups(a), e), Left(r, cc, d));
    case Alt(a, b) =>
      MatchesAlt(a, b, cc, t, o, rd);
      MatchesAlt(a, b, cc, t, p, rd);
      MatchesLike(a, cc, t, o, p, rd, d);
      MatchesLike(b, cc + Groups(a), t, o, p, rd, d);
      LeftAlt(a, b, cc, d);
      LikeMore(Matches(a, cc, t, o, rd), Matches(a, cc, t, p, rd), Left(a, cc, d), Left(r, cc, d));
      LikeMore(Matches(b, cc + Groups(a), t, o, rd), Matches(b, cc + Groups(a), t, p, rd), Left(b, cc + Groups(a), d),
          Left(r, cc, d));
      LikeAppend(Matches(a, cc, t, o, rd), Matches(a, cc, t, p, rd),
                 Matches(b, cc + Groups(a), t, o, rd), Matches(b, cc + Groups(a), t, p, rd), Left(r, cc, d));
    case Capture(a) =>
      MatchesCapture(a, cc, t, o, rd);
      MatchesCapture(a, cc, t, p, rd);
      var e := d - {2 * cc};
      LikeSet(o, p, 2 * cc, d);
      MatchesLike(a, cc + 1, t, SetCap(o, 2 * cc), SetCap(p, 2 * cc), rd, e);
      LikeSetAll(Matches(a, cc + 1, t, SetCap(o, 2 * cc), rd), Matches(a, cc + 1, t, SetCap(p, 2 * cc), rd),
          2 * cc + 1, Left(a, cc + 1, e));
      LeftCapture(a, cc, d);
      LikeMore(Matches(r, cc, t, o, rd), Matches(r, cc, t, p, rd), Left(a, cc + 1, e) - {2 * cc + 1}, Left(r, cc, d));
    case Quant(a, min, max, greedy) =>
      QuantLike(a, min, max, greedy, cc, t, o, p, rd, d);
    case Look(negated, a) =>
      MatchesLook(negated, a, cc, t, o, rd);
      MatchesLook(negated, a, cc, t, p, rd);
      MatchesLike(a, cc, t, o, p, rd, d);
      LookLike(negated, a, cc, o, p, Matches(a, cc, t, o, rd), Matches(a, cc, t, p, rd), d);
    case _ => LeafLike(r, cc, t, o, p, rd, d);
  }

  lemma {:induction false} QuantLike(a: Re, min: nat, max: nat, greedy: bool, cc: nat, t: Text, o: Out, p: Out,
      rd: Reading, d: set<nat>)
    requires !rd.Ecma? && Like(o, p, d) && o.pos <= |t.input|
    ensures var r := Quant(a, min, max, greedy);
      AllLike(Matches(r, cc, t, o, rd), Matches(r, cc, t, p, rd), Left(r, cc, d))
    decreases Quant(a, min, max, greedy), 0, 0, 0, 0, 0
  {
    hide Matches, AllLike, Like, Repeat, ClearCaps;
    var r := Quant(a, min, max, greedy);
    LikeInText(o, p, d);
    MatchesQuant(a, min, max, greedy, cc, t, o, rd);
    MatchesQuant(a, min, max, greedy, cc, t, p, rd);
    if min == 0 {
      LikeClear(o, p, cc, Groups(a), d);
      RepeatLike(a, cc, t, ClearCaps(o, cc, Groups(a)), ClearCaps(p, cc, Groups(a)), min, max, greedy, rd,
          d - Slots(cc, Groups(a)));
    } else {
      RepeatLike(a, cc, t, o, p, min, max, greedy, rd, d);
      if Groups(a) == 0 {
        LikeMore(Matches(r, cc, t, o, rd), Matches(r, cc, t, p, rd), d, d - Slots(cc, 0))
            by { assert d - Slots(cc, 0) == d; }
      }
    }
  }

  lemma LeftCat(a: Re, b: Re, cc: nat, d: set<nat>)
    ensures Left(b, cc + Groups(a), Left(a, cc, d)) <= Left(Cat(a, b), cc, d)
  {
    hide Slots;
    if Refills(Cat(a, b)) {
      assert Refills(a) && Refills(b) && Groups(Cat(a, b)) == Groups(a) + Groups(b);
    }
  }

  lemma LeftAlt(a: Re, b: Re, cc: nat, d: set<nat>)
    ensures Left(a, cc, d) <= Left(Alt(a, b), cc, d) && Left(b, cc + Groups(a), d) <= Left(Alt(a, b), cc, d)
  {
    hide Left;
    LeftLess(a, cc, d);
    LeftLess(b, cc + Groups(a), d);
    AltLeaves(a, b, cc, d);
  }

  lemma AltLeaves(a: Re, b: Re, cc: nat, d: set<nat>)
    ensures Left(Alt(a, b), cc, d) == d
  {
    hide Slots;
    if Refills(Alt(a, b)) {
      assert Slots(cc, 0) == {};
    }
  }

  lemma LeftCapture(a: Re, cc: nat, d: set<nat>)
    ensures Left(a, cc + 1, d - {2 * cc}) - {2 * cc + 1} <= Left(Capture(a), cc, d)
  {
    hide Slots;
  }

  lemma LookLike(negated: bool, a: Re, cc: nat, o: Out, p: Out, m: seq<Out>, m': seq<Out>, d: set<nat>)
    requires Like(o, p, d) && AllLike(m, m', Left(a, cc, d))
    ensures var s := if negated then If(o, m == []) else if m == [] then [] else [Out(o.pos, m[0].caps)];
      var s' := if negated then If(p, m' == []) else if m' == [] then [] else [Out(p.pos, m'[0].caps)];
      AllLike(s, s', Left(Look(negated, a), cc, d))
  {
  }

  lemma LeafLike(r: Re, cc: nat, t: Text, o: Out, p: Out, rd: Reading, d: set<nat>)
    requires Like(o, p, d) && o.pos <= |t.input| && (IsLeaf(r) || r.Empty?)
    ensures AllLike(Matches(r, cc, t, o, rd), Matches(r, cc, t, p, rd), Left(r, cc, d))
  {
    hide AtLineStart, AtLineEnd, AtWordBoundary;
  }
}
