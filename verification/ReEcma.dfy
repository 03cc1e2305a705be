/**
 The reading of loops in section 22.2.2 of ECMA-262, and the one compiled: when they are the
 same, and whole families of expressions and texts on which they are not.
 */
module ReEcma {
  import opened Basics
  import opened ReCode
  import opened ReText
  import opened ReSyntax
  import opened ReMoves
  import opened ReVm
  import opened ReSpec
  import opened ReMeaning
  import opened ReCaptures

  // ----- iterations that take nothing -----

  lemma {:induction false} ThenPruned(b: Re, cc: nat, t: Text, outs: seq<Out>, lo: nat, n: nat)
    requires LoopsAdvance(b) && Within(outs, lo, |t.input|, n)
    ensures Then(b, cc, t, outs, AsWritten, lo, n) == Then(b, cc, t, outs, Pruned, lo, n)
    decreases b, 1, 0, 0, |outs|
  {
    hide Matches, LoopsAdvance;
    if outs != [] {
      MatchesPruned(b, cc, t, outs[0]);
      ThenPruned(b, cc, t, outs[1..], lo, n);
    }
  }

  /** Every match of a body that takes characters is past its start. */
  lemma OncePast(a: Re, cc: nat, t: Text, o: Out)
    requires Moves(a) && o.pos <= |t.input|
    ensures AllPast(Matches(a, cc, t, o, AsWritten), o.pos)
  {
    hide Matches, Moves;
    MovesOn(Env([], t), a, cc, o);
  }

  lemma {:induction false} RepeatPruned(a: Re, cc: nat, t: Text, o: Out, min: nat, max: nat, greedy: bool)
    requires LoopsAdvance(a) && o.pos <= |t.input| && (max >= INT32_MAX || max > min ==> Moves(a))
    ensures Repeat(a, cc, t, o, min, max, greedy, AsWritten) == Repeat(a, cc, t, o, min, max, greedy, Pruned)
    decreases a, 2, min, |t.input| - o.pos, 0
  {
    hide Matches, LoopsAdvance, Iterate, Advanced, Moves, Order;
    if max == 0 {
      return;
    }
    MatchesPruned(a, cc, t, o);
    var once, n := Matches(a, cc, t, o, AsWritten), |o.caps|;
    if min > 0 {
      IteratePruned(a, cc, t, once, min - 1, Less(max), greedy, false, o.pos, o.pos, n);
      return;
    }
    OncePast(a, cc, t, o);
    AdvancedAll(once, o.pos);
    var halt := max == INT32_MAX && greedy;
    if o.pos == |t.input| {
      NonePast(once, o.pos, |t.input|, n);
      IterateNothing(a, cc, t, Less(max), greedy, halt, o.pos, n);
      OrderNothing(greedy, o);
    } else {
      AdvancedWithin(once, o.pos, o.pos, |t.input|, n);
      var lo := if max == INT32_MAX && !greedy then o.pos + 1 else o.pos;
      IteratePruned(a, cc, t, once, 0, Less(max), greedy, halt, lo, o.pos + 1, n);
    }
  }

  lemma IterateNothing(a: Re, cc: nat, t: Text, max: nat, greedy: bool, halt: bool, lo: nat, n: nat)
    requires lo <= |t.input|
    ensures Iterate(a, cc, t, [], 0, max, greedy, AsWritten, halt, lo, n) == []
  {
  }

  lemma OrderNothing(greedy: bool, o: Out)
    ensures Order(greedy, [], o) == [o]
  {
  }

  lemma {:induction false} IteratePruned(a: Re, cc: nat, t: Text, outs: seq<Out>, min: nat, max: nat, greedy: bool,
      halt: bool, lo: nat, lo': nat, n: nat)
    requires LoopsAdvance(a) && (max >= INT32_MAX || max > min ==> Moves(a))
    requires Within(outs, lo, |t.input|, n) && Within(outs, lo', |t.input|, n) && lo <= |t.input| && lo' <= |t.input|
    requires halt ==> AllPast(outs, lo)
    ensures Iterate(a, cc, t, outs, min, max, greedy, AsWritten, halt, lo, n)
         == Iterate(a, cc, t, outs, min, max, greedy, Pruned, false, lo', n)
    decreases a, 2, min, |t.input| - lo', |outs|
  {
    hide Repeat, LoopsAdvance, Moves;
    if outs != [] {
      assert halt ==> AllPast(outs[1..], lo);
      RepeatPruned(a, cc, t, outs[0], min, max, greedy);
      IteratePruned(a, cc, t, outs[1..], min, max, greedy, halt, lo, lo', n);
    }
  }

  /** Where every optional iteration takes characters, none is left out. */
  lemma {:induction false} MatchesPruned(r: Re, cc: nat, t: Text, o: Out)
    requires LoopsAdvance(r) && o.pos <= |t.input|
    ensures Matches(r, cc, t, o, AsWritten) == Matches(r, cc, t, o, Pruned)
    decreases r, 0, 0, 0, 0
  {
    hide Matches, Then, Repeat, SetAll, SetCap, ClearCaps, Moves;
    match r
    case Cat(a, b) =>
      MatchesCat(a, b, cc, t, o, AsWritten);
      MatchesCat(a, b, cc, t, o, Pruned);
      MatchesPruned(a, cc, t, o);
      ThenPruned(b, cc + Groups(a), t, Matches(a, cc, t, o, Pruned), o.pos, |o.caps|);
    case Alt(a, b) =>
      MatchesAlt(a, b, cc, t, o, AsWritten);
      MatchesAlt(a, b, cc, t, o, Pruned);
      MatchesPruned(a, cc, t, o);
      MatchesPruned(b, cc + Groups(a), t, o);
    case Capture(a) =>
      MatchesCapture(a, cc, t, o, AsWritten);
      MatchesCapture(a, cc, t, o, Pruned);
      MatchesPruned(a, cc + 1, t, SetCap(o, 2 * cc));
    case Quant(a, min, max, greedy) =>
      MatchesQuant(a, min, max, greedy, cc, t, o, AsWritten);
      MatchesQuant(a, min, max, greedy, cc, t, o, Pruned);
      QuantPruned(a, min, max, greedy, cc, t, if min == 0 then ClearCaps(o, cc, Groups(a)) else o);
    case Look(negated, a) =>
      MatchesLook(negated, a, cc, t, o, AsWritten);
      MatchesLook(negated, a, cc, t, o, Pruned);
      MatchesPruned(a, cc, t, o);
    case _ => LeafSame(r, cc, t, o, AsWritten, Pruned);
  }

  lemma {:induction false} QuantPruned(a: Re, min: nat, max: nat, greedy: bool, cc: nat, t: Text, o: Out)
    requires LoopsAdvance(Quant(a, min, max, greedy)) && o.pos <= |t.input|
    ensures Repeat(a, cc, t, o, min, max, greedy, AsWritten) == Repeat(a, cc, t, o, min, max, greedy, Pruned)
    decreases a, 3, 0, 0, 0
  {
    if max == 0 {
      RepeatNothing(a, cc, t, o, min, greedy, AsWritten);
      RepeatNothing(a, cc, t, o, min, greedy, Pruned);
    } else {
      hide Repeat;
      RepeatPruned(a, cc, t, o, min, max, greedy);
    }
  }

  lemma RepeatNothing(a: Re, cc: nat, t: Text, o: Out, min: nat, greedy: bool, rd: Reading)
    requires o.pos <= |t.input|
    ensures Repeat(a, cc, t, o, min, 0, greedy, rd) == [o]
  {
  }

  lemma LeafSame(r: Re, cc: nat, t: Text, o: Out, rd: Reading, rd': Reading)
    requires o.pos <= |t.input| && (IsLeaf(r) || r.Empty?)
    ensures Matches(r, cc, t, o, rd) == Matches(r, cc, t, o, rd')
  {
  }

  // ----- captures in loops -----

  /** The body of every loop that can run twice sets or clears all its groups on every match. */
  predicate LoopsRefill(r: Re) {
    match r
    case Cat(a, b) => LoopsRefill(a) && LoopsRefill(b)
    case Alt(a, b) => LoopsRefill(a) && LoopsRefill(b)
    case Capture(a) => LoopsRefill(a)
    case Quant(a, _, max, _) => max == 0 || (LoopsRefill(a) && (max == 1 || Refills(a)))
    case Look(_, a) => LoopsRefill(a)
    case _ => true
  }

  /** Without groups in loops there is nothing to ask. */
  lemma {:induction false} NoGroupsRefill(r: Re)
    requires Groups(r) == 0
    ensures LoopsRefill(r)
    decreases r
  {
    match r
    case Cat(a, b) =>
      NoGroupsRefill(a);
      NoGroupsRefill(b);
    case Alt(a, b) =>
      NoGroupsRefill(a);
      NoGroupsRefill(b);
    case Quant(a, _, _, _) => NoGroupsRefill(a);
    case Look(_, a) => NoGroupsRefill(a);
    case _ =>
  }

  /** n groups from cc on have no value. */
  predicate Unset(o: Out, cc: nat, n: nat) {
    forall i | 2 * cc <= i < 2 * (cc + n) && i < |o.caps| :: o.caps[i] == None
  }

  /** Only n groups from cc on may have changed. */
  predicate Kept(o: Out, p: Out, cc: nat, n: nat) {
    |p.caps| == |o.caps| && forall i | 0 <= i < |o.caps| && !(2 * cc <= i < 2 * (cc + n)) :: p.caps[i] == o.caps[i]
  }

  predicate AllKept(o: Out, outs: seq<Out>, cc: nat, n: nat) {
    forall k | 0 <= k < |outs| :: Kept(o, outs[k], cc, n)
  }

  lemma KeptOn(o: Out, p: Out, outs: seq<Out>, cc: nat, n: nat)
    requires Kept(o, p, cc, n) && AllKept(p, outs, cc, n)
    ensures AllKept(o, outs, cc, n)
  {
  }

  lemma KeptWider(o: Out, outs: seq<Out>, cc: nat, n: nat, cc': nat, n': nat)
    requires AllKept(o, outs, cc, n) && cc' <= cc && cc + n <= cc' + n'
    ensures AllKept(o, outs, cc', n')
  {
  }

  lemma KeptAppend(o: Out, outs: seq<Out>, outs': seq<Out>, cc: nat, n: nat)
    requires AllKept(o, outs, cc, n) && AllKept(o, outs', cc, n)
    ensures AllKept(o, outs + outs', cc, n)
  {
    hide Kept;
  }

  lemma {:induction false} KeptAdvanced(o: Out, outs: seq<Out>, q: nat, cc: nat, n: nat)
    requires AllKept(o, outs, cc, n)
    ensures AllKept(o, Advanced(outs, q), cc, n)
  {
    hide Kept;
    var r := Advanced(outs, q);
    forall k | 0 <= k < |r|
      ensures Kept(o, r[k], cc, n)
    {
      var j :| 0 <= j < |outs| && outs[j] == r[k];
    }
  }

  lemma KeptClear(o: Out, cc: nat, n: nat)
    ensures Kept(o, o, cc, n) && Kept(o, ClearCaps(o, cc, n), cc, n) && Unset(ClearCaps(o, cc, n), cc, n)
  {
  }

  /** What was unset elsewhere still is. */
  lemma UnsetKept(o: Out, p: Out, cc: nat, n: nat, cc': nat, n': nat)
    requires Kept(o, p, cc, n) && Unset(o, cc', n') && (cc + n <= cc' || cc' + n' <= cc)
    ensures Unset(p, cc', n')
  {
  }

  lemma ClearUnset(o: Out, cc: nat, n: nat)
    requires Unset(o, cc, n)
    ensures ClearCaps(o, cc, n) == o
  {
    assert ClearCaps(o, cc, n).caps == o.caps;
  }

  lemma {:induction false} ThenKeeps(b: Re, cc: nat, t: Text, o: Out, outs: seq<Out>, rd: Reading, lo: nat, n: nat,
      c0: nat, g: nat)
    requires Within(outs, lo, |t.input|, n) && AllKept(o, outs, c0, g) && c0 <= cc && cc + Groups(b) <= c0 + g
    ensures AllKept(o, Then(b, cc, t, outs, rd, lo, n), c0, g)
    decreases b, 1, 0, 0, 0, |outs|
  {
    hide Matches, Kept, Groups;
    if outs != [] {
      MatchesKeep(b, cc, t, outs[0], rd);
      KeptWider(outs[0], Matches(b, cc, t, outs[0], rd), cc, Groups(b), c0, g);
      KeptOn(o, outs[0], Matches(b, cc, t, outs[0], rd), c0, g);
      ThenKeeps(b, cc, t, o, outs[1..], rd, lo, n, c0, g);
      KeptAppend(o, Matches(b, cc, t, outs[0], rd), Then(b, cc, t, outs[1..], rd, lo, n), c0, g);
    }
  }

  lemma {:induction false} RepeatKeeps(a: Re, cc: nat, t: Text, o: Out, min: nat, max: nat, greedy: bool, rd: Reading)
    requires o.pos <= |t.input|
    ensures AllKept(o, Repeat(a, cc, t, o, min, max, greedy, rd), cc, Groups(a))
    decreases a, 2, min, Fuel(max, rd), |t.input| - o.pos + 1, 0
  {
    hide Matches, Kept, AllKept, Iterate, Advanced, Order, Within, ClearCaps, Groups;
    var g, n := Groups(a), |o.caps|;
    KeptClear(o, cc, g);
    KeptSelf(o, cc, g);
    if max == 0 {
      return;
    }
    var p := if rd.Ecma? then ClearCaps(o, cc, g) else o;
    var once := Matches(a, cc, t, p, rd);
    MatchesKeep(a, cc, t, p, rd);
    KeptOn(o, p, once, cc, g);
    if min > 0 {
      IterateKeeps(a, cc, t, o, once, min - 1, Less(max), greedy, rd, false, o.pos, n);
    } else if rd.AsWritten? && max != INT32_MAX {
      IterateKeeps(a, cc, t, o, once, 0, max - 1, greedy, rd, false, o.pos, n);
      KeptOrder(greedy, Iterate(a, cc, t, once, 0, max - 1, greedy, rd, false, o.pos, n), o, cc, g);
    } else if rd.AsWritten? && greedy {
      IterateKeeps(a, cc, t, o, once, 0, max, greedy, rd, true, o.pos, n);
      KeptOrder(greedy, Iterate(a, cc, t, once, 0, max, greedy, rd, true, o.pos, n), o, cc, g);
    } else if o.pos < |t.input| {
      var moved := Advanced(once, o.pos);
      AdvancedWithin(once, o.pos, o.pos, |t.input|, n);
      KeptAdvanced(o, once, o.pos, cc, g);
      IterateKeeps(a, cc, t, o, moved, 0, Less(max), greedy, rd, false, o.pos + 1, n);
      KeptOrder(greedy, Iterate(a, cc, t, moved, 0, Less(max), greedy, rd, false, o.pos + 1, n), o, cc, g);
    }
  }

  lemma KeptSelf(o: Out, cc: nat, n: nat)
    ensures AllKept(o, [o], cc, n)
  {
  }

  lemma KeptOrder(greedy: bool, outs: seq<Out>, o: Out, cc: nat, n: nat)
    requires AllKept(o, outs, cc, n)
    ensures AllKept(o, Order(greedy, outs, o), cc, n)
  {
    hide AllKept;
    KeptSelf(o, cc, n);
    KeptAppend(o, outs, [o], cc, n);
    KeptAppend(o, [o], outs, cc, n);
  }

  lemma {:induction false} IterateKeeps(a: Re, cc: nat, t: Text, o: Out, outs: seq<Out>, min: nat, max: nat,
      greedy: bool, rd: Reading, halt: bool, lo: nat, n: nat)
    requires Within(outs, lo, |t.input|, n) && lo <= |t.input| && AllKept(o, outs, cc, Groups(a))
    ensures AllKept(o, Iterate(a, cc, t, outs, min, max, greedy, rd, halt, lo, n), cc, Groups(a))
    decreases a, 2, min, Fuel(max, rd), |t.input| - lo + (if halt then 0 else 1), |outs|
  {
    hide Repeat, Kept, Groups;
    if outs != [] {
      var first := if halt && outs[0].pos == lo then [outs[0]] else Repeat(a, cc, t, outs[0], min, max, greedy, rd);
      if !(halt && outs[0].pos == lo) {
        RepeatKeeps(a, cc, t, outs[0], min, max, greedy, rd);
        KeptOn(o, outs[0], first, cc, Groups(a));
      }
      IterateKeeps(a, cc, t, o, outs[1..], min, max, greedy, rd, halt, lo, n);
      KeptAppend(o, first, Iterate(a, cc, t, outs[1..], min, max, greedy, rd, halt, lo, n), cc, Groups(a));
    }
  }

  /** A match changes its own groups only. */
  lemma {:induction false} MatchesKeep(r: Re, cc: nat, t: Text, o: Out, rd: Reading)
    requires o.pos <= |t.input|
    ensures AllKept(o, Matches(r, cc, t, o, rd), cc, Groups(r))
    decreases r, 0, 0, 0, 0, 0
  {
    hide Matches, Then, Repeat, SetAll, SetCap, ClearCaps, Kept, AllKept;
    match r
    case Cat(a, b) =>
      MatchesCat(a, b, cc, t, o, rd);
      MatchesKeep(a, cc, t, o, rd);
      KeptWider(o, Matches(a, cc, t, o, rd), cc, Groups(a), cc, Groups(r));
      ThenKeeps(b, cc + Groups(a), t, o, Matches(a, cc, t, o, rd), rd, o.pos, |o.caps|, cc, Groups(r));
    case Alt(a, b) =>
      MatchesAlt(a, b, cc, t, o, rd);
      MatchesKeep(a, cc, t, o, rd);
      MatchesKeep(b, cc + Groups(a), t, o, rd);
      KeptWider(o, Matches(a, cc, t, o, rd), cc, Groups(a), cc, Groups(r));
      KeptWider(o, Matches(b, cc + Groups(a), t, o, rd), cc + Groups(a), Groups(b), cc, Groups(r));
      KeptAppend(o, Matches(a, cc, t, o, rd), Matches(b, cc + Groups(a), t, o, rd), cc, Groups(r));
    case Capture(a) =>
      MatchesCapture(a, cc, t, o, rd);
      var p := SetCap(o, 2 * cc);
      MatchesKeep(a, cc + 1, t, p, rd);
      CaptureKept(o, Matches(a, cc + 1, t, p, rd), cc, Groups(a));
    case Quant(a, min, max, greedy) =>
      MatchesQuant(a, min, max, greedy, cc, t, o, rd);
      var p := if min == 0 && !rd.Ecma? then ClearCaps(o, cc, Groups(a)) else o;
      KeptClear(o, cc, Groups(a));
      RepeatKeeps(a, cc, t, p, min, max, greedy, rd);
      KeptOn(o, p, Matches(r, cc, t, o, rd), cc, Groups(a));
    case Look(negated, a) =>
      MatchesLook(negated, a, cc, t, o, rd);
      MatchesKeep(a, cc, t, o, rd);
      LookKept(negated, o, Matches(a, cc, t, o, rd), cc, Groups(a));
    case _ => LeafKept(r, cc, t, o, rd);
  }

  lemma CaptureKept(o: Out, outs: seq<Out>, cc: nat, n: nat)
    requires AllKept(SetCap(o, 2 * cc), outs, cc + 1, n)
    ensures AllKept(o, SetAll(outs, 2 * cc + 1), cc, 1 + n)
  {
    var all := SetAll(outs, 2 * cc + 1);
    forall k | 0 <= k < |all|
      ensures Kept(o, all[k], cc, 1 + n)
    {
      assert Kept(SetCap(o, 2 * cc), outs[k], cc + 1, n);
    }
  }

  lemma LookKept(negated: bool, o: Out, m: seq<Out>, cc: nat, n: nat)
    requires AllKept(o, m, cc, n)
    ensures AllKept(o, if negated then If(o, m == []) else if m == [] then [] else [Out(o.pos, m[0].caps)], cc, n)
  {
  }

  lemma LeafKept(r: Re, cc: nat, t: Text, o: Out, rd: Reading)
    requires o.pos <= |t.input| && (IsLeaf(r) || r.Empty?)
    ensures AllKept(o, Matches(r, cc, t, o, rd), cc, Groups(r))
  {
  }

  // ----- clearing once and clearing every time -----

  /** The body from values left by an earlier iteration, and from no values. */
  lemma {:induction false} OnceSame(a: Re, cc: nat, t: Text, o: Out)
    requires LoopsRefill(a) && o.pos <= |t.input| && (Unset(o, cc, Groups(a)) || Refills(a))
    ensures Matches(a, cc, t, o, Pruned) == Matches(a, cc, t, ClearCaps(o, cc, Groups(a)), Ecma)
    decreases a, 1, 0, 0, 0
  {
    hide Matches, LoopsRefill, Refills, ClearCaps, Unset;
    var g := Groups(a);
    var p := ClearCaps(o, cc, g);
    KeptClear(o, cc, g);
    MatchesSame(a, cc, t, p);
    if Unset(o, cc, g) {
      ClearUnset(o, cc, g);
    } else {
      ClearLike(o, cc, g);
      MatchesLike(a, cc, t, o, p, Pruned, Slots(cc, g));
      NothingLeft(a, cc);
      LikeEqual(Matches(a, cc, t, o, Pruned), Matches(a, cc, t, p, Pruned));
    }
  }

  lemma ClearLike(o: Out, cc: nat, n: nat)
    ensures Like(o, ClearCaps(o, cc, n), Slots(cc, n))
  {
  }

  lemma NothingLeft(a: Re, cc: nat)
    requires Refills(a)
    ensures Left(a, cc, Slots(cc, Groups(a))) == {}
  {
  }

  lemma {:induction false} RepeatSame(a: Re, cc: nat, t: Text, o: Out, min: nat, max: nat, greedy: bool)
    requires LoopsRefill(a) && o.pos <= |t.input|
    requires max == 0 || (max == 1 && Unset(o, cc, Groups(a))) || Refills(a)
    ensures Repeat(a, cc, t, o, min, max, greedy, Pruned) == Repeat(a, cc, t, o, min, max, greedy, Ecma)
    decreases a, 2, min, |t.input| - o.pos, 0
  {
    hide Matches, LoopsRefill, Refills, Iterate, Unset, ClearCaps, Order, Advanced;
    if max > 0 {
      OnceSame(a, cc, t, o);
      var once := Matches(a, cc, t, o, Pruned);
      if min > 0 {
        IterateSame(a, cc, t, once, min - 1, Less(max), greedy, o.pos, |o.caps|);
      } else {
        AdvancedWithin(once, o.pos, o.pos, |t.input|, |o.caps|);
        if o.pos < |t.input| {
          IterateSame(a, cc, t, Advanced(once, o.pos), 0, Less(max), greedy, o.pos + 1, |o.caps|);
        }
      }
    }
  }

  lemma {:induction false} IterateSame(a: Re, cc: nat, t: Text, outs: seq<Out>, min: nat, max: nat, greedy: bool,
      lo: nat, n: nat)
    requires LoopsRefill(a) && (max == 0 || Refills(a)) && Within(outs, lo, |t.input|, n) && lo <= |t.input|
    ensures Iterate(a, cc, t, outs, min, max, greedy, Pruned, false, lo, n)
         == Iterate(a, cc, t, outs, min, max, greedy, Ecma, false, lo, n)
    decreases a, 2, min, |t.input| - lo, |outs|
  {
    hide Repeat, LoopsRefill, Refills;
    if outs != [] {
      RepeatSame(a, cc, t, outs[0], min, max, greedy);
      IterateSame(a, cc, t, outs[1..], min, max, greedy, lo, n);
    }
  }

  lemma {:induction false} ThenSame(b: Re, cc: nat, t: Text, outs: seq<Out>, lo: nat, n: nat)
    requires LoopsRefill(b) && Within(outs, lo, |t.input|, n)
    requires forall k | 0 <= k < |outs| :: Unset(outs[k], cc, Groups(b))
    ensures Then(b, cc, t, outs, Pruned, lo, n) == Then(b, cc, t, outs, Ecma, lo, n)
    decreases b, 3, 0, 0, |outs|
  {
    hide Matches, LoopsRefill, Unset;
    if outs != [] {
      MatchesSame(b, cc, t, outs[0]);
      ThenSame(b, cc, t, outs[1..], lo, n);
    }
  }

  /**
   Clearing captures once and clearing them before every iteration come to the same: same ends,
   same captures, same order.
   */
  lemma {:induction false} MatchesSame(r: Re, cc: nat, t: Text, o: Out)
    requires LoopsRefill(r) && o.pos <= |t.input| && Unset(o, cc, Groups(r))
    ensures Matches(r, cc, t, o, Pruned) == Matches(r, cc, t, o, Ecma)
    decreases r, 0, 0, 0, 0
  {
    hide Matches, Then, Repeat, SetAll, SetCap, ClearCaps, Refills, Unset;
    match r
    case Cat(a, b) =>
      MatchesCat(a, b, cc, t, o, Pruned);
      MatchesCat(a, b, cc, t, o, Ecma);
      UnsetParts(o, cc, Groups(a), Groups(b));
      MatchesSame(a, cc, t, o);
      var outs := Matches(a, cc, t, o, Pruned);
      MatchesKeep(a, cc, t, o, Pruned);
      forall k | 0 <= k < |outs|
        ensures Unset(outs[k], cc + Groups(a), Groups(b))
      {
        UnsetKept(o, outs[k], cc, Groups(a), cc + Groups(a), Groups(b));
      }
      ThenSame(b, cc + Groups(a), t, outs, o.pos, |o.caps|);
    case Alt(a, b) =>
      MatchesAlt(a, b, cc, t, o, Pruned);
      MatchesAlt(a, b, cc, t, o, Ecma);
      UnsetParts(o, cc, Groups(a), Groups(b));
      MatchesSame(a, cc, t, o);
      MatchesSame(b, cc + Groups(a), t, o);
    case Capture(a) =>
      MatchesCapture(a, cc, t, o, Pruned);
      MatchesCapture(a, cc, t, o, Ecma);
      UnsetParts(o, cc, 1, Groups(a));
      UnsetSet(o, cc, Groups(a));
      MatchesSame(a, cc + 1, t, SetCap(o, 2 * cc));
    case Quant(a, min, max, greedy) =>
      MatchesQuant(a, min, max, greedy, cc, t, o, Pruned);
      MatchesQuant(a, min, max, greedy, cc, t, o, Ecma);
      ClearUnset(o, cc, Groups(a));
      QuantSame(a, min, max, greedy, cc, t, o);
    case Look(negated, a) =>
      MatchesLook(negated, a, cc, t, o, Pruned);
      MatchesLook(negated, a, cc, t, o, Ecma);
      MatchesSame(a, cc, t, o);
    case _ => LeafSame(r, cc, t, o, Pruned, Ecma);
  }

  lemma {:induction false} QuantSame(a: Re, min: nat, max: nat, greedy: bool, cc: nat, t: Text, o: Out)
    requires LoopsRefill(Quant(a, min, max, greedy)) && o.pos <= |t.input| && Unset(o, cc, Groups(a))
    ensures Repeat(a, cc, t, o, min, max, greedy, Pruned) == Repeat(a, cc, t, o, min, max, greedy, Ecma)
    decreases a, 4, 0, 0, 0
  {
    if max == 0 {
      RepeatNothing(a, cc, t, o, min, greedy, Pruned);
      RepeatNothing(a, cc, t, o, min, greedy, Ecma);
    } else {
      hide Repeat, Unset, Refills;
      RepeatSame(a, cc, t, o, min, max, greedy);
    }
  }

  lemma UnsetParts(o: Out, cc: nat, m: nat, n: nat)
    requires Unset(o, cc, m + n)
    ensures Unset(o, cc, m) && Unset(o, cc + m, n)
  {
  }

  lemma UnsetSet(o: Out, cc: nat, n: nat)
    requires Unset(o, cc + 1, n)
    ensures Unset(SetCap(o, 2 * cc), cc + 1, n)
  {
  }

  /**
   The compiled reading is that of ECMA-262 wherever optional iterations take characters and
   loops that can run twice set or clear their groups.
   */
  lemma {:induction false} SearchSame(r: Re, t: Text, o: Out, sticky: bool)
    requires LoopsAdvance(r) && LoopsRefill(r) && o.pos <= |t.input| && Unset(o, 0, 1 + Groups(r))
    ensures Search(r, t, o, sticky, AsWritten) == Search(r, t, o, sticky, Ecma)
    decreases |t.input| - o.pos
  {
    hide Matches, Unset;
    var c := Capture(r);
    assert LoopsAdvance(c) && LoopsRefill(c) && Groups(c) == 1 + Groups(r);
    MatchesPruned(c, 0, t, o);
    MatchesSame(c, 0, t, o);
    if !sticky && o.pos < |t.input| {
      var o' := o.(pos := o.pos + 1);
      assert Unset(o', 0, 1 + Groups(r)) by { UnsetMoved(o, o', 0, 1 + Groups(r)); }
      SearchSame(r, t, o', sticky);
    }
  }

  lemma UnsetMoved(o: Out, p: Out, cc: nat, n: nat)
    requires Unset(o, cc, n) && p.caps == o.caps
    ensures Unset(p, cc, n)
  {
  }
}
