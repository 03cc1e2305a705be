/** Where the compiled reading of loops is not that of ECMA-262: two families of expressions and texts. */
module ReDiffers {
  import opened Basics
  import opened ReCode
  import opened ReText
  import opened ReSyntax
  import opened ReMoves
  import opened ReSpec
  import opened ReCaptures
  import opened ReEcma
  import opened CharRange

  /** Expressions of one character. */
  predicate OneChar(r: Re) {
    r.Lit? || r.DotAll? || r.DotLine? || r.Class?
  }

  predicate Accepts(r: Re, c: nat)
    requires OneChar(r)
  {
    match r
    case Lit(x) => c == x
    case DotAll => true
    case DotLine => !IsLineTerminator(c)
    case Class(p) => InSet(p, c)
  }

  lemma MatchesOne(r: Re, cc: nat, t: Text, o: Out, rd: Reading)
    requires OneChar(r) && o.pos <= |t.input|
    ensures Matches(r, cc, t, o, rd)
         == if o.pos < |t.input| && Accepts(r, t.input[o.pos]) then [o.(pos := o.pos + 1)] else []
  {
    hide InSet, IsLineTerminator;
  }

  // ----- greedy unbounded loops, step by step -----

  /** The start of an iteration. */
  function From(a: Re, cc: nat, o: Out, rd: Reading): Out {
    if rd.Ecma? then ClearCaps(o, cc, Groups(a)) else o
  }

  /** One round of a greedy unbounded loop, by what its body matches. */
  lemma StarIs(a: Re, cc: nat, t: Text, o: Out, rd: Reading, once: seq<Out>)
    requires o.pos <= |t.input| && once == Matches(a, cc, t, From(a, cc, o, rd), rd)
    ensures Within(once, o.pos, |t.input|, |o.caps|) && Within(Advanced(once, o.pos), o.pos + 1, |t.input|, |o.caps|)
    ensures Repeat(a, cc, t, o, 0, INT32_MAX, true, rd)
         == if rd.AsWritten? then Iterate(a, cc, t, once, 0, INT32_MAX, true, rd, true, o.pos, |o.caps|) + [o]
            else if o.pos == |t.input| then [o]
            else Iterate(a, cc, t, Advanced(once, o.pos), 0, INT32_MAX, true, rd, false, o.pos + 1, |o.caps|) + [o]
  {
    hide Matches, Iterate, Advanced, ClearCaps;
    AdvancedWithin(once, o.pos, o.pos, |t.input|, |o.caps|);
  }

  /** A loop whose body has one match, past the start. */
  lemma {:induction false} LoopOnce(a: Re, cc: nat, t: Text, o: Out, p: Out, rd: Reading)
    requires o.pos <= |t.input| && Matches(a, cc, t, From(a, cc, o, rd), rd) == [p] && p.pos > o.pos
    ensures p.pos <= |t.input|
    ensures Repeat(a, cc, t, o, 0, INT32_MAX, true, rd) == Repeat(a, cc, t, p, 0, INT32_MAX, true, rd) + [o]
  {
    hide Matches, Iterate, Repeat;
    var once := Matches(a, cc, t, From(a, cc, o, rd), rd);
    StarIs(a, cc, t, o, rd, once);
    assert once[0] == p && once[1..] == [];
    assert Advanced(once, o.pos) == [p] + Advanced([], o.pos) == [p];
    LoopIterate(a, cc, t, p, rd, rd.AsWritten?, if rd.AsWritten? then o.pos else o.pos + 1, |o.caps|);
  }

  lemma {:induction false} LoopIterate(a: Re, cc: nat, t: Text, p: Out, rd: Reading, halt: bool, lo: nat, n: nat)
    requires Within([p], lo, |t.input|, n) && lo <= |t.input| && (halt ==> p.pos != lo)
    ensures p.pos <= |t.input|
    ensures Iterate(a, cc, t, [p], 0, INT32_MAX, true, rd, halt, lo, n) == Repeat(a, cc, t, p, 0, INT32_MAX, true, rd)
  {
    hide Repeat;
    assert [p][0].pos <= |t.input| && [p][1..] == [];
    var r := Repeat(a, cc, t, p, 0, INT32_MAX, true, rd);
    assert r + [] == r;
  }

  lemma {:induction false} LoopStops(a: Re, cc: nat, t: Text, o: Out, rd: Reading)
    requires o.pos <= |t.input| && Matches(a, cc, t, From(a, cc, o, rd), rd) == []
    ensures Repeat(a, cc, t, o, 0, INT32_MAX, true, rd) == [o]
  {
    hide Matches;
  }

  /** Giving up at once comes last. */
  lemma {:induction false} LoopLast(a: Re, cc: nat, t: Text, o: Out, rd: Reading)
    requires o.pos <= |t.input|
    ensures var all := Repeat(a, cc, t, o, 0, INT32_MAX, true, rd); |all| > 0 && all[|all| - 1] == o
  {
    hide Matches, Iterate;
  }

  // ----- a group that one iteration sets and the next does not -----

  /** (x)|y */
  function Either(x: Re, y: Re): Re {
    Alt(Capture(x), y)
  }

  lemma EitherShape(x: Re, y: Re)
    requires OneChar(x) && OneChar(y)
    ensures var a, r := Either(x, y), Quant(Either(x, y), 0, INT32_MAX, true);
      Groups(a) == 1 && LoopsAdvance(r) && !LoopsRefill(r)
  {
    assert LoopsAdvance(x) && LoopsAdvance(y) && Moves(x) && Moves(y) && Groups(x) == 0 && Groups(y) == 0;
    assert LoopsAdvance(Capture(x)) && Moves(Capture(x)) && Groups(Capture(x)) == 1;
    assert LoopsAdvance(Either(x, y)) && Moves(Either(x, y)) && Groups(Either(x, y)) == 1;
    assert !Refills(Either(x, y));
  }

  function SetBoth(o: Out, cc: nat): Out
    requires 2 * cc + 1 < |o.caps| && o.pos > 0
  {
    o.(caps := o.caps[2 * cc := Some(o.pos - 1)][2 * cc + 1 := Some(o.pos)])
  }

  lemma {:induction false} EitherAt(x: Re, y: Re, cc: nat, t: Text, o: Out, rd: Reading)
    requires OneChar(x) && OneChar(y) && o.pos < |t.input| && 2 * cc + 1 < |o.caps|
    ensures var q := o.(pos := o.pos + 1);
      Matches(Either(x, y), cc, t, o, rd)
      == (if Accepts(x, t.input[o.pos]) then [SetBoth(q, cc)] else [])
          + (if Accepts(y, t.input[o.pos]) then [q] else [])
  {
    hide Matches, Accepts;
    var p := SetCap(o, 2 * cc);
    MatchesAlt(Capture(x), y, cc, t, o, rd);
    MatchesCapture(x, cc, t, o, rd);
    MatchesOne(x, cc + 1, t, p, rd);
    assert Groups(Capture(x)) == 1;
    MatchesOne(y, cc + 1, t, o, rd);
    var q := p.(pos := o.pos + 1);
    assert SetAll([q], 2 * cc + 1) == [SetCap(q, 2 * cc + 1)];
    assert SetAll([], 2 * cc + 1) == [];
    assert SetCap(q, 2 * cc + 1) == SetBoth(o.(pos := o.pos + 1), cc);
  }

  /** x takes the character at o and y the one behind it, and neither takes the other's. */
  predicate XThenY(x: Re, y: Re, t: Text, i: nat)
    requires OneChar(x) && OneChar(y)
  {
    && i + 1 < |t.input| && Accepts(x, t.input[i]) && !Accepts(y, t.input[i])
    && Accepts(y, t.input[i + 1]) && !Accepts(x, t.input[i + 1])
  }

  /** Two iterations: what is left of the group after the second. */
  function AfterTwo(cc: nat, o: Out, rd: Reading): Out
    requires 2 * cc + 1 < |o.caps|
  {
    var p := SetBoth(o.(pos := o.pos + 1), cc);
    (if rd.Ecma? then ClearCaps(p, cc, 1) else p).(pos := o.pos + 2)
  }

  lemma {:induction false} TwoIterations(x: Re, y: Re, cc: nat, t: Text, o: Out, rd: Reading)
    requires OneChar(x) && OneChar(y) && 2 * cc + 1 < |o.caps| && Unset(o, cc, 1) && XThenY(x, y, t, o.pos)
    ensures var a, p, q := Either(x, y), SetBoth(o.(pos := o.pos + 1), cc), AfterTwo(cc, o, rd);
      Repeat(a, cc, t, o, 0, INT32_MAX, true, rd) == Repeat(a, cc, t, q, 0, INT32_MAX, true, rd) + [p] + [o]
  {
    hide Matches, Repeat, Accepts, ClearCaps;
    var a := Either(x, y);
    EitherShape(x, y);
    ClearUnset(o, cc, 1);
    EitherAt(x, y, cc, t, o, rd);
    var p := SetBoth(o.(pos := o.pos + 1), cc);
    LoopOnce(a, cc, t, o, p, rd);
    var p' := From(a, cc, p, rd);
    EitherAt(x, y, cc, t, p', rd);
    LoopOnce(a, cc, t, p, AfterTwo(cc, o, rd), rd);
  }

  lemma GroupAfterTwo(cc: nat, o: Out)
    requires 2 * cc + 1 < |o.caps|
    ensures AfterTwo(cc, o, AsWritten).caps[2 * cc] == Some(o.pos) && AfterTwo(cc, o, Ecma).caps[2 * cc] == None
  {
  }

  /**
   Every (?:(x)|y)* on every text with an x-character right before a y-character: from there
   the two readings have different matches. If the run of such characters ends behind them,
   already the first match differs: compiled, the group keeps its value, where ECMA-262 has none.
   */
  lemma {:induction false} GroupInLoopDiffers(x: Re, y: Re, cc: nat, t: Text, o: Out)
    requires OneChar(x) && OneChar(y) && 2 * cc + 1 < |o.caps| && Unset(o, cc, 1) && XThenY(x, y, t, o.pos)
    ensures var r := Quant(Either(x, y), 0, INT32_MAX, true);
      && LoopsAdvance(r) && !LoopsRefill(r)
      && Matches(r, cc, t, o, AsWritten) != Matches(r, cc, t, o, Ecma)
      && ((o.pos + 2 < |t.input| ==> !Accepts(x, t.input[o.pos + 2]) && !Accepts(y, t.input[o.pos + 2])) ==>
            forall rd: Reading | !rd.Pruned? ::
              var outs := Matches(r, cc, t, o, rd); outs != [] && outs[0] == AfterTwo(cc, o, rd))
  {
    hide Matches, Repeat, Accepts, ClearCaps, AfterTwo;
    var a := Either(x, y);
    var r := Quant(a, 0, INT32_MAX, true);
    EitherShape(x, y);
    ClearUnset(o, cc, 1);
    GroupAfterTwo(cc, o);
    forall rd: Reading | !rd.Pruned?
      ensures Matches(r, cc, t, o, rd) == Repeat(a, cc, t, o, 0, INT32_MAX, true, rd)
    {
      MatchesQuant(a, 0, INT32_MAX, true, cc, t, o, rd);
    }
    var all, all' := Matches(r, cc, t, o, AsWritten), Matches(r, cc, t, o, Ecma);
    TwoIterations(x, y, cc, t, o, AsWritten);
    TwoIterations(x, y, cc, t, o, Ecma);
    var q, q' := AfterTwo(cc, o, AsWritten), AfterTwo(cc, o, Ecma);
    assert q.pos == o.pos + 2 && q'.pos == o.pos + 2 by { AfterTwoAt(cc, o, AsWritten); AfterTwoAt(cc, o, Ecma); }
    LoopLast(a, cc, t, q, AsWritten);
    LoopLast(a, cc, t, q', Ecma);
    assert all[|all| - 3] == q && all'[|all'| - 3] == q';
    if o.pos + 2 < |t.input| ==> !Accepts(x, t.input[o.pos + 2]) && !Accepts(y, t.input[o.pos + 2]) {
      forall rd: Reading | !rd.Pruned?
        ensures Matches(r, cc, t, o, rd) != [] && Matches(r, cc, t, o, rd)[0] == AfterTwo(cc, o, rd)
      {
        RunEnds(x, y, cc, t, o, rd);
      }
    }
  }

  lemma AfterTwoAt(cc: nat, o: Out, rd: Reading)
    requires 2 * cc + 1 < |o.caps|
    ensures AfterTwo(cc, o, rd).pos == o.pos + 2 && |AfterTwo(cc, o, rd).caps| == |o.caps|
  {
  }

  lemma {:induction false} RunEnds(x: Re, y: Re, cc: nat, t: Text, o: Out, rd: Reading)
    requires OneChar(x) && OneChar(y) && 2 * cc + 1 < |o.caps| && Unset(o, cc, 1) && XThenY(x, y, t, o.pos)
    requires o.pos + 2 < |t.input| ==> !Accepts(x, t.input[o.pos + 2]) && !Accepts(y, t.input[o.pos + 2])
    ensures var outs := Repeat(Either(x, y), cc, t, o, 0, INT32_MAX, true, rd);
        outs != [] && outs[0] == AfterTwo(cc, o, rd)
  {
    hide Matches, Repeat, Accepts, ClearCaps, AfterTwo;
    var a, q := Either(x, y), AfterTwo(cc, o, rd);
    AfterTwoAt(cc, o, rd);
    TwoIterations(x, y, cc, t, o, rd);
    var q' := From(a, cc, q, rd);
    if o.pos + 2 < |t.input| {
      EitherAt(x, y, cc, t, q', rd);
    } else {
      NothingAtEnd(x, y, cc, t, q', rd);
    }
    LoopStops(a, cc, t, q, rd);
  }

  lemma {:induction false} NothingAtEnd(x: Re, y: Re, cc: nat, t: Text, o: Out, rd: Reading)
    requires OneChar(x) && OneChar(y) && o.pos == |t.input|
    ensures Matches(Either(x, y), cc, t, o, rd) == []
  {
    hide Matches, Accepts;
    MatchesAlt(Capture(x), y, cc, t, o, rd);
    MatchesCapture(x, cc, t, o, rd);
    MatchesOne(x, cc + 1, t, SetCap(o, 2 * cc), rd);
    MatchesOne(y, cc + Groups(Capture(x)), t, o, rd);
  }

  // ----- an iteration that takes nothing -----

  /** |x */
  function Maybe(x: Re): Re {
    Alt(Empty, x)
  }

  /**
   Every (?:|x)* before every x-character: compiled, the first match takes nothing, because an
   iteration that takes nothing ends the loop; in ECMA-262 it takes the character.
   */
  lemma {:induction false} EmptyIterationDiffers(x: Re, cc: nat, t: Text, o: Out)
    requires OneChar(x) && o.pos < |t.input| && Accepts(x, t.input[o.pos])
    ensures var r := Quant(Maybe(x), 0, INT32_MAX, true);
      var outs, outs' := Matches(r, cc, t, o, AsWritten), Matches(r, cc, t, o, Ecma);
      LazyLoopsMove(r) && LoopsRefill(r) && outs != [] && outs[0].pos == o.pos && outs' != [] && outs'[0].pos > o.pos
  {
    hide Matches, Repeat, Accepts;
    var a := Maybe(x);
    var r := Quant(a, 0, INT32_MAX, true);
    MaybeShape(x);
    MatchesQuant(a, 0, INT32_MAX, true, cc, t, o, AsWritten);
    MatchesQuant(a, 0, INT32_MAX, true, cc, t, o, Ecma);
    MaybeAt(x, cc, t, o, AsWritten);
    MaybeAt(x, cc, t, o, Ecma);
    EmptyEnds(a, cc, t, o);
    EmptyDropped(a, cc, t, o);
  }

  lemma MaybeShape(x: Re)
    requires OneChar(x)
    ensures var a, r := Maybe(x), Quant(Maybe(x), 0, INT32_MAX, true);
      Groups(a) == 0 && LazyLoopsMove(r) && LoopsRefill(r)
  {
    assert Groups(x) == 0 && Groups(Empty) == 0 && LazyLoopsMove(x) && LoopsRefill(x);
    assert Groups(Maybe(x)) == 0 && LazyLoopsMove(Maybe(x)) && LoopsRefill(Maybe(x));
  }

  lemma MaybeAt(x: Re, cc: nat, t: Text, o: Out, rd: Reading)
    requires OneChar(x) && o.pos < |t.input| && Accepts(x, t.input[o.pos])
    ensures Matches(Maybe(x), cc, t, o, rd) == [o, o.(pos := o.pos + 1)]
  {
    hide Matches, Accepts;
    MatchesAlt(Empty, x, cc, t, o, rd);
    LeafEmpty(cc, t, o, rd);
    MatchesOne(x, cc + Groups(Empty), t, o, rd);
  }

  lemma LeafEmpty(cc: nat, t: Text, o: Out, rd: Reading)
    requires o.pos <= |t.input|
    ensures Matches(Empty, cc, t, o, rd) == [o]
  {
  }

  lemma EmptyEnds(a: Re, cc: nat, t: Text, o: Out)
    requires o.pos < |t.input| && Matches(a, cc, t, o, AsWritten) == [o, o.(pos := o.pos + 1)]
    ensures var outs := Repeat(a, cc, t, o, 0, INT32_MAX, true, AsWritten); outs != [] && outs[0] == o
  {
    hide Matches;
  }

  lemma SecondAdvances(o: Out, q: Out)
    requires q.pos > o.pos
    ensures Advanced([o, q], o.pos) == [q]
  {
    var once := [o, q];
    assert once[1..] == [q] && [q][1..] == [];
    assert Advanced(once, o.pos) == Advanced([q], o.pos) == [q] + Advanced([], o.pos) == [q];
  }

  lemma {:induction false} EmptyDropped(a: Re, cc: nat, t: Text, o: Out)
    requires o.pos < |t.input| && Groups(a) == 0 && Matches(a, cc, t, o, Ecma) == [o, o.(pos := o.pos + 1)]
    ensures var outs := Repeat(a, cc, t, o, 0, INT32_MAX, true, Ecma); outs != [] && outs[0].pos > o.pos
  {
    hide Matches, Iterate, Repeat, Advanced;
    var q := o.(pos := o.pos + 1);
    var once := [o, q];
    SecondAdvances(o, q);
    AdvancedWithin(once, o.pos, o.pos, |t.input|, |o.caps|);
    LoopIterate(a, cc, t, q, Ecma, false, o.pos + 1, |o.caps|);
    LoopLast(a, cc, t, q, Ecma);
    StarIs(a, cc, t, o, Ecma, once);
  }

  // ----- why no condition on the expression alone is exact -----

  /** The same body as far as matching goes. */
  ghost predicate SameBody(a: Re, b: Re, cc: nat, t: Text, rd: Reading) {
    Groups(a) == Groups(b) && forall o: Out | o.pos <= |t.input| :: Matches(a, cc, t, o, rd) == Matches(b, cc, t, o, rd)
  }

  lemma BodyBoth(a: Re, b: Re, cc: nat, t: Text, o: Out, rd: Reading)
    requires SameBody(a, b, cc, t, rd) && o.pos <= |t.input|
    ensures From(a, cc, o, rd) == From(b, cc, o, rd)
    ensures Matches(a, cc, t, From(a, cc, o, rd), rd) == Matches(b, cc, t, From(b, cc, o, rd), rd)
  {
    hide Matches, ClearCaps;
  }

  lemma {:induction false} RepeatBoth(a: Re, b: Re, cc: nat, t: Text, o: Out, rd: Reading)
    requires SameBody(a, b, cc, t, rd) && o.pos <= |t.input|
    ensures Repeat(a, cc, t, o, 0, INT32_MAX, true, rd) == Repeat(b, cc, t, o, 0, INT32_MAX, true, rd)
    decreases |t.input| - o.pos + 1, 0
  {
    hide Matches, Iterate, Repeat, Advanced, SameBody, Within, ClearCaps;
    BodyBoth(a, b, cc, t, o, rd);
    var once := Matches(a, cc, t, From(a, cc, o, rd), rd);
    StarIs(a, cc, t, o, rd, once);
    StarIs(b, cc, t, o, rd, once);
    if rd.AsWritten? {
      IterateBoth(a, b, cc, t, once, rd, true, o.pos, |o.caps|);
    } else if o.pos < |t.input| {
      IterateBoth(a, b, cc, t, Advanced(once, o.pos), rd, false, o.pos + 1, |o.caps|);
    }
  }

  /** One level of Iterate. */
  lemma {:induction false} IterateIs(a: Re, cc: nat, t: Text, outs: seq<Out>, rd: Reading, halt: bool, lo: nat, n: nat)
    requires Within(outs, lo, |t.input|, n) && lo <= |t.input|
    ensures Iterate(a, cc, t, outs, 0, INT32_MAX, true, rd, halt, lo, n) ==
      if outs == [] then []
      else
        (if halt && outs[0].pos == lo then [outs[0]] else Repeat(a, cc, t, outs[0], 0, INT32_MAX, true, rd))
        + Iterate(a, cc, t, outs[1..], 0, INT32_MAX, true, rd, halt, lo, n)
  {
    hide Repeat;
  }

  lemma {:induction false} IterateBoth(a: Re, b: Re, cc: nat, t: Text, outs: seq<Out>, rd: Reading, halt: bool,
      lo: nat, n: nat)
    requires SameBody(a, b, cc, t, rd) && Within(outs, lo, |t.input|, n) && lo <= |t.input|
    ensures Iterate(a, cc, t, outs, 0, INT32_MAX, true, rd, halt, lo, n)
        == Iterate(b, cc, t, outs, 0, INT32_MAX, true, rd, halt, lo, n)
    decreases |t.input| - lo + (if halt then 0 else 1), |outs|
  {
    hide Repeat, Iterate, SameBody;
    IterateIs(a, cc, t, outs, rd, halt, lo, n);
    IterateIs(b, cc, t, outs, rd, halt, lo, n);
    if outs != [] {
      if !(halt && outs[0].pos == lo) {
        RepeatBoth(a, b, cc, t, outs[0], rd);
      }
      IterateBoth(a, b, cc, t, outs[1..], rd, halt, lo, n);
    }
  }

  /**
   (?:(x)|[])* fails the condition on loops like any (?:(x)|y)*, but a branch that can match
   nothing is never taken, and the readings agree. An exact condition would have to tell which
   branches can match.
   */
  lemma {:induction false} DeadBranchAgrees(x: Re, cc: nat, t: Text, o: Out)
    requires OneChar(x) && o.pos <= |t.input| && 2 * cc + 1 < |o.caps| && Unset(o, cc, 1)
    ensures var r := Quant(Either(x, Class([])), 0, INT32_MAX, true);
      !LoopsRefill(r) && Matches(r, cc, t, o, AsWritten) == Matches(r, cc, t, o, Ecma)
  {
    hide Matches, Repeat, ClearCaps, SameBody;
    var a, b := Either(x, Class([])), Capture(x);
    var r, s := Quant(a, 0, INT32_MAX, true), Quant(b, 0, INT32_MAX, true);
    EitherShape(x, Class([]));
    assert Groups(b) == 1 && LoopsAdvance(s) && LoopsRefill(s) by { CaptureShape(x); }
    ClearUnset(o, cc, 1);
    forall rd: Reading
      ensures Matches(r, cc, t, o, rd) == Matches(s, cc, t, o, rd)
    {
      MatchesQuant(a, 0, INT32_MAX, true, cc, t, o, rd);
      MatchesQuant(b, 0, INT32_MAX, true, cc, t, o, rd);
      DeadBranch(x, cc, t, rd);
      RepeatBoth(a, b, cc, t, o, rd);
    }
    MatchesPruned(s, cc, t, o);
    MatchesSame(s, cc, t, o);
  }

  lemma CaptureShape(x: Re)
    requires OneChar(x)
    ensures var b, s := Capture(x), Quant(Capture(x), 0, INT32_MAX, true);
      Groups(b) == 1 && LoopsAdvance(s) && LoopsRefill(s)
  {
    assert LoopsAdvance(x) && Moves(x) && Groups(x) == 0 && LoopsRefill(x) && Refills(x);
    assert LoopsAdvance(Capture(x)) && Moves(Capture(x)) && Refills(Capture(x)) && LoopsRefill(Capture(x));
  }

  lemma {:induction false} DeadBranch(x: Re, cc: nat, t: Text, rd: Reading)
    requires OneChar(x)
    ensures SameBody(Either(x, Class([])), Capture(x), cc, t, rd)
  {
    hide Matches;
    EitherShape(x, Class([]));
    CaptureShape(x);
    forall o: Out | o.pos <= |t.input|
      ensures Matches(Either(x, Class([])), cc, t, o, rd) == Matches(Capture(x), cc, t, o, rd)
    {
      MatchesAlt(Capture(x), Class([]), cc, t, o, rd);
      MatchesOne(Class([]), cc + Groups(Capture(x)), t, o, rd);
      assert o.pos < |t.input| ==> !InSet([], t.input[o.pos]);
    }
  }
}
