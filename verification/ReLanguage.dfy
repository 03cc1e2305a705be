/**
 What an expression matches, said without order, backtracking or captures: the stretches of the
 text it describes. The ordered matches of every reading end exactly there.
 */
module ReLanguage {
  import opened ReCode
  import opened ReClass
  import opened ReText
  import opened ReWords
  import opened ReSyntax
  import opened ReSpec

  predicate OneAt(t: Text, i: nat, j: nat) {
    i < |t.input| && j == i + 1
  }

  /** The text from i to j is described by r. */
  ghost predicate Spans(r: Re, t: Text, i: nat, j: nat)
    decreases r, 0, 0
  {
    match r
    case Empty => i == j
    case Lit(c) => OneAt(t, i, j) && t.input[i] == c
    case DotAll => OneAt(t, i, j)
    case DotLine => OneAt(t, i, j) && InLine(t.input, i)
    case Class(p) => OneAt(t, i, j) && exists k: nat :: InInterval(p, k, t.input[i])
    case Start => i == j && if t.multiLine then StartsLine(t.input, i) else i == 0
    case End => i == j && if t.multiLine then EndsLine(t.input, i) else i == |t.input|
    case Bound(negated) => i == j && WordEdge(t.input, i) != negated
    case Cat(a, b) => exists m: nat {:trigger Inside(t, m)} | Inside(t, m) :: Spans(a, t, i, m) && Spans(b, t, m, j)
    case Alt(a, b) => Spans(a, t, i, j) || Spans(b, t, i, j)
    case Capture(a) => Spans(a, t, i, j)
    case Quant(a, min, max, _) =>
      exists n: nat {:trigger Upto(n, max)} | Upto(n, max) :: min <= n && Times(a, t, i, j, n)
    case Look(negated, a) =>
      i == j && (exists m: nat {:trigger Inside(t, m)} | Inside(t, m) :: Spans(a, t, i, m)) != negated
  }

  predicate Inside(t: Text, i: nat) {
    i <= |t.input|
  }

  /** The largest 32-bit number stands for no bound. */
  predicate Upto(n: nat, max: nat) {
    max == 0x7fff_ffff || n <= max
  }

  /** n stretches in a row. */
  ghost predicate Times(a: Re, t: Text, i: nat, j: nat, n: nat)
    decreases a, 1, n
  {
    if n == 0 then i == j
    else exists m: nat {:trigger Inside(t, m)} | Inside(t, m) :: Spans(a, t, i, m) && Times(a, t, m, j, n - 1)
  }

  /** Between min and max stretches in a row. */
  ghost predicate Reps(a: Re, t: Text, i: nat, j: nat, min: nat, max: nat) {
    exists n: nat {:trigger Upto(n, max)} | Upto(n, max) :: min <= n && Times(a, t, i, j, n)
  }

  // ----- one level -----

  lemma {:induction false} SpansCat(a: Re, b: Re, t: Text, i: nat, j: nat)
    ensures Spans(Cat(a, b), t, i, j) <==>
      exists m: nat {:trigger Inside(t, m)} | Inside(t, m) :: Spans(a, t, i, m) && Spans(b, t, m, j)
  {
  }

  lemma {:induction false} SpansAlt(a: Re, b: Re, t: Text, i: nat, j: nat)
    ensures Spans(Alt(a, b), t, i, j) <==> Spans(a, t, i, j) || Spans(b, t, i, j)
  {
  }

  lemma {:induction false} SpansCapture(a: Re, t: Text, i: nat, j: nat)
    ensures Spans(Capture(a), t, i, j) <==> Spans(a, t, i, j)
  {
  }

  lemma {:induction false} SpansQuant(a: Re, min: nat, max: nat, greedy: bool, t: Text, i: nat, j: nat)
    ensures Spans(Quant(a, min, max, greedy), t, i, j) <==> Reps(a, t, i, j, min, max)
  {
  }

  lemma {:induction false} SpansLook(negated: bool, a: Re, t: Text, i: nat, j: nat)
    ensures Spans(Look(negated, a), t, i, j) <==>
      i == j && (exists m: nat {:trigger Inside(t, m)} | Inside(t, m) :: Spans(a, t, i, m)) != negated
  {
  }

  lemma {:induction false} TimesNone(a: Re, t: Text, i: nat, j: nat)
    ensures Times(a, t, i, j, 0) <==> i == j
  {
  }

  lemma {:induction false} TimesMore(a: Re, t: Text, i: nat, j: nat, n: nat)
    requires n > 0
    ensures Times(a, t, i, j, n) <==>
      exists m: nat {:trigger Inside(t, m)} | Inside(t, m) :: Spans(a, t, i, m) && Times(a, t, m, j, n - 1)
  {
  }

  // ----- where outcomes end -----

  ghost predicate EndsAt(outs: seq<Out>, j: nat) {
    exists k | 0 <= k < |outs| :: outs[k].pos == j
  }

  /** The outcomes end where r says. */
  ghost predicate Exact(outs: seq<Out>, r: Re, t: Text, i: nat) {
    forall j: nat :: EndsAt(outs, j) <==> Spans(r, t, i, j)
  }

  lemma {:induction false} EndsAppend(x: seq<Out>, y: seq<Out>, j: nat)
    ensures EndsAt(x + y, j) <==> EndsAt(x, j) || EndsAt(y, j)
  {
    if EndsAt(x, j) {
      var k :| 0 <= k < |x| && x[k].pos == j;
      assert (x + y)[k].pos == j;
    }
    if EndsAt(y, j) {
      var k :| 0 <= k < |y| && y[k].pos == j;
      assert (x + y)[|x| + k].pos == j;
    }
  }

  lemma {:induction false} EndsOne(o: Out, j: nat)
    ensures EndsAt([o], j) <==> o.pos == j
  {
    assert [o][0] == o;
  }

  lemma {:induction false} EndsNone(j: nat)
    ensures !EndsAt([], j)
  {
  }

  lemma {:induction false} EndsOrder(greedy: bool, more: seq<Out>, o: Out, j: nat)
    ensures EndsAt(Order(greedy, more, o), j) <==> o.pos == j || EndsAt(more, j)
  {
    hide EndsAt;
    EndsOne(o, j);
    EndsAppend(more, [o], j);
    EndsAppend([o], more, j);
  }

  lemma {:induction false} EndsBound(outs: seq<Out>, lo: nat, hi: nat, n: nat, j: nat)
    requires Within(outs, lo, hi, n) && EndsAt(outs, j)
    ensures lo <= j <= hi
  {
  }

  lemma {:induction false} EndsAdvanced(outs: seq<Out>, p: nat, j: nat)
    ensures EndsAt(Advanced(outs, p), j) <==> EndsAt(outs, j) && j > p
  {
    hide EndsAt;
    EndsNone(j);
    if outs != [] {
      EndsAdvanced(outs[1..], p, j);
      EndsOne(outs[0], j);
      EndsAppend([outs[0]], outs[1..], j);
      assert outs == [outs[0]] + outs[1..];
      var head := if outs[0].pos > p then [outs[0]] else [];
      EndsAppend(head, Advanced(outs[1..], p), j);
    }
  }

  // ----- continuing -----

  /** Some outcome goes on, by b, to j. */
  ghost predicate Onward(outs: seq<Out>, b: Re, t: Text, j: nat) {
    exists m: nat :: EndsAt(outs, m) && Spans(b, t, m, j)
  }

  lemma {:induction false} ThenEnds(b: Re, cc: nat, t: Text, outs: seq<Out>, rd: Reading, lo: nat, n: nat, j: nat)
    requires WellFormed(b) && Within(outs, lo, |t.input|, n)
    ensures EndsAt(Then(b, cc, t, outs, rd, lo, n), j) <==> Onward(outs, b, t, j)
    decreases b, 1, 0, 0, 0, |outs|
  {
    hide EndsAt, Spans, WellFormed, Matches;
    if outs == [] {
      EndsNone(j);
      forall m: nat
        ensures !EndsAt(outs, m)
      {
        EndsNone(m);
      }
    } else {
      MatchesSpan(b, cc, t, outs[0], rd);
      ThenEnds(b, cc, t, outs[1..], rd, lo, n, j);
      EndsAppend(Matches(b, cc, t, outs[0], rd), Then(b, cc, t, outs[1..], rd, lo, n), j);
      OnwardCons(outs, b, t, j);
    }
  }

  lemma {:induction false} OnwardCons(outs: seq<Out>, b: Re, t: Text, j: nat)
    requires outs != []
    ensures Onward(outs, b, t, j) <==> Spans(b, t, outs[0].pos, j) || Onward(outs[1..], b, t, j)
  {
    hide EndsAt, Spans;
    assert outs == [outs[0]] + outs[1..];
    forall m: nat
      ensures EndsAt(outs, m) <==> m == outs[0].pos || EndsAt(outs[1..], m)
    {
      EndsAppend([outs[0]], outs[1..], m);
      EndsOne(outs[0], m);
    }
    if Spans(b, t, outs[0].pos, j) {
      assert EndsAt(outs, outs[0].pos);
    }
    if Onward(outs[1..], b, t, j) {
      var m: nat :| EndsAt(outs[1..], m) && Spans(b, t, m, j);
      assert EndsAt(outs, m);
    }
  }

  /** After the first stretch of a, the rest of the repetition. */
  ghost predicate Further(outs: seq<Out>, a: Re, t: Text, min: nat, max: nat, halt: bool, lo: nat, j: nat) {
    exists m: nat :: EndsAt(outs, m) && (if halt && m == lo then j == lo else Reps(a, t, m, j, min, max))
  }

  lemma {:induction false} FurtherCons(outs: seq<Out>, a: Re, t: Text, min: nat, max: nat, halt: bool, lo: nat, j: nat)
    requires outs != []
    ensures var p := outs[0].pos;
      Further(outs, a, t, min, max, halt, lo, j) <==>
        (if halt && p == lo then j == lo else Reps(a, t, p, j, min, max)) ||
        Further(outs[1..], a, t, min, max, halt, lo, j)
  {
    hide EndsAt, Reps;
    assert outs == [outs[0]] + outs[1..];
    forall m: nat
      ensures EndsAt(outs, m) <==> m == outs[0].pos || EndsAt(outs[1..], m)
    {
      EndsAppend([outs[0]], outs[1..], m);
      EndsOne(outs[0], m);
    }
    assert EndsAt(outs, outs[0].pos);
    if Further(outs[1..], a, t, min, max, halt, lo, j) {
      var m: nat :| EndsAt(outs[1..], m) && (if halt && m == lo then j == lo else Reps(a, t, m, j, min, max));
      assert EndsAt(outs, m);
    }
  }

  lemma {:induction false} IterateEnds(
      a: Re, cc: nat, t: Text, outs: seq<Out>, min: nat, max: nat, greedy: bool, rd: Reading, halt: bool,
      lo: nat, n: nat, j: nat)
    requires WellFormed(a) && Within(outs, lo, |t.input|, n) && lo <= |t.input| && min <= max <= INT32_MAX
    ensures EndsAt(Iterate(a, cc, t, outs, min, max, greedy, rd, halt, lo, n), j) <==>
      Further(outs, a, t, min, max, halt, lo, j)
    decreases a, 2, min, Fuel(max, rd), |t.input| - lo + (if halt then 0 else 1), |outs|
  {
    hide EndsAt, Reps, WellFormed, Repeat;
    if outs == [] {
      EndsNone(j);
      forall m: nat
        ensures !EndsAt(outs, m)
      {
        EndsNone(m);
      }
    } else {
      var first :=
        if halt && outs[0].pos == lo then [outs[0]] else Repeat(a, cc, t, outs[0], min, max, greedy, rd);
      if halt && outs[0].pos == lo {
        EndsOne(outs[0], j);
      } else {
        RepeatEnds(a, cc, t, outs[0], min, max, greedy, rd, j);
      }
      IterateEnds(a, cc, t, outs[1..], min, max, greedy, rd, halt, lo, n, j);
      EndsAppend(first, Iterate(a, cc, t, outs[1..], min, max, greedy, rd, halt, lo, n), j);
      FurtherCons(outs, a, t, min, max, halt, lo, j);
    }
  }

  // ----- repetition, one stretch at a time -----

  /** A stretch of a, then between min and max others. */
  ghost predicate FirstThen(a: Re, t: Text, i: nat, j: nat, min: nat, max: nat) {
    exists m: nat {:trigger Inside(t, m)} | Inside(t, m) :: Spans(a, t, i, m) && Reps(a, t, m, j, min, max)
  }

  /** The same with a first stretch that takes characters. */
  ghost predicate MovesThen(a: Re, t: Text, i: nat, j: nat, max: nat) {
    exists m: nat {:trigger Inside(t, m)} | Inside(t, m) :: m != i && Spans(a, t, i, m) && Reps(a, t, m, j, 0, max)
  }

  lemma {:induction false} OneMore(a: Re, t: Text, i: nat, m: nat, j: nat, min: nat, max: nat)
    requires Inside(t, m) && Spans(a, t, i, m) && Reps(a, t, m, j, min, Less(max)) && 0 < max <= INT32_MAX
    ensures Reps(a, t, i, j, min + 1, max)
  {
    hide Spans, Times;
    var n: nat :| Upto(n, Less(max)) && min <= n && Times(a, t, m, j, n);
    TimesMore(a, t, i, j, n + 1);
    assert Upto(n + 1, max) && Times(a, t, i, j, n + 1);
  }

  lemma {:induction false} RepsFewer(a: Re, t: Text, i: nat, j: nat, min: nat, max: nat)
    requires Reps(a, t, i, j, min + 1, max)
    ensures Reps(a, t, i, j, min, max)
  {
    hide Times;
    var n: nat :| Upto(n, max) && min + 1 <= n && Times(a, t, i, j, n);
  }

  /** Required stretches: the first, then the others. */
  lemma {:induction false} RepsMust(a: Re, t: Text, i: nat, j: nat, min: nat, max: nat)
    requires min > 0 && 0 < max <= INT32_MAX
    ensures Reps(a, t, i, j, min, max) <==> FirstThen(a, t, i, j, min - 1, Less(max))
  {
    hide Spans, Times;
    if Reps(a, t, i, j, min, max) {
      var n: nat :| Upto(n, max) && min <= n && Times(a, t, i, j, n);
      TimesMore(a, t, i, j, n);
      var m: nat :| Inside(t, m) && Spans(a, t, i, m) && Times(a, t, m, j, n - 1);
      assert Upto(n - 1, Less(max));
      assert Reps(a, t, m, j, min - 1, Less(max));
    }
    if FirstThen(a, t, i, j, min - 1, Less(max)) {
      var m: nat :| Inside(t, m) && Spans(a, t, i, m) && Reps(a, t, m, j, min - 1, Less(max));
      OneMore(a, t, i, m, j, min - 1, max);
    }
  }

  /** Optional stretches: none, or one that takes characters and then others; those that take nothing do not matter. */
  lemma {:induction false} RepsMay(a: Re, t: Text, i: nat, j: nat, max: nat)
    requires 0 < max <= INT32_MAX
    ensures Reps(a, t, i, j, 0, max) <==> i == j || MovesThen(a, t, i, j, Less(max))
  {
    hide Spans, Times;
    TimesNone(a, t, i, j);
    assert Upto(0, max);
    if Reps(a, t, i, j, 0, max) {
      var n: nat :| Upto(n, max) && 0 <= n && Times(a, t, i, j, n);
      Moved(a, t, i, j, n, max);
    }
    if MovesThen(a, t, i, j, Less(max)) {
      var m: nat :| Inside(t, m) && m != i && Spans(a, t, i, m) && Reps(a, t, m, j, 0, Less(max));
      OneMore(a, t, i, m, j, 0, max);
      RepsFewer(a, t, i, j, 0, max);
    }
  }

  lemma {:induction false} Moved(a: Re, t: Text, i: nat, j: nat, n: nat, max: nat)
    requires Times(a, t, i, j, n) && Upto(n, max) && max > 0
    ensures i == j || MovesThen(a, t, i, j, Less(max))
    decreases n
  {
    hide Spans, Times;
    if n == 0 {
      TimesNone(a, t, i, j);
    } else {
      TimesMore(a, t, i, j, n);
      var m: nat :| Inside(t, m) && Spans(a, t, i, m) && Times(a, t, m, j, n - 1);
      if m == i {
        Moved(a, t, i, j, n - 1, max);
      } else {
        assert Upto(n - 1, Less(max));
        assert Reps(a, t, m, j, 0, Less(max));
      }
    }
  }

  /** The same with all stretches. */
  lemma {:induction false} RepsAny(a: Re, t: Text, i: nat, j: nat, max: nat)
    requires 0 < max <= INT32_MAX
    ensures Reps(a, t, i, j, 0, max) <==> i == j || FirstThen(a, t, i, j, 0, Less(max))
  {
    hide Spans, Reps;
    RepsMay(a, t, i, j, max);
    if FirstThen(a, t, i, j, 0, Less(max)) {
      var m: nat :| Inside(t, m) && Spans(a, t, i, m) && Reps(a, t, m, j, 0, Less(max));
      OneMore(a, t, i, m, j, 0, max);
      RepsFewer(a, t, i, j, 0, max);
    }
  }

  lemma {:induction false} RepsNone(a: Re, t: Text, i: nat, j: nat)
    ensures Reps(a, t, i, j, 0, 0) <==> i == j
  {
    hide Spans, Times;
    TimesNone(a, t, i, j);
    assert Upto(0, 0);
  }

  /** What is left after the first stretch, from the ends of the first. */
  lemma {:induction false} FurtherIs(outs: seq<Out>, a: Re, t: Text, i: nat, min: nat, max: nat, j: nat, n: nat)
    requires Exact(outs, a, t, i) && Within(outs, i, |t.input|, n)
    ensures Further(outs, a, t, min, max, false, i, j) <==> FirstThen(a, t, i, j, min, max)
  {
    hide EndsAt, Spans, Reps, Within;
    if Further(outs, a, t, min, max, false, i, j) {
      var m: nat :| EndsAt(outs, m) && Reps(a, t, m, j, min, max);
      EndsBound(outs, i, |t.input|, n, m);
      assert Inside(t, m);
    }
    if FirstThen(a, t, i, j, min, max) {
      var m: nat :| Inside(t, m) && Spans(a, t, i, m) && Reps(a, t, m, j, min, max);
      assert EndsAt(outs, m);
    }
  }

  lemma {:induction false} FurtherMoved(once: seq<Out>, a: Re, t: Text, i: nat, max: nat, j: nat, n: nat)
    requires Exact(once, a, t, i) && Within(once, i, |t.input|, n)
    ensures Further(Advanced(once, i), a, t, 0, max, false, i + 1, j) <==> MovesThen(a, t, i, j, max)
  {
    hide EndsAt, Spans, Reps, Advanced, Within;
    var moved := Advanced(once, i);
    forall m: nat
      ensures EndsAt(moved, m) <==> Spans(a, t, i, m) && m != i
      ensures EndsAt(moved, m) ==> Inside(t, m)
    {
      EndsAdvanced(once, i, m);
      assert EndsAt(once, m) <==> Spans(a, t, i, m);
      if EndsAt(once, m) {
        EndsBound(once, i, |t.input|, n, m);
      }
    }
    if Further(moved, a, t, 0, max, false, i + 1, j) {
      var m: nat :| EndsAt(moved, m) && Reps(a, t, m, j, 0, max);
      assert Inside(t, m);
    }
    if MovesThen(a, t, i, j, max) {
      var m: nat :| Inside(t, m) && m != i && Spans(a, t, i, m) && Reps(a, t, m, j, 0, max);
      assert EndsAt(moved, m);
    }
  }

  lemma {:induction false} FurtherHalted(once: seq<Out>, a: Re, t: Text, i: nat, max: nat, j: nat, n: nat)
    requires Exact(once, a, t, i) && Within(once, i, |t.input|, n)
    ensures i == j || Further(once, a, t, 0, max, true, i, j) <==> i == j || MovesThen(a, t, i, j, max)
  {
    hide EndsAt, Spans, Reps, Within;
    if i != j && Further(once, a, t, 0, max, true, i, j) {
      var m: nat :| EndsAt(once, m) && (if m == i then j == i else Reps(a, t, m, j, 0, max));
      EndsBound(once, i, |t.input|, n, m);
      assert Inside(t, m);
    }
    if MovesThen(a, t, i, j, max) {
      var m: nat :| Inside(t, m) && m != i && Spans(a, t, i, m) && Reps(a, t, m, j, 0, max);
      assert EndsAt(once, m);
    }
  }

  lemma {:induction false} RepeatEnds(
      a: Re, cc: nat, t: Text, o: Out, min: nat, max: nat, greedy: bool, rd: Reading, j: nat)
    requires WellFormed(a) && o.pos <= |t.input| && min <= max <= INT32_MAX
    ensures EndsAt(Repeat(a, cc, t, o, min, max, greedy, rd), j) <==> Reps(a, t, o.pos, j, min, max)
    decreases a, 2, min, Fuel(max, rd), |t.input| - o.pos + 1, 0, 1
  {
    hide EndsAt, Reps, WellFormed, Matches, Iterate, Order, Advanced, ClearCaps, Further, FirstThen;
    if max == 0 {
      RepsNone(a, t, o.pos, j);
      EndsOne(o, j);
      return;
    }
    var from := if rd.Ecma? then ClearCaps(o, cc, Groups(a)) else o;
    var once, n := Matches(a, cc, t, from, rd), |o.caps|;
    MatchesSpan(a, cc, t, from, rd);
    if min > 0 {
      RepsMust(a, t, o.pos, j, min, max);
      FurtherIs(once, a, t, o.pos, min - 1, Less(max), j, n);
      IterateEnds(a, cc, t, once, min - 1, Less(max), greedy, rd, false, o.pos, n, j);
    } else {
      RepeatMayEnds(a, cc, t, o, max, greedy, rd, j, once);
    }
  }

  lemma {:induction false} RepeatMayEnds(
      a: Re, cc: nat, t: Text, o: Out, max: nat, greedy: bool, rd: Reading, j: nat, once: seq<Out>)
    requires WellFormed(a) && o.pos <= |t.input| && 0 < max <= INT32_MAX
    requires once == Matches(a, cc, t, if rd.Ecma? then ClearCaps(o, cc, Groups(a)) else o, rd)
    requires Exact(once, a, t, o.pos)
    ensures EndsAt(Repeat(a, cc, t, o, 0, max, greedy, rd), j) <==> Reps(a, t, o.pos, j, 0, max)
    decreases a, 2, 0, Fuel(max, rd), |t.input| - o.pos + 1, 0, 0
  {
    hide EndsAt, Reps, WellFormed, Matches, Iterate, Order, Advanced, ClearCaps, Further, Exact, FirstThen, Spans;
    var n := |o.caps|;
    if rd.AsWritten? && max != INT32_MAX {
      RepsAny(a, t, o.pos, j, max);
      FurtherIs(once, a, t, o.pos, 0, max - 1, j, n);
      IterateEnds(a, cc, t, once, 0, max - 1, greedy, rd, false, o.pos, n, j);
      EndsOrder(greedy, Iterate(a, cc, t, once, 0, max - 1, greedy, rd, false, o.pos, n), o, j);
    } else if rd.AsWritten? && greedy {
      RepsMay(a, t, o.pos, j, max);
      FurtherHalted(once, a, t, o.pos, max, j, n);
      IterateEnds(a, cc, t, once, 0, max, greedy, rd, true, o.pos, n, j);
      EndsOrder(greedy, Iterate(a, cc, t, once, 0, max, greedy, rd, true, o.pos, n), o, j);
    } else {
      var moved := Advanced(once, o.pos);
      AdvancedWithin(once, o.pos, o.pos, |t.input|, n);
      RepsMay(a, t, o.pos, j, max);
      FurtherMoved(once, a, t, o.pos, Less(max), j, n);
      if o.pos == |t.input| {
        EndsOne(o, j);
        NoFurther(once, a, t, o.pos, n, j, Less(max));
      } else {
        IterateEnds(a, cc, t, moved, 0, Less(max), greedy, rd, false, o.pos + 1, n, j);
        EndsOrder(greedy, Iterate(a, cc, t, moved, 0, Less(max), greedy, rd, false, o.pos + 1, n), o, j);
      }
    }
  }

  /** At the end of the text no stretch takes characters. */
  lemma {:induction false} NoFurther(once: seq<Out>, a: Re, t: Text, i: nat, n: nat, j: nat, max: nat)
    requires Exact(once, a, t, i) && Within(once, i, |t.input|, n) && i == |t.input|
    ensures !MovesThen(a, t, i, j, max)
  {
    hide EndsAt, Spans, Reps;
    if MovesThen(a, t, i, j, max) {
      var m: nat :| Inside(t, m) && m != i && Spans(a, t, i, m) && Reps(a, t, m, j, 0, max);
      assert EndsAt(once, m);
      EndsBound(once, i, |t.input|, n, m);
      assert false;
    }
  }

  // ----- the theorem -----

  /** In every reading, the matches of an expression end exactly where it describes the text. */
  lemma {:induction false} MatchesSpan(r: Re, cc: nat, t: Text, o: Out, rd: Reading)
    requires WellFormed(r) && o.pos <= |t.input|
    ensures Exact(Matches(r, cc, t, o, rd), r, t, o.pos)
    decreases r, 0, 0, 0, 0, 1
  {
    hide EndsAt, Spans, WellFormed, Matches, Groups;
    forall j: nat
      ensures EndsAt(Matches(r, cc, t, o, rd), j) <==> Spans(r, t, o.pos, j)
    {
      match r
      case Cat(a, b) => CatSpan(a, b, cc, t, o, rd, j);
      case Alt(a, b) => AltSpan(a, b, cc, t, o, rd, j);
      case Capture(a) => CaptureSpan(a, cc, t, o, rd, j);
      case Quant(a, min, max, greedy) => QuantSpan(a, min, max, greedy, cc, t, o, rd, j);
      case Look(negated, a) => LookSpan(negated, a, cc, t, o, rd, j);
      case _ => LeafSpan(r, cc, t, o, rd, j);
    }
  }

  lemma {:induction false} CatSpan(a: Re, b: Re, cc: nat, t: Text, o: Out, rd: Reading, j: nat)
    requires WellFormed(Cat(a, b)) && o.pos <= |t.input|
    ensures EndsAt(Matches(Cat(a, b), cc, t, o, rd), j) <==> Spans(Cat(a, b), t, o.pos, j)
    decreases Cat(a, b), 0, 0, 0, 0, 0
  {
    hide EndsAt, Spans, Matches, Then, Groups;
    var outs := Matches(a, cc, t, o, rd);
    MatchesCat(a, b, cc, t, o, rd);
    MatchesSpan(a, cc, t, o, rd);
    ThenEnds(b, cc + Groups(a), t, outs, rd, o.pos, |o.caps|, j);
    CatIs(a, b, t, o.pos, j, outs, |o.caps|);
  }

  lemma {:induction false} CatIs(a: Re, b: Re, t: Text, i: nat, j: nat, outs: seq<Out>, n: nat)
    requires Exact(outs, a, t, i) && Within(outs, i, |t.input|, n)
    ensures Spans(Cat(a, b), t, i, j) <==> Onward(outs, b, t, j)
  {
    hide EndsAt, Spans, Within;
    SpansCat(a, b, t, i, j);
    if Onward(outs, b, t, j) {
      var m: nat :| EndsAt(outs, m) && Spans(b, t, m, j);
      EndsBound(outs, i, |t.input|, n, m);
      assert Inside(t, m);
    }
    if m: nat :| Inside(t, m) && Spans(a, t, i, m) && Spans(b, t, m, j) {
      assert EndsAt(outs, m);
    }
  }

  lemma {:induction false} AltSpan(a: Re, b: Re, cc: nat, t: Text, o: Out, rd: Reading, j: nat)
    requires WellFormed(Alt(a, b)) && o.pos <= |t.input|
    ensures EndsAt(Matches(Alt(a, b), cc, t, o, rd), j) <==> Spans(Alt(a, b), t, o.pos, j)
    decreases Alt(a, b), 0, 0, 0, 0, 0
  {
    hide EndsAt, Spans, Matches, Groups;
    SpansAlt(a, b, t, o.pos, j);
    MatchesAlt(a, b, cc, t, o, rd);
    MatchesSpan(a, cc, t, o, rd);
    MatchesSpan(b, cc + Groups(a), t, o, rd);
    EndsAppend(Matches(a, cc, t, o, rd), Matches(b, cc + Groups(a), t, o, rd), j);
  }

  lemma {:induction false} CaptureSpan(a: Re, cc: nat, t: Text, o: Out, rd: Reading, j: nat)
    requires WellFormed(Capture(a)) && o.pos <= |t.input|
    ensures EndsAt(Matches(Capture(a), cc, t, o, rd), j) <==> Spans(Capture(a), t, o.pos, j)
    decreases Capture(a), 0, 0, 0, 0, 0
  {
    hide EndsAt, Spans, Matches, SetAll, SetCap;
    SpansCapture(a, t, o.pos, j);
    MatchesCapture(a, cc, t, o, rd);
    var p := SetCap(o, 2 * cc);
    MatchesSpan(a, cc + 1, t, p, rd);
    EndsSet(Matches(a, cc + 1, t, p, rd), 2 * cc + 1, j);
  }

  lemma {:induction false} EndsSet(outs: seq<Out>, i: nat, j: nat)
    ensures EndsAt(SetAll(outs, i), j) <==> EndsAt(outs, j)
  {
    var r := SetAll(outs, i);
    assert forall k | 0 <= k < |outs| :: r[k].pos == outs[k].pos;
  }

  lemma {:induction false} QuantSpan(
      a: Re, min: nat, max: nat, greedy: bool, cc: nat, t: Text, o: Out, rd: Reading, j: nat)
    requires WellFormed(Quant(a, min, max, greedy)) && o.pos <= |t.input|
    ensures var r := Quant(a, min, max, greedy); EndsAt(Matches(r, cc, t, o, rd), j) <==> Spans(r, t, o.pos, j)
    decreases Quant(a, min, max, greedy), 0, 0, 0, 0, 0
  {
    hide EndsAt, Spans, Reps, Matches, Repeat, ClearCaps, Groups;
    SpansQuant(a, min, max, greedy, t, o.pos, j);
    MatchesQuant(a, min, max, greedy, cc, t, o, rd);
    var p := if min == 0 && !rd.Ecma? then ClearCaps(o, cc, Groups(a)) else o;
    RepeatEnds(a, cc, t, p, min, max, greedy, rd, j);
  }

  lemma {:induction false} LookSpan(negated: bool, a: Re, cc: nat, t: Text, o: Out, rd: Reading, j: nat)
    requires WellFormed(Look(negated, a)) && o.pos <= |t.input|
    ensures EndsAt(Matches(Look(negated, a), cc, t, o, rd), j) <==> Spans(Look(negated, a), t, o.pos, j)
    decreases Look(negated, a), 0, 0, 0, 0, 0
  {
    var i := o.pos;
    hide Spans, Matches;
    SpansLook(negated, a, t, i, j);
    MatchesLook(negated, a, cc, t, o, rd);
    var outs := Matches(a, cc, t, o, rd);
    MatchesSpan(a, cc, t, o, rd);
    assert outs != [] <==> exists m: nat {:trigger Inside(t, m)} | Inside(t, m) :: Spans(a, t, i, m) by {
      if outs != [] {
        assert EndsAt(outs, outs[0].pos) && Inside(t, outs[0].pos);
      }
    }
    hide EndsAt;
    EndsNone(j);
    EndsOne(o, j);
    if outs != [] {
      EndsOne(Out(o.pos, outs[0].caps), j);
    }
  }

  lemma {:induction false} LeafSpan(r: Re, cc: nat, t: Text, o: Out, rd: Reading, j: nat)
    requires WellFormed(r) && (r.Empty? || IsLeaf(r)) && o.pos <= |t.input|
    ensures EndsAt(Matches(r, cc, t, o, rd), j) <==> Spans(r, t, o.pos, j)
  {
    hide EndsAt, AtWordBoundary, AtLineStart, AtLineEnd, IsLineTerminator, WordEdge, StartsLine, EndsLine, InLine;
    hide CharRange.InSet, InInterval, ClassInstr, CharRange.Canonical;
    var i := o.pos;
    EndsNone(j);
    EndsOne(o, j);
    EndsOne(o.(pos := i + 1), j);
    BoundaryIsEdge(t, i);
    LineStartIs(t, i);
    LineEndIs(t, i);
    if i < |t.input| {
      DotIs(t.input, i);
      if r.Class? {
        InSetIff(r.points, t.input[i]);
      }
    }
  }
}
