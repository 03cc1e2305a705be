/**
 Lazy unbounded loops have no check that their body advances. If the body's first match takes
 nothing and what follows the loop does not match there, the machine goes round for ever.
 */
module ReEndless {
  import opened Basics
  import opened ReCode
  import opened ReText
  import opened ReSyntax
  import opened ReMoves
  import opened ReVm
  import opened ReSpec
  import opened ReYields
  import opened ReMeaning
  import opened ReSteps
  import opened ReCorrect
  import opened ReTheorem
  import opened ReCaptures

  // ----- for ever -----

  /** However many steps are taken, the machine has not stopped. */
  ghost predicate Endless(env: Env, c: Config) {
    forall n: nat :: !StepN(env, c, n).Done?
  }

  lemma {:induction false} DoneStays(env: Env, c: Config, n: nat)
    requires c.Done?
    ensures StepN(env, c, n) == c
    decreases n
  {
    if n > 0 {
      DoneStays(env, c, n - 1);
    }
  }

  /** Not stopped later, not stopped before. */
  lemma {:induction false} NotDoneBefore(env: Env, c: Config, m: nat, n: nat)
    requires !StepN(env, c, n).Done? && m <= n
    ensures !StepN(env, c, m).Done?
  {
    hide StepN;
    StepNAdd(env, c, m, n - m);
    if StepN(env, c, m).Done? {
      DoneStays(env, StepN(env, c, m), n - m);
    }
  }

  lemma {:induction false} EndlessFrom(env: Env, c: Config, d: Config)
    requires Reaches(env, c, d) && Endless(env, d)
    ensures Endless(env, c)
  {
    hide StepN;
    var m: nat :| StepN(env, c, m) == d;
    forall n: nat
      ensures !StepN(env, c, n).Done?
    {
      StepNAdd(env, c, m, n);
      assert !StepN(env, d, n).Done?;
      NotDoneBefore(env, c, n, m + n);
    }
  }

  // ----- the body and what follows -----

  /** At this position the first match of a takes nothing. */
  ghost predicate FirstIsEmpty(env: Env, a: Re, cc: nat, o: Out) {
    var outs := Outs(env, a, cc, o);
    outs != [] && outs[0].pos == o.pos
  }

  /** From `end`, whatever the captures and the frames, the machine comes back failing. */
  ghost predicate Dead(env: Env, end: nat, stack: seq<int>, pos: nat, n: nat) {
    forall o: Out, frames | o.pos == pos && |o.caps| == n :: Reaches(env, At(end, o, stack, frames), Failing(frames))
  }

  /** All places of captures. */
  function Places(n: nat): (s: set<nat>)
    ensures forall i: nat | i < n :: i in s
  {
    if n == 0 then {} else Places(n - 1) + {n - 1}
  }

  /** What matches where does not depend on the captures. */
  lemma AnyCaptures(env: Env, r: Re, cc: nat, o: Out, p: Out)
    requires o.pos == p.pos <= |env.text.input| && |o.caps| == |p.caps|
    ensures var os, ps := Outs(env, r, cc, o), Outs(env, r, cc, p);
      |os| == |ps| && forall k | 0 <= k < |os| :: os[k].pos == ps[k].pos
  {
    hide Matches, Left;
    var d := Places(|o.caps|);
    assert Like(o, p, d);
    MatchesLike(r, cc, env.text, o, p, AsWritten, d);
  }

  /** The first match of the body, from a start where it takes nothing, leads to such a start again. */
  lemma {:induction false} BodyFirst(env: Env, at: nat, a: Re, cc: nat, o: Out, stack: seq<int>, frames: seq<Frame>)
    returns (o': Out, frames': seq<Frame>)
    requires Ready(env, at, a, cc, o) && FirstIsEmpty(env, a, cc, o)
    ensures Reaches(env, At(at, o, stack, frames), At(at + Len(a, cc), o', stack, frames'))
    ensures Ready(env, at, a, cc, o') && FirstIsEmpty(env, a, cc, o') && o'.pos == o.pos && |o'.caps| == |o.caps|
  {
    hide Reaches, Extends, Ready, Len, Outs;
    Correct(env, at, a, cc, o, stack, frames);
    StartInText(env, at, a, cc, o);
    ReadyAll(env, at, a, cc, o);
    OutsWithin(env, a, cc, o);
    o' := Outs(env, a, cc, o)[0];
    frames' :| Reaches(env, At(at, o, stack, frames), At(at + Len(a, cc), o', stack, frames'));
    AnyCaptures(env, a, cc, o, o');
  }

  /** Code without a match at a position is dead there. */
  lemma {:induction false} NoMatchDead(env: Env, at: nat, b: Re, cc: nat, o: Out, stack: seq<int>)
    requires Ready(env, at, b, cc, o) && Outs(env, b, cc, o) == []
    ensures Dead(env, at, stack, o.pos, |o.caps|)
  {
    hide Reaches, Outs;
    forall p: Out, frames | p.pos == o.pos && |p.caps| == |o.caps|
      ensures Reaches(env, At(at, p, stack, frames), Failing(frames))
    {
      AnyCaptures(env, b, cc, o, p);
      assert Ready(env, at, b, cc, p);
      Correct(env, at, b, cc, p, stack, frames);
    }
  }

  // ----- the loops -----

  /**
   A lazy choice between leaving at `end` and another round of the body at `at`: the split in
   front of the body of a star loop, or behind the body of a plus loop.
   */
  ghost predicate LazySplit(env: Env, pc: nat, at: nat, end: nat) {
    || (Fetch(env.code, pc) == Some(SplitGotoFirst(end - (pc + 5))) && at == pc + 5)
    || (Fetch(env.code, pc) == Some(SplitNextFirst(at - (pc + 5))) && end == pc + 5)
  }

  /** Leaving fails, and the machine enters the body. */
  lemma {:induction false} EntersBody(env: Env, pc: nat, at: nat, end: nat, o: Out, stack: seq<int>, frames: seq<Frame>)
    requires LazySplit(env, pc, at, end) && Dead(env, end, stack, o.pos, |o.caps|)
    ensures Reaches(env, Step(env, At(pc, o, stack, frames)), At(at, o, stack, frames))
  {
    hide Reaches, Fetch;
    var f := Frame(SplitFrame, at, o.pos, o.caps, stack, 0);
    var upper := frames + [f];
    assert upper[..|upper| - 1] == frames && upper[|upper| - 1] == f;
    if Fetch(env.code, pc) == Some(SplitGotoFirst(end - (pc + 5))) && at == pc + 5 {
      StepControl(env, pc, SplitGotoFirst(end - (pc + 5)), o, stack, frames);
    } else {
      StepControl(env, pc, SplitNextFirst(at - (pc + 5)), o, stack, frames);
    }
    assert Step(env, At(pc, o, stack, frames)) == At(end, o, stack, upper);
    assert Reaches(env, At(end, o, stack, upper), Failing(upper));
    ReachesSelf(env, At(at, o, stack, frames));
    ReachesStep(env, Failing(upper), At(at, o, stack, frames));
    ReachesTrans(env, At(end, o, stack, upper), Failing(upper), At(at, o, stack, frames));
  }

  /** The body ends at the split, or at a jump back to it. */
  ghost predicate LeadsBack(env: Env, back: nat, pc: nat) {
    back == pc || Fetch(env.code, back) == Some(Goto(pc - (back + 5)))
  }

  lemma {:induction false} GoesBack(env: Env, back: nat, pc: nat, o: Out, stack: seq<int>, frames: seq<Frame>)
    requires LeadsBack(env, back, pc)
    ensures Reaches(env, At(back, o, stack, frames), At(pc, o, stack, frames))
  {
    hide Reaches, Fetch;
    ReachesSelf(env, At(pc, o, stack, frames));
    if back != pc {
      StepControl(env, back, Goto(pc - (back + 5)), o, stack, frames);
      ReachesStep(env, At(back, o, stack, frames), At(pc, o, stack, frames));
    }
  }

  /** One round, in at least one step. */
  lemma {:induction false} Round(env: Env, pc: nat, at: nat, end: nat, a: Re, cc: nat, o: Out, stack: seq<int>,
      frames: seq<Frame>)
    returns (m: nat, o': Out, frames': seq<Frame>)
    requires LazySplit(env, pc, at, end) && LeadsBack(env, at + Len(a, cc), pc)
    requires Dead(env, end, stack, o.pos, |o.caps|)
    requires Ready(env, at, a, cc, o) && FirstIsEmpty(env, a, cc, o)
    ensures m > 0 && StepN(env, At(pc, o, stack, frames), m) == At(pc, o', stack, frames')
    ensures Ready(env, at, a, cc, o') && FirstIsEmpty(env, a, cc, o') && o'.pos == o.pos && |o'.caps| == |o.caps|
  {
    hide LazySplit, LeadsBack, Dead, Ready, FirstIsEmpty, Len, Step;
    var c := At(pc, o, stack, frames);
    EntersBody(env, pc, at, end, o, stack, frames);
    o', frames' := BodyFirst(env, at, a, cc, o, stack, frames);
    GoesBack(env, at + Len(a, cc), pc, o', stack, frames');
    var d := At(pc, o', stack, frames');
    ReachesTrans(env, Step(env, c), At(at, o, stack, frames), At(at + Len(a, cc), o', stack, frames'));
    ReachesTrans(env, Step(env, c), At(at + Len(a, cc), o', stack, frames'), d);
    var n: nat :| StepN(env, Step(env, c), n) == d;
    m := n + 1;
  }

  lemma {:induction false} NotYetDone(env: Env, pc: nat, at: nat, end: nat, a: Re, cc: nat, o: Out, stack: seq<int>,
      frames: seq<Frame>, n: nat)
    requires LazySplit(env, pc, at, end) && LeadsBack(env, at + Len(a, cc), pc)
    requires Dead(env, end, stack, o.pos, |o.caps|)
    requires Ready(env, at, a, cc, o) && FirstIsEmpty(env, a, cc, o)
    ensures !StepN(env, At(pc, o, stack, frames), n).Done?
    decreases n
  {
    hide LazySplit, LeadsBack, Dead, Ready, FirstIsEmpty, Len, StepN;
    var c := At(pc, o, stack, frames);
    var m, o', frames' := Round(env, pc, at, end, a, cc, o, stack, frames);
    if n <= m {
      NotDoneBefore(env, c, n, m);
    } else {
      NotYetDone(env, pc, at, end, a, cc, o', stack, frames', n - m);
      StepNAdd(env, c, m, n - m);
    }
  }

  /**
   Any lazy loop, wherever it stands in a program and whatever was saved before: with a body
   whose first match takes nothing and no way on from its end, it never stops.
   */
  lemma {:induction false} LazyLoopNeverStops(env: Env, pc: nat, at: nat, end: nat, a: Re, cc: nat, o: Out,
      stack: seq<int>, frames: seq<Frame>)
    requires LazySplit(env, pc, at, end) && LeadsBack(env, at + Len(a, cc), pc)
    requires Dead(env, end, stack, o.pos, |o.caps|)
    requires Ready(env, at, a, cc, o) && FirstIsEmpty(env, a, cc, o)
    ensures Endless(env, At(pc, o, stack, frames))
  {
    hide LazySplit, LeadsBack, Dead, Ready, FirstIsEmpty, Len, StepN;
    forall n: nat
      ensures !StepN(env, At(pc, o, stack, frames), n).Done?
    {
      NotYetDone(env, pc, at, end, a, cc, o, stack, frames, n);
    }
  }

  lemma EmptyAgain(env: Env, a: Re, cc: nat, o: Out, p: Out)
    requires Body(env, a, cc, o) && FirstIsEmpty(env, a, cc, o) && p.pos == o.pos && |p.caps| == |o.caps|
    ensures Body(env, a, cc, p) && FirstIsEmpty(env, a, cc, p)
  {
    hide Outs, WellFormed, LazyLoopsMove, TextOk, Groups;
    AnyCaptures(env, a, cc, o, p);
  }

  /** Zero or more: captures cleared, then the split. */
  lemma {:induction false} StarNeverStops(env: Env, pc: nat, a: Re, cc: nat, o: Out, stack: seq<int>,
      frames: seq<Frame>)
    requires CodeAt(env.code, pc, Star(Code(a, cc), false, false)) && Body(env, a, cc, o) && FirstIsEmpty(env, a, cc, o)
    requires Dead(env, pc + Size(Star(Code(a, cc), false, false)), stack, o.pos, |o.caps|)
    ensures Endless(env, At(pc, o, stack, frames))
  {
    hide CodeAt, Code, Size, Body, Ready, FirstIsEmpty, Dead, Endless, Fetch, Star;
    var len: int := Len(a, cc);
    StarCode(env, pc, Code(a, cc), false, false);
    BodyReady(env, pc + 5, a, cc, o);
    LazyLoopNeverStops(env, pc, pc + 5, pc + 10 + Len(a, cc), a, cc, o, stack, frames);
  }

  /** One or more: the body once, then the split behind it. */
  lemma {:induction false} PlusNeverStops(env: Env, pc: nat, a: Re, cc: nat, o: Out, stack: seq<int>,
      frames: seq<Frame>)
    requires CodeAt(env.code, pc, Code(a, cc) + [Split(true, -(Len(a, cc) as int + 5))])
    requires Body(env, a, cc, o) && FirstIsEmpty(env, a, cc, o)
    requires Dead(env, pc + Len(a, cc) + 5, stack, o.pos, |o.caps|)
    ensures Endless(env, At(pc, o, stack, frames))
  {
    hide CodeAt, Code, Body, Ready, FirstIsEmpty, Dead, Endless, Fetch, Reaches;
    var i := Split(true, -(Len(a, cc) as int + 5));
    assert [i] == [i] + [];
    CodeSplit(env.code, pc, Code(a, cc), [i]);
    var s := pc + Len(a, cc);
    CodeHead(env.code, s, i, []);
    BodyReady(env, pc, a, cc, o);
    var o', frames' := BodyFirst(env, pc, a, cc, o, stack, frames);
    LazyLoopNeverStops(env, s, pc, s + 5, a, cc, o', stack, frames');
    EndlessFrom(env, At(pc, o, stack, frames), At(s, o', stack, frames'));
  }

  /** The required iterations all take nothing. */
  lemma {:induction false} ExactlyFirst(env: Env, at: nat, a: Re, cc: nat, o: Out, k: nat, stack: seq<int>,
      frames: seq<Frame>)
    returns (o': Out, frames': seq<Frame>)
    requires ExactlyAt(env, at, Len(a, cc)) && Ready(env, at, a, cc, o) && FirstIsEmpty(env, a, cc, o) && k >= 1
    ensures Reaches(env, At(at, o, stack + [k], frames), At(at + Len(a, cc) + 6, o', stack, frames'))
    ensures o'.pos == o.pos && |o'.caps| == |o.caps|
    decreases k
  {
    hide Reaches, Ready, FirstIsEmpty, Len, Fetch;
    var len: int := Len(a, cc);
    var inner, inner': seq<int> := stack + [k], stack + [k - 1];
    var p, fs := BodyFirst(env, at, a, cc, o, inner, frames);
    StepControl(env, at + len, Loop(-(len + 5)), p, inner, fs);
    assert inner[..|inner| - 1] == stack && inner[|inner| - 1] == k;
    if k > 1 {
      o', frames' := ExactlyFirst(env, at, a, cc, p, k - 1, stack, fs);
    } else {
      o', frames' := p, fs;
      StepControl(env, at + len + 5, Drop, p, inner', fs);
      assert inner'[..|inner'| - 1] == stack;
      ReachesSelf(env, At(at + len + 6, p, stack, fs));
      ReachesStep(env, At(at + len + 5, p, inner', fs), At(at + len + 6, p, stack, fs));
    }
    ReachesStep(env, At(at + len, p, inner, fs), At(at + len + 6, o', stack, frames'));
    ReachesTrans(env, At(at, o, inner, frames), At(at + len, p, inner, fs), At(at + len + 6, o', stack, frames'));
  }

  /** Two or more. */
  lemma {:induction false} ManyNeverStops(env: Env, pc: nat, a: Re, cc: nat, o: Out, min: nat, stack: seq<int>,
      frames: seq<Frame>)
    requires CodeAt(env.code, pc, Exactly(Code(a, cc), min) + Star(Code(a, cc), false, false)) && min >= 2
    requires Body(env, a, cc, o) && FirstIsEmpty(env, a, cc, o)
    requires Dead(env, pc + Size(Exactly(Code(a, cc), min) + Star(Code(a, cc), false, false)), stack, o.pos, |o.caps|)
    ensures Endless(env, At(pc, o, stack, frames))
  {
    hide CodeAt, Code, Size, Body, Ready, FirstIsEmpty, Dead, Endless, Fetch, Star, Exactly, ExactlyAt, Reaches;
    var x, y := Exactly(Code(a, cc), min), Star(Code(a, cc), false, false);
    CodeSplit(env.code, pc, x, y);
    SizeAppend(x, y);
    ExactlyCode(env, pc, Code(a, cc), min);
    BodyReady(env, pc + 5, a, cc, o);
    var o', frames' := ExactlyFirst(env, pc + 5, a, cc, o, min, stack, frames);
    EmptyAgain(env, a, cc, o, o');
    StarNeverStops(env, pc + Size(x), a, cc, o', stack, frames');
    StepControl(env, pc, PushI32(min), o, stack, frames);
    ReachesStep(env, At(pc, o, stack, frames), At(pc + Size(x), o', stack, frames'));
    EndlessFrom(env, At(pc, o, stack, frames), At(pc + Size(x), o', stack, frames'));
  }

  /** Any lazy unbounded quantifier, as compiled. */
  lemma {:induction false} QuantNeverStops(env: Env, pc: nat, a: Re, cc: nat, o: Out, min: nat, stack: seq<int>,
      frames: seq<Frame>)
    requires CodeAt(env.code, pc, QuantCode(Code(a, cc), cc, Groups(a), min, INT32_MAX, false))
    requires Body(env, a, cc, o) && FirstIsEmpty(env, a, cc, o)
    requires Dead(env, pc + Size(QuantCode(Code(a, cc), cc, Groups(a), min, INT32_MAX, false)), stack, o.pos, |o.caps|)
    ensures Endless(env, At(pc, o, stack, frames))
  {
    hide CodeAt, Code, Size, FirstIsEmpty, Dead, Endless, Star, Exactly, Reset, WellFormed, LazyLoopsMove, TextOk,
      Groups, ClearCaps;
    var x := Code(a, cc);
    if min == 0 {
      var y, z := Reset(cc, Groups(a)), Star(x, false, false);
      CodeSplit(env.code, pc, y, z);
      SizeAppend(y, z);
      var p := ClearCaps(o, cc, Groups(a));
      EmptyAgain(env, a, cc, o, p);
      StarNeverStops(env, pc + Size(y), a, cc, p, stack, frames);
      ResetReaches(env, pc, cc, Groups(a), o, stack, frames);
      EndlessFrom(env, At(pc, o, stack, frames), At(pc + Size(y), p, stack, frames));
    } else if min == 1 {
      SizeAppend(x, [Split(true, -(Size(x) as int + 5))]);
      SizeOne(Split(true, -(Size(x) as int + 5)));
      PlusNeverStops(env, pc, a, cc, o, stack, frames);
    } else {
      ManyNeverStops(env, pc, a, cc, o, min, stack, frames);
    }
  }

  lemma {:induction false} ResetReaches(env: Env, pc: nat, cc: nat, n: nat, o: Out, stack: seq<int>, frames: seq<Frame>)
    requires CodeAt(env.code, pc, Reset(cc, n)) && 2 * (cc + n) <= |o.caps|
    ensures Reaches(env, At(pc, o, stack, frames), At(pc + Size(Reset(cc, n)), ClearCaps(o, cc, n), stack, frames))
  {
    hide CodeAt, Fetch, Size, ResetCaps, Reaches;
    var d := At(pc + Size(Reset(cc, n)), ClearCaps(o, cc, n), stack, frames);
    ReachesSelf(env, d);
    if n == 0 {
      SizeEmpty();
    } else {
      var i := SaveReset(cc, cc + n - 1);
      assert [i] + [] == [i];
      CodeHead(env.code, pc, i, []);
      SizeOne(i);
      StepControl(env, pc, i, o, stack, frames);
      ReachesStep(env, At(pc, o, stack, frames), d);
    }
  }

  // ----- whole programs -----

  /** The lazy loop of a, at least min times, then b. */
  function LazyThen(a: Re, min: nat, b: Re): Re {
    Cat(Quant(a, min, INT32_MAX, false), b)
  }

  /** Where the loop and what follows stand in the program. */
  lemma {:induction false} LazyCode(env: Env, a: Re, min: nat, b: Re, sticky: bool)
    requires WellFormed(LazyThen(a, min, b)) && CodeAt(env.code, 0, Program(LazyThen(a, min, b), sticky))
    ensures var s, x := Size(Prelude(sticky)), QuantCode(Code(a, 1), 1, Groups(a), min, INT32_MAX, false);
      && WellFormed(a) && WellFormed(b) && (!sticky ==> Fetch(env.code, 0) == Some(SplitGotoFirst(6)) && s == 11)
      && (sticky ==> s == 0)
      && Fetch(env.code, s) == Some(SaveStart(0)) && CodeAt(env.code, s + 2, x)
      && CodeAt(env.code, s + 2 + Size(x), Code(b, 1 + Groups(a)))
  {
    hide CodeAt, Size, Fetch, Emit, QuantCode, WellFormed;
    var q := Quant(a, min, INT32_MAX, false);
    var r := Cat(q, b);
    EmitCat(q, b, 1);
    EmitQuant(a, min, INT32_MAX, false, 1);
    var x, y := Emit(q, 1), Emit(b, 1 + Groups(a));
    var tail := [SaveEnd(0), Match];
    assert Program(r, sticky) == Prelude(sticky) + ([SaveStart(0)] + (x + (y + tail)));
    CodeSplit(env.code, 0, Prelude(sticky), [SaveStart(0)] + (x + (y + tail)));
    var s := Size(Prelude(sticky));
    CodeHead(env.code, s, SaveStart(0), x + (y + tail));
    CodeSplit(env.code, s + 2, x, y + tail);
    CodeSplit(env.code, s + 2 + Size(x), y, tail);
    PreludeSize(sticky);
    if !sticky {
      assert Prelude(sticky) == [SplitGotoFirst(6)] + [Any, Goto(-11)];
      CodeHead(env.code, 0, SplitGotoFirst(6), [Any, Goto(-11)]);
    }
  }

  /** From the start of the program to the loop. */
  lemma {:induction false} ToTheLoop(env: Env, s: nat, sticky: bool, o: Out) returns (frames: seq<Frame>)
    requires Fetch(env.code, s) == Some(SaveStart(0)) && |o.caps| > 0
    requires s == (if sticky then 0 else 11) && (!sticky ==> Fetch(env.code, 0) == Some(SplitGotoFirst(6)))
    ensures Reaches(env, At(0, o, [], []), At(s + 2, SetCap(o, 0), [], frames))
  {
    hide Fetch, Reaches;
    frames := if sticky then [] else [Frame(SplitFrame, 5, o.pos, o.caps, [], 0)];
    var d := At(s + 2, SetCap(o, 0), [], frames);
    ReachesSelf(env, d);
    StepControl(env, s, SaveStart(0), o, [], frames);
    ReachesStep(env, At(s, o, [], frames), d);
    if !sticky {
      StepControl(env, 0, SplitGotoFirst(6), o, [], []);
      assert [] + frames == frames;
      ReachesStep(env, At(0, o, [], []), d);
    }
  }

  /**
   Every pattern that starts with a lazy unbounded loop, on every text and from every start
   where the body's first match takes nothing and the rest of the pattern does not match: the
   machine runs for ever.
   */
  lemma {:induction false} LazyPatternNeverStops(env: Env, a: Re, min: nat, b: Re, sticky: bool, pos: nat)
    requires WellFormed(LazyThen(a, min, b)) && LazyLoopsMove(a) && LazyLoopsMove(b) && TextOk(env.text)
    requires pos <= |env.text.input|
    requires CodeAt(env.code, 0, Program(LazyThen(a, min, b), sticky))
    requires var o := Out(pos, NoCaptures(1 + Groups(LazyThen(a, min, b))));
      FirstIsEmpty(env, a, 1, o) && Outs(env, b, 1 + Groups(a), o) == []
    ensures Endless(env, Initial(pos, Groups(LazyThen(a, min, b))))
  {
    hide CodeAt, Size, Fetch, Emit, QuantCode, WellFormed, LazyLoopsMove, TextOk, Endless, Outs, Reaches, Dead;
    var r, g := LazyThen(a, min, b), Groups(LazyThen(a, min, b));
    assert g == Groups(a) + Groups(b);
    var o := Out(pos, NoCaptures(1 + g));
    LazyCode(env, a, min, b, sticky);
    var s, x := Size(Prelude(sticky)), QuantCode(Code(a, 1), 1, Groups(a), min, INT32_MAX, false);
    PreludeSize(sticky);
    var frames := ToTheLoop(env, s, sticky, o);
    var p := SetCap(o, 0);
    AnyCaptures(env, a, 1, o, p);
    NoMatchDead(env, s + 2 + Size(x), b, 1 + Groups(a), o, []);
    QuantNeverStops(env, s + 2, a, 1, p, min, [], frames);
    EndlessFrom(env, At(0, o, [], []), At(s + 2, p, [], frames));
  }
}
