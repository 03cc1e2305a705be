/**
 Running compiled code: for every well-formed expression whose lazy unbounded loops
 take characters, and every text, the machine stops, and what it reports is the first match of the expression.
 */
module ReTheorem {
  import opened Basics
  import opened ReCode
  import opened ReText
  import opened ReSyntax
  import opened ReVm
  import opened ReSpec
  import opened ReYields
  import opened ReMoves
  import opened ReMeaning
  import opened ReSteps
  import opened ReCorrect

  ghost function SearchOuts(env: Env, r: Re, o: Out, sticky: bool): seq<Out> {
    if o.pos <= |env.text.input| then Search(r, env.text, o, sticky, AsWritten) else []
  }

  lemma {:induction false} SearchIs(env: Env, r: Re, o: Out, sticky: bool)
    requires o.pos <= |env.text.input|
    ensures SearchOuts(env, r, o, sticky)
         == Outs(env, Capture(r), 0, o)
             + (if sticky || o.pos == |env.text.input| then [] else SearchOuts(env, r, o.(pos := o.pos + 1), sticky))
  {
    hide Matches;
  }

  lemma ProgramIs(r: Re, sticky: bool)
    requires WellFormed(r)
    ensures WellFormed(Capture(r)) && Program(r, sticky) == Prelude(sticky) + (Code(Capture(r), 0) + [Match])
  {
    hide Emit, Prelude;
    var x := Emit(r, 1);
    EmitCapture(r, 0);
    assert Program(r, sticky) == Prelude(sticky) + ([SaveStart(0)] + x + [SaveEnd(0)] + [Match]);
  }

  /** Where the code of the expression, and the final match, stand in the program. */
  ghost predicate ProgramAt(env: Env, r: Re, sticky: bool) {
    var start := Size(Prelude(sticky));
    && WellFormed(r) && LazyLoopsMove(r) && TextOk(env.text)
    && CodeAt(env.code, start, Code(Capture(r), 0))
    && Fetch(env.code, start + Len(Capture(r), 0)) == Some(Match)
    && (!sticky ==>
         start == 11 && Fetch(env.code, 0) == Some(SplitGotoFirst(6)) && Fetch(env.code, 5) == Some(Any)
             && Fetch(env.code, 6) == Some(Goto(-11)))
    && (sticky ==> start == 0)
  }

  /** The search loop in front of the expression. */
  lemma {:induction false} PreludeCode(code: seq<Byte>)
    requires CodeAt(code, 0, Prelude(false))
    ensures Fetch(code, 0) == Some(SplitGotoFirst(6)) && Fetch(code, 5) == Some(Any)
    ensures Fetch(code, 6) == Some(Goto(-11))
  {
    hide CodeAt, Fetch;
    assert Prelude(false) == [SplitGotoFirst(6)] + ([Any] + ([Goto(-11)] + []));
    CodeHead(code, 0, SplitGotoFirst(6), [Any] + ([Goto(-11)] + []));
    CodeHead(code, 5, Any, [Goto(-11)] + []);
    CodeHead(code, 6, Goto(-11), []);
  }

  lemma {:induction false} PreludeSize(sticky: bool)
    ensures Size(Prelude(sticky)) == if sticky then 0 else 11
  {
    hide Size;
    SizeEmpty();
    if !sticky {
      assert Prelude(sticky) == [SplitGotoFirst(6)] + ([Any] + ([Goto(-11)] + []));
      SizeTail(SplitGotoFirst(6), [Any] + ([Goto(-11)] + []));
      SizeTail(Any, [Goto(-11)] + []);
      SizeTail(Goto(-11), []);
    }
  }

  lemma {:induction false} ProgramFound(env: Env, r: Re, sticky: bool)
    requires WellFormed(r) && LazyLoopsMove(r) && TextOk(env.text) && CodeAt(env.code, 0, Program(r, sticky))
    ensures ProgramAt(env, r, sticky)
  {
    hide CodeAt, Code, Size, Fetch, TextOk, WellFormed, LazyLoopsMove, Program, Prelude;
    ProgramIs(r, sticky);
    var x := Code(Capture(r), 0);
    CodeSplit(env.code, 0, Prelude(sticky), x + [Match]);
    var start := Size(Prelude(sticky));
    CodeSplit(env.code, start, x, [Match]);
    assert [Match] == [Match] + [];
    CodeHead(env.code, start + Size(x), Match, []);
    PreludeSize(sticky);
    if !sticky {
      PreludeCode(env.code);
    }
  }

  /** Captures before the match. */
  function NoCaptures(n: nat): Captures {
    seq(2 * n, _ => None)
  }

  /** Group 0 and the expression, from one start. */
  lemma {:induction false} HereContinues(env: Env, r: Re, o: Out, sticky: bool)
    requires ProgramAt(env, r, sticky) && o.pos <= |env.text.input| && 2 * (1 + Groups(r)) <= |o.caps|
    ensures var start := Size(Prelude(sticky));
      Continues(env, start, [], o, start + Len(Capture(r), 0), [], Outs(env, Capture(r), 0, o))
  {
    hide Yields, Outs, CodeAt, Code, Size, Fetch, TextOk;
    var start := Size(Prelude(sticky));
    forall frames
      ensures Yields(env, At(start, o, [], frames), frames, start + Len(Capture(r), 0), [], Outs(env, Capture(r), 0, o))
    {
      assert Ready(env, start, Capture(r), 0, o);
      Correct(env, start, Capture(r), 0, o, [], frames);
    }
  }

  /** One character further, and back to the start. */
  lemma {:induction false} NextStart(env: Env, o: Out, end: nat, res: seq<Out>)
    requires Fetch(env.code, 5) == Some(Any) && Fetch(env.code, 6) == Some(Goto(-11)) && o.pos < |env.text.input|
    requires Continues(env, 0, [], o.(pos := o.pos + 1), end, [], res)
    ensures Continues(env, 5, [], o, end, [], res)
  {
    hide Fetch, Yields;
    var o' := o.(pos := o.pos + 1);
    forall frames
      ensures Yields(env, At(5, o, [], frames), frames, end, [], res)
    {
      StepSimple(env, 5, Any, o, [], frames);
      StepControl(env, 6, Goto(-11), o', [], frames);
      assert Yields(env, At(0, o', [], frames), frames, end, [], res);
      YieldsStep(env, At(6, o', [], frames), frames, end, [], res);
      YieldsStep(env, At(5, o, [], frames), frames, end, [], res);
    }
  }

  lemma {:induction false} NoNextStart(env: Env, o: Out, end: nat)
    requires Fetch(env.code, 5) == Some(Any) && o.pos == |env.text.input|
    ensures Continues(env, 5, [], o, end, [], [])
  {
    hide Fetch, Yields;
    forall frames
      ensures Yields(env, At(5, o, [], frames), frames, end, [], [])
    {
      StepSimple(env, 5, Any, o, [], frames);
      YieldsNone(env, frames, end, []);
      YieldsStep(env, At(5, o, [], frames), frames, end, [], []);
    }
  }

  lemma {:induction false} SearchContinues(env: Env, r: Re, o: Out, sticky: bool)
    requires ProgramAt(env, r, sticky) && o.pos <= |env.text.input| && 2 * (1 + Groups(r)) <= |o.caps|
    ensures Continues(env, 0, [], o, Size(Prelude(sticky)) + Len(Capture(r), 0), [], SearchOuts(env, r, o, sticky))
    decreases |env.text.input| - o.pos
  {
    hide Continues, Outs, SearchOuts, CodeAt, Code, Fetch, TextOk, WellFormed, LazyLoopsMove, Groups, Size;
    HereContinues(env, r, o, sticky);
    SearchIs(env, r, o, sticky);
    var end := Size(Prelude(sticky)) + Len(Capture(r), 0);
    var here := Outs(env, Capture(r), 0, o);
    if sticky {
      assert here + [] == here;
    } else {
      var later := if o.pos == |env.text.input| then [] else SearchOuts(env, r, o.(pos := o.pos + 1), sticky);
      if o.pos == |env.text.input| {
        NoNextStart(env, o, end);
      } else {
        SearchContinues(env, r, o.(pos := o.pos + 1), sticky);
        NextStart(env, o, end, later);
      }
      ContinuesSplit(env, 0, false, 6, o, [], end, [], later, here);
    }
  }

  /** The machine's start: no captures, no counters, nothing saved. */
  function Initial(pos: nat, groups: nat): Config {
    Thread(0, pos, NoCaptures(1 + groups), [], [])
  }

  /** What the machine should report. */
  function Verdict(outs: seq<Out>): Config {
    if outs == [] then Done(false, []) else Done(true, outs[0].caps)
  }

  /**
   Main theorem. The compiled program, run on any text from any start, comes to a stop and
   reports the first of the expression's matches in order of preference with its captures,
   or that there is none.
   */
  lemma {:induction false} RunsToFirstMatch(env: Env, r: Re, sticky: bool, pos: nat)
    requires WellFormed(r) && LazyLoopsMove(r) && TextOk(env.text) && CodeAt(env.code, 0, Program(r, sticky))
    requires pos <= |env.text.input|
    ensures Reaches(env, Initial(pos, Groups(r)),
        Verdict(Search(r, env.text, Out(pos, NoCaptures(1 + Groups(r))), sticky, AsWritten)))
  {
    hide Reaches, Extends, CodeAt, Fetch, TextOk, WellFormed, LazyLoopsMove, Groups, Size, Search, ProgramAt, Code;
    var o := Out(pos, NoCaptures(1 + Groups(r)));
    ProgramFound(env, r, sticky);
    MatchFound(env, r, sticky);
    SearchContinues(env, r, o, sticky);
    var end := Size(Prelude(sticky)) + Len(Capture(r), 0);
    var outs := SearchOuts(env, r, o, sticky);
    assert Yields(env, At(0, o, [], []), [], end, [], outs);
    if outs == [] {
      LastFailure(env, At(0, o, [], []));
    } else {
      var frames :| Extends([], frames) && Reaches(env, At(0, o, [], []), At(end, outs[0], [], frames));
      LastSuccess(env, At(0, o, [], []), end, outs[0], frames);
    }
  }

  lemma MatchFound(env: Env, r: Re, sticky: bool)
    requires ProgramAt(env, r, sticky)
    ensures Fetch(env.code, Size(Prelude(sticky)) + Len(Capture(r), 0)) == Some(Match)
  {
  }

  lemma {:induction false} LastFailure(env: Env, c: Config)
    requires Reaches(env, c, Failing([]))
    ensures Reaches(env, c, Done(false, []))
  {
    hide Reaches;
    ReachesSelf(env, Done(false, []));
    ReachesStep(env, Failing([]), Done(false, []));
    ReachesTrans(env, c, Failing([]), Done(false, []));
  }

  lemma {:induction false} LastSuccess(env: Env, c: Config, end: nat, o: Out, frames: seq<Frame>)
    requires Fetch(env.code, end) == Some(Match) && Extends([], frames) && Reaches(env, c, At(end, o, [], frames))
    ensures Reaches(env, c, Done(true, o.caps))
  {
    hide Reaches, Fetch, Extends;
    StepControl(env, end, Match, o, [], frames);
    ReachesSelf(env, Done(true, o.caps));
    ReachesStep(env, Succeeding(o.caps, []), Done(true, o.caps));
    Unwind(env, o.caps, [], frames);
    ReachesTrans(env, Succeeding(o.caps, frames), Succeeding(o.caps, []), Done(true, o.caps));
    ReachesStep(env, At(end, o, [], frames), Done(true, o.caps));
    ReachesTrans(env, c, At(end, o, [], frames), Done(true, o.caps));
  }
}
