/** What the pieces of emitted code do, whatever stands between them. */
module ReSteps {
  import opened Basics
  import opened ReCode
  import opened ReText
  import opened ReSyntax
  import opened ReVm
  import opened ReSpec
  import opened ReYields
  import opened ReMeaning

  // ----- single steps -----

  lemma StepSimple(env: Env, pc: nat, i: Instr, o: Out, stack: seq<int>, frames: seq<Frame>)
    requires Fetch(env.code, pc) == Some(i) && (IsCharInstr(i) || IsAssertion(i))
    ensures Step(env, At(pc, o, stack, frames)) == match Simple(env, i, o.pos) {
      case None => Failing(frames)
      case Some(p) => At(pc + InstrSize(i), o.(pos := p), stack, frames)
    }
  {
    hide Fetch, Simple;
  }

  lemma StepControl(env: Env, pc: nat, i: Instr, o: Out, stack: seq<int>, frames: seq<Frame>)
    requires Fetch(env.code, pc) == Some(i) && !IsCharInstr(i) && !IsAssertion(i)
    ensures Step(env, At(pc, o, stack, frames))
        == ExecControl(env, i, pc, pc + InstrSize(i), o.pos, o.caps, stack, frames)
  {
    hide Fetch, ExecControl;
  }

  lemma {:induction false} SimpleYields(env: Env, pc: nat, i: Instr, o: Out, stack: seq<int>, base: seq<Frame>)
    requires CodeAt(env.code, pc, [i]) && (IsCharInstr(i) || IsAssertion(i))
    ensures Yields(env, At(pc, o, stack, base), base, pc + Size([i]), stack, SimpleOuts(env, i, o))
  {
    hide Yields, CodeAt, Step, Simple, Fetch;
    assert [i] == [i] + [];
    CodeHead(env.code, pc, i, []);
    SizeOne(i);
    StepSimple(env, pc, i, o, stack, base);
    match Simple(env, i, o.pos) {
      case None => YieldsNone(env, base, pc + Size([i]), stack);
      case Some(p) => YieldsSelf(env, base, pc + Size([i]), stack, o.(pos := p));
    }
    YieldsStep(env, At(pc, o, stack, base), base, pc + Size([i]), stack, SimpleOuts(env, i, o));
  }

  /** Outcomes at a jump. */
  lemma {:induction false} YieldsGoto(env: Env, c: Config, base: seq<Frame>, mid: nat, off: int, stack: seq<int>,
      outs: seq<Out>)
    requires Yields(env, c, base, mid, stack, outs) && Fetch(env.code, mid) == Some(Goto(off)) && mid + 5 + off >= 0
    ensures Yields(env, c, base, mid + 5 + off, stack, outs)
  {
    hide Yields, Fetch, Leads;
    forall i | 0 <= i < |outs|
      ensures Leads(env, mid, outs[i], stack, mid + 5 + off, outs[i], stack)
    {
      forall frames
        ensures Step(env, At(mid, outs[i], stack, frames)) == At(mid + 5 + off, outs[i], stack, frames)
      {
        StepControl(env, mid, Goto(off), outs[i], stack, frames);
      }
      LeadsStep(env, mid, outs[i], stack, mid + 5 + off, outs[i], stack);
    }
    YieldsVia(env, c, base, mid, stack, outs, mid + 5 + off, stack, outs);
  }

  /** First the outcomes with a choice left open for later, then those of the choice. */
  lemma {:induction false} YieldsChoice(env: Env, c: Config, f: Frame, base: seq<Frame>, end: nat, stack: seq<int>,
      first: seq<Out>, second: seq<Out>)
    requires f.kind.SplitFrame? && Yields(env, c, base + [f], end, stack, first)
    requires Yields(env, Thread(f.pc, f.pos, f.caps, f.stack, base), base, end, stack, second)
    ensures Yields(env, c, base, end, stack, first + second)
  {
    hide Yields;
    var upper := base + [f];
    assert upper[..|upper| - 1] == base;
    ExtendsOne(base, f);
    YieldsStep(env, Failing(upper), base, end, stack, second);
    YieldsAppend(env, c, upper, base, end, stack, first, second);
  }

  lemma {:induction false} SaveEndLeads(env: Env, mid: nat, k: nat, o: Out, stack: seq<int>)
    requires Fetch(env.code, mid) == Some(SaveEnd(k)) && 2 * k + 1 < |o.caps|
    ensures Leads(env, mid, o, stack, mid + 2, SetCap(o, 2 * k + 1), stack)
  {
    hide Fetch, Leads;
    forall frames
      ensures Step(env, At(mid, o, stack, frames)) == At(mid + 2, SetCap(o, 2 * k + 1), stack, frames)
    {
      StepControl(env, mid, SaveEnd(k), o, stack, frames);
    }
    LeadsStep(env, mid, o, stack, mid + 2, SetCap(o, 2 * k + 1), stack);
  }

  function LookInstr(negated: bool, off: int): Instr {
    if negated then NegativeLookahead(off) else Lookahead(off)
  }

  /** The body reaches its match, or fails; the saved state decides what that means. */
  lemma {:induction false} LookBody(env: Env, c: Config, negated: bool, o: Out, stack: seq<int>, base: seq<Frame>,
      mid: nat, end: nat, m: seq<Out>)
    requires Fetch(env.code, mid) == Some(Match)
    requires var f := Frame(if negated then NotAheadFrame else AheadFrame, end, o.pos, o.caps, stack, 0);
      Yields(env, c, base + [f], mid, stack, m)
    ensures Yields(env, c, base, end, stack, LookOuts(negated, o, m))
  {
    hide Reaches, Extends, Fetch;
    var f := Frame(if negated then NotAheadFrame else AheadFrame, end, o.pos, o.caps, stack, 0);
    var upper := base + [f];
    assert upper[..|upper| - 1] == base && upper[|upper| - 1] == f;
    YieldsNone(env, base, end, stack);
    if m == [] {
      if negated {
        YieldsSelf(env, base, end, stack, o);
      }
      YieldsStep(env, Failing(upper), base, end, stack, LookOuts(negated, o, m));
      YieldsFrom(env, c, Failing(upper), base, end, stack, LookOuts(negated, o, m));
    } else {
      var frames :| Extends(upper, frames) && Reaches(env, c, At(mid, m[0], stack, frames));
      hide Yields;
      StepControl(env, mid, Match, m[0], stack, frames);
      Unwind(env, m[0].caps, upper, frames);
      ReachesStep(env, At(mid, m[0], stack, frames), Succeeding(m[0].caps, upper));
      ReachesTrans(env, c, At(mid, m[0], stack, frames), Succeeding(m[0].caps, upper));
      if !negated {
        YieldsSelf(env, base, end, stack, Out(o.pos, m[0].caps));
      }
      YieldsStep(env, Succeeding(m[0].caps, upper), base, end, stack, LookOuts(negated, o, m));
      YieldsFrom(env, c, Succeeding(m[0].caps, upper), base, end, stack, LookOuts(negated, o, m));
    }
  }

  // ----- whatever the frames -----

  /** From `back`, whatever the frames, the machine goes on to yield res. */
  ghost predicate Continues(env: Env, back: nat, inner: seq<int>, o: Out, end: nat, stack: seq<int>, res: seq<Out>) {
    forall frames :: Yields(env, At(back, o, inner, frames), frames, end, stack, res)
  }

  lemma {:induction false} ContinuesSelf(env: Env, end: nat, stack: seq<int>, o: Out)
    ensures Continues(env, end, stack, o, end, stack, [o])
  {
    hide Yields;
    forall frames
      ensures Yields(env, At(end, o, stack, frames), frames, end, stack, [o])
    {
      YieldsSelf(env, frames, end, stack, o);
    }
  }

  /** One step before. */
  lemma {:induction false} ContinuesStep(env: Env, pc: nat, inner: seq<int>, o: Out, pc': nat, inner': seq<int>,
      end: nat, stack: seq<int>, res: seq<Out>)
    requires forall frames :: Step(env, At(pc, o, inner, frames)) == At(pc', o, inner', frames)
    requires Continues(env, pc', inner', o, end, stack, res)
    ensures Continues(env, pc, inner, o, end, stack, res)
  {
    hide Yields, Step;
    forall frames
      ensures Yields(env, At(pc, o, inner, frames), frames, end, stack, res)
    {
      assert Step(env, At(pc, o, inner, frames)) == At(pc', o, inner', frames);
      assert Yields(env, At(pc', o, inner', frames), frames, end, stack, res);
      YieldsStep(env, At(pc, o, inner, frames), frames, end, stack, res);
    }
  }

  lemma {:induction false} ContinuesTo(env: Env, pc: nat, o: Out, inner: seq<int>, pc': nat, o': Out, end: nat,
      stack: seq<int>, res: seq<Out>)
    requires forall frames :: Step(env, At(pc, o, inner, frames)) == At(pc', o', inner, frames)
    requires Continues(env, pc', inner, o', end, stack, res)
    ensures Continues(env, pc, inner, o, end, stack, res)
  {
    hide Yields, Step;
    forall frames
      ensures Yields(env, At(pc, o, inner, frames), frames, end, stack, res)
    {
      assert Step(env, At(pc, o, inner, frames)) == At(pc', o', inner, frames);
      assert Yields(env, At(pc', o', inner, frames), frames, end, stack, res);
      YieldsStep(env, At(pc, o, inner, frames), frames, end, stack, res);
    }
  }

  /** A split: x from the next instruction, y from the target, in the order the split asks for. */
  lemma {:induction false} YieldsSplit(env: Env, pc: nat, nextFirst: bool, off: int, o: Out, stack: seq<int>,
      base: seq<Frame>, end: nat, stack': seq<int>, x: seq<Out>, y: seq<Out>)
    requires Fetch(env.code, pc) == Some(Split(nextFirst, off)) && pc + 5 + off >= 0
    requires Continues(env, pc + 5, stack, o, end, stack', x) && Continues(env, pc + 5 + off, stack, o, end, stack', y)
    ensures Yields(env, At(pc, o, stack, base), base, end, stack', if nextFirst then x + y else y + x)
  {
    hide Yields, Fetch, Step;
    StepControl(env, pc, Split(nextFirst, off), o, stack, base);
    var f := Frame(SplitFrame, if nextFirst then pc + 5 + off else pc + 5, o.pos, o.caps, stack, 0);
    var first := if nextFirst then pc + 5 else pc + 5 + off;
    assert Yields(env, At(first, o, stack, base + [f]), base + [f], end, stack', if nextFirst then x else y);
    assert Yields(env, At(f.pc, o, stack, base), base, end, stack', if nextFirst then y else x);
    YieldsChoice(env, At(first, o, stack, base + [f]), f, base, end, stack', if nextFirst then x else y, if nextFirst
        then y else x);
    YieldsStep(env, At(pc, o, stack, base), base, end, stack', if nextFirst then x + y else y + x);
  }

  lemma {:induction false} ContinuesSplit(env: Env, pc: nat, nextFirst: bool, off: int, o: Out, stack: seq<int>,
      end: nat, stack': seq<int>, x: seq<Out>, y: seq<Out>)
    requires Fetch(env.code, pc) == Some(Split(nextFirst, off)) && pc + 5 + off >= 0
    requires Continues(env, pc + 5, stack, o, end, stack', x) && Continues(env, pc + 5 + off, stack, o, end, stack', y)
    ensures Continues(env, pc, stack, o, end, stack', if nextFirst then x + y else y + x)
  {
    hide Yields, Fetch;
    forall frames
      ensures Yields(env, At(pc, o, stack, frames), frames, end, stack', if nextFirst then x + y else y + x)
    {
      hide Continues;
      YieldsSplit(env, pc, nextFirst, off, o, stack, frames, end, stack', x, y);
    }
  }

  // ----- unbounded loops -----

  function Check(check: bool): nat {
    if check then 1 else 0
  }

  ghost predicate StarAt(env: Env, pc: nat, len: nat, greedy: bool, check: bool) {
    var z := Check(check);
    && Fetch(env.code, pc) == Some(Split(greedy, len + 5 + z))
    && (check ==> Fetch(env.code, pc + 5) == Some(PushCharPos))
    && Fetch(env.code, pc + 5 + z + len) == Some(if check then BneCharPos(-(len + 11)) else Goto(-(len + 10)))
  }

  lemma {:induction false} StarCode(env: Env, pc: nat, x: seq<Instr>, greedy: bool, check: bool)
    requires CodeAt(env.code, pc, Star(x, greedy, check))
    ensures StarAt(env, pc, Size(x), greedy, check) && CodeAt(env.code, pc + 5 + Check(check), x)
    ensures Size(Star(x, greedy, check)) == 10 + Check(check) + Size(x)
  {
    hide CodeAt, Size, Fetch;
    var len := Size(x);
    var i, j := Split(greedy, len + 5 + Check(check)), if check then BneCharPos(-(len + 11)) else Goto(-(len + 10));
    var tail := x + ([j] + []);
    assert [j] + [] == [j];
    if check {
      assert Star(x, greedy, check) == [i] + ([PushCharPos] + tail);
      CodeHead(env.code, pc, i, [PushCharPos] + tail);
      CodeHead(env.code, pc + 5, PushCharPos, tail);
      SizeAppend([i], [PushCharPos] + tail);
      SizeAppend([PushCharPos], tail);
      SizeOne(PushCharPos);
    } else {
      assert Star(x, greedy, check) == [i] + tail;
      CodeHead(env.code, pc, i, tail);
      SizeAppend([i], tail);
    }
    SizeOne(i);
    SizeOne(j);
    SizeAppend(x, [j]);
    CodeSplit(env.code, pc + 5 + Check(check), x, [j] + []);
    CodeHead(env.code, pc + 5 + Check(check) + len, j, []);
  }

  /** The jump at the end of the body goes back to the split. */
  lemma {:induction false} StarBack(env: Env, pc: nat, len: nat, greedy: bool, check: bool, p: nat, o: Out,
      stack: seq<int>, end: nat, res: seq<Out>)
    requires StarAt(env, pc, len, greedy, check) && p != o.pos && Continues(env, pc, stack, o, end, stack, res)
    ensures Continues(env, pc + 5 + Check(check) + len, if check then stack + [p] else stack, o, end, stack, res)
  {
    hide Fetch, Continues;
    var back := pc + 5 + Check(check) + len;
    var inner := if check then stack + [p] else stack;
    var i := if check then BneCharPos(-(len + 11)) else Goto(-(len + 10));
    forall frames
      ensures Step(env, At(back, o, inner, frames)) == At(pc, o, stack, frames)
    {
      StepControl(env, back, i, o, inner, frames);
      assert check ==> inner[..|inner| - 1] == stack;
    }
    ContinuesStep(env, back, inner, o, pc, stack, end, stack, res);
  }

  /** A body that took nothing falls through the check, to the end of the loop. */
  lemma {:induction false} StarStop(env: Env, pc: nat, len: nat, greedy: bool, o: Out, stack: seq<int>)
    requires StarAt(env, pc, len, greedy, true)
    ensures Continues(env, pc + 6 + len, stack + [o.pos], o, pc + 11 + len, stack, [o])
  {
    hide Fetch, Continues;
    var back, end, inner: seq<int> := pc + 6 + len, pc + 11 + len, stack + [o.pos];
    assert inner[..|inner| - 1] == stack;
    forall frames
      ensures Step(env, At(back, o, inner, frames)) == At(end, o, stack, frames)
    {
      StepControl(env, back, BneCharPos(-(len + 11)), o, inner, frames);
    }
    ContinuesSelf(env, end, stack, o);
    ContinuesStep(env, back, inner, o, end, stack, end, stack, [o]);
  }

  /** The way into the body. */
  lemma {:induction false} StarEnter(env: Env, pc: nat, len: nat, greedy: bool, check: bool, o: Out, stack: seq<int>,
      end: nat, res: seq<Out>)
    requires StarAt(env, pc, len, greedy, check)
    requires Continues(env, pc + 5 + Check(check), if check then stack + [o.pos] else stack, o, end, stack, res)
    ensures Continues(env, pc + 5, stack, o, end, stack, res)
  {
    hide Fetch, Continues;
    if check {
      var at, inner := pc + 5, stack + [o.pos];
      forall frames
        ensures Step(env, At(at, o, stack, frames)) == At(at + 1, o, inner, frames)
      {
        StepControl(env, at, PushCharPos, o, stack, frames);
      }
      ContinuesStep(env, at, stack, o, at + 1, inner, end, stack, res);
    }
  }

  lemma StarSplit(env: Env, pc: nat, len: nat, greedy: bool, check: bool)
    requires StarAt(env, pc, len, greedy, check)
    ensures Fetch(env.code, pc) == Some(Split(greedy, len + 5 + Check(check)))
  {
  }

  // ----- counted loops -----

  /** Pushing a constant. */
  lemma {:induction false} PushContinues(env: Env, pc: nat, n: nat, o: Out, stack: seq<int>, end: nat, res: seq<Out>)
    requires Fetch(env.code, pc) == Some(PushI32(n)) && Continues(env, pc + 5, stack + [n], o, end, stack, res)
    ensures Continues(env, pc, stack, o, end, stack, res)
  {
    hide Fetch, Continues;
    var inner: seq<int> := stack + [n];
    forall frames
      ensures Step(env, At(pc, o, stack, frames)) == At(pc + 5, o, inner, frames)
    {
      StepControl(env, pc, PushI32(n), o, stack, frames);
    }
    ContinuesStep(env, pc, stack, o, pc + 5, inner, end, stack, res);
  }

  /** Dropping the counter. */
  lemma {:induction false} DropContinues(env: Env, pc: nat, stack: seq<int>, k: int, o: Out, end: nat, res: seq<Out>)
    requires Fetch(env.code, pc) == Some(Drop) && Continues(env, pc + 1, stack, o, end, stack, res)
    ensures Continues(env, pc, stack + [k], o, end, stack, res)
  {
    hide Fetch, Continues;
    var inner := stack + [k];
    assert inner[..|inner| - 1] == stack;
    forall frames
      ensures Step(env, At(pc, o, inner, frames)) == At(pc + 1, o, stack, frames)
    {
      StepControl(env, pc, Drop, o, inner, frames);
    }
    ContinuesStep(env, pc, inner, o, pc + 1, stack, end, stack, res);
  }

  /** Counting down: back to the start of the loop, or on to the next instruction. */
  lemma {:induction false} LoopContinues(env: Env, pc: nat, off: int, stack: seq<int>, k: int, o: Out, end: nat,
      res: seq<Out>)
    requires Fetch(env.code, pc) == Some(Loop(off)) && pc + 5 + off >= 0
    requires Continues(env, if k - 1 != 0 then pc + 5 + off else pc + 5, stack + [k - 1], o, end, stack, res)
    ensures Continues(env, pc, stack + [k], o, end, stack, res)
  {
    hide Fetch, Continues;
    var inner, inner' := stack + [k], stack + [k - 1];
    var next := if k - 1 != 0 then pc + 5 + off else pc + 5;
    assert inner[..|inner| - 1] == stack && inner[|inner| - 1] == k;
    forall frames
      ensures Step(env, At(pc, o, inner, frames)) == At(next, o, inner', frames)
    {
      StepControl(env, pc, Loop(off), o, inner, frames);
    }
    ContinuesStep(env, pc, inner, o, next, inner', end, stack, res);
  }

  /** The loop of UpTo, from its split on. */
  ghost predicate UpToAt(env: Env, pc: nat, len: nat, greedy: bool) {
    && Fetch(env.code, pc) == Some(Split(greedy, len + 5))
    && Fetch(env.code, pc + 5 + len) == Some(Loop(-(len + 10))) && Fetch(env.code, pc + 10 + len) == Some(Drop)
  }

  lemma {:induction false} UpToCode(env: Env, pc: nat, x: seq<Instr>, n: nat, greedy: bool)
    requires CodeAt(env.code, pc, UpTo(x, n, greedy))
    ensures Fetch(env.code, pc) == Some(PushI32(n)) && UpToAt(env, pc + 5, Size(x), greedy)
    ensures CodeAt(env.code, pc + 10, x)
    ensures Size(UpTo(x, n, greedy)) == 16 + Size(x)
  {
    hide CodeAt, Size, Fetch;
    var len: int := Size(x);
    var h, i, j := PushI32(n), Split(greedy, len + 5), Loop(-(len + 10));
    assert UpTo(x, n, greedy) == [h] + ([i] + (x + ([j] + ([Drop] + []))));
    CodeHead(env.code, pc, h, [i] + (x + ([j] + ([Drop] + []))));
    CodeHead(env.code, pc + 5, i, x + ([j] + ([Drop] + [])));
    CodeSplit(env.code, pc + 10, x, [j] + ([Drop] + []));
    CodeHead(env.code, pc + 10 + len, j, [Drop] + []);
    CodeHead(env.code, pc + 15 + len, Drop, []);
    SizeTail(h, [i] + (x + ([j] + ([Drop] + []))));
    SizeTail(i, x + ([j] + ([Drop] + [])));
    SizeAppend(x, [j] + ([Drop] + []));
    SizeTail(j, [Drop] + []);
    SizeTail(Drop, []);
    SizeEmpty();
  }

  ghost predicate ExactlyAt(env: Env, at: nat, len: nat) {
    Fetch(env.code, at + len) == Some(Loop(-(len + 5))) && Fetch(env.code, at + len + 5) == Some(Drop)
  }

  lemma {:induction false} ExactlyCode(env: Env, pc: nat, x: seq<Instr>, n: nat)
    requires CodeAt(env.code, pc, Exactly(x, n))
    ensures Fetch(env.code, pc) == Some(PushI32(n)) && ExactlyAt(env, pc + 5, Size(x)) && CodeAt(env.code, pc + 5, x)
    ensures Size(Exactly(x, n)) == 11 + Size(x)
  {
    hide CodeAt, Size, Fetch;
    var len: int := Size(x);
    var h, j := PushI32(n), Loop(-(len + 5));
    assert Exactly(x, n) == [h] + (x + ([j] + ([Drop] + [])));
    CodeHead(env.code, pc, h, x + ([j] + ([Drop] + [])));
    CodeSplit(env.code, pc + 5, x, [j] + ([Drop] + []));
    CodeHead(env.code, pc + 5 + len, j, [Drop] + []);
    CodeHead(env.code, pc + 10 + len, Drop, []);
    SizeTail(h, x + ([j] + ([Drop] + [])));
    SizeAppend(x, [j] + ([Drop] + []));
    SizeTail(j, [Drop] + []);
    SizeTail(Drop, []);
    SizeEmpty();
  }

  /** Clearing the captures of a loop that may be skipped. */
  lemma {:induction false} ResetContinues(env: Env, pc: nat, cc: nat, n: nat, o: Out, stack: seq<int>, end: nat,
      res: seq<Out>)
    requires CodeAt(env.code, pc, Reset(cc, n)) && 2 * (cc + n) <= |o.caps|
    requires Continues(env, pc + Size(Reset(cc, n)), stack, ClearCaps(o, cc, n), end, stack, res)
    ensures Continues(env, pc, stack, o, end, stack, res)
  {
    hide Continues, CodeAt, Fetch, Size, ResetCaps;
    if n == 0 {
      SizeEmpty();
    } else {
      var i := SaveReset(cc, cc + n - 1);
      assert [i] + [] == [i];
      CodeHead(env.code, pc, i, []);
      SizeOne(i);
      var o' := ClearCaps(o, cc, n);
      forall frames
        ensures Step(env, At(pc, o, stack, frames)) == At(pc + 3, o', stack, frames)
      {
        StepControl(env, pc, i, o, stack, frames);
      }
      ContinuesTo(env, pc, o, stack, pc + 3, o', end, stack, res);
    }
  }

  lemma SizeTail(i: Instr, t: seq<Instr>)
    ensures Size([i] + t) == InstrSize(i) + Size(t)
  {
    SizeAppend([i], t);
    SizeOne(i);
  }

  lemma SizeEmpty()
    ensures Size([]) == 0
  {
  }
}
