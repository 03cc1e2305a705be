/**
 What a piece of code yields: started at some point, the machine arrives at the end of the
 code with one outcome after the other, each time it is made to fail, until none is left.
 */
module ReYields {
  import opened ReText
  import opened ReVm
  import opened ReSpec

  /** More frames above base, all of them choices still open. */
  predicate Extends(base: seq<Frame>, frames: seq<Frame>) {
    base <= frames && forall i | |base| <= i < |frames| :: frames[i].kind.SplitFrame? || frames[i].kind.GreedyFrame?
  }

  lemma ExtendsTrans(a: seq<Frame>, b: seq<Frame>, c: seq<Frame>)
    requires Extends(a, b) && Extends(b, c)
    ensures Extends(a, c)
  {
  }

  lemma ExtendsOne(base: seq<Frame>, f: Frame)
    requires f.kind.SplitFrame? || f.kind.GreedyFrame?
    ensures Extends(base, base + [f])
  {
  }

  function At(pc: nat, o: Out, stack: seq<int>, frames: seq<Frame>): Config {
    Thread(pc, o.pos, o.caps, stack, frames)
  }

  /** From c the machine reaches `end` with the outcomes outs, in order, over the frames `base`, and then fails. */
  ghost predicate Yields(env: Env, c: Config, base: seq<Frame>, end: nat, stack: seq<int>, outs: seq<Out>)
    decreases |outs|
  {
    if outs == [] then Reaches(env, c, Failing(base))
    else exists frames ::
        && Extends(base, frames)
        && Reaches(env, c, At(end, outs[0], stack, frames))
        && Yields(env, Failing(frames), base, end, stack, outs[1..])
  }

  lemma {:induction false} YieldsNone(env: Env, base: seq<Frame>, end: nat, stack: seq<int>)
    ensures Yields(env, Failing(base), base, end, stack, [])
  {
    ReachesSelf(env, Failing(base));
  }

  lemma {:induction false} YieldsSelf(env: Env, base: seq<Frame>, end: nat, stack: seq<int>, o: Out)
    ensures Yields(env, At(end, o, stack, base), base, end, stack, [o])
  {
    hide Reaches;
    YieldsNone(env, base, end, stack);
    ReachesSelf(env, At(end, o, stack, base));
    assert [o][1..] == [] && Extends(base, base);
  }

  /** Getting somewhere first does not change what is yielded. */
  lemma {:induction false} YieldsFrom(env: Env, c: Config, d: Config, base: seq<Frame>, end: nat, stack: seq<int>,
      outs: seq<Out>)
    requires Reaches(env, c, d) && Yields(env, d, base, end, stack, outs)
    ensures Yields(env, c, base, end, stack, outs)
  {
    hide Reaches;
    if outs == [] {
      ReachesTrans(env, c, d, Failing(base));
    } else {
      var frames :| Extends(base, frames) && Reaches(env, d, At(end, outs[0], stack, frames))
                    && Yields(env, Failing(frames), base, end, stack, outs[1..]);
      ReachesTrans(env, c, d, At(end, outs[0], stack, frames));
    }
  }

  lemma {:induction false} YieldsStep(env: Env, c: Config, base: seq<Frame>, end: nat, stack: seq<int>, outs: seq<Out>)
    requires Yields(env, Step(env, c), base, end, stack, outs)
    ensures Yields(env, c, base, end, stack, outs)
  {
    hide Reaches, Step;
    ReachesSelf(env, Step(env, c));
    ReachesStep(env, c, Step(env, c));
    YieldsFrom(env, c, Step(env, c), base, end, stack, outs);
  }

  /** First the outcomes over the upper base, then, when that fails, those over the lower one. */
  lemma {:induction false} YieldsAppend(env: Env, c: Config, upper: seq<Frame>, base: seq<Frame>, end: nat,
      stack: seq<int>, first: seq<Out>, second: seq<Out>)
    requires Extends(base, upper) && Yields(env, c, upper, end, stack, first)
    requires Yields(env, Failing(upper), base, end, stack, second)
    ensures Yields(env, c, base, end, stack, first + second)
    decreases |first|
  {
    hide Reaches, Extends;
    if first == [] {
      assert first + second == second;
      YieldsFrom(env, c, Failing(upper), base, end, stack, second);
    } else {
      var frames :| Extends(upper, frames) && Reaches(env, c, At(end, first[0], stack, frames))
                    && Yields(env, Failing(frames), upper, end, stack, first[1..]);
      ExtendsTrans(base, upper, frames);
      YieldsAppend(env, Failing(frames), upper, base, end, stack, first[1..], second);
      assert (first + second)[1..] == first[1..] + second && (first + second)[0] == first[0];
    }
  }

  /** Whatever the frames, the thread at mid goes on to end. */
  ghost predicate Leads(env: Env, mid: nat, o: Out, stack: seq<int>, end: nat, o': Out, stack': seq<int>) {
    forall frames :: Reaches(env, At(mid, o, stack, frames), At(end, o', stack', frames))
  }

  /** Outcomes at mid become outcomes at end. */
  lemma {:induction false} YieldsVia(env: Env, c: Config, base: seq<Frame>, mid: nat, stack: seq<int>, outs: seq<Out>,
                                     end: nat, stack': seq<int>, outs': seq<Out>)
    requires Yields(env, c, base, mid, stack, outs) && |outs'| == |outs|
    requires forall i | 0 <= i < |outs| :: Leads(env, mid, outs[i], stack, end, outs'[i], stack')
    ensures Yields(env, c, base, end, stack', outs')
    decreases |outs|
  {
    hide Reaches, Extends;
    if outs != [] {
      var frames :| Extends(base, frames) && Reaches(env, c, At(mid, outs[0], stack, frames))
                    && Yields(env, Failing(frames), base, mid, stack, outs[1..]);
      assert Leads(env, mid, outs[0], stack, end, outs'[0], stack');
      ReachesTrans(env, c, At(mid, outs[0], stack, frames), At(end, outs'[0], stack', frames));
      forall i | 0 <= i < |outs[1..]|
        ensures Leads(env, mid, outs[1..][i], stack, end, outs'[1..][i], stack')
      {
        assert Leads(env, mid, outs[i + 1], stack, end, outs'[i + 1], stack');
      }
      YieldsVia(env, Failing(frames), base, mid, stack, outs[1..], end, stack', outs'[1..]);
    }
  }

  /** One step that only moves the thread. */
  lemma {:induction false} LeadsStep(env: Env, mid: nat, o: Out, stack: seq<int>, end: nat, o': Out, stack': seq<int>)
    requires forall frames :: Step(env, At(mid, o, stack, frames)) == At(end, o', stack', frames)
    ensures Leads(env, mid, o, stack, end, o', stack')
  {
    hide Reaches, Step;
    forall frames
      ensures Reaches(env, At(mid, o, stack, frames), At(end, o', stack', frames))
    {
      assert Step(env, At(mid, o, stack, frames)) == At(end, o', stack', frames);
      ReachesSelf(env, At(end, o', stack', frames));
      ReachesStep(env, At(mid, o, stack, frames), At(end, o', stack', frames));
    }
  }

  /** A success drops all open choices. */
  lemma {:induction false} Unwind(env: Env, caps: Captures, base: seq<Frame>, frames: seq<Frame>)
    requires Extends(base, frames)
    ensures Reaches(env, Succeeding(caps, frames), Succeeding(caps, base))
    decreases |frames|
  {
    hide Reaches;
    if |frames| == |base| {
      assert frames == base;
      ReachesSelf(env, Succeeding(caps, base));
    } else {
      var rest := frames[..|frames| - 1];
      assert Extends(base, rest);
      Unwind(env, caps, base, rest);
      ReachesStep(env, Succeeding(caps, frames), Succeeding(caps, base));
    }
  }
}
