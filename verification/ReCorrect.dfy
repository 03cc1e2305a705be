/** The emitted code yields exactly the matches of the expression, in their order. */
module ReCorrect {
  import opened Basics
  import opened ReCode
  import opened ReSyntax
  import opened ReMoves
  import opened ReVm
  import opened ReSpec
  import opened ReYields
  import opened ReMeaning
  import opened ReSteps
  import opened ReSimple

  // ----- what has to be shown -----

  /** Everything needed of the expression, the code and the start. */
  ghost predicate Ready(env: Env, pc: nat, r: Re, cc: nat, o: Out) {
    && WellFormed(r) && LazyLoopsMove(r) && CodeAt(env.code, pc, Code(r, cc)) && TextOk(env.text)
    && o.pos <= |env.text.input| && 2 * (cc + Groups(r)) <= |o.caps|
  }

  /** The code at pc yields the matches of r. */
  ghost predicate Right(env: Env, pc: nat, r: Re, cc: nat, o: Out, stack: seq<int>, base: seq<Frame>) {
    Yields(env, At(pc, o, stack, base), base, pc + Len(r, cc), stack, Outs(env, r, cc, o))
  }

  /** Outcomes from which r can be continued. */
  ghost predicate AllReady(env: Env, pc: nat, r: Re, cc: nat, outs: seq<Out>) {
    forall i | 0 <= i < |outs| :: Ready(env, pc, r, cc, outs[i])
  }

  // ----- sequence -----

  /** b after every outcome at mid. */
  lemma {:induction false} ThenCorrect(env: Env, c: Config, base: seq<Frame>, mid: nat, b: Re, cc: nat,
      stack: seq<int>, outs: seq<Out>)
    requires AllReady(env, mid, b, cc, outs) && Yields(env, c, base, mid, stack, outs)
    ensures Yields(env, c, base, mid + Len(b, cc), stack, ThenOuts(env, b, cc, outs))
    decreases b, 1, 0, 0, |outs|
  {
    hide Reaches, Extends, Ready, Len, Outs;
    var end := mid + Len(b, cc);
    if outs != [] {
      var frames :| Extends(base, frames) && Reaches(env, c, At(mid, outs[0], stack, frames))
                    && Yields(env, Failing(frames), base, mid, stack, outs[1..]);
      hide Yields;
      Correct(env, mid, b, cc, outs[0], stack, frames);
      assert forall i | 0 <= i < |outs[1..]| :: outs[1..][i] == outs[i + 1];
      ThenCorrect(env, Failing(frames), base, mid, b, cc, stack, outs[1..]);
      var first, second := Outs(env, b, cc, outs[0]), ThenOuts(env, b, cc, outs[1..]);
      YieldsAppend(env, At(mid, outs[0], stack, frames), frames, base, end, stack, first, second);
      YieldsFrom(env, c, At(mid, outs[0], stack, frames), base, end, stack, first + second);
    }
  }

  lemma CatCode(a: Re, b: Re, cc: nat)
    requires WellFormed(Cat(a, b)) && LazyLoopsMove(Cat(a, b))
    ensures WellFormed(a) && WellFormed(b) && LazyLoopsMove(a) && LazyLoopsMove(b)
    ensures Groups(Cat(a, b)) == Groups(a) + Groups(b)
    ensures Code(Cat(a, b), cc) == Code(a, cc) + Code(b, cc + Groups(a))
  {
    hide Emit, WellFormed, Groups;
    EmitCat(a, b, cc);
  }

  lemma CatParts(env: Env, pc: nat, a: Re, b: Re, cc: nat, o: Out)
    requires Ready(env, pc, Cat(a, b), cc, o)
    ensures Ready(env, pc, a, cc, o) && AllReady(env, pc + Len(a, cc), b, cc + Groups(a), Outs(env, a, cc, o))
    ensures Len(Cat(a, b), cc) == Len(a, cc) + Len(b, cc + Groups(a))
  {
    hide CodeAt, Size, TextOk, Outs, Code, WellFormed, LazyLoopsMove, Groups;
    CatCode(a, b, cc);
    CodeSplit(env.code, pc, Code(a, cc), Code(b, cc + Groups(a)));
    SizeAppend(Code(a, cc), Code(b, cc + Groups(a)));
    OutsWithin(env, a, cc, o);
  }

  lemma {:induction false} CatCorrect(env: Env, pc: nat, a: Re, b: Re, cc: nat, o: Out, stack: seq<int>,
      base: seq<Frame>)
    requires Ready(env, pc, Cat(a, b), cc, o)
    ensures Right(env, pc, Cat(a, b), cc, o, stack, base)
    decreases Cat(a, b), 0, 0, 0, 0
  {
    hide Ready, Len, Outs, Yields, AllReady, ThenOuts;
    StartInText(env, pc, Cat(a, b), cc, o);
    CatParts(env, pc, a, b, cc, o);
    Correct(env, pc, a, cc, o, stack, base);
    ThenCorrect(env, At(pc, o, stack, base), base, pc + Len(a, cc), b, cc + Groups(a), stack, Outs(env, a, cc, o));
    CatMeans(env, a, b, cc, o);
  }

  lemma StartInText(env: Env, pc: nat, r: Re, cc: nat, o: Out)
    requires Ready(env, pc, r, cc, o)
    ensures o.pos <= |env.text.input|
  {
  }

  // ----- leaves -----

  lemma {:induction false} LeafCorrect(env: Env, pc: nat, r: Re, cc: nat, o: Out, stack: seq<int>, base: seq<Frame>)
    requires Ready(env, pc, r, cc, o) && IsLeaf(r)
    ensures Right(env, pc, r, cc, o, stack, base)
  {
    hide Yields, CodeAt, TextOk, Size, Emit, WellFormed, LazyLoopsMove, Groups, Matches, SimpleOuts, IsLeaf;
    LeafMeans(env, r, cc, o);
    var i := Emit(r, cc)[0];
    assert Emit(r, cc) == [i];
    SimpleYields(env, pc, i, o, stack, base);
  }

  lemma {:induction false} EmptyCorrect(env: Env, pc: nat, cc: nat, o: Out, stack: seq<int>, base: seq<Frame>)
    requires Ready(env, pc, Empty, cc, o)
    ensures Right(env, pc, Empty, cc, o, stack, base)
  {
    hide Yields;
    YieldsSelf(env, base, pc, stack, o);
  }

  // ----- alternatives -----

  lemma AltParts(env: Env, pc: nat, a: Re, b: Re, cc: nat, o: Out)
    requires Ready(env, pc, Alt(a, b), cc, o)
    ensures Ready(env, pc + 5, a, cc, o) && Ready(env, pc + 5 + Len(a, cc) + 5, b, cc + Groups(a), o)
    ensures Fetch(env.code, pc) == Some(SplitNextFirst(Len(a, cc) + 5))
    ensures Fetch(env.code, pc + 5 + Len(a, cc)) == Some(Goto(Len(b, cc + Groups(a))))
    ensures Len(Alt(a, b), cc) == 5 + Len(a, cc) + 5 + Len(b, cc + Groups(a))
  {
    hide CodeAt, Size, TextOk, Code, WellFormed, LazyLoopsMove, Groups, Fetch;
    AltCodeIs(a, b, cc);
    var x, y := Code(a, cc), Code(b, cc + Groups(a));
    var i, j := SplitNextFirst(Size(x) + 5), Goto(Size(y));
    assert Code(Alt(a, b), cc) == [i] + (x + ([j] + y));
    CodeHead(env.code, pc, i, x + ([j] + y));
    CodeSplit(env.code, pc + 5, x, [j] + y);
    CodeHead(env.code, pc + 5 + Size(x), j, y);
    SizeAppend([i], x + ([j] + y));
    SizeAppend(x, [j] + y);
    SizeAppend([j], y);
    SizeOne(i);
    SizeOne(j);
  }

  lemma AltCodeIs(a: Re, b: Re, cc: nat)
    requires WellFormed(Alt(a, b)) && LazyLoopsMove(Alt(a, b))
    ensures WellFormed(a) && WellFormed(b) && LazyLoopsMove(a) && LazyLoopsMove(b)
    ensures Groups(Alt(a, b)) == Groups(a) + Groups(b)
    ensures var x, y := Code(a, cc), Code(b, cc + Groups(a));
      Code(Alt(a, b), cc) == [SplitNextFirst(Size(x) + 5)] + x + [Goto(Size(y))] + y
  {
    hide Size, Emit, WellFormed, Groups;
    EmitAlt(a, b, cc);
  }

  lemma {:induction false} AltCorrect(env: Env, pc: nat, a: Re, b: Re, cc: nat, o: Out, stack: seq<int>,
      base: seq<Frame>)
    requires Ready(env, pc, Alt(a, b), cc, o)
    ensures Right(env, pc, Alt(a, b), cc, o, stack, base)
    decreases Alt(a, b), 0, 0, 0, 0
  {
    hide Ready, Len, Outs, Yields, Fetch, Step, Groups;
    StartInText(env, pc, Alt(a, b), cc, o);
    AltParts(env, pc, a, b, cc, o);
    AltMeans(env, a, b, cc, o);
    var x, y := pc + 5, pc + 5 + Len(a, cc) + 5;
    var end := y + Len(b, cc + Groups(a));
    var f := Frame(SplitFrame, y, o.pos, o.caps, stack, 0);
    Correct(env, x, a, cc, o, stack, base + [f]);
    YieldsGoto(env, At(x, o, stack, base + [f]), base + [f], x + Len(a, cc), Len(b, cc + Groups(a)), stack,
        Outs(env, a, cc, o));
    Correct(env, y, b, cc + Groups(a), o, stack, base);
    YieldsChoice(env, At(x, o, stack, base + [f]), f, base, end, stack, Outs(env, a, cc, o),
        Outs(env, b, cc + Groups(a), o));
    StepControl(env, pc, SplitNextFirst(Len(a, cc) + 5), o, stack, base);
    YieldsStep(env, At(pc, o, stack, base), base, end, stack, Outs(env, Alt(a, b), cc, o));
  }

  // ----- captures -----

  lemma CaptureCodeIs(a: Re, cc: nat)
    requires WellFormed(Capture(a)) && LazyLoopsMove(Capture(a))
    ensures WellFormed(a) && LazyLoopsMove(a) && Groups(Capture(a)) == 1 + Groups(a)
    ensures Code(Capture(a), cc) == [SaveStart(cc)] + Code(a, cc + 1) + [SaveEnd(cc)]
  {
  }

  lemma CaptureParts(env: Env, pc: nat, a: Re, cc: nat, o: Out)
    requires Ready(env, pc, Capture(a), cc, o)
    ensures Ready(env, pc + 2, a, cc + 1, SetCap(o, 2 * cc)) && 2 * cc + 1 < |o.caps|
    ensures Fetch(env.code, pc) == Some(SaveStart(cc)) && Fetch(env.code, pc + 2 + Len(a, cc + 1)) == Some(SaveEnd(cc))
    ensures Len(Capture(a), cc) == 2 + Len(a, cc + 1) + 2
  {
    hide CodeAt, Size, TextOk, Code, WellFormed, LazyLoopsMove, Groups, Fetch;
    CaptureCodeIs(a, cc);
    var x, i, j := Code(a, cc + 1), SaveStart(cc), SaveEnd(cc);
    assert Code(Capture(a), cc) == [i] + (x + ([j] + []));
    CodeHead(env.code, pc, i, x + ([j] + []));
    CodeSplit(env.code, pc + 2, x, [j] + []);
    CodeHead(env.code, pc + 2 + Size(x), j, []);
    assert [j] + [] == [j];
    SizeAppend([i], x + [j]);
    SizeAppend(x, [j]);
    SizeOne(i);
    SizeOne(j);
  }

  lemma {:induction false} CaptureCorrect(env: Env, pc: nat, a: Re, cc: nat, o: Out, stack: seq<int>, base: seq<Frame>)
    requires Ready(env, pc, Capture(a), cc, o)
    ensures Right(env, pc, Capture(a), cc, o, stack, base)
    decreases Capture(a), 0, 0, 0, 0
  {
    hide Ready, Len, Outs, Yields, Fetch, Step, Groups, Leads;
    StartInText(env, pc, Capture(a), cc, o);
    CaptureParts(env, pc, a, cc, o);
    CaptureMeans(env, a, cc, o);
    var o' := SetCap(o, 2 * cc);
    var x, mid := pc + 2, pc + 2 + Len(a, cc + 1);
    var outs := Outs(env, a, cc + 1, o');
    Correct(env, x, a, cc + 1, o', stack, base);
    OutsWithin(env, a, cc + 1, o');
    forall k | 0 <= k < |outs|
      ensures Leads(env, mid, outs[k], stack, mid + 2, SetCap(outs[k], 2 * cc + 1), stack)
    {
      SaveEndLeads(env, mid, cc, outs[k], stack);
    }
    YieldsVia(env, At(x, o', stack, base), base, mid, stack, outs, mid + 2, stack, SetAll(outs, 2 * cc + 1));
    StepControl(env, pc, SaveStart(cc), o, stack, base);
    YieldsStep(env, At(pc, o, stack, base), base, mid + 2, stack, SetAll(outs, 2 * cc + 1));
  }

  // ----- lookahead -----

  lemma LookCodeIs(negated: bool, a: Re, cc: nat)
    requires WellFormed(Look(negated, a)) && LazyLoopsMove(Look(negated, a))
    ensures WellFormed(a) && LazyLoopsMove(a) && Groups(Look(negated, a)) == Groups(a)
    ensures Code(Look(negated, a), cc) == [LookInstr(negated, Size(Code(a, cc)) + 1)] + Code(a, cc) + [Match]
  {
    hide Size;
  }

  lemma LookParts(env: Env, pc: nat, negated: bool, a: Re, cc: nat, o: Out)
    requires Ready(env, pc, Look(negated, a), cc, o)
    ensures Ready(env, pc + 5, a, cc, o)
    ensures Fetch(env.code, pc) == Some(LookInstr(negated, Len(a, cc) + 1))
    ensures Fetch(env.code, pc + 5 + Len(a, cc)) == Some(Match)
    ensures Len(Look(negated, a), cc) == 5 + Len(a, cc) + 1
  {
    hide CodeAt, Size, TextOk, Code, WellFormed, LazyLoopsMove, Groups, Fetch;
    LookCodeIs(negated, a, cc);
    var x, i, j := Code(a, cc), LookInstr(negated, Len(a, cc) + 1), Match;
    assert Code(Look(negated, a), cc) == [i] + (x + ([j] + []));
    CodeHead(env.code, pc, i, x + ([j] + []));
    CodeSplit(env.code, pc + 5, x, [j] + []);
    CodeHead(env.code, pc + 5 + Size(x), j, []);
    assert [j] + [] == [j];
    SizeAppend([i], x + [j]);
    SizeAppend(x, [j]);
    SizeOne(i);
    SizeOne(j);
  }

  lemma {:induction false} LookCorrect(env: Env, pc: nat, negated: bool, a: Re, cc: nat, o: Out, stack: seq<int>,
      base: seq<Frame>)
    requires Ready(env, pc, Look(negated, a), cc, o)
    ensures Right(env, pc, Look(negated, a), cc, o, stack, base)
    decreases Look(negated, a), 0, 0, 0, 0
  {
    hide Ready, Len, Outs, Yields, Fetch, Step, Groups, LookOuts;
    StartInText(env, pc, Look(negated, a), cc, o);
    LookParts(env, pc, negated, a, cc, o);
    LookMeans(env, negated, a, cc, o);
    var x, mid := pc + 5, pc + 5 + Len(a, cc);
    var f := Frame(if negated then NotAheadFrame else AheadFrame, mid + 1, o.pos, o.caps, stack, 0);
    Correct(env, x, a, cc, o, stack, base + [f]);
    LookBody(env, At(x, o, stack, base + [f]), negated, o, stack, base, mid, mid + 1, Outs(env, a, cc, o));
    StepControl(env, pc, LookInstr(negated, Len(a, cc) + 1), o, stack, base);
    YieldsStep(env, At(pc, o, stack, base), base, mid + 1, stack, Outs(env, Look(negated, a), cc, o));
  }

  // ----- repetition: code -----

  /** Every outcome of the body continues with further iterations, or ends the loop. */
  lemma {:induction false} YieldsIter(env: Env, c: Config, base: seq<Frame>, back: nat, inner: seq<int>, outs: seq<Out>,
                                      end: nat, stack: seq<int>, a: Re, cc: nat, min: nat, max: nat, greedy: bool,
                                          p: int)
    requires Yields(env, c, base, back, inner, outs)
    requires forall i | 0 <= i < |outs| ::
      Continues(env, back, inner, outs[i], end, stack, NextOuts(env, a, cc, outs[i], min, max, greedy, p))
    ensures Yields(env, c, base, end, stack, IterOuts(env, a, cc, outs, min, max, greedy, p))
    decreases |outs|
  {
    hide Reaches, Extends, NextOuts;
    if outs != [] {
      var frames :| Extends(base, frames) && Reaches(env, c, At(back, outs[0], inner, frames))
                    && Yields(env, Failing(frames), base, back, inner, outs[1..]);
      hide Yields;
      var first := NextOuts(env, a, cc, outs[0], min, max, greedy, p);
      assert Continues(env, back, inner, outs[0], end, stack, first);
      assert Yields(env, At(back, outs[0], inner, frames), frames, end, stack, first);
      forall i | 0 <= i < |outs[1..]|
        ensures Continues(env, back, inner, outs[1..][i], end, stack,
            NextOuts(env, a, cc, outs[1..][i], min, max, greedy, p))
      {
        hide Continues;
        assert outs[1..][i] == outs[i + 1];
      }
      YieldsIter(env, Failing(frames), base, back, inner, outs[1..], end, stack, a, cc, min, max, greedy, p);
      var second := IterOuts(env, a, cc, outs[1..], min, max, greedy, p);
      YieldsAppend(env, At(back, outs[0], inner, frames), frames, base, end, stack, first, second);
      YieldsFrom(env, c, At(back, outs[0], inner, frames), base, end, stack, first + second);
    }
  }

  lemma ReadyAll(env: Env, at: nat, a: Re, cc: nat, o: Out)
    requires Ready(env, at, a, cc, o)
    ensures AllReady(env, at, a, cc, Outs(env, a, cc, o))
  {
    hide Outs, CodeAt, WellFormed, LazyLoopsMove, TextOk, Groups;
    OutsWithin(env, a, cc, o);
  }

  /** The body, then what follows each of its outcomes. */
  lemma {:induction false} BodyContinues(env: Env, at: nat, a: Re, cc: nat, o: Out, inner: seq<int>, end: nat,
      stack: seq<int>, min: nat, max: nat, greedy: bool, p: int)
    requires Ready(env, at, a, cc, o)
    requires var outs := Outs(env, a, cc, o);
      forall i | 0 <= i < |outs| ::
        Continues(env, at + Len(a, cc), inner, outs[i], end, stack, NextOuts(env, a, cc, outs[i], min, max, greedy, p))
    ensures Continues(env, at, inner, o, end, stack, IterOuts(env, a, cc, Outs(env, a, cc, o), min, max, greedy, p))
    decreases a, 1, 0, 0, 0
  {
    hide Yields, Ready, Outs, Len, NextOuts, IterOuts;
    var outs := Outs(env, a, cc, o);
    forall frames
      ensures Yields(env, At(at, o, inner, frames), frames, end, stack, IterOuts(env, a, cc, outs, min, max, greedy, p))
    {
      hide Continues;
      Correct(env, at, a, cc, o, inner, frames);
      YieldsIter(env, At(at, o, inner, frames), frames, at + Len(a, cc), inner, outs, end, stack, a, cc, min, max,
          greedy, p);
    }
  }

  /** An unbounded loop whose body takes characters, or is checked to. */
  lemma {:induction false} StarCorrect(env: Env, pc: nat, a: Re, cc: nat, o: Out, greedy: bool, check: bool,
      stack: seq<int>)
    requires StarAt(env, pc, Len(a, cc), greedy, check) && Ready(env, pc + 5 + Check(check), a, cc, o)
    requires Moves(a) || (greedy && check)
    ensures Continues(env, pc, stack, o, pc + 10 + Check(check) + Len(a, cc), stack,
                      RepeatOuts(env, a, cc, o, 0, INT32_MAX, greedy))
    decreases a, 2, 0, |env.text.input| - o.pos, 0
  {
    hide Continues, Ready, Outs, Len, RepeatOuts, IterOuts, Moves, StarAt;
    var at, len := pc + 5 + Check(check), Len(a, cc);
    var end := pc + 10 + Check(check) + len;
    var once := Outs(env, a, cc, o);
    var inner := if check then stack + [o.pos] else stack;
    var p: int := if greedy then o.pos else -1;
    StartInText(env, at, a, cc, o);
    if Moves(a) {
      MovesOn(env, a, cc, o);
    }
    OutsWithin(env, a, cc, o);
    ReadyAll(env, at, a, cc, o);
    forall i | 0 <= i < |once|
      ensures Continues(env, at + len, inner, once[i], end, stack,
          NextOuts(env, a, cc, once[i], 0, INT32_MAX, greedy, p))
    {
      if once[i].pos == o.pos {
        StarStop(env, pc, len, greedy, once[i], stack);
      } else {
        StarCorrect(env, pc, a, cc, once[i], greedy, check, stack);
        StarBack(env, pc, len, greedy, check, o.pos, once[i], stack, end,
            RepeatOuts(env, a, cc, once[i], 0, INT32_MAX, greedy));
      }
    }
    BodyContinues(env, at, a, cc, o, inner, end, stack, 0, INT32_MAX, greedy, p);
    var more := IterOuts(env, a, cc, once, 0, INT32_MAX, greedy, p);
    StarEnter(env, pc, len, greedy, check, o, stack, end, more);
    ContinuesSelf(env, end, stack, o);
    if greedy {
      RepeatStar(env, a, cc, o);
    } else {
      RepeatLazy(env, a, cc, o);
    }
    StarSplit(env, pc, len, greedy, check);
    ContinuesSplit(env, pc, greedy, len + 5 + Check(check), o, stack, end, stack, more, [o]);
  }

  lemma {:induction false} UpToCorrect(env: Env, pc: nat, a: Re, cc: nat, o: Out, k: nat, greedy: bool, stack: seq<int>)
    requires UpToAt(env, pc, Len(a, cc), greedy) && Ready(env, pc + 5, a, cc, o) && 1 <= k < INT32_MAX
    ensures Continues(env, pc, stack + [k], o, pc + 11 + Len(a, cc), stack, RepeatOuts(env, a, cc, o, 0, k, greedy))
    decreases a, 2, k, 0, 0
  {
    hide Continues, Ready, Outs, Len, RepeatOuts, IterOuts, Fetch;
    var at, len := pc + 5, Len(a, cc);
    var end := pc + 11 + len;
    var once := Outs(env, a, cc, o);
    StartInText(env, at, a, cc, o);
    OutsWithin(env, a, cc, o);
    ReadyAll(env, at, a, cc, o);
    forall i | 0 <= i < |once|
      ensures Continues(env, at + len, stack + [k], once[i], end, stack,
          RepeatOuts(env, a, cc, once[i], 0, k - 1, greedy))
    {
      if k == 1 {
        RepeatNone(env, a, cc, once[i], 0, greedy);
        ContinuesSelf(env, end, stack, once[i]);
        DropContinues(env, at + len + 5, stack, 0, once[i], end, [once[i]]);
      } else {
        UpToCorrect(env, pc, a, cc, once[i], k - 1, greedy, stack);
      }
      LoopContinues(env, at + len, -(len + 10), stack, k, once[i], end,
          RepeatOuts(env, a, cc, once[i], 0, k - 1, greedy));
    }
    BodyContinues(env, at, a, cc, o, stack + [k], end, stack, 0, k - 1, greedy, -1);
    ContinuesSelf(env, end, stack, o);
    DropContinues(env, pc + 10 + len, stack, k, o, end, [o]);
    RepeatCounted(env, a, cc, o, k, greedy);
    ContinuesSplit(env, pc, greedy, len + 5, o, stack + [k], end, stack,
        IterOuts(env, a, cc, once, 0, k - 1, greedy, -1), [o]);
  }

  /** Any start from which the body can run goes on, at `rest`, to yield up to max further iterations. */
  ghost predicate RestContinues(env: Env, at: nat, a: Re, cc: nat, rest: nat, end: nat, stack: seq<int>, max: nat,
      greedy: bool) {
    forall o | Ready(env, at, a, cc, o) ::
        Continues(env, rest, stack, o, end, stack, RepeatOuts(env, a, cc, o, 0, max, greedy))
  }

  /** Total of k required iterations and up to max more. */
  function Total(k: nat, max: nat): nat {
    if max == INT32_MAX then max else k + max
  }

  lemma {:induction false} ExactlyCorrect(env: Env, at: nat, a: Re, cc: nat, o: Out, k: nat, max: nat, greedy: bool,
      stack: seq<int>, end: nat)
    requires ExactlyAt(env, at, Len(a, cc)) && Ready(env, at, a, cc, o) && k >= 1
    requires max != INT32_MAX ==> k + max < INT32_MAX
    requires RestContinues(env, at, a, cc, at + Len(a, cc) + 6, end, stack, max, greedy)
    ensures Continues(env, at, stack + [k], o, end, stack, RepeatOuts(env, a, cc, o, k, Total(k, max), greedy))
    decreases a, 2, k, 0, 0
  {
    hide Continues, Ready, Outs, Len, RepeatOuts, IterOuts, Fetch;
    var len: int := Len(a, cc);
    var once := Outs(env, a, cc, o);
    StartInText(env, at, a, cc, o);
    ReadyAll(env, at, a, cc, o);
    forall i | 0 <= i < |once|
      ensures Continues(env, at + len, stack + [k], once[i], end, stack,
          RepeatOuts(env, a, cc, once[i], k - 1, Total(k - 1, max), greedy))
    {
      var res := RepeatOuts(env, a, cc, once[i], k - 1, Total(k - 1, max), greedy);
      if k == 1 {
        assert Continues(env, at + len + 6, stack, once[i], end, stack, res);
        DropContinues(env, at + len + 5, stack, 0, once[i], end, res);
      } else {
        ExactlyCorrect(env, at, a, cc, once[i], k - 1, max, greedy, stack, end);
      }
      LoopContinues(env, at + len, -(len + 5), stack, k, once[i], end, res);
    }
    BodyContinues(env, at, a, cc, o, stack + [k], end, stack, k - 1, Total(k - 1, max), greedy, -1);
    RepeatMust(env, a, cc, o, k, Total(k, max), greedy);
  }

  // ----- one or more -----

  /** The split after the body of a plus loop. */
  lemma {:induction false} PlusCorrect(env: Env, at: nat, a: Re, cc: nat, o: Out, greedy: bool, stack: seq<int>)
    requires Fetch(env.code, at + Len(a, cc)) == Some(Split(!greedy, -(Len(a, cc) as int + 5)))
    requires Ready(env, at, a, cc, o) && Moves(a)
    ensures Continues(env, at + Len(a, cc), stack, o, at + Len(a, cc) + 5, stack,
        RepeatOuts(env, a, cc, o, 0, INT32_MAX, greedy))
    decreases a, 2, 0, |env.text.input| - o.pos, 1
  {
    hide Continues, Ready, Outs, Len, RepeatOuts, IterOuts, Moves, Fetch;
    var len: int := Len(a, cc);
    var s, end := at + len, at + len + 5;
    PlusBody(env, at, a, cc, o, greedy, stack);
    StartInText(env, at, a, cc, o);
    RepeatMay(env, a, cc, o, INT32_MAX, greedy);
    ContinuesSelf(env, end, stack, o);
    var more := IterOuts(env, a, cc, Outs(env, a, cc, o), 0, INT32_MAX, greedy, -1);
    ContinuesSplit(env, s, !greedy, -(len + 5), o, stack, end, stack, [o], more);
  }

  /** The body of a plus loop, and all that follows. */
  lemma {:induction false} PlusBody(env: Env, at: nat, a: Re, cc: nat, o: Out, greedy: bool, stack: seq<int>)
    requires Fetch(env.code, at + Len(a, cc)) == Some(Split(!greedy, -(Len(a, cc) as int + 5)))
    requires Ready(env, at, a, cc, o) && Moves(a)
    ensures Continues(env, at, stack, o, at + Len(a, cc) + 5, stack,
        IterOuts(env, a, cc, Outs(env, a, cc, o), 0, INT32_MAX, greedy, -1))
    decreases a, 2, 0, |env.text.input| - o.pos, 0
  {
    hide Continues, Ready, Outs, Len, RepeatOuts, IterOuts, Moves, Fetch;
    var once := Outs(env, a, cc, o);
    StartInText(env, at, a, cc, o);
    MovesOn(env, a, cc, o);
    OutsWithin(env, a, cc, o);
    ReadyAll(env, at, a, cc, o);
    forall i | 0 <= i < |once|
      ensures Continues(env, at + Len(a, cc), stack, once[i], at + Len(a, cc) + 5, stack,
          RepeatOuts(env, a, cc, once[i], 0, INT32_MAX, greedy))
    {
      PlusCorrect(env, at, a, cc, once[i], greedy, stack);
    }
    BodyContinues(env, at, a, cc, o, stack, at + Len(a, cc) + 5, stack, 0, INT32_MAX, greedy, -1);
  }

  // ----- putting loops together -----

  lemma BodyReady(env: Env, pc: nat, a: Re, cc: nat, o: Out)
    ensures Ready(env, pc, a, cc, o) <==> Body(env, a, cc, o) && CodeAt(env.code, pc, Code(a, cc))
  {
    hide WellFormed, LazyLoopsMove, TextOk, CodeAt, Code, Groups;
  }

  lemma {:induction false} UpToWhole(env: Env, pc: nat, a: Re, cc: nat, o: Out, n: nat, greedy: bool, stack: seq<int>)
    requires CodeAt(env.code, pc, UpTo(Code(a, cc), n, greedy)) && Body(env, a, cc, o) && 1 <= n < INT32_MAX
    ensures Continues(env, pc, stack, o, pc + Size(UpTo(Code(a, cc), n, greedy)), stack,
        RepeatOuts(env, a, cc, o, 0, n, greedy))
    decreases a, 3, 0, 0, 0
  {
    hide CodeAt, Continues, Body, RepeatOuts, Fetch, Code, Size, UpToAt, UpTo, Ready;
    UpToCode(env, pc, Code(a, cc), n, greedy);
    BodyReady(env, pc + 10, a, cc, o);
    UpToCorrect(env, pc + 5, a, cc, o, n, greedy, stack);
    PushContinues(env, pc, n, o, stack, pc + 16 + Len(a, cc), RepeatOuts(env, a, cc, o, 0, n, greedy));
  }

  lemma {:induction false} StarWhole(env: Env, pc: nat, a: Re, cc: nat, o: Out, greedy: bool, check: bool,
      stack: seq<int>)
    requires CodeAt(env.code, pc, Star(Code(a, cc), greedy, check)) && Body(env, a, cc, o)
    requires Moves(a) || (greedy && check)
    ensures Continues(env, pc, stack, o, pc + Size(Star(Code(a, cc), greedy, check)), stack,
        RepeatOuts(env, a, cc, o, 0, INT32_MAX, greedy))
    decreases a, 3, 0, 0, 0
  {
    hide CodeAt, Continues, Body, RepeatOuts, Moves, Code, Size, StarAt, Star, Ready;
    StarCode(env, pc, Code(a, cc), greedy, check);
    BodyReady(env, pc + 5 + Check(check), a, cc, o);
    StarCorrect(env, pc, a, cc, o, greedy, check, stack);
  }

  /** An optional atom. */
  lemma {:induction false} OptionalWhole(env: Env, pc: nat, a: Re, cc: nat, o: Out, greedy: bool, stack: seq<int>)
    requires CodeAt(env.code, pc, [Split(greedy, Len(a, cc))] + Code(a, cc)) && Body(env, a, cc, o)
    ensures Continues(env, pc, stack, o, pc + 5 + Len(a, cc), stack, RepeatOuts(env, a, cc, o, 0, 1, greedy))
    decreases a, 3, 0, 0, 0
  {
    hide CodeAt, Continues, Body, RepeatOuts, Code, Len, Fetch, Ready, IterOuts, Outs;
    var end := pc + 5 + Len(a, cc);
    var once := Outs(env, a, cc, o);
    CodeHead(env.code, pc, Split(greedy, Len(a, cc)), Code(a, cc));
    BodyReady(env, pc + 5, a, cc, o);
    StartInText(env, pc + 5, a, cc, o);
    ReadyAll(env, pc + 5, a, cc, o);
    forall i | 0 <= i < |once|
      ensures Continues(env, end, stack, once[i], end, stack, RepeatOuts(env, a, cc, once[i], 0, 0, greedy))
    {
      StartInText(env, pc + 5, a, cc, once[i]);
      RepeatNone(env, a, cc, once[i], 0, greedy);
      ContinuesSelf(env, end, stack, once[i]);
    }
    BodyContinues(env, pc + 5, a, cc, o, stack, end, stack, 0, 0, greedy, -1);
    ContinuesSelf(env, end, stack, o);
    RepeatCounted(env, a, cc, o, 1, greedy);
    ContinuesSplit(env, pc, greedy, Len(a, cc), o, stack, end, stack, IterOuts(env, a, cc, once, 0, 0, greedy, -1),
        [o]);
  }

  lemma {:induction false} NothingWhole(env: Env, pc: nat, a: Re, cc: nat, o: Out, greedy: bool, stack: seq<int>)
    requires Body(env, a, cc, o)
    ensures Continues(env, pc, stack, o, pc, stack, RepeatOuts(env, a, cc, o, 0, 0, greedy))
  {
    hide Continues, RepeatOuts;
    RepeatNone(env, a, cc, o, 0, greedy);
    ContinuesSelf(env, pc, stack, o);
  }

  /** Loops that may be skipped. */
  lemma {:induction false} ZeroOrMoreWhole(env: Env, pc: nat, a: Re, cc: nat, o: Out, max: nat, greedy: bool,
      check: bool, stack: seq<int>)
    requires CodeAt(env.code, pc, ZeroOrMore(Code(a, cc), max, greedy, check)) && Body(env, a, cc, o)
    requires max <= INT32_MAX
    requires max == INT32_MAX ==> Moves(a) || (greedy && check)
    ensures Continues(env, pc, stack, o, pc + Size(ZeroOrMore(Code(a, cc), max, greedy, check)), stack,
        RepeatOuts(env, a, cc, o, 0, max, greedy))
    decreases a, 4, 0, 0, 0
  {
    hide CodeAt, Continues, Body, RepeatOuts, Moves, Code, Size, UpTo, Star;
    if max == 0 {
      SizeEmpty();
      NothingWhole(env, pc, a, cc, o, greedy, stack);
    } else if max == 1 {
      SizeTail(Split(greedy, Size(Code(a, cc))), Code(a, cc));
      OptionalWhole(env, pc, a, cc, o, greedy, stack);
    } else if max == INT32_MAX {
      StarWhole(env, pc, a, cc, o, greedy, check, stack);
    } else {
      UpToWhole(env, pc, a, cc, o, max, greedy, stack);
    }
  }

  /** How many iterations may follow the first min. */
  function Further(min: nat, max: nat): nat
    requires min <= max
  {
    if max == INT32_MAX then max else max - min
  }

  /** What follows the required iterations. */
  lemma {:induction false} RestWhole(env: Env, pc: nat, a: Re, cc: nat, o: Out, min: nat, max: nat, greedy: bool,
      check: bool, stack: seq<int>)
    requires CodeAt(env.code, pc, Rest(Code(a, cc), min, max, greedy, check)) && Body(env, a, cc, o)
    requires 1 <= min <= max <= INT32_MAX
    requires max == INT32_MAX ==> Moves(a) || (greedy && check)
    ensures Continues(env, pc, stack, o, pc + Size(Rest(Code(a, cc), min, max, greedy, check)), stack,
                      RepeatOuts(env, a, cc, o, 0, Further(min, max), greedy))
    decreases a, 4, 0, 0, 0
  {
    hide CodeAt, Continues, Body, RepeatOuts, Moves, Code, Size, UpTo, Star;
    if max == INT32_MAX {
      StarWhole(env, pc, a, cc, o, greedy, check, stack);
    } else if max > min {
      UpToWhole(env, pc, a, cc, o, max - min, greedy, stack);
    } else {
      SizeEmpty();
      NothingWhole(env, pc, a, cc, o, greedy, stack);
    }
  }

  ghost function Loops(a: Re, cc: nat, min: nat, max: nat, greedy: bool): seq<Instr> {
    GenericLoop(Code(a, cc), cc, Groups(a), min, max, greedy)
  }

  /** The body of an unbounded loop takes characters, or the loop code checks that it does. */
  ghost predicate Checked(a: Re, cc: nat, greedy: bool) {
    Moves(a) || (greedy && !CheckAdvance(Code(a, cc)))
  }

  lemma LoopChecked(env: Env, a: Re, cc: nat, o: Out, greedy: bool)
    requires Body(env, a, cc, o) && (!greedy ==> Moves(a))
    ensures Checked(a, cc, greedy)
  {
    hide Moves, CheckAdvance, Emit, LazyLoopsMove;
    if greedy && CheckAdvance(Code(a, cc)) {
      AdvanceMeans(a, cc);
    }
  }

  /** A loop that never runs only clears its captures. */
  lemma {:induction false} EmptyLoop(env: Env, pc: nat, a: Re, cc: nat, o: Out, greedy: bool, stack: seq<int>)
    requires CodeAt(env.code, pc, Loops(a, cc, 0, 0, greedy)) && o.pos <= |env.text.input|
    requires 2 * (cc + Groups(a)) <= |o.caps|
    ensures Continues(env, pc, stack, o, pc + Size(Loops(a, cc, 0, 0, greedy)), stack,
        Outs(env, Quant(a, 0, 0, greedy), cc, o))
  {
    hide CodeAt, Continues, RepeatOuts, Code, Size, Reset, Outs, CheckAdvance, Groups;
    var x := Reset(cc, Groups(a));
    assert Loops(a, cc, 0, 0, greedy) == x by { assert x + [] == x; }
    var o' := ClearCaps(o, cc, Groups(a));
    ContinuesSelf(env, pc + Size(x), stack, o');
    RepeatNone(env, a, cc, o', 0, greedy);
    ResetContinues(env, pc, cc, Groups(a), o, stack, pc + Size(x), [o']);
    QuantMeans(env, a, cc, o, 0, 0, greedy);
  }

  lemma {:induction false} SkippableLoop(env: Env, pc: nat, a: Re, cc: nat, o: Out, max: nat, greedy: bool,
      stack: seq<int>)
    requires CodeAt(env.code, pc, Loops(a, cc, 0, max, greedy)) && Body(env, a, cc, o) && max <= INT32_MAX
    requires max == INT32_MAX ==> Checked(a, cc, greedy)
    ensures Continues(env, pc, stack, o, pc + Size(Loops(a, cc, 0, max, greedy)), stack,
        Outs(env, Quant(a, 0, max, greedy), cc, o))
    decreases a, 5, 0, 0, 0
  {
    hide CodeAt, Continues, RepeatOuts, Moves, Code, Size, ZeroOrMore, Reset, Outs, CheckAdvance, WellFormed,
      LazyLoopsMove, TextOk, Groups;
    var n, check := Groups(a), greedy && !CheckAdvance(Code(a, cc));
    var x, y := Reset(cc, n), ZeroOrMore(Code(a, cc), max, greedy, check);
    CodeSplit(env.code, pc, x, y);
    SizeAppend(x, y);
    var o' := ClearCaps(o, cc, n);
    var res := RepeatOuts(env, a, cc, o', 0, max, greedy);
    ZeroOrMoreWhole(env, pc + Size(x), a, cc, o', max, greedy, check, stack);
    ResetContinues(env, pc, cc, n, o, stack, pc + Size(x) + Size(y), res);
    QuantMeans(env, a, cc, o, 0, max, greedy);
  }

  lemma {:induction false} PlusLoop(env: Env, pc: nat, a: Re, cc: nat, o: Out, greedy: bool, stack: seq<int>)
    requires CodeAt(env.code, pc, Code(a, cc) + [Split(!greedy, -(Len(a, cc) as int + 5))]) && Body(env, a, cc, o)
    requires Moves(a)
    ensures Continues(env, pc, stack, o, pc + Len(a, cc) + 5, stack, RepeatOuts(env, a, cc, o, 1, INT32_MAX, greedy))
    decreases a, 5, 0, 0, 0
  {
    hide CodeAt, Continues, Body, RepeatOuts, Moves, Code, Fetch, Ready, Outs, IterOuts;
    var i := Split(!greedy, -(Len(a, cc) as int + 5));
    assert [i] == [i] + [];
    CodeSplit(env.code, pc, Code(a, cc), [i]);
    CodeHead(env.code, pc + Len(a, cc), i, []);
    BodyReady(env, pc, a, cc, o);
    StartInText(env, pc, a, cc, o);
    PlusBody(env, pc, a, cc, o, greedy, stack);
    RepeatMust(env, a, cc, o, 1, INT32_MAX, greedy);
  }

  /** The first required iteration alone, then the rest. */
  lemma {:induction false} OnceLoop(env: Env, pc: nat, a: Re, cc: nat, o: Out, max: nat, greedy: bool, check: bool,
      stack: seq<int>)
    requires CodeAt(env.code, pc, Code(a, cc) + Rest(Code(a, cc), 1, max, greedy, check)) && Body(env, a, cc, o)
    requires 1 <= max <= INT32_MAX && (max == INT32_MAX ==> Moves(a) || (greedy && check))
    ensures Continues(env, pc, stack, o, pc + Len(a, cc) + Size(Rest(Code(a, cc), 1, max, greedy, check)), stack,
                      RepeatOuts(env, a, cc, o, 1, max, greedy))
    decreases a, 5, 0, 0, 0
  {
    hide CodeAt, Continues, Body, RepeatOuts, Moves, Code, Fetch, Ready, Outs, IterOuts, Rest, Size;
    var x, y := Code(a, cc), Rest(Code(a, cc), 1, max, greedy, check);
    var mid := pc + Size(x);
    var end := mid + Size(y);
    CodeSplit(env.code, pc, x, y);
    BodyReady(env, pc, a, cc, o);
    StartInText(env, pc, a, cc, o);
    ReadyAll(env, pc, a, cc, o);
    var once := Outs(env, a, cc, o);
    forall i | 0 <= i < |once|
      ensures Continues(env, mid, stack, once[i], end, stack, RepeatOuts(env, a, cc, once[i], 0, Less(max), greedy))
    {
      BodyReady(env, pc, a, cc, once[i]);
      RestWhole(env, mid, a, cc, once[i], 1, max, greedy, check, stack);
    }
    BodyContinues(env, pc, a, cc, o, stack, end, stack, 0, Less(max), greedy, -1);
    RepeatMust(env, a, cc, o, 1, max, greedy);
  }

  lemma {:induction false} ManyLoop(env: Env, pc: nat, a: Re, cc: nat, o: Out, min: nat, max: nat, greedy: bool,
      check: bool, stack: seq<int>)
    requires CodeAt(env.code, pc, Exactly(Code(a, cc), min) + Rest(Code(a, cc), min, max, greedy, check))
    requires Body(env, a, cc, o)
    requires 2 <= min <= max <= INT32_MAX && (max == INT32_MAX ==> Moves(a) || (greedy && check))
    ensures Continues(env, pc, stack, o,
        pc + Size(Exactly(Code(a, cc), min)) + Size(Rest(Code(a, cc), min, max, greedy, check)), stack,
                      RepeatOuts(env, a, cc, o, min, max, greedy))
    decreases a, 5, 0, 0, 0
  {
    hide CodeAt, Continues, Body, RepeatOuts, Moves, Code, Fetch, Ready, Rest, Exactly, ExactlyAt, Size;
    var x, y := Exactly(Code(a, cc), min), Rest(Code(a, cc), min, max, greedy, check);
    CodeSplit(env.code, pc, x, y);
    ExactlyCode(env, pc, Code(a, cc), min);
    BodyReady(env, pc + 5, a, cc, o);
    var rest := pc + Size(x);
    var end := rest + Size(y);
    assert RestContinues(env, pc + 5, a, cc, rest, end, stack, Further(min, max), greedy) by {
      forall o' | Ready(env, pc + 5, a, cc, o')
        ensures Continues(env, rest, stack, o', end, stack, RepeatOuts(env, a, cc, o', 0, Further(min, max), greedy))
      {
        BodyReady(env, pc + 5, a, cc, o');
        RestWhole(env, rest, a, cc, o', min, max, greedy, check, stack);
      }
    }
    hide RestContinues;
    ExactlyCorrect(env, pc + 5, a, cc, o, min, Further(min, max), greedy, stack, end);
    PushContinues(env, pc, min, o, stack, end, RepeatOuts(env, a, cc, o, min, max, greedy));
  }

  /** The generic loop code yields what the quantified expression means. */
  lemma {:induction false} GenericCorrect(env: Env, pc: nat, a: Re, cc: nat, o: Out, min: nat, max: nat, greedy: bool,
      stack: seq<int>)
    requires CodeAt(env.code, pc, Loops(a, cc, min, max, greedy)) && min <= max <= INT32_MAX
    requires o.pos <= |env.text.input| && 2 * (cc + Groups(a)) <= |o.caps| && (max > 0 ==> Body(env, a, cc, o))
    requires !greedy && max == INT32_MAX ==> Moves(a)
    ensures Continues(env, pc, stack, o, pc + Size(Loops(a, cc, min, max, greedy)), stack,
        Outs(env, Quant(a, min, max, greedy), cc, o))
    decreases a, 6, 0, 0, 0
  {
    hide CodeAt, Continues, Body, RepeatOuts, Moves, Code, Size, ZeroOrMore, Reset, Outs, CheckAdvance, Exactly, Rest;
    var check := greedy && !CheckAdvance(Code(a, cc));
    if max == INT32_MAX {
      LoopChecked(env, a, cc, o, greedy);
    }
    if max == 0 {
      EmptyLoop(env, pc, a, cc, o, greedy, stack);
    } else if min == 0 {
      SkippableLoop(env, pc, a, cc, o, max, greedy, stack);
    } else {
      QuantMeans(env, a, cc, o, min, max, greedy);
      if min == 1 && max == INT32_MAX && !check {
        SizeAppend(Code(a, cc), [Split(!greedy, -(Len(a, cc) as int + 5))]);
        SizeOne(Split(!greedy, -(Len(a, cc) as int + 5)));
        PlusLoop(env, pc, a, cc, o, greedy, stack);
      } else if min == 1 {
        SizeAppend(Code(a, cc), Rest(Code(a, cc), 1, max, greedy, check));
        OnceLoop(env, pc, a, cc, o, max, greedy, check, stack);
      } else {
        SizeAppend(Exactly(Code(a, cc), min), Rest(Code(a, cc), min, max, greedy, check));
        ManyLoop(env, pc, a, cc, o, min, max, greedy, check, stack);
      }
    }
  }

  // ----- quantified expressions -----

  lemma QuantParts(env: Env, pc: nat, a: Re, cc: nat, o: Out, min: nat, max: nat, greedy: bool)
    requires Ready(env, pc, Quant(a, min, max, greedy), cc, o)
    ensures WellFormed(a) && min <= max <= INT32_MAX && (!greedy && max == INT32_MAX ==> Moves(a))
    ensures o.pos <= |env.text.input| && 2 * (cc + Groups(a)) <= |o.caps| && (max > 0 ==> Body(env, a, cc, o))
    ensures CodeAt(env.code, pc, QuantCode(Code(a, cc), cc, Groups(a), min, max, greedy))
    ensures Len(Quant(a, min, max, greedy), cc) == Size(QuantCode(Code(a, cc), cc, Groups(a), min, max, greedy))
  {
    hide CodeAt, Size, TextOk, QuantCode, Emit;
    QuantCodeIs(a, cc, min, max, greedy);
  }

  lemma {:induction false} QuantCorrect(env: Env, pc: nat, a: Re, cc: nat, o: Out, min: nat, max: nat, greedy: bool,
      stack: seq<int>, base: seq<Frame>)
    requires Ready(env, pc, Quant(a, min, max, greedy), cc, o)
    ensures Right(env, pc, Quant(a, min, max, greedy), cc, o, stack, base)
    decreases Quant(a, min, max, greedy), 0, 0, 0, 0
  {
    hide Yields, CodeAt, Ready, Body, Code, Size, SimpleCount, Moves, Outs, RepeatOuts, GenericLoop, SimpleLoop,
      WellFormed;
    QuantParts(env, pc, a, cc, o, min, max, greedy);
    var x := Code(a, cc);
    if IsSimpleLoop(x, max, greedy) {
      SimpleLoopCode(env, pc, x, min, max);
      SimpleLoopYields(env, pc, a, cc, o, min, max, stack, base);
      SimpleShape(a, cc);
      QuantMeans(env, a, cc, o, min, max, greedy);
    } else {
      GenericCorrect(env, pc, a, cc, o, min, max, greedy, stack);
    }
  }

  /** The code of an expression yields its matches. */
  lemma {:induction false} Correct(env: Env, pc: nat, r: Re, cc: nat, o: Out, stack: seq<int>, base: seq<Frame>)
    requires Ready(env, pc, r, cc, o)
    ensures Right(env, pc, r, cc, o, stack, base)
    decreases r, 0, 0, 0, 1
  {
    hide Ready, Right;
    match r
    case Empty => EmptyCorrect(env, pc, cc, o, stack, base);
    case Cat(a, b) => CatCorrect(env, pc, a, b, cc, o, stack, base);
    case Alt(a, b) => AltCorrect(env, pc, a, b, cc, o, stack, base);
    case Capture(a) => CaptureCorrect(env, pc, a, cc, o, stack, base);
    case Look(negated, a) => LookCorrect(env, pc, negated, a, cc, o, stack, base);
    case Quant(a, min, max, greedy) => QuantCorrect(env, pc, a, cc, o, min, max, greedy, stack, base);
    case _ => LeafCorrect(env, pc, r, cc, o, stack, base);
  }
}
