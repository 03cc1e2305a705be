/**
 Safety over whole runs, for every expression the compiler accepts, also those on which the
 machine does not stop: it always stands on an instruction, with exactly as many counters as
 the linear count says, in every thread and every saved state, and it never gets stuck.
 */
module ReSafety {
  import opened Basics
  import opened ReCode
  import opened ReText
  import opened ReSyntax
  import opened ReVm
  import opened ReSimple
  import opened ReStack

  /** The program q, closed by `match`, with g groups. */
  ghost predicate Loaded(env: Env, q: seq<Instr>, g: nat) {
    CodeAt(env.code, 0, q + [Match]) && Linked(q, g)
  }

  /** On instruction k, with the counters its position calls for. */
  ghost predicate On(q: seq<Instr>, k: nat, pc: nat, stack: seq<int>) {
    k <= |q| && pc == Addr(q, k) && |stack| == Depth(q, k)
  }

  ghost predicate Somewhere(q: seq<Instr>, pc: nat, stack: seq<int>) {
    exists k :: On(q, k, pc, stack)
  }

  /** A saved greedy loop: on a loop opcode, with room to give back. */
  ghost predicate OnLoop(q: seq<Instr>, k: nat, f: Frame) {
    && k < |q| && q[k].SimpleGreedyQuant? && f.pc == Addr(q, k) + 1 && |f.stack| == Depth(q, k)
    && f.count >= 1 && f.pos >= f.count * q[k].count
  }

  ghost predicate FrameSafe(env: Env, q: seq<Instr>, g: nat, f: Frame) {
    && |f.caps| == 2 * g && f.pos <= |env.text.input|
    && if f.kind.GreedyFrame? then exists k :: OnLoop(q, k, f) else Somewhere(q, f.pc, f.stack)
  }

  ghost predicate FramesSafe(env: Env, q: seq<Instr>, g: nat, frames: seq<Frame>) {
    forall i | 0 <= i < |frames| :: FrameSafe(env, q, g, frames[i])
  }

  ghost predicate Safe(env: Env, q: seq<Instr>, g: nat, c: Config) {
    match c
    case Thread(pc, pos, caps, stack, frames) =>
      Somewhere(q, pc, stack) && |caps| == 2 * g && pos <= |env.text.input| && FramesSafe(env, q, g, frames)
    case Failing(frames) => FramesSafe(env, q, g, frames)
    case Succeeding(caps, frames) => |caps| == 2 * g && FramesSafe(env, q, g, frames)
    case Done(matched, caps) => matched ==> |caps| == 2 * g
    case Stuck => false
  }

  lemma {:induction false} FramesPush(env: Env, q: seq<Instr>, g: nat, frames: seq<Frame>, f: Frame)
    requires FramesSafe(env, q, g, frames) && FrameSafe(env, q, g, f)
    ensures FramesSafe(env, q, g, frames + [f])
  {
    hide FrameSafe;
  }

  lemma {:induction false} AddrIs(q: seq<Instr>, k: nat)
    requires k <= |q|
    ensures Addr(q, k) == Size(q[..k])
  {
    PrefixSame(q[..k], q[k..], k);
    assert q == q[..k] + q[k..];
    AddrIsSize(q[..k]);
  }

  /** The instruction at position k. */
  lemma {:induction false} FetchAt(env: Env, q: seq<Instr>, g: nat, k: nat)
    requires Loaded(env, q, g) && k <= |q|
    ensures Fetch(env.code, Addr(q, k)) == Some(if k < |q| then q[k] else Match)
    ensures k < |q| ==>
        Addr(q, k + 1) == Addr(q, k) + InstrSize(q[k]) && CodeAt(env.code, Addr(q, k + 1), q[k + 1..] + [Match])
  {
    hide CodeAt, Fetch, Linked, Size;
    AddrIs(q, k);
    if k < |q| {
      var rest := q[k + 1..] + [Match];
      assert q + [Match] == q[..k] + ([q[k]] + rest);
      CodeSplit(env.code, 0, q[..k], [q[k]] + rest);
      CodeHead(env.code, Size(q[..k]), q[k], rest);
    } else {
      assert q[..k] == q && [Match] == [Match] + [];
      CodeSplit(env.code, 0, q, [Match]);
      CodeHead(env.code, Size(q), Match, []);
    }
  }

  lemma FitAt(env: Env, q: seq<Instr>, g: nat, k: nat)
    requires Loaded(env, q, g) && k < |q|
    ensures Fit(q, k, g)
  {
  }

  // ----- the loop opcode does not get stuck -----

  lemma {:induction false} GreedyRunSafe(env: Env, pc: nat, x: seq<Instr>, pos: nat, q: nat, max: nat)
    requires CodeAt(env.code, pc, x + [Match]) && SimpleCount(x) > 0 && pos <= |env.text.input|
    ensures GreedyRun(env, pc, pos, q, max).Some?
    ensures var (n, p) := GreedyRun(env, pc, pos, q, max).value;
        n >= q && p == pos + (n - q) * SimpleCount(x) && p <= |env.text.input|
    decreases |env.text.input| - pos
  {
    hide CodeAt, SimpleRun, SimpleSeq, SimpleCount;
    SimpleRunIs(env, pc, x, pos);
    SimpleTakes(env, x, pos);
    match SimpleSeq(env, x, pos)
    case None =>
    case Some(p1) =>
      if !(q + 1 >= max && max != INT32_MAX) {
        GreedyRunSafe(env, pc, x, p1, q + 1, max);
        var (n, p) := GreedyRun(env, pc, p1, q + 1, max).value;
        assert (n - q - 1) * SimpleCount(x) + SimpleCount(x) == (n - q) * SimpleCount(x);
      }
  }

  /** n iterations of count characters each lead from pos to p. */
  predicate Took(pos: nat, n: nat, count: nat, p: nat) {
    p == pos + n * count
  }

  lemma {:induction false} OpcodeRuns(env: Env, q: seq<Instr>, g: nat, k: nat, pos: nat)
    requires Loaded(env, q, g) && k < |q| && q[k].SimpleGreedyQuant? && pos <= |env.text.input|
    ensures GreedyRun(env, Addr(q, k + 1), pos, 0, q[k].max).Some?
    ensures var (n, p) := GreedyRun(env, Addr(q, k + 1), pos, 0, q[k].max).value;
        Took(pos, n, q[k].count, p) && p <= |env.text.input|
  {
    hide Loaded, CodeAt, Size, SimpleCount, GreedyRun;
    FitAt(env, q, g, k);
    FetchAt(env, q, g, k);
    var n :| AtomFollows(q, k, n);
    var x := q[k + 1..k + 1 + n];
    var rest := q[k + 2 + n..] + [Match];
    assert q[k + 1..] + [Match] == (x + [Match]) + rest;
    CodeSplit(env.code, Addr(q, k + 1), x + [Match], rest);
    GreedyRunSafe(env, Addr(q, k + 1), x, pos, 0, q[k].max);
  }

  // ----- one step -----

  /** A thread on instruction k, in a safe state. */
  ghost predicate Standing(env: Env, q: seq<Instr>, g: nat, k: nat, pc: nat, pos: nat, caps: Captures,
      stack: seq<int>, frames: seq<Frame>) {
    && Loaded(env, q, g) && On(q, k, pc, stack) && |caps| == 2 * g && pos <= |env.text.input|
    && FramesSafe(env, q, g, frames)
  }

  /** Behind the instruction, with the counters it leaves. */
  lemma NextOn(q: seq<Instr>, k: nat, pc: nat, stack: seq<int>, stack': seq<int>)
    requires On(q, k, pc, stack) && k < |q| && |stack'| == |stack| + Delta(q[k])
    ensures Somewhere(q, pc + InstrSize(q[k]), stack')
  {
    assert On(q, k + 1, pc + InstrSize(q[k]), stack');
  }

  /** At the target of the instruction's jump. */
  lemma {:induction false} JumpOn(q: seq<Instr>, g: nat, k: nat, pc: nat, stack: seq<int>, stack': seq<int>)
    requires On(q, k, pc, stack) && k < |q| && |stack'| == |stack| + Delta(q[k]) && Fit(q, k, g) && Offset(q[k]).Some?
    ensures var target := pc + InstrSize(q[k]) + Offset(q[k]).value; target >= 0 && Somewhere(q, target, stack')
  {
    hide AtomFollows;
    var t :| Lands(q, k, t);
    assert Addr(q, k + 1) == Addr(q, k) + InstrSize(q[k]) && Depth(q, k + 1) == Depth(q, k) + Delta(q[k]);
    assert On(q, t, Addr(q, t), stack');
  }

  lemma {:induction false} SimpleSafe(env: Env, q: seq<Instr>, g: nat, k: nat, pc: nat, pos: nat, caps: Captures,
      stack: seq<int>, frames: seq<Frame>)
    requires Standing(env, q, g, k, pc, pos, caps, stack, frames) && k < |q| && (IsCharInstr(q[k]) || IsAssertion(q[k]))
    ensures Safe(env, q, g, match Simple(env, q[k], pos) {
      case None => Failing(frames)
      case Some(p) => Thread(pc + InstrSize(q[k]), p, caps, stack, frames)
    })
  {
    hide Loaded, On, Somewhere, FramesSafe, Takes, HoldsAt, Addr, Depth, InstrSize;
    NextOn(q, k, pc, stack, stack);
  }

  /** Saving a state to resume at a safe place, and going on at another. */
  lemma {:induction false} SaveSafe(env: Env, q: seq<Instr>, g: nat, kind: FrameKind, resume: int, pc: int, pos: nat,
      caps: Captures, stack: seq<int>, frames: seq<Frame>)
    requires !kind.GreedyFrame? && resume >= 0 && pc >= 0 && Somewhere(q, resume, stack) && Somewhere(q, pc, stack)
    requires |caps| == 2 * g && pos <= |env.text.input| && FramesSafe(env, q, g, frames)
    ensures Safe(env, q, g, Save(kind, resume, pc, pos, caps, stack, frames))
  {
    hide Somewhere, FramesSafe;
    FramesPush(env, q, g, frames, Frame(kind, resume, pos, caps, stack, 0));
  }

  lemma {:induction false} ControlSafe(env: Env, q: seq<Instr>, g: nat, k: nat, pc: nat, pos: nat, caps: Captures,
      stack: seq<int>, frames: seq<Frame>)
    requires Standing(env, q, g, k, pc, pos, caps, stack, frames) && k < |q| && !IsCharInstr(q[k]) && !IsAssertion(q[k])
    ensures Safe(env, q, g, ExecControl(env, q[k], pc, pc + InstrSize(q[k]), pos, caps, stack, frames))
  {
    hide Loaded, On, Somewhere, FramesSafe, Fit, GreedyRun, ResetCaps, Addr, Depth, InstrSize;
    FitAt(env, q, g, k);
    FitFacts(env, q, g, k, pc, stack);
    var i, next := q[k], pc + InstrSize(q[k]);
    match i
    case Match =>
    case Goto(off) => JumpOn(q, g, k, pc, stack, stack);
    case SplitGotoFirst(_) | SplitNextFirst(_) | Lookahead(_) | NegativeLookahead(_) => {
      var off := Offset(i).value;
      JumpOn(q, g, k, pc, stack, stack);
      NextOn(q, k, pc, stack, stack);
      var kind := if i.Lookahead? then AheadFrame else if i.NegativeLookahead? then NotAheadFrame else SplitFrame;
      if i.SplitGotoFirst? {
        SaveSafe(env, q, g, kind, next, next + off, pos, caps, stack, frames);
      } else {
        SaveSafe(env, q, g, kind, next + off, next, pos, caps, stack, frames);
      }
    }
    case SaveStart(_) | SaveEnd(_) | SaveReset(_, _) => NextOn(q, k, pc, stack, stack);
    case PushI32(n) => NextOn(q, k, pc, stack, stack + [n]);
    case PushCharPos => NextOn(q, k, pc, stack, stack + [pos]);
    case Drop => NextOn(q, k, pc, stack, stack[..|stack| - 1]);
    case Loop(off) => {
      var stack' := stack[..|stack| - 1] + [stack[|stack| - 1] - 1];
      JumpOn(q, g, k, pc, stack, stack');
      NextOn(q, k, pc, stack, stack');
    }
    case BneCharPos(off) => {
      JumpOn(q, g, k, pc, stack, stack[..|stack| - 1]);
      NextOn(q, k, pc, stack, stack[..|stack| - 1]);
    }
    case SimpleGreedyQuant(_, _, _, _) => OpcodeSafe(env, q, g, k, pc, pos, caps, stack, frames);
  }

  /** What fitness says at this position. */
  lemma {:induction false} FitFacts(env: Env, q: seq<Instr>, g: nat, k: nat, pc: nat, stack: seq<int>)
    requires k < |q| && Fit(q, k, g) && On(q, k, pc, stack)
    ensures (q[k].Drop? || q[k].BneCharPos? || q[k].Loop? ==> |stack| >= 1)
    ensures (q[k].SaveStart? || q[k].SaveEnd? ==> q[k].idx < g) && (q[k].SaveReset? ==> q[k].last < g)
  {
    assert Depth(q, k + 1) == Depth(q, k) + Delta(q[k]);
  }

  /** What the loop opcode does. */
  lemma OpcodeIs(env: Env, i: Instr, pc: nat, next: nat, pos: nat, caps: Captures, stack: seq<int>, frames: seq<Frame>)
    requires i.SimpleGreedyQuant?
    ensures ExecControl(env, i, pc, next, pos, caps, stack, frames) == match GreedyRun(env, next, pos, 0, i.max) {
      case None => Stuck
      case Some((n, p)) =>
        if n < i.min then Failing(frames)
        else if n > i.min
            then Go(next + i.next, p, caps, stack, frames + [Frame(GreedyFrame, pc + 1, p, caps, stack, n - i.min)])
        else Go(next + i.next, p, caps, stack, frames)
    }
  {
    hide GreedyRun;
  }

  lemma {:induction false} OpcodeSafe(env: Env, q: seq<Instr>, g: nat, k: nat, pc: nat, pos: nat, caps: Captures,
      stack: seq<int>, frames: seq<Frame>)
    requires Standing(env, q, g, k, pc, pos, caps, stack, frames) && k < |q| && q[k].SimpleGreedyQuant? && Fit(q, k, g)
    ensures Safe(env, q, g, ExecControl(env, q[k], pc, pc + InstrSize(q[k]), pos, caps, stack, frames))
  {
    hide Loaded, Somewhere, FramesSafe, Fit, GreedyRun, Addr, Depth, FrameSafe, ExecControl, Safe, Go, Took;
    var i, next := q[k], pc + InstrSize(q[k]);
    OpcodeIs(env, i, pc, next, pos, caps, stack, frames);
    OpcodeRuns(env, q, g, k, pos);
    FetchAt(env, q, g, k);
    JumpOn(q, g, k, pc, stack, stack);
    var (n, p) := GreedyRun(env, next, pos, 0, i.max).value;
    if n < i.min {
      FailingSafe(env, q, g, frames);
    } else if n == i.min {
      GoSafe(env, q, g, next + i.next, p, caps, stack, frames);
    } else {
      var f := Frame(GreedyFrame, pc + 1, p, caps, stack, n - i.min);
      GreedyFrameSafe(env, q, g, k, f, pos, n);
      FramesPush(env, q, g, frames, f);
      GoSafe(env, q, g, next + i.next, p, caps, stack, frames + [f]);
    }
  }

  lemma FailingSafe(env: Env, q: seq<Instr>, g: nat, frames: seq<Frame>)
    requires FramesSafe(env, q, g, frames)
    ensures Safe(env, q, g, Failing(frames))
  {
    hide FramesSafe;
  }

  lemma GoSafe(env: Env, q: seq<Instr>, g: nat, pc: int, pos: nat, caps: Captures, stack: seq<int>, frames: seq<Frame>)
    requires pc >= 0 && Somewhere(q, pc, stack) && |caps| == 2 * g && pos <= |env.text.input|
    requires FramesSafe(env, q, g, frames)
    ensures Safe(env, q, g, Go(pc, pos, caps, stack, frames))
  {
    hide FramesSafe, Somewhere;
  }

  lemma {:induction false} GreedyFrameSafe(env: Env, q: seq<Instr>, g: nat, k: nat, f: Frame, pos: nat, n: nat)
    requires k < |q| && q[k].SimpleGreedyQuant? && f.pc >= 1 && On(q, k, f.pc - 1, f.stack) && f.kind.GreedyFrame?
    requires |f.caps| == 2 * g
    requires Took(pos, n, q[k].count, f.pos) && f.pos <= |env.text.input| && 1 <= f.count <= n
    ensures FrameSafe(env, q, g, f)
  {
    hide Addr, Depth;
    assert n * q[k].count == f.count * q[k].count + (n - f.count) * q[k].count;
    assert OnLoop(q, k, f);
  }

  lemma {:induction false} ExecSafe(env: Env, q: seq<Instr>, g: nat, k: nat, pc: nat, pos: nat, caps: Captures,
      stack: seq<int>, frames: seq<Frame>)
    requires Standing(env, q, g, k, pc, pos, caps, stack, frames)
    ensures Safe(env, q, g, Exec(env, pc, pos, caps, stack, frames))
  {
    hide Loaded, Fetch, ExecControl, Simple, FramesSafe, Safe, Addr, Depth;
    FetchAt(env, q, g, k);
    if k == |q| {
      MatchSafe(env, q, g, pc, pos, caps, stack, frames);
    } else if IsCharInstr(q[k]) || IsAssertion(q[k]) {
      SimpleSafe(env, q, g, k, pc, pos, caps, stack, frames);
    } else {
      ControlSafe(env, q, g, k, pc, pos, caps, stack, frames);
    }
  }

  lemma MatchSafe(env: Env, q: seq<Instr>, g: nat, pc: nat, pos: nat, caps: Captures, stack: seq<int>,
      frames: seq<Frame>)
    requires |caps| == 2 * g && FramesSafe(env, q, g, frames)
    ensures Safe(env, q, g, ExecControl(env, Match, pc, pc + 1, pos, caps, stack, frames))
  {
    hide FramesSafe;
  }

  lemma {:induction false} FailSafe(env: Env, q: seq<Instr>, g: nat, frames: seq<Frame>)
    requires Loaded(env, q, g) && FramesSafe(env, q, g, frames)
    ensures Safe(env, q, g, Fail(env, frames))
  {
    hide Loaded, Somewhere, Fetch, OnLoop;
    if frames != [] {
      var f, rest := frames[|frames| - 1], frames[..|frames| - 1];
      assert FrameSafe(env, q, g, f) && FramesSafe(env, q, g, rest);
      if f.kind.GreedyFrame? {
        var k :| OnLoop(q, k, f);
        GreedyFailSafe(env, q, g, k, f, rest, frames);
      }
    }
  }

  lemma {:induction false} GreedyFailSafe(env: Env, q: seq<Instr>, g: nat, k: nat, f: Frame, rest: seq<Frame>,
      frames: seq<Frame>)
    requires Loaded(env, q, g) && FramesSafe(env, q, g, rest) && frames == rest + [f] && f.kind.GreedyFrame?
    requires OnLoop(q, k, f)
    requires |f.caps| == 2 * g && f.pos <= |env.text.input|
    ensures Safe(env, q, g, Fail(env, frames))
  {
    hide Loaded, Somewhere, Fetch, FramesSafe, Addr, Depth, Fit;
    FetchAt(env, q, g, k);
    FitAt(env, q, g, k);
    assert On(q, k, f.pc - 1, f.stack);
    JumpOn(q, g, k, f.pc - 1, f.stack, f.stack);
    assert frames[|frames| - 1] == f && frames[..|frames| - 1] == rest;
    var n := q[k].count;
    assert f.count * n == (f.count - 1) * n + n;
    if f.count > 1 {
      var f' := f.(pos := f.pos - n, count := f.count - 1);
      assert OnLoop(q, k, f');
      FramesPush(env, q, g, rest, f');
    }
  }

  lemma {:induction false} SucceedSafe(env: Env, q: seq<Instr>, g: nat, caps: Captures, frames: seq<Frame>)
    requires |caps| == 2 * g && FramesSafe(env, q, g, frames)
    ensures Safe(env, q, g, Succeed(caps, frames))
  {
    hide Somewhere, OnLoop;
    if frames != [] {
      assert FrameSafe(env, q, g, frames[|frames| - 1]);
    }
  }

  /** Every step keeps the machine safe. */
  lemma {:induction false} StepSafe(env: Env, q: seq<Instr>, g: nat, c: Config)
    requires Loaded(env, q, g) && Safe(env, q, g, c)
    ensures Safe(env, q, g, Step(env, c))
  {
    hide Loaded, On, FramesSafe, Exec, Fail, Succeed;
    match c
    case Thread(pc, pos, caps, stack, frames) => {
      var k :| On(q, k, pc, stack);
      hide Safe;
      ExecSafe(env, q, g, k, pc, pos, caps, stack, frames);
    }
    case Failing(frames) => FailSafe(env, q, g, frames);
    case Succeeding(caps, frames) => SucceedSafe(env, q, g, caps, frames);
    case Done(_, _) =>
  }

  lemma {:induction false} RunSafe(env: Env, q: seq<Instr>, g: nat, c: Config, n: nat)
    requires Loaded(env, q, g) && Safe(env, q, g, c)
    ensures Safe(env, q, g, StepN(env, c, n))
    decreases n
  {
    hide Loaded, Safe, Step;
    if n > 0 {
      StepSafe(env, q, g, c);
      RunSafe(env, q, g, Step(env, c), n - 1);
    }
  }

  // ----- the static bound -----

  /** The largest linear count among the first k instructions. */
  function MaxDepth(s: seq<Instr>, k: nat): int
    requires k <= |s|
  {
    if k == 0 then 0 else
      var m := MaxDepth(s, k - 1);
      if Depth(s, k) > m then Depth(s, k) else m
  }

  lemma {:induction false} MaxDepthBounds(s: seq<Instr>, k: nat, j: nat)
    requires j <= k <= |s|
    ensures Depth(s, j) <= MaxDepth(s, k)
    decreases k
  {
    hide Depth;
    assert Depth(s, 0) == 0 by { NetEmpty(); DepthZero(s); }
    if j < k {
      MaxDepthBounds(s, k - 1, j);
    }
  }

  lemma DepthZero(s: seq<Instr>)
    ensures Depth(s, 0) == 0
  {
  }

  /** Everything but the final `match`. */
  function BodyOf(r: Re, sticky: bool): seq<Instr>
    requires WellFormed(r)
  {
    Prelude(sticky) + [SaveStart(0)] + Emit(r, 1) + [SaveEnd(0)]
  }

  lemma {:induction false} ProgramLoaded(env: Env, r: Re, sticky: bool)
    requires WellFormed(r) && CodeAt(env.code, 0, Program(r, sticky))
    ensures Loaded(env, BodyOf(r, sticky), 1 + Groups(r)) && Program(r, sticky) == BodyOf(r, sticky) + [Match]
  {
    hide Linked, Prelude, Emit, WellFormed, Groups, CodeAt;
    var g := 1 + Groups(r);
    assert Program(r, sticky) == BodyOf(r, sticky) + [Match];
    LinkedPrelude(sticky, g);
    LinkedEmit(r, 1, g);
    LinkedPlain(SaveStart(0), g);
    LinkedPlain(SaveEnd(0), g);
    LinkedCat(Prelude(sticky), [SaveStart(0)], g);
    LinkedCat(Prelude(sticky) + [SaveStart(0)], Emit(r, 1), g);
    LinkedCat(Prelude(sticky) + [SaveStart(0)] + Emit(r, 1), [SaveEnd(0)], g);
  }

  /**
   Static stack bound. Whatever the expression, the text, the start and the number of steps:
   the machine is not stuck; a running thread stands on an instruction k of the program with
   exactly as many counters as the linear count up to k; and that is between 0 and the maximum.
   */
  lemma {:induction false} StackBound(env: Env, r: Re, sticky: bool, pos: nat, n: nat)
    requires WellFormed(r) && CodeAt(env.code, 0, Program(r, sticky)) && pos <= |env.text.input|
    ensures var c := StepN(env, Thread(0, pos, seq(2 * (1 + Groups(r)), _ => None), [], []), n);
      var p := Program(r, sticky);
      && !c.Stuck? && Safe(env, BodyOf(r, sticky), 1 + Groups(r), c)
      && (c.Thread? ==> exists k: nat | k < |p| :: c.pc == Addr(p, k) && |c.stack| == Depth(p, k) <= MaxDepth(p, |p|))
  {
    hide CodeAt, Loaded, WellFormed, Groups, Program, BodyOf, FramesSafe, Addr, Depth, StepN, MaxDepth;
    var q, p, g := BodyOf(r, sticky), Program(r, sticky), 1 + Groups(r);
    ProgramLoaded(env, r, sticky);
    var c0 := Thread(0, pos, seq(2 * g, _ => None), [], []);
    DepthZero(q);
    AddrZero(q);
    assert On(q, 0, 0, []);
    NoFrames(env, q, g);
    assert Safe(env, q, g, c0);
    RunSafe(env, q, g, c0, n);
    var c := StepN(env, c0, n);
    if c.Thread? {
      var k: nat :| On(q, k, c.pc, c.stack);
      PrefixSame(q, [Match], k);
      MaxDepthBounds(p, |p|, k);
      assert k < |p|;
    }
  }

  lemma AddrZero(s: seq<Instr>)
    ensures Addr(s, 0) == 0
  {
  }

  lemma NoFrames(env: Env, q: seq<Instr>, g: nat)
    ensures FramesSafe(env, q, g, [])
  {
  }
}
