/** The backtracking machine that runs the code, one step at a time. */
module ReVm {
  import opened Basics
  import opened ReCode
  import opened ReClass
  import opened ReText

  datatype FrameKind = SplitFrame | AheadFrame | NotAheadFrame | GreedyFrame

  /** A saved state; for a greedy loop, pc is the address of the loop's operands and count what is left to give back. */
  datatype Frame = Frame(kind: FrameKind, pc: nat, pos: nat, caps: Captures, stack: seq<int>, count: nat)

  datatype Config =
    | Thread(pc: nat, pos: nat, caps: Captures, stack: seq<int>, frames: seq<Frame>)
    | Failing(frames: seq<Frame>)
    | Succeeding(caps: Captures, frames: seq<Frame>)
    | Done(matched: bool, caps: Captures)
    | Stuck

  /** The code and the text it runs on. */
  datatype Env = Env(code: seq<Byte>, text: Text)

  /** Does a character instruction take character c? */
  predicate Takes(i: Instr, c: nat) {
    match i
    case Char(x) => c == x
    case Char32(x) => c == x
    case Dot => !IsLineTerminator(c)
    case Any => true
    case Range(p) => Accepts16(p, c)
    case Range32(p) => InPairs(p, c)
    case _ => false
  }

  /** Does an assertion hold at a position? */
  predicate HoldsAt(t: Text, i: Instr, pos: nat) {
    match i
    case LineStart => AtLineStart(t, pos)
    case LineEnd => AtLineEnd(t, pos)
    case WordBoundary => AtWordBoundary(t, pos)
    case NotWordBoundary => !AtWordBoundary(t, pos)
    case _ => false
  }

  /** Where a character or assertion instruction leaves the position, if it does not fail. */
  function Simple(env: Env, i: Instr, pos: nat): Option<nat> {
    if IsCharInstr(i) then (if pos < |env.text.input| && Takes(i, env.text.input[pos]) then Some(pos + 1) else None)
    else if IsAssertion(i) then (if HoldsAt(env.text, i, pos) then Some(pos) else None)
    else None
  }

  /** Run straight-line code up to `match` without backtracking. */
  function SimpleRun(env: Env, pc: nat, pos: nat): Option<nat>
    decreases |env.code| - pc
  {
    match Fetch(env.code, pc)
    case None => None
    case Some(i) =>
      if i.Match? then Some(pos)
      else
        match Simple(env, i, pos)
        case None => None
        case Some(p) => if pc < |env.code| then SimpleRun(env, pc + InstrSize(i), p) else None
  }

  /** Repeat the simple code from pc as often as it matches, at most max times; how often, and where that ends. */
  function GreedyRun(env: Env, pc: nat, pos: nat, q: nat, max: nat): Option<(nat, nat)>
    decreases |env.text.input| - pos
  {
    match SimpleRun(env, pc, pos)
    case None => Some((q, pos))
    case Some(p) =>
      if q + 1 >= max && max != INT32_MAX then Some((q + 1, p))
      else if pos < p <= |env.text.input| then GreedyRun(env, pc, p, q + 1, max)
      else None
  }

  /** Continue at a computed address. */
  function Go(pc: int, pos: nat, caps: Captures, stack: seq<int>, frames: seq<Frame>): Config {
    if pc >= 0 then Thread(pc, pos, caps, stack, frames) else Stuck
  }

  /** Save a state to resume at a computed address, and continue at pc. */
  function Save(kind: FrameKind, resume: int, pc: int, pos: nat, caps: Captures, stack: seq<int>,
      frames: seq<Frame>): Config {
    if resume < 0 then Stuck else Go(pc, pos, caps, stack, frames + [Frame(kind, resume, pos, caps, stack, 0)])
  }

  /** One instruction of a running thread. */
  function Exec(env: Env, pc: nat, pos: nat, caps: Captures, stack: seq<int>, frames: seq<Frame>): Config {
    match Fetch(env.code, pc)
    case None => Stuck
    case Some(i) =>
      var next := pc + InstrSize(i);
      if IsCharInstr(i) || IsAssertion(i) then
        match Simple(env, i, pos)
        case None => Failing(frames)
        case Some(p) => Thread(next, p, caps, stack, frames)
      else ExecControl(env, i, pc, next, pos, caps, stack, frames)
  }

  function ExecControl(env: Env, i: Instr, pc: nat, next: nat, pos: nat, caps: Captures, stack: seq<int>,
      frames: seq<Frame>): Config {
    match i
    case Match => Succeeding(caps, frames)
    case Goto(off) => Go(next + off, pos, caps, stack, frames)
    case SplitGotoFirst(off) => Save(SplitFrame, next, next + off, pos, caps, stack, frames)
    case SplitNextFirst(off) => Save(SplitFrame, next + off, next, pos, caps, stack, frames)
    case Lookahead(off) => Save(AheadFrame, next + off, next, pos, caps, stack, frames)
    case NegativeLookahead(off) => Save(NotAheadFrame, next + off, next, pos, caps, stack, frames)
    case SaveStart(k) => if 2 * k < |caps| then Thread(next, pos, caps[2 * k := Some(pos)], stack, frames) else Stuck
    case SaveEnd(k) => if 2 * k + 1 < |caps| then Thread(next, pos, caps[2 * k + 1 := Some(pos)], stack, frames)
        else Stuck
    case SaveReset(first, last) => if 2 * last + 1 < |caps|
        then Thread(next, pos, ResetCaps(caps, first, last), stack, frames) else Stuck
    case PushI32(n) => Thread(next, pos, caps, stack + [n], frames)
    case Drop => if |stack| == 0 then Stuck else Thread(next, pos, caps, stack[..|stack| - 1], frames)
    case Loop(off) =>
      if |stack| == 0 then Stuck
      else
        var top := stack[|stack| - 1] - 1;
        Go(if top != 0 then next + off else next, pos, caps, stack[..|stack| - 1] + [top], frames)
    case PushCharPos => Thread(next, pos, caps, stack + [pos], frames)
    case BneCharPos(off) =>
      if |stack| == 0 then Stuck
      else Go(if stack[|stack| - 1] != pos then next + off else next, pos, caps, stack[..|stack| - 1], frames)
    case SimpleGreedyQuant(skip, min, max, _) =>
      (match GreedyRun(env, next, pos, 0, max)
       case None => Stuck
       case Some((q, p)) =>
         if q < min then Failing(frames)
         else if q > min
             then Go(next + skip, p, caps, stack, frames + [Frame(GreedyFrame, pc + 1, p, caps, stack, q - min)])
         else Go(next + skip, p, caps, stack, frames))
    case _ => Stuck
  }

  /** Resume from the newest saved state after a failure. */
  function Fail(env: Env, frames: seq<Frame>): Config {
    if frames == [] then Done(false, [])
    else
      var f, rest := frames[|frames| - 1], frames[..|frames| - 1];
      match f.kind
      case SplitFrame => Thread(f.pc, f.pos, f.caps, f.stack, rest)
      case NotAheadFrame => Thread(f.pc, f.pos, f.caps, f.stack, rest)
      case AheadFrame => Failing(rest)
      case GreedyFrame =>
        if f.pc == 0 || f.count == 0 then Stuck
        else
          match Fetch(env.code, f.pc - 1)
          case Some(SimpleGreedyQuant(skip, _, _, n)) =>
            if f.pos < n then Stuck
            else
              var p := f.pos - n;
              var rest' := if f.count == 1 then rest else rest + [f.(pos := p, count := f.count - 1)];
              Go(f.pc + 16 + skip, p, f.caps, f.stack, rest')
          case _ => Stuck
  }

  /** After a success only a lookahead stops the unwinding. */
  function Succeed(caps: Captures, frames: seq<Frame>): Config {
    if frames == [] then Done(true, caps)
    else
      var f, rest := frames[|frames| - 1], frames[..|frames| - 1];
      match f.kind
      case AheadFrame => Thread(f.pc, f.pos, caps, f.stack, rest)
      case NotAheadFrame => Failing(rest)
      case _ => Succeeding(caps, rest)
  }

  function Step(env: Env, c: Config): Config {
    match c
    case Thread(pc, pos, caps, stack, frames) => Exec(env, pc, pos, caps, stack, frames)
    case Failing(frames) => Fail(env, frames)
    case Succeeding(caps, frames) => Succeed(caps, frames)
    case _ => c
  }

  function StepN(env: Env, c: Config, n: nat): Config
    decreases n
  {
    if n == 0 then c else StepN(env, Step(env, c), n - 1)
  }

  ghost predicate Reaches(env: Env, c: Config, d: Config) {
    exists n: nat :: StepN(env, c, n) == d
  }

  lemma {:induction false} StepNAdd(env: Env, c: Config, m: nat, n: nat)
    ensures StepN(env, c, m + n) == StepN(env, StepN(env, c, m), n)
    decreases m
  {
    hide Step;
    if m > 0 {
      StepNAdd(env, Step(env, c), m - 1, n);
    }
  }

  lemma ReachesSelf(env: Env, c: Config)
    ensures Reaches(env, c, c)
  {
    assert StepN(env, c, 0) == c;
  }

  lemma {:induction false} ReachesTrans(env: Env, c: Config, d: Config, e: Config)
    requires Reaches(env, c, d) && Reaches(env, d, e)
    ensures Reaches(env, c, e)
  {
    hide StepN;
    var m: nat :| StepN(env, c, m) == d;
    var n: nat :| StepN(env, d, n) == e;
    StepNAdd(env, c, m, n);
    assert StepN(env, c, m + n) == e;
  }

  lemma {:induction false} ReachesStep(env: Env, c: Config, e: Config)
    requires Reaches(env, Step(env, c), e)
    ensures Reaches(env, c, e)
  {
    hide Step;
    var n: nat :| StepN(env, Step(env, c), n) == e;
    assert StepN(env, c, n + 1) == e;
  }
}
