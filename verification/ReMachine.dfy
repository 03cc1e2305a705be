/**
 The machine as the source runs it: a loop over opcode bytes that updates the program
 counter, the position, the captures, the counters and the stack of saved states. Each of
 its parts is proved against the step function.
 */
module ReMachine {
  import opened Basics
  import opened ReCode
  import opened ReClass
  import opened ReText
  import opened ReSyntax
  import opened ReVm
  import opened ReSpec
  import opened ReMoves
  import opened ReMeaning
  import opened ReSimple
  import opened ReStack
  import opened ReSafety
  import opened ReTheorem
  import opened ReResults
  import opened ReNesting
  import opened ReFits
  import opened ReCompiler

  // ----- binary search needs sorted ranges -----

  predicate Sane(i: Instr) {
    match i
    case Range(p) => |p| >= 1 && SortedPairs(p)
    case Range32(p) => |p| >= 1 && SortedPairs(p)
    case _ => true
  }

  predicate AllSane(s: seq<Instr>) {
    forall k | 0 <= k < |s| :: Sane(s[k])
  }

  lemma ClassSane(p: seq<nat>)
    requires ClassPoints(p) && ClassInstr(p).Some?
    ensures Sane(ClassInstr(p).value)
  {
    hide SortedPairs, PairsOf;
    if |p| / 2 > 0 {
      var j := |p| - 2;
      assert p[j] < p[j + 1];
      if HighPoint(p) <= 0xffff {
        PairsSorted(p, 0xffff);
      } else {
        PairsSorted(p, 0xffff_fffe);
      }
    }
  }

  lemma SaneAppend(x: seq<Instr>, y: seq<Instr>)
    requires AllSane(x) && AllSane(y)
    ensures AllSane(x + y)
  {
    hide Sane;
  }

  lemma SaneQuant(x: seq<Instr>, cc: nat, n: nat, min: nat, max: nat, greedy: bool)
    requires AllSane(x)
    ensures AllSane(QuantCode(x, cc, n, min, max, greedy))
  {
    hide CheckAdvance, SimpleCount, Size;
    var check := greedy && !CheckAdvance(x);
    if IsSimpleLoop(x, max, greedy) {
    } else if min == 0 {
      assert AllSane(ZeroOrMore(x, max, greedy, check));
      SaneAppend(Reset(cc, n), ZeroOrMore(x, max, greedy, check));
    } else if min == 1 && max == INT32_MAX && !check {
    } else {
      assert AllSane(Rest(x, min, max, greedy, check));
      assert AllSane(Exactly(x, min));
      SaneAppend(if min == 1 then x else Exactly(x, min), Rest(x, min, max, greedy, check));
    }
  }

  lemma {:induction false} SaneEmit(r: Re, cc: nat)
    requires WellFormed(r)
    ensures AllSane(Emit(r, cc))
    decreases r
  {
    hide Emit, AllSane, AltCode, LookCode, QuantCode, ClassPoints, ClassInstr;
    match r
    case Cat(a, b) =>
      EmitCat(a, b, cc);
      SaneEmit(a, cc);
      SaneEmit(b, cc + Groups(a));
      SaneAppend(Emit(a, cc), Emit(b, cc + Groups(a)));
    case Alt(a, b) =>
      EmitAlt(a, b, cc);
      SaneEmit(a, cc);
      SaneEmit(b, cc + Groups(a));
      SaneAlt(Emit(a, cc), Emit(b, cc + Groups(a)));
    case Capture(a) =>
      EmitCapture(a, cc);
      SaneEmit(a, cc + 1);
      SaneBetween(SaveStart(cc), Emit(a, cc + 1), SaveEnd(cc));
    case Quant(a, min, max, greedy) =>
      EmitQuant(a, min, max, greedy, cc);
      SaneEmit(a, cc);
      SaneQuant(Emit(a, cc), cc, Groups(a), min, max, greedy);
    case Look(negated, a) =>
      EmitLook(negated, a, cc);
      SaneEmit(a, cc);
      SaneLook(negated, Emit(a, cc));
    case _ => SaneTerm(r, cc);
  }

  lemma SaneBetween(i: Instr, x: seq<Instr>, j: Instr)
    requires AllSane(x) && Sane(i) && Sane(j)
    ensures AllSane([i] + x + [j])
  {
    hide Sane;
  }

  lemma SaneAlt(x: seq<Instr>, y: seq<Instr>)
    requires AllSane(x) && AllSane(y)
    ensures AllSane(AltCode(x, y))
  {
    hide AllSane, Size;
    var i, j := SplitNextFirst(Size(x) + 5), Goto(Size(y));
    SaneBetween(i, x, j);
    SaneAppend([i] + x + [j], y);
  }

  lemma SaneLook(negated: bool, x: seq<Instr>)
    requires AllSane(x)
    ensures AllSane(LookCode(negated, x))
  {
    hide AllSane, Size;
    SaneBetween(if negated then NegativeLookahead(Size(x) + 1) else Lookahead(Size(x) + 1), x, Match);
  }

  lemma SaneTerm(r: Re, cc: nat)
    requires WellFormed(r) && (IsLeaf(r) || r.Empty?)
    ensures AllSane(Emit(r, cc))
  {
    hide SortedPairs, ClassInstr, ClassPoints;
    if r.Class? {
      ClassSane(r.points);
    }
  }

  lemma SaneBody(r: Re, sticky: bool)
    requires WellFormed(r)
    ensures AllSane(BodyOf(r, sticky))
  {
    hide Emit, WellFormed;
    SaneEmit(r, 1);
    assert AllSane(Prelude(sticky));
    SaneAppend(Prelude(sticky), [SaveStart(0)]);
    SaneAppend(Prelude(sticky) + [SaveStart(0)], Emit(r, 1));
  }

  // ----- the machine -----

  datatype Outcome = Go | NoMatch | Matched

  /** Unwinding after a match or a failure. */
  function After(ret: bool, caps: Captures, frames: seq<Frame>): Config {
    if ret then Succeeding(caps, frames) else Failing(frames)
  }

  class Machine {
    const env: Env
    var pc: nat
    var pos: nat
    var caps: Captures
    var stack: seq<int>
    var frames: seq<Frame>

    constructor (code: seq<Byte>, text: Text, cindex: nat, captureCount: nat)
      ensures env == Env(code, text) && Here() == Thread(0, cindex, seq(2 * captureCount, _ => None), [], [])
    {
      env := Env(code, text);
      pc := 0;
      pos := cindex;
      caps := seq(2 * captureCount, _ => None);
      stack := [];
      frames := [];
    }

    function Here(): Config
      reads this
    {
      Thread(pc, pos, caps, stack, frames)
    }

    /** A character or an assertion: the address behind it, and the position it leaves. */
    method ExecSimple(at: nat, from: nat, ghost i: Instr) returns (next: nat, res: Option<nat>)
      requires Fetch(env.code, at) == Some(i) && (IsCharInstr(i) || IsAssertion(i)) && Sane(i)
      requires from <= |env.text.input|
      ensures next == at + InstrSize(i) && res == Simple(env, i, from)
    {
      hide GetU16, GetU32, ReadPairs16, ReadPairs32, SortedPairs, Accepts16, InPairs, IsLineTerminator, AtWordBoundary;
      var code, input := env.code, env.text.input;
      var op := code[at];
      next := at + 1;
      if op == 5 {
        if from == 0 {
          return next, Some(from);
        }
        res := if env.text.multiLine && IsLineTerminator(input[from - 1]) then Some(from) else None;
      } else if op == 6 {
        if from == |input| {
          return next, Some(from);
        }
        res := if env.text.multiLine && IsLineTerminator(input[from]) then Some(from) else None;
      } else if op == 17 || op == 18 {
        var boundary := Boundary(from);
        res := if boundary == (op == 17) then Some(from) else None;
      } else {
        var size := InstrSizeAt(at, i);
        next := at + size;
        if from == |input| {
          return next, None;
        }
        var took := TakesChar(at, input[from], i);
        res := if took then Some(from + 1) else None;
      }
    }

    /** The size of a character instruction. */
    method InstrSizeAt(at: nat, ghost i: Instr) returns (n: nat)
      requires Fetch(env.code, at) == Some(i) && IsCharInstr(i)
      ensures n == InstrSize(i)
    {
      hide GetU16, GetU32, ReadPairs16, ReadPairs32;
      var op := env.code[at];
      n := if op == 1 then 3 else if op == 2 then 5 else if op == 3 || op == 4 then 1
           else 3 + GetU16(env.code, at + 1) * if op == 21 then 4 else 8;
    }

    method TakesChar(at: nat, c: nat, ghost i: Instr) returns (took: bool)
      requires Fetch(env.code, at) == Some(i) && IsCharInstr(i) && Sane(i)
      ensures took == Takes(i, c)
    {
      hide GetU16, GetU32, ReadPairs16, ReadPairs32, SortedPairs, Accepts16, InPairs, IsLineTerminator;
      var code := env.code;
      var op := code[at];
      if op == 1 {
        took := GetU16(code, at + 1) == c;
      } else if op == 2 {
        took := GetU32(code, at + 1) == c;
      } else if op == 3 {
        took := !IsLineTerminator(c);
      } else if op == 4 {
        took := true;
      } else if op == 21 {
        took := Search16(code, at + 3, GetU16(code, at + 1), c);
      } else {
        took := Search32(code, at + 3, GetU16(code, at + 1), c);
      }
    }

    method Boundary(from: nat) returns (b: bool)
      requires from <= |env.text.input|
      ensures b == AtWordBoundary(env.text, from)
    {
      hide IsWordChar;
      var input := env.text.input;
      var before := from != 0 && IsWordChar(input[from - 1]);
      var behind := from < |input| && IsWordChar(input[from]);
      b := before != behind;
    }

    /** The atom of a loop opcode, run without saved states up to its `match`. */
    method ExecAtom(start: nat, from: nat, ghost x: seq<Instr>) returns (res: Option<nat>)
      requires CodeAt(env.code, start, x + [Match]) && SimpleCount(x) >= 0 && AllSane(x) && from <= |env.text.input|
      ensures res == SimpleRun(env, start, from)
    {
      hide CodeAt, Fetch, Simple, SimpleCount, SimpleRun, Sane;
      var at: nat, cur: nat := start, from;
      ghost var y := x;
      AtomHead(env, at, x);
      while env.code[at] != 10
        invariant CodeAt(env.code, at, y + [Match]) && SimpleCount(y) >= 0 && AllSane(y) && cur <= |env.text.input|
        invariant at < |env.code| && (y == [] <==> env.code[at] == 10)
        invariant SimpleRun(env, start, from) == SimpleRun(env, at, cur)
        decreases |y|
      {
        AtomStep(env, at, y, cur);
        var r;
        at, r := ExecSimple(at, cur, y[0]);
        if r.None? {
          return None;
        }
        cur := r.value;
        y := y[1..];
        AtomHead(env, at, y);
      }
      AtomEnd(env, at, cur);
      res := Some(cur);
    }

    /** The loop opcode: repeat the atom as often as it matches, up to the maximum. */
    method ExecGreedy(start: nat, from: nat, max: nat, ghost x: seq<Instr>) returns (q: nat, end: nat)
      requires CodeAt(env.code, start, x + [Match]) && SimpleCount(x) > 0 && AllSane(x) && from <= |env.text.input|
      ensures GreedyRun(env, start, from, 0, max) == Some((q, end)) && end <= |env.text.input|
    {
      hide CodeAt, SimpleCount, SimpleRun, GreedyRun, AllSane;
      q, end := 0, from;
      while true
        invariant from <= end <= |env.text.input|
        invariant GreedyRun(env, start, from, 0, max) == GreedyRun(env, start, end, q, max)
        decreases |env.text.input| - end
      {
        var res := ExecAtom(start, end, x);
        GreedyStep(env, start, x, end, q, max);
        if res.None? {
          return;
        }
        end := res.value;
        q := q + 1;
        if q >= max && max != INT32_MAX {
          return;
        }
      }
    }

    method PushState(kind: FrameKind, at: nat, count: nat)
      modifies this`frames
      ensures frames == old(frames) + [Frame(kind, at, pos, caps, stack, count)]
    {
      frames := frames + [Frame(kind, at, pos, caps, stack, count)];
    }

    /** Jumps and choices. */
    method ExecJump(ghost i: Instr)
      requires Fetch(env.code, pc) == Some(i)
      requires i.Goto? || i.SplitGotoFirst? || i.SplitNextFirst? || i.Lookahead? || i.NegativeLookahead?
      requires !ExecControl(env, i, pc, pc + 5, pos, caps, stack, frames).Stuck?
      modifies this
      ensures Here() == old(ExecControl(env, i, pc, pc + 5, pos, caps, stack, frames))
    {
      hide GetU32, GetI32;
      var op := env.code[pc];
      var val := GetI32(env.code, pc + 1);
      pc := pc + 5;
      if op == 7 {
        pc := pc + val;
      } else if op == 8 {
        PushState(SplitFrame, pc, 0);
        pc := pc + val;
      } else if op == 9 {
        PushState(SplitFrame, pc + val, 0);
      } else {
        PushState(if op == 23 then AheadFrame else NotAheadFrame, pc + val, 0);
      }
    }

    /** Captures. */
    method ExecSave(ghost i: Instr)
      requires Fetch(env.code, pc) == Some(i) && (i.SaveStart? || i.SaveEnd? || i.SaveReset?)
      requires !ExecControl(env, i, pc, pc + InstrSize(i), pos, caps, stack, frames).Stuck?
      modifies this
      ensures Here() == old(ExecControl(env, i, pc, pc + InstrSize(i), pos, caps, stack, frames))
    {
      hide ResetCaps;
      var op := env.code[pc];
      var val := env.code[pc + 1];
      if op == 13 {
        var last := env.code[pc + 2];
        caps := Cleared(caps, val, last);
        pc := pc + 3;
      } else {
        var slot: int := val;
        caps := caps[2 * slot + if op == 12 then 1 else 0 := Some(pos)];
        pc := pc + 2;
      }
    }

    method Cleared(was: Captures, first: nat, last: nat) returns (r: Captures)
      requires 2 * last + 1 < |was|
      ensures r == ResetCaps(was, first, last)
    {
      r := was;
      var val := first;
      while val <= last
        invariant first <= val && (val == first || val <= last + 1) && |r| == |was|
        invariant forall k | 0 <= k < |was| :: r[k] == if 2 * first <= k < 2 * val then None else was[k]
      {
        r := r[2 * val := None];
        r := r[2 * val + 1 := None];
        val := val + 1;
      }
    }

    /** Counters. */
    method ExecCounter(ghost i: Instr)
      requires Fetch(env.code, pc) == Some(i) && (i.PushI32? || i.Drop? || i.Loop? || i.PushCharPos? || i.BneCharPos?)
      requires !ExecControl(env, i, pc, pc + InstrSize(i), pos, caps, stack, frames).Stuck?
      modifies this
      ensures Here() == old(ExecControl(env, i, pc, pc + InstrSize(i), pos, caps, stack, frames))
    {
      hide GetU32, GetI32;
      var op := env.code[pc];
      if op == 16 {
        stack := stack[..|stack| - 1];
        pc := pc + 1;
      } else if op == 25 {
        stack := stack + [pos];
        pc := pc + 1;
      } else if op == 15 {
        stack := stack + [GetU32(env.code, pc + 1)];
        pc := pc + 5;
      } else if op == 14 {
        var val := GetI32(env.code, pc + 1);
        var top := stack[|stack| - 1] - 1;
        stack := stack[..|stack| - 1] + [top];
        pc := pc + 5 + if top != 0 then val else 0;
      } else {
        var val := GetI32(env.code, pc + 1);
        var top := stack[|stack| - 1];
        stack := stack[..|stack| - 1];
        pc := pc + 5 + if top != pos then val else 0;
      }
    }

    /** The loop opcode; false if there are too few repetitions. */
    method ExecQuant(ghost i: Instr, ghost x: seq<Instr>) returns (ok: bool)
      requires Fetch(env.code, pc) == Some(i) && i.SimpleGreedyQuant? && pos <= |env.text.input|
      requires CodeAt(env.code, pc + 17, x + [Match]) && SimpleCount(x) > 0 && AllSane(x)
      requires !ExecControl(env, i, pc, pc + 17, pos, caps, stack, frames).Stuck?
      modifies this
      ensures ok ==> Here() == old(ExecControl(env, i, pc, pc + 17, pos, caps, stack, frames))
      ensures !ok ==> old(ExecControl(env, i, pc, pc + 17, pos, caps, stack, frames)) == Failing(frames)
    {
      hide GetU32, GetI32, CodeAt, SimpleCount, AllSane, GreedyRun;
      var nextPos := GetI32(env.code, pc + 1);
      var min, max := GetU32(env.code, pc + 5), GetU32(env.code, pc + 9);
      var start := pc + 17;
      var q, end := ExecGreedy(start, pos, max, x);
      pos := end;
      if q < min {
        return false;
      }
      if q > min {
        PushState(GreedyFrame, start - 16, q - min);
      }
      pc := start + nextPos;
      ok := true;
    }

    /** One instruction, by its opcode. */
    method Execute(ghost q: seq<Instr>, ghost g: nat, ghost k: nat) returns (o: Outcome)
      requires Standing(env, q, g, k, pc, pos, caps, stack, frames) && AllSane(q)
      modifies this
      ensures o.Go? ==> old(Exec(env, pc, pos, caps, stack, frames)) == Here()
      ensures o.NoMatch? ==> old(Exec(env, pc, pos, caps, stack, frames)) == Failing(frames)
      ensures o.Matched? ==> old(Exec(env, pc, pos, caps, stack, frames)) == Succeeding(caps, frames)
    {
      hide Loaded, AllSane, Fetch, FramesSafe, Exec, ExecControl, Simple, Addr, Depth, Sane, InstrSize, Opcode;
      ghost var i := if k < |q| then q[k] else Match;
      FetchAt(env, q, g, k);
      KindIs(env, pc, i);
      ExecIs(env, i, pc, pos, caps, stack, frames);
      NotStuck(env, q, g, k, pc, pos, caps, stack, frames);
      var op := env.code[pc];
      o := Outcome.Go;
      if op == 10 {
        return Matched;
      } else if 1 <= op <= 6 || op == 17 || op == 18 || op == 21 || op == 22 {
        SaneAt(q, k);
        var next, res := ExecSimple(pc, pos, i);
        if res.None? {
          return NoMatch;
        }
        pc, pos := next, res.value;
      } else if 7 <= op <= 9 || op == 23 || op == 24 {
        ExecJump(i);
      } else if 11 <= op <= 13 {
        ExecSave(i);
      } else if op == 28 {
        ghost var x := AtomOf(env, q, g, k);
        var ok := ExecQuant(i, x);
        if !ok {
          return NoMatch;
        }
      } else {
        ExecCounter(i);
      }
    }

    /** Continue at a saved state. */
    method PopState(f: Frame, keepCaptures: bool)
      requires |frames| > 0
      modifies this
      ensures frames == old(frames)[..|old(frames)| - 1]
      ensures pc == f.pc && pos == f.pos && stack == f.stack && caps == if keepCaptures then old(caps) else f.caps
    {
      if !keepCaptures {
        caps := f.caps;
      }
      pc, pos, stack := f.pc, f.pos, f.stack;
      frames := frames[..|frames| - 1];
    }

    /** One iteration less of a saved loop. */
    method GiveBack(f: Frame)
      requires |frames| > 0 && f == frames[|frames| - 1] && f.kind.GreedyFrame?
      requires !Fail(env, frames).Stuck?
      modifies this
      ensures Here() == old(Fail(env, frames))
    {
      hide GetU16, GetU32, GetI32, ReadPairs16, ReadPairs32;
      caps, stack := f.caps, f.stack;
      var charCount := GetU32(env.code, f.pc + 12);
      pos := f.pos - charCount;
      pc := f.pc + 16 + GetI32(env.code, f.pc);
      frames := frames[..|frames| - 1];
      if f.count != 1 {
        frames := frames + [f.(pos := pos, count := f.count - 1)];
      }
    }

    /**
     Unwind the saved states after a match or a failure, until one of them continues or
     none is left; n steps of the machine.
     */
    method Resume(matched: bool, ghost q: seq<Instr>, ghost g: nat) returns (done: bool, ret: bool, ghost n: nat)
      requires Loaded(env, q, g) && Safe(env, q, g, After(matched, caps, frames))
      modifies this
      ensures n > 0
      ensures StepN(env, old(After(matched, caps, frames)), n) == if done then Done(ret, if ret then caps else [])
          else Here()
    {
      hide Loaded, Safe, StepN, Fail, Succeed;
      ret, n := matched, 0;
      ghost var c := After(matched, caps, frames);
      StepNone(env, c);
      while true
        invariant StepN(env, c, n) == After(ret, caps, frames) && Safe(env, q, g, After(ret, caps, frames))
        decreases |frames|
      {
        StepSnoc(env, c, n);
        StepSafe(env, q, g, After(ret, caps, frames));
        UnwindStep(env, q, g, ret, caps, frames);
        n := n + 1;
        if |frames| == 0 {
          return true, ret, n;
        }
        var f := frames[|frames| - 1];
        if f.kind.SplitFrame? {
          if !ret {
            PopState(f, false);
            return false, ret, n;
          }
        } else if f.kind.GreedyFrame? {
          if !ret {
            GiveBack(f);
            return false, ret, n;
          }
        } else {
          ret := (f.kind.AheadFrame? && ret) || (f.kind.NotAheadFrame? && !ret);
          if ret {
            PopState(f, f.kind.AheadFrame?);
            return false, ret, n;
          }
        }
        frames := frames[..|frames| - 1];
      }
    }

    /** Run to the end, which comes after `bound` steps at the latest. */
    method Run(ghost q: seq<Instr>, ghost g: nat, ghost bound: nat) returns (matched: bool)
      requires Loaded(env, q, g) && AllSane(q) && Safe(env, q, g, Here())
      requires StepN(env, Here(), bound).Done?
      modifies this
      ensures StepN(env, old(Here()), bound) == Done(matched, if matched then caps else [])
    {
      hide Loaded, Safe, StepN, AllSane, Exec;
      ghost var c := Here();
      ghost var steps := 0;
      StepNone(env, c);
      while true
        invariant StepN(env, c, steps) == Here() && Safe(env, q, g, Here())
        decreases bound - steps
      {
        NotYet(env, c, steps, bound);
        ghost var k := StandsAt(env, q, g, pc, pos, caps, stack, frames);
        StepSnoc(env, c, steps);
        StepSafe(env, q, g, Here());
        var o := Execute(q, g, k);
        steps := steps + 1;
        if !o.Go? {
          var done, ret;
          ghost var n;
          done, ret, n := Unwind(o.Matched?, c, steps, q, g);
          steps := steps + n;
          if done {
            SameEnd(env, c, steps, bound);
            return ret;
          }
        }
      }
    }

    /** Resume, counted from the start of the run. */
    method Unwind(matched: bool, ghost c: Config, ghost steps: nat, ghost q: seq<Instr>, ghost g: nat)
      returns (done: bool, ret: bool, ghost n: nat)
      requires Loaded(env, q, g) && Safe(env, q, g, After(matched, caps, frames))
      requires StepN(env, c, steps) == After(matched, caps, frames)
      modifies this
      ensures n > 0 && StepN(env, c, steps + n) == if done then Done(ret, if ret then caps else []) else Here()
      ensures !done ==> Safe(env, q, g, Here())
    {
      hide Loaded, Safe, StepN;
      ghost var d := After(matched, caps, frames);
      done, ret, n := Resume(matched, q, g);
      StepNAdd(env, c, steps, n);
      RunSafe(env, q, g, d, n);
    }
  }

  /** What a compiled program gives the machine, and how many steps it will take. */
  lemma Prepared(env: Env, r: Re, sticky: bool, pos: nat) returns (n: nat)
    requires WellFormed(r) && LazyLoopsMove(r) && TextOk(env.text) && CodeAt(env.code, 0, Program(r, sticky))
    requires pos <= |env.text.input|
    ensures Loaded(env, BodyOf(r, sticky), 1 + Groups(r)) && AllSane(BodyOf(r, sticky))
    ensures Safe(env, BodyOf(r, sticky), 1 + Groups(r), Initial(pos, Groups(r)))
    ensures StepN(env, Initial(pos, Groups(r)), n)
        == Verdict(Search(r, env.text, Out(pos, NoCaptures(1 + Groups(r))), sticky, AsWritten))
  {
    hide WellFormed, LazyLoopsMove, TextOk, CodeAt, Groups, Search, Loaded, StepN, Program, Safe, AllSane, BodyOf,
      MaxDepth, Addr, Depth;
    RunsToFirstMatch(env, r, sticky, pos);
    n :| StepN(env, Initial(pos, Groups(r)), n)
        == Verdict(Search(r, env.text, Out(pos, NoCaptures(1 + Groups(r))), sticky, AsWritten));
    ProgramLoaded(env, r, sticky);
    SaneBody(r, sticky);
    StackBound(env, r, sticky, pos, 0);
    StepNone(env, Initial(pos, Groups(r)));
  }

  /**
   Header and program in, match and captures out: for every pattern whose lazy unbounded loops advance
   and every text, the first match in order of preference, or none.
   */
  method RunCompiled(bc: seq<Byte>, input: seq<nat>, cindex: nat, ghost r: Re, ghost flags: Byte)
    returns (matched: bool, captures: Captures)
    requires Compiled(r, flags, bc) && LazyLoopsMove(r) && TextOk(Text(input, MultiLine(flags))) && cindex <= |input|
    ensures var outs := Search(r, Text(input, MultiLine(flags)), Out(cindex, NoCaptures(1 + Groups(r))),
        Sticky(flags), AsWritten);
      matched == (outs != []) && (matched ==> captures == outs[0].caps)
  {
    hide EncodeAll, AllValid, WellFormed, LazyLoopsMove, TextOk, Groups, Search, Loaded, StepN, Program, Safe, U32,
      AllSane, CodeAt, BodyOf, Levels, Sticky, MultiLine;
    var code, text := bc[7..], Text(input, MultiLine(bc[0]));
    ghost var env := Env(code, text);
    CodeAlone(code, Program(r, Sticky(flags)));
    ghost var n := Prepared(env, r, Sticky(flags), cindex);
    var m := new Machine(code, text, cindex, bc[1]);
    matched := m.Run(BodyOf(r, Sticky(flags)), 1 + Groups(r), n);
    captures := m.caps;
  }

  predicate MultiLine(flags: Byte) {
    flags / 4 % 2 == 1
  }

  /** The result of a search is the leftmost described stretch, by the bits of the flags. */
  lemma ResultIs(r: Re, flags: Byte, input: seq<nat>, cindex: nat)
    requires WellFormed(r) && cindex <= |input|
    ensures var t, sticky := Text(input, flags / 4 % 2 == 1), flags / 32 % 2 == 1;
      var outs := Search(r, Text(input, MultiLine(flags)), Out(cindex, NoCaptures(1 + Groups(r))), Sticky(flags),
          AsWritten);
      && (outs != [] <==> Described(r, t, cindex, sticky))
      && (outs != [] ==> Leftmost(r, t, cindex, sticky, outs[0].caps))
  {
    hide WellFormed, Groups, Search, Described, Leftmost;
    SearchResult(r, Text(input, MultiLine(flags)), Out(cindex, NoCaptures(1 + Groups(r))), Sticky(flags), AsWritten);
  }

  /**
   From pattern to result. Refused exactly if a class has 65535 ranges or more, there are more than 254
   groups, or counting loops are nested more than 255 deep. Otherwise there is a match if and only if the
   pattern describes some stretch of the text from an admitted start; then the result starts leftmost, with a
   described stretch in every group that took part, and it is the first match in order of preference.
   */
  method CompileAndRun(r: Re, flags: Byte, input: seq<nat>, cindex: nat)
    returns (ok: bool, matched: bool, captures: Captures)
    requires Parsed(r) && Small(r, 1)
    requires LazyLoopsMove(r) && TextOk(Text(input, MultiLine(flags))) && cindex <= |input|
    ensures WellFormed(r) == ClassesFit(r)
    ensures ok == (WellFormed(r) && Groups(r) <= 254 && Levels(r, 1) <= 255)
    ensures ok ==>
      var t, sticky := Text(input, flags / 4 % 2 == 1), flags / 32 % 2 == 1;
      && matched == Described(r, t, cindex, sticky)
      && (matched ==> Leftmost(r, t, cindex, sticky, captures))
    ensures ok ==>
      var outs := Search(r, Text(input, MultiLine(flags)), Out(cindex, NoCaptures(1 + Groups(r))), Sticky(flags),
          AsWritten);
      matched == (outs != []) && (matched ==> captures == outs[0].caps)
  {
    hide Compiled, LazyLoopsMove, TextOk, Groups, Search, Levels, Sticky, MultiLine, Parsed, Small, WellFormed,
      Described, Leftmost, ClassesFit;
    AcceptedClasses(r);
    var compiler := new Compiler();
    ok := compiler.CompileProgram(r, flags);
    matched, captures := false, [];
    if ok {
      matched, captures := RunCompiled(compiler.byteCode, input, cindex, r, flags);
      ResultIs(r, flags, input, cindex);
    }
  }

  /** A saved state takes no more than the reserved counters and captures. */
  predicate FrameWithin(f: Frame, counters: int, captures: nat) {
    |f.stack| <= counters && |f.caps| == captures
  }

  predicate FramesWithin(frames: seq<Frame>, counters: int, captures: nat) {
    forall i | 0 <= i < |frames| :: FrameWithin(frames[i], counters, captures)
  }

  /** The running state and every saved one do. */
  predicate Within(c: Config, counters: int, captures: nat) {
    match c
    case Thread(_, _, caps, stack, frames) =>
      |stack| <= counters && |caps| == captures && FramesWithin(frames, counters, captures)
    case Failing(frames) => FramesWithin(frames, counters, captures)
    case Succeeding(caps, frames) => |caps| == captures && FramesWithin(frames, counters, captures)
    case Done(matched, caps) => matched ==> |caps| == captures
    case Stuck => false
  }

  lemma DepthBelow(q: seq<Instr>, k: nat)
    requires k <= |q|
    ensures Depth(q, k) <= Peak(q + [Match])
  {
    hide Depth, MaxDepth;
    PrefixSame(q, [Match], k);
    MaxDepthBounds(q + [Match], |q + [Match]|, k);
  }

  lemma FramesFit(env: Env, q: seq<Instr>, g: nat, frames: seq<Frame>)
    requires FramesSafe(env, q, g, frames)
    ensures FramesWithin(frames, Peak(q + [Match]), 2 * g)
  {
    hide Peak, Depth, Addr, Net;
    forall i | 0 <= i < |frames|
      ensures FrameWithin(frames[i], Peak(q + [Match]), 2 * g)
    {
      var f := frames[i];
      assert FrameSafe(env, q, g, f);
      if f.kind.GreedyFrame? {
        var k: nat :| OnLoop(q, k, f);
        DepthBelow(q, k);
      } else {
        var k: nat :| On(q, k, f.pc, f.stack);
        DepthBelow(q, k);
      }
    }
  }

  lemma SafeWithin(env: Env, q: seq<Instr>, g: nat, c: Config)
    requires Safe(env, q, g, c)
    ensures Within(c, Peak(q + [Match]), 2 * g)
  {
    hide Peak, Depth, Addr, FramesSafe, FramesWithin;
    if c.Thread? || c.Failing? || c.Succeeding? {
      FramesFit(env, q, g, c.frames);
    }
    if c.Thread? {
      var k: nat :| On(q, k, c.pc, c.stack);
      DepthBelow(q, k);
    }
  }

  /**
   The header's numbers are enough: in every step of every run, the captures and counters of the
   running state and of every state saved to be resumed fit the space they reserve.
   */
  lemma HeaderSuffices(env: Env, r: Re, flags: Byte, bc: seq<Byte>, pos: nat, n: nat)
    requires Compiled(r, flags, bc) && env.code == bc[7..] && pos <= |env.text.input|
    ensures Within(StepN(env, Initial(pos, Groups(r)), n), bc[2] as int, 2 * (bc[1] as int))
  {
    hide EncodeAll, AllValid, WellFormed, Groups, StepN, Program, U32, CodeAt, BodyOf, Sticky, MaxDepth, Peak, Addr,
        Depth,
      FramesSafe, Somewhere, Safe, Within, Levels;
    var sticky := Sticky(flags);
    CodeAlone(env.code, Program(r, sticky));
    StackBound(env, r, sticky, pos, n);
    ProgramLoaded(env, r, sticky);
    ProgramNesting(r, sticky);
    SafeWithin(env, BodyOf(r, sticky), 1 + Groups(r), StepN(env, Initial(pos, Groups(r)), n));
  }

  // ----- counting steps -----

  lemma StepNone(env: Env, c: Config)
    ensures StepN(env, c, 0) == c
  {
  }

  lemma {:induction false} StepSnoc(env: Env, c: Config, n: nat)
    ensures StepN(env, c, n + 1) == Step(env, StepN(env, c, n))
    decreases n
  {
    hide Step;
    if n > 0 {
      StepSnoc(env, Step(env, c), n - 1);
    }
  }

  lemma {:induction false} DoneStays(env: Env, c: Config, n: nat)
    requires c.Done?
    ensures StepN(env, c, n) == c
    decreases n
  {
    if n > 0 {
      DoneStays(env, c, n - 1);
    }
  }

  lemma SameEnd(env: Env, c: Config, m: nat, n: nat)
    requires StepN(env, c, m).Done? && StepN(env, c, n).Done?
    ensures StepN(env, c, m) == StepN(env, c, n)
  {
    hide StepN;
    if m <= n {
      StepNAdd(env, c, m, n - m);
      DoneStays(env, StepN(env, c, m), n - m);
    } else {
      StepNAdd(env, c, n, m - n);
      DoneStays(env, StepN(env, c, n), m - n);
    }
  }

  lemma NotYet(env: Env, c: Config, m: nat, n: nat)
    requires StepN(env, c, m).Thread? && StepN(env, c, n).Done?
    ensures m < n
  {
    hide StepN;
    if m >= n {
      StepNAdd(env, c, n, m - n);
      DoneStays(env, StepN(env, c, n), m - n);
    }
  }

  lemma StandsAt(env: Env, q: seq<Instr>, g: nat, pc: nat, pos: nat, caps: Captures, stack: seq<int>,
      frames: seq<Frame>) returns (k: nat)
    requires Loaded(env, q, g) && Safe(env, q, g, Thread(pc, pos, caps, stack, frames))
    ensures Standing(env, q, g, k, pc, pos, caps, stack, frames)
  {
    hide Loaded, FramesSafe, On;
    k :| On(q, k, pc, stack);
  }

  /** One step of the unwinding. */
  lemma UnwindStep(env: Env, q: seq<Instr>, g: nat, ret: bool, caps: Captures, frames: seq<Frame>)
    requires Loaded(env, q, g) && Safe(env, q, g, After(ret, caps, frames))
    ensures var d := Step(env, After(ret, caps, frames));
      if frames == [] then d == Done(ret, if ret then caps else [])
      else
        var f, rest := frames[|frames| - 1], frames[..|frames| - 1];
        match f.kind
        case SplitFrame => d == if ret then After(true, caps, rest) else Thread(f.pc, f.pos, f.caps, f.stack, rest)
        case GreedyFrame => d == if ret then After(true, caps, rest) else Fail(env, frames)
        case AheadFrame => d == if ret then Thread(f.pc, f.pos, caps, f.stack, rest) else After(false, caps, rest)
        case NotAheadFrame => d == if ret then After(false, caps, rest) else Thread(f.pc, f.pos, f.caps, f.stack, rest)
    ensures !ret ==> !Fail(env, frames).Stuck?
  {
    hide Loaded, FramesSafe, Fetch;
    StepSafe(env, q, g, After(ret, caps, frames));
  }

  /** The groups of opcodes. */
  lemma KindIs(env: Env, pc: nat, i: Instr)
    requires Fetch(env.code, pc) == Some(i)
    ensures pc < |env.code| && env.code[pc] == Opcode(i)
    ensures var op := Opcode(i);
      && (op == 10 <==> i.Match?)
      && (1 <= op <= 6 || op == 17 || op == 18 || op == 21 || op == 22 <==> IsCharInstr(i) || IsAssertion(i))
      && (7 <= op <= 9 || op == 23 || op == 24 <==>
           i.Goto? || i.SplitGotoFirst? || i.SplitNextFirst? || i.Lookahead? || i.NegativeLookahead?)
      && (11 <= op <= 13 <==> i.SaveStart? || i.SaveEnd? || i.SaveReset?)
      && (op == 28 <==> i.SimpleGreedyQuant?)
    ensures i.Goto? || i.SplitGotoFirst? || i.SplitNextFirst? || i.Lookahead? || i.NegativeLookahead? ==>
        InstrSize(i) == 5
    ensures i.SimpleGreedyQuant? ==> InstrSize(i) == 17
  {
    hide GetU16, GetU32, GetI32, ReadPairs16, ReadPairs32;
  }

  lemma NotStuck(env: Env, q: seq<Instr>, g: nat, k: nat, pc: nat, pos: nat, caps: Captures, stack: seq<int>,
      frames: seq<Frame>)
    requires Standing(env, q, g, k, pc, pos, caps, stack, frames)
    ensures !Exec(env, pc, pos, caps, stack, frames).Stuck?
  {
    hide Exec, Loaded, On, FramesSafe;
    ExecSafe(env, q, g, k, pc, pos, caps, stack, frames);
  }

  /** One instruction, by its kind. */
  lemma ExecIs(env: Env, i: Instr, pc: nat, pos: nat, caps: Captures, stack: seq<int>, frames: seq<Frame>)
    requires Fetch(env.code, pc) == Some(i)
    ensures i.Match? ==> Exec(env, pc, pos, caps, stack, frames) == Succeeding(caps, frames)
    ensures IsCharInstr(i) || IsAssertion(i) ==> Exec(env, pc, pos, caps, stack, frames) == match Simple(env, i, pos) {
      case None => Failing(frames)
      case Some(p) => Thread(pc + InstrSize(i), p, caps, stack, frames)
    }
    ensures !IsCharInstr(i) && !IsAssertion(i) ==>
      Exec(env, pc, pos, caps, stack, frames) == ExecControl(env, i, pc, pc + InstrSize(i), pos, caps, stack, frames)
  {
    hide Fetch, Simple;
  }

  lemma SaneAt(q: seq<Instr>, k: nat)
    requires AllSane(q)
    ensures k < |q| ==> Sane(q[k])
  {
  }

  /** The atom of a loop opcode. */
  lemma AtomOf(env: Env, q: seq<Instr>, g: nat, k: nat) returns (x: seq<Instr>)
    requires Loaded(env, q, g) && AllSane(q) && k < |q| && q[k].SimpleGreedyQuant?
    ensures CodeAt(env.code, Addr(q, k) + 17, x + [Match]) && SimpleCount(x) > 0 && AllSane(x)
  {
    hide Loaded, CodeAt, Size, SimpleCount, Sane;
    ReSafety.FitAt(env, q, g, k);
    FetchAt(env, q, g, k);
    var n :| AtomFollows(q, k, n);
    x := q[k + 1..k + 1 + n];
    var rest := q[k + 2 + n..] + [Match];
    assert q[k + 1..] + [Match] == (x + [Match]) + rest;
    CodeSplit(env.code, Addr(q, k + 1), x + [Match], rest);
  }

  // ----- steps of the inner loops -----

  lemma AtomHead(env: Env, at: nat, y: seq<Instr>)
    requires CodeAt(env.code, at, y + [Match]) && SimpleCount(y) >= 0
    ensures at < |env.code| && (y == [] <==> env.code[at] == 10)
  {
    hide CodeAt;
    if y == [] {
      assert y + [Match] == [Match] + [];
      CodeHead(env.code, at, Match, []);
    } else {
      assert y + [Match] == [y[0]] + (y[1..] + [Match]);
      CodeHead(env.code, at, y[0], y[1..] + [Match]);
    }
  }

  lemma AtomStep(env: Env, at: nat, y: seq<Instr>, cur: nat)
    requires CodeAt(env.code, at, y + [Match]) && SimpleCount(y) >= 0 && y != [] && cur <= |env.text.input|
    ensures Fetch(env.code, at) == Some(y[0]) && (IsCharInstr(y[0]) || IsAssertion(y[0]))
    ensures CodeAt(env.code, at + InstrSize(y[0]), y[1..] + [Match]) && SimpleCount(y[1..]) >= 0
    ensures SimpleRun(env, at, cur) == match Simple(env, y[0], cur) {
      case None => None
      case Some(p) => SimpleRun(env, at + InstrSize(y[0]), p)
    }
    ensures Simple(env, y[0], cur).Some? ==> Simple(env, y[0], cur).value <= |env.text.input|
  {
    hide CodeAt, Takes, HoldsAt, Fetch;
    assert y + [Match] == [y[0]] + (y[1..] + [Match]);
    CodeHead(env.code, at, y[0], y[1..] + [Match]);
    AtomHead(env, at, y);
  }

  lemma AtomEnd(env: Env, at: nat, cur: nat)
    requires at < |env.code| && env.code[at] == 10
    ensures SimpleRun(env, at, cur) == Some(cur)
  {
  }

  lemma GreedyStep(env: Env, start: nat, x: seq<Instr>, pos: nat, q: nat, max: nat)
    requires CodeAt(env.code, start, x + [Match]) && SimpleCount(x) > 0 && pos <= |env.text.input|
    ensures SimpleRun(env, start, pos).Some? ==> pos < SimpleRun(env, start, pos).value <= |env.text.input|
    ensures GreedyRun(env, start, pos, q, max) == match SimpleRun(env, start, pos) {
      case None => Some((q, pos))
      case Some(p) => if q + 1 >= max && max != INT32_MAX then Some((q + 1, p))
          else GreedyRun(env, start, p, q + 1, max)
    }
  {
    hide CodeAt, SimpleRun, SimpleSeq, SimpleCount;
    SimpleRunIs(env, start, x, pos);
    SimpleTakes(env, x, pos);
  }
}
