/** Atoms that take a fixed number of characters, and the loop opcode for them. */
module ReSimple {
  import opened Basics
  import opened ReCode
  import opened ReText
  import opened ReSyntax
  import opened ReMoves
  import opened ReVm
  import opened ReSpec
  import opened ReYields
  import opened ReMeaning
  import opened ReSteps

  // ----- simple atoms -----

  /** Where straight-line code ends, if it does not fail. */
  function SimpleSeq(env: Env, s: seq<Instr>, pos: nat): Option<nat> {
    if s == [] then Some(pos)
    else match Simple(env, s[0], pos)
      case None => None
      case Some(p) => SimpleSeq(env, s[1..], p)
  }

  lemma {:induction false} SimpleAppend(env: Env, x: seq<Instr>, y: seq<Instr>, pos: nat)
    ensures SimpleSeq(env, x + y, pos) == match SimpleSeq(env, x, pos) {
      case None => None
      case Some(p) => SimpleSeq(env, y, p)
    }
    decreases |x|
  {
    hide Simple;
    if x == [] {
      assert x + y == y;
    } else {
      assert (x + y)[1..] == x[1..] + y;
      match Simple(env, x[0], pos)
      case None =>
      case Some(p) => SimpleAppend(env, x[1..], y, p);
    }
  }

  lemma {:induction false} CountAppends(x: seq<Instr>, y: seq<Instr>)
    ensures SimpleCount(x) >= -1 && SimpleCount(y) >= -1
    ensures SimpleCount(x + y) == if SimpleCount(x) < 0 || SimpleCount(y) < 0 then -1
        else SimpleCount(x) + SimpleCount(y)
    decreases |x| + |y|
  {
    if x == [] {
      assert x + y == y;
      if y != [] {
        CountAppends([], y[1..]);
      }
    } else {
      assert (x + y)[1..] == x[1..] + y;
      CountAppends(x[1..], y);
    }
  }

  /** Straight-line code takes exactly its number of characters. */
  lemma {:induction false} SimpleTakes(env: Env, s: seq<Instr>, pos: nat)
    requires SimpleCount(s) >= 0 && pos <= |env.text.input|
    ensures SimpleSeq(env, s, pos).Some? ==> SimpleSeq(env, s, pos).value == pos + SimpleCount(s) <= |env.text.input|
    decreases |s|
  {
    if s != [] {
      hide Takes, HoldsAt;
      match Simple(env, s[0], pos)
      case None =>
      case Some(p) => SimpleTakes(env, s[1..], p);
    }
  }

  /** One instruction of another kind, and the code is not simple. */
  lemma {:induction false} NotSimple(x: seq<Instr>, i: Instr, y: seq<Instr>)
    requires !IsCharInstr(i) && !IsAssertion(i)
    ensures SimpleCount(x + [i] + y) == -1
  {
    CountAppends(x + [i], y);
    CountAppends(x, [i]);
    assert [i][1..] == [];
  }

  lemma NotSimpleFirst(i: Instr, y: seq<Instr>)
    requires !IsCharInstr(i) && !IsAssertion(i)
    ensures SimpleCount([i] + y) == -1
  {
    assert [i] + y == [] + [i] + y;
    NotSimple([], i, y);
  }

  /** The loop code that is simple: none at all, or exactly one iteration. */
  lemma {:induction false} SimpleGeneric(x: seq<Instr>, cc: nat, n: nat, min: nat, max: nat, greedy: bool)
    requires min <= max && SimpleCount(GenericLoop(x, cc, n, min, max, greedy)) >= 0
    ensures (min == 0 && max == 0 && n == 0 && GenericLoop(x, cc, n, min, max, greedy) == [])
         || (min == 1 && max == 1 && GenericLoop(x, cc, n, min, max, greedy) == x)
  {
    hide SimpleCount, Size, CheckAdvance;
    var check := greedy && !CheckAdvance(x);
    if min == 0 {
      if n > 0 {
        NotSimpleFirst(SaveReset(cc, cc + n - 1), ZeroOrMore(x, max, greedy, check));
      } else {
        assert Reset(cc, n) + ZeroOrMore(x, max, greedy, check) == ZeroOrMore(x, max, greedy, check);
        if max > 0 {
          ControlFirst(x, max, greedy, check);
        }
      }
    } else if min == 1 && max == INT32_MAX && !check {
      PlusControl(x, greedy);
    } else if min == 1 {
      if max > 1 {
        RestControl(x, max, greedy, check);
      } else {
        assert x + [] == x;
      }
    } else {
      ManyControl(x, min, Rest(x, min, max, greedy, check));
    }
  }

  lemma PlusControl(x: seq<Instr>, greedy: bool)
    ensures SimpleCount(x + [Split(!greedy, -(Size(x) as int + 5))]) == -1
  {
    hide SimpleCount, Size;
    var i := Split(!greedy, -(Size(x) as int + 5));
    NotSimple(x, i, []);
    assert x + [i] + [] == x + [i];
  }

  lemma ManyControl(x: seq<Instr>, min: nat, rest: seq<Instr>)
    ensures SimpleCount(Exactly(x, min) + rest) == -1
  {
    hide SimpleCount, Size;
    var tail := x + [Loop(-(Size(x) as int + 5)), Drop];
    assert Exactly(x, min) + rest == [PushI32(min)] + (tail + rest);
    NotSimpleFirst(PushI32(min), tail + rest);
  }

  /** The quantified expressions whose code is simple. */
  lemma {:induction false} SimpleQuant(a: Re, cc: nat, min: nat, max: nat, greedy: bool)
    requires WellFormed(Quant(a, min, max, greedy)) && SimpleCount(Code(Quant(a, min, max, greedy), cc)) >= 0
    ensures WellFormed(a)
    ensures (min == 0 && max == 0 && Groups(a) == 0 && Code(Quant(a, min, max, greedy), cc) == [])
         || (min == 1 && max == 1 && Code(Quant(a, min, max, greedy), cc) == Code(a, cc))
  {
    hide SimpleCount, Size, Code, WellFormed, Groups, GenericLoop;
    QuantCodeIs(a, cc, min, max, greedy);
    var x := Code(a, cc);
    if IsSimpleLoop(x, max, greedy) {
      var i := SimpleGreedyQuant(Size(x) + 1, min, max, SimpleCount(x));
      assert SimpleLoop(x, min, max) == [i] + (x + [Match]);
      NotSimpleFirst(i, x + [Match]);
    } else {
      SimpleGeneric(x, cc, Groups(a), min, max, greedy);
    }
  }

  lemma ControlFirst(x: seq<Instr>, max: nat, greedy: bool, check: bool)
    requires max > 0
    ensures SimpleCount(ZeroOrMore(x, max, greedy, check)) == -1
  {
    hide SimpleCount, Size;
    var s := ZeroOrMore(x, max, greedy, check);
    assert s == [s[0]] + s[1..];
    NotSimpleFirst(s[0], s[1..]);
  }

  lemma RestControl(x: seq<Instr>, max: nat, greedy: bool, check: bool)
    requires max > 1
    ensures SimpleCount(x + Rest(x, 1, max, greedy, check)) == -1
  {
    hide SimpleCount, Size;
    var s := Rest(x, 1, max, greedy, check);
    assert s == [s[0]] + s[1..];
    assert x + s == x + [s[0]] + s[1..];
    NotSimple(x, s[0], s[1..]);
  }

  function FromOption(p: Option<nat>, o: Out): seq<Out> {
    match p
    case None => []
    case Some(v) => [o.(pos := v)]
  }

  lemma {:induction false} NotSimpleKind(r: Re, cc: nat)
    requires WellFormed(r) && (r.Alt? || r.Capture? || r.Look?)
    ensures SimpleCount(Code(r, cc)) == -1
  {
    hide SimpleCount, Size, Emit, WellFormed, Groups;
    match r {
      case Alt(a, b) => {
        EmitAlt(a, b, cc);
        var x, y := Emit(a, cc), Emit(b, cc + Groups(a));
        assert AltCode(x, y) == [SplitNextFirst(Size(x) + 5)] + (x + [Goto(Size(y))] + y);
        NotSimpleFirst(SplitNextFirst(Size(x) + 5), x + [Goto(Size(y))] + y);
      }
      case Capture(a) => {
        EmitCapture(a, cc);
        var x := Emit(a, cc + 1);
        assert Emit(r, cc) == [SaveStart(cc)] + (x + [SaveEnd(cc)]);
        NotSimpleFirst(SaveStart(cc), x + [SaveEnd(cc)]);
      }
      case Look(negated, a) => {
        EmitLook(negated, a, cc);
        var x := Emit(a, cc);
        var i := LookInstr(negated, Size(x) + 1);
        assert Emit(r, cc) == [i] + (x + [Match]);
        NotSimpleFirst(i, x + [Match]);
      }
    }
  }

  lemma CatSimple(a: Re, b: Re, cc: nat)
    requires WellFormed(Cat(a, b)) && SimpleCount(Code(Cat(a, b), cc)) >= 0
    ensures WellFormed(a) && WellFormed(b) && Code(Cat(a, b), cc) == Code(a, cc) + Code(b, cc + Groups(a))
    ensures SimpleCount(Code(a, cc)) >= 0 && SimpleCount(Code(b, cc + Groups(a))) >= 0
    ensures SimpleCount(Code(Cat(a, b), cc)) == SimpleCount(Code(a, cc)) + SimpleCount(Code(b, cc + Groups(a)))
  {
    hide SimpleCount, Emit, WellFormed, Groups;
    EmitCat(a, b, cc);
    CountAppends(Code(a, cc), Code(b, cc + Groups(a)));
  }

  /** Simple code means no captures, and characters taken only by expressions that take characters. */
  lemma {:induction false} SimpleShape(r: Re, cc: nat)
    requires WellFormed(r) && SimpleCount(Code(r, cc)) >= 0
    ensures Groups(r) == 0 && LazyLoopsMove(r) && (SimpleCount(Code(r, cc)) > 0 ==> Moves(r))
    decreases r
  {
    if r.Alt? || r.Capture? || r.Look? {
      NotSimpleKind(r, cc);
    } else if r.Cat? {
      CatSimple(r.a, r.b, cc);
      SimpleShape(r.a, cc);
      SimpleShape(r.b, cc + Groups(r.a));
    } else if r.Quant? {
      SimpleQuant(r.a, cc, r.min, r.max, r.greedy);
      if r.min == 1 {
        SimpleShape(r.a, cc);
      }
    }
  }

  /** A simple expression has at most one match, and its code finds it. */
  lemma {:induction false} SimpleMeaning(env: Env, r: Re, cc: nat, o: Out)
    requires WellFormed(r) && SimpleCount(Code(r, cc)) >= 0 && TextOk(env.text) && o.pos <= |env.text.input|
    ensures Outs(env, r, cc, o) == FromOption(SimpleSeq(env, Code(r, cc), o.pos), o)
    decreases r
  {
    hide Simple, TextOk, RepeatOuts;
    if r.Alt? || r.Capture? || r.Look? {
      NotSimpleKind(r, cc);
    } else if r.Cat? {
      SimpleCat(env, r.a, r.b, cc, o);
    } else if r.Quant? {
      SimpleQuant(r.a, cc, r.min, r.max, r.greedy);
      QuantMeans(env, r.a, cc, o, r.min, r.max, r.greedy);
      if r.min == 0 {
        RepeatNone(env, r.a, cc, o, 0, r.greedy);
      } else {
        SimpleMeaning(env, r.a, cc, o);
        RepeatMust(env, r.a, cc, o, 1, 1, r.greedy);
        OutsWithin(env, r.a, cc, o);
        IterEnds(env, r.a, cc, Outs(env, r.a, cc, o), r.greedy, o.pos, |o.caps|);
      }
    } else if !r.Empty? {
      LeafMeans(env, r, cc, o);
      var i := Emit(r, cc)[0];
      assert Emit(r, cc) == [i] && [i][1..] == [];
    }
  }

  /** No further iterations. */
  lemma {:induction false} IterEnds(env: Env, a: Re, cc: nat, outs: seq<Out>, greedy: bool, lo: nat, n: nat)
    requires Within(outs, lo, |env.text.input|, n)
    ensures IterOuts(env, a, cc, outs, 0, 0, greedy, -1) == outs
    decreases |outs|
  {
    hide RepeatOuts;
    if outs != [] {
      RepeatNone(env, a, cc, outs[0], 0, greedy);
      IterEnds(env, a, cc, outs[1..], greedy, lo, n);
      assert outs == [outs[0]] + outs[1..];
    }
  }

  lemma {:induction false} SimpleCat(env: Env, a: Re, b: Re, cc: nat, o: Out)
    requires WellFormed(Cat(a, b)) && SimpleCount(Code(Cat(a, b), cc)) >= 0 && TextOk(env.text)
    requires o.pos <= |env.text.input|
    ensures Outs(env, Cat(a, b), cc, o) == FromOption(SimpleSeq(env, Code(Cat(a, b), cc), o.pos), o)
    decreases Cat(a, b), 0
  {
    hide Simple, TextOk, Outs, Code, WellFormed, SimpleCount, SimpleSeq, Groups;
    CatSimple(a, b, cc);
    SimpleMeaning(env, a, cc, o);
    CatMeans(env, a, b, cc, o);
    SimpleAppend(env, Code(a, cc), Code(b, cc + Groups(a)), o.pos);
    SimpleTakes(env, Code(a, cc), o.pos);
    match SimpleSeq(env, Code(a, cc), o.pos)
    case None =>
    case Some(p) =>
      var o' := o.(pos := p);
      SimpleMeaning(env, b, cc + Groups(a), o');
      assert ThenOuts(env, b, cc + Groups(a), [o'])
          == Outs(env, b, cc + Groups(a), o') + ThenOuts(env, b, cc + Groups(a), []);
  }

  // ----- the loop opcode -----

  lemma {:induction false} SimpleRunIs(env: Env, pc: nat, s: seq<Instr>, pos: nat)
    requires CodeAt(env.code, pc, s + [Match]) && SimpleCount(s) >= 0
    ensures SimpleRun(env, pc, pos) == SimpleSeq(env, s, pos)
    decreases |s|
  {
    hide CodeAt, Fetch, Simple;
    if s == [] {
      assert s + [Match] == [Match] + [];
      CodeHead(env.code, pc, Match, []);
    } else {
      assert s + [Match] == [s[0]] + (s[1..] + [Match]);
      CodeHead(env.code, pc, s[0], s[1..] + [Match]);
      CodeFits(env.code, pc, s[0]);
      match Simple(env, s[0], pos)
      case None =>
      case Some(p) => SimpleRunIs(env, pc + InstrSize(s[0]), s[1..], p);
    }
  }

  lemma CodeFits(code: seq<Byte>, pc: nat, i: Instr)
    requires Fetch(code, pc) == Some(i)
    ensures pc < |code|
  {
  }

  /** The positions p, p - n, ..., k + 1 of them. */
  function Down(caps: Captures, p: int, n: nat, k: nat): seq<Out>
    decreases k
  {
    if p < 0 then [] else [Out(p, caps)] + (if k == 0 then [] else Down(caps, p - n, n, k - 1))
  }

  lemma {:induction false} DownSnoc(caps: Captures, p: int, n: nat, k: nat)
    requires p - (k + 1) * n >= 0
    ensures Down(caps, p, n, k + 1) == Down(caps, p, n, k) + [Out(p - (k + 1) * n, caps)]
    decreases k
  {
    var m, m' := k * n, (k + 1) * n;
    assert m' == m + n;
    if k > 0 {
      DownSnoc(caps, p - n, n, k - 1);
    } else {
      assert Down(caps, p - n, n, 0) == [Out(p - n, caps)];
    }
  }

  /** What the opcode's run of a simple atom finds is what the repetition means. */
  ghost predicate RunMeans(env: Env, a: Re, cc: nat, o: Out, n: nat, m: nat, max: nat, q: nat, p: nat) {
    && p == o.pos + q * n && p <= |env.text.input|
    && RepeatOuts(env, a, cc, o, m, max, true) == if q < m then [] else Down(o.caps, p, n, q - m)
  }

  lemma {:induction false} RunNone(env: Env, a: Re, cc: nat, o: Out, n: nat, m: nat, max: nat)
    requires o.pos <= |env.text.input| && Outs(env, a, cc, o) == [] && max > 0 && Moves(a)
    ensures RunMeans(env, a, cc, o, n, m, max, 0, o.pos)
  {
    hide Outs, RepeatOuts, Moves;
    if m > 0 {
      RepeatMust(env, a, cc, o, m, max, true);
    } else {
      RepeatMay(env, a, cc, o, max, true);
      assert [] + [o] == [o];
    }
  }

  lemma IterSingle(env: Env, a: Re, cc: nat, o: Out, min: nat, max: nat)
    ensures IterOuts(env, a, cc, [o], min, max, true, -1) == RepeatOuts(env, a, cc, o, min, max, true)
  {
    hide RepeatOuts;
    assert [o][1..] == [];
    var r := RepeatOuts(env, a, cc, o, min, max, true);
    assert r + [] == r;
  }

  lemma {:induction false} RunMore(env: Env, a: Re, cc: nat, o: Out, n: nat, m: nat, max: nat, q: nat, p: nat)
    requires o.pos <= |env.text.input| && max > 0 && Moves(a) && Outs(env, a, cc, o) == [o.(pos := o.pos + n)]
    requires RunMeans(env, a, cc, o.(pos := o.pos + n), n, if m > 0 then m - 1 else 0, Less(max), q, p)
    ensures RunMeans(env, a, cc, o, n, m, max, q + 1, p)
  {
    hide Outs, RepeatOuts, Moves, IterOuts, Less, Down;
    var o1 := o.(pos := o.pos + n);
    RunPosition(o.pos, n, q, p);
    if m > 0 {
      RepeatMust(env, a, cc, o, m, max, true);
      IterSingle(env, a, cc, o1, m - 1, Less(max));
    } else {
      RepeatMay(env, a, cc, o, max, true);
      IterSingle(env, a, cc, o1, 0, Less(max));
      DownSnoc(o.caps, p, n, q);
    }
  }

  lemma RunPosition(pos: int, n: int, q: int, p: int)
    requires p == pos + n + q * n
    ensures p == pos + (q + 1) * n && p - (q + 1) * n == pos
  {
  }

  lemma {:induction false} RunEnds(env: Env, a: Re, cc: nat, o: Out, n: nat, m: nat)
    requires o.pos <= |env.text.input| && m == 0
    ensures RunMeans(env, a, cc, o, n, m, 0, 0, o.pos)
  {
    hide RepeatOuts;
    RepeatNone(env, a, cc, o, m, true);
  }

  /** Remaining iterations after q. */
  function Left(max: nat, q: nat): nat {
    if max == INT32_MAX then max else if q <= max then max - q else 0
  }

  lemma {:induction false} GreedyMeans(env: Env, pc: nat, a: Re, cc: nat, o: Out, q0: nat, m: nat, max: nat)
    requires Body(env, a, cc, o) && SimpleCount(Code(a, cc)) > 0 && CodeAt(env.code, pc, Code(a, cc) + [Match])
    requires max <= INT32_MAX && (max == INT32_MAX || q0 < max) && (max != INT32_MAX ==> m <= max - q0)
    ensures GreedyRun(env, pc, o.pos, q0, max).Some?
    ensures var (q, p) := GreedyRun(env, pc, o.pos, q0, max).value;
      q >= q0 && RunMeans(env, a, cc, o, SimpleCount(Code(a, cc)), m, Left(max, q0), q - q0, p)
    decreases |env.text.input| - o.pos
  {
    hide CodeAt, SimpleRun, SimpleSeq, Outs, Code, SimpleCount, WellFormed, LazyLoopsMove, TextOk, RunMeans, Moves,
      Groups;
    var x, n := Code(a, cc), SimpleCount(Code(a, cc));
    SimpleShape(a, cc);
    SimpleRunIs(env, pc, x, o.pos);
    SimpleMeaning(env, a, cc, o);
    SimpleTakes(env, x, o.pos);
    match SimpleSeq(env, x, o.pos)
    case None => RunNone(env, a, cc, o, n, m, Left(max, q0));
    case Some(p1) =>
      var o1 := o.(pos := p1);
      var m1 := if m > 0 then m - 1 else 0;
      if q0 + 1 >= max && max != INT32_MAX {
        RunEnds(env, a, cc, o1, n, m1);
        RunMore(env, a, cc, o, n, m, Left(max, q0), 0, p1);
      } else {
        GreedyMeans(env, pc, a, cc, o1, q0 + 1, m1, max);
        var (q, p) := GreedyRun(env, pc, p1, q0 + 1, max).value;
        RunMore(env, a, cc, o, n, m, Left(max, q0), q - q0 - 1, p);
      }
  }

  lemma {:induction false} SimpleLoopCode(env: Env, pc: nat, x: seq<Instr>, min: nat, max: nat)
    requires SimpleCount(x) >= 0 && CodeAt(env.code, pc, SimpleLoop(x, min, max))
    ensures Fetch(env.code, pc) == Some(SimpleGreedyQuant(Size(x) + 1, min, max, SimpleCount(x)))
    ensures CodeAt(env.code, pc + 17, x + [Match]) && Size(SimpleLoop(x, min, max)) == 18 + Size(x)
  {
    hide CodeAt, Size, SimpleCount, Fetch;
    var i := SimpleGreedyQuant(Size(x) + 1, min, max, SimpleCount(x));
    assert SimpleLoop(x, min, max) == [i] + (x + [Match]);
    CodeHead(env.code, pc, i, x + [Match]);
    SizeTail(i, x + [Match]);
    SizeAppend(x, [Match]);
    SizeOne(Match);
  }

  /** A saved greedy loop gives back one iteration after the other. */
  lemma {:induction false} GiveBack(env: Env, pc: nat, skip: int, min: nat, max: nat, n: nat, p: int, k: nat,
      caps: Captures, stack: seq<int>, base: seq<Frame>, end: nat)
    requires Fetch(env.code, pc) == Some(SimpleGreedyQuant(skip, min, max, n)) && pc + 17 + skip == end && k >= 1
    requires p - k * n >= 0
    ensures Yields(env, Failing(base + [Frame(GreedyFrame, pc + 1, p, caps, stack, k)]), base, end, stack,
        Down(caps, p - n, n, k - 1))
    decreases k
  {
    hide Yields, Fetch;
    assert k * n >= n;
    var f := Frame(GreedyFrame, pc + 1, p, caps, stack, k);
    var frames := base + [f];
    assert frames[..|frames| - 1] == base && frames[|frames| - 1] == f;
    var o := Out(p - n, caps);
    var rest := if k == 1 then base else base + [f.(pos := p - n, count := k - 1)];
    assert Step(env, Failing(frames)) == At(end, o, stack, rest);
    if k == 1 {
      assert Down(caps, p - n, n, 0) == [o];
      YieldsSelf(env, base, end, stack, o);
    } else {
      assert Down(caps, p - n, n, k - 1) == [o] + Down(caps, p - n - n, n, k - 2);
      var f' := Frame(GreedyFrame, pc + 1, p - n, caps, stack, k - 1);
      assert (p - n) - (k - 1) * n == p - k * n;
      GiveBack(env, pc, skip, min, max, n, p - n, k - 1, caps, stack, base, end);
      YieldsSelf(env, base + [f'], end, stack, o);
      ExtendsOne(base, f');
      YieldsAppend(env, At(end, o, stack, base + [f']), base + [f'], base, end, stack, [o],
          Down(caps, p - n - n, n, k - 2));
    }
    YieldsStep(env, Failing(frames), base, end, stack, Down(caps, p - n, n, k - 1));
  }

  /** The loop opcode yields what the quantified expression means. */
  lemma {:induction false} SimpleLoopYields(env: Env, pc: nat, a: Re, cc: nat, o: Out, min: nat, max: nat,
      stack: seq<int>, base: seq<Frame>)
    requires SimpleCount(Code(a, cc)) > 0 && CodeAt(env.code, pc, SimpleLoop(Code(a, cc), min, max))
    requires Body(env, a, cc, o)
    requires min <= max <= INT32_MAX && max > 0
    ensures Yields(env, At(pc, o, stack, base), base, pc + 18 + Len(a, cc), stack,
        RepeatOuts(env, a, cc, o, min, max, true))
  {
    hide Yields, Fetch, CodeAt, Code, Size, SimpleCount, GreedyRun, WellFormed, LazyLoopsMove, TextOk, RepeatOuts,
      Groups, Step, SimpleLoop;
    var x, n := Code(a, cc), SimpleCount(Code(a, cc));
    var end := pc + 18 + Len(a, cc);
    SimpleLoopCode(env, pc, x, min, max);
    GreedyMeans(env, pc + 17, a, cc, o, 0, min, max);
    StepControl(env, pc, SimpleGreedyQuant(Size(x) + 1, min, max, n), o, stack, base);
    var (q, p) := GreedyRun(env, pc + 17, o.pos, 0, max).value;
    if q < min {
      YieldsNone(env, base, end, stack);
    } else if q == min {
      assert Down(o.caps, p, n, 0) == [Out(p, o.caps)];
      YieldsSelf(env, base, end, stack, Out(p, o.caps));
    } else {
      assert Down(o.caps, p, n, q - min) == [Out(p, o.caps)] + Down(o.caps, p - n, n, q - min - 1);
      var f := Frame(GreedyFrame, pc + 1, p, o.caps, stack, q - min);
      YieldsSelf(env, base + [f], end, stack, Out(p, o.caps));
      ExtendsOne(base, f);
      GreedyRoom(o.pos, q, n, p, min);
      GiveBack(env, pc, Size(x) + 1, min, max, n, p, q - min, o.caps, stack, base, end);
      YieldsAppend(env, At(end, Out(p, o.caps), stack, base + [f]), base + [f], base, end, stack, [Out(p, o.caps)],
          Down(o.caps, p - n, n, q - min - 1));
    }
    YieldsStep(env, At(pc, o, stack, base), base, end, stack, RepeatOuts(env, a, cc, o, min, max, true));
  }

  lemma GreedyRoom(pos: nat, q: nat, n: nat, p: int, min: nat)
    requires p == pos + q * n && min <= q
    ensures p - (q - min) * n >= 0
  {
    assert (q - min) * n + min * n == q * n;
  }
}
