/** The counters a program needs are the nesting of its counting loops. */
module ReNesting {
  import opened ReCode
  import opened ReSyntax
  import opened ReMoves
  import opened ReFits
  import opened ReStack
  import opened ReSafety

  function Most(a: int, b: int): int {
    if a < b then b else a
  }

  /** Does the loop around x keep a counter or a position on the stack? */
  predicate Counts(x: seq<Instr>, min: nat, max: nat, greedy: bool) {
    !IsSimpleLoop(x, max, greedy) &&
    (min >= 2 || (if max == INT32_MAX then greedy && !CheckAdvance(x) else max > 1))
  }

  /** How deeply counting loops are nested in r; a loop of no repetitions leaves no code. */
  function Levels(r: Re, cc: nat): nat
    requires WellFormed(r)
    decreases r
  {
    match r
    case Cat(a, b) => Most(Levels(a, cc), Levels(b, cc + Groups(a)))
    case Alt(a, b) => Most(Levels(a, cc), Levels(b, cc + Groups(a)))
    case Capture(a) => Levels(a, cc + 1)
    case Quant(a, min, max, greedy) =>
      if max == 0 then 0 else Levels(a, cc) + if Counts(Emit(a, cc), min, max, greedy) then 1 else 0
    case Look(_, a) => Levels(a, cc)
    case _ => 0
  }

  // One level of Levels.

  lemma {:induction false} LevelsCat(a: Re, b: Re, cc: nat)
    requires WellFormed(Cat(a, b))
    ensures WellFormed(a) && WellFormed(b)
    ensures Levels(Cat(a, b), cc) == Most(Levels(a, cc), Levels(b, cc + Groups(a)))
  {
    hide Emit, Counts, Groups, WellFormed, Most;
    EmitCat(a, b, cc);
  }

  lemma {:induction false} LevelsAlt(a: Re, b: Re, cc: nat)
    requires WellFormed(Alt(a, b))
    ensures WellFormed(a) && WellFormed(b)
    ensures Levels(Alt(a, b), cc) == Most(Levels(a, cc), Levels(b, cc + Groups(a)))
  {
    hide Emit, Counts, Groups, WellFormed, Most;
    EmitAlt(a, b, cc);
  }

  lemma {:induction false} LevelsCapture(a: Re, cc: nat)
    requires WellFormed(Capture(a))
    ensures WellFormed(a) && Levels(Capture(a), cc) == Levels(a, cc + 1)
  {
    hide Emit, Counts, Groups, WellFormed, Most;
    EmitCapture(a, cc);
  }

  lemma {:induction false} LevelsQuant(a: Re, min: nat, max: nat, greedy: bool, cc: nat)
    requires WellFormed(Quant(a, min, max, greedy))
    ensures WellFormed(a)
    ensures Levels(Quant(a, min, max, greedy), cc) ==
      if max == 0 then 0 else Levels(a, cc) + if Counts(Emit(a, cc), min, max, greedy) then 1 else 0
  {
    hide Emit, Counts, Groups, WellFormed, Most;
    EmitQuant(a, min, max, greedy, cc);
  }

  lemma {:induction false} LevelsLook(negated: bool, a: Re, cc: nat)
    requires WellFormed(Look(negated, a))
    ensures WellFormed(a) && Levels(Look(negated, a), cc) == Levels(a, cc)
  {
    hide Emit, Counts, Groups, WellFormed, Most;
    EmitLook(negated, a, cc);
  }

  /** The deepest point of a piece of code. */
  function Peak(s: seq<Instr>): int {
    MaxDepth(s, |s|)
  }

  lemma {:induction false} PeakPrefix(s: seq<Instr>, t: seq<Instr>, k: nat)
    requires k <= |s|
    ensures MaxDepth(s + t, k) == MaxDepth(s, k)
  {
    hide Depth;
    PrefixSame(s, t, k);
    if k > 0 {
      PeakPrefix(s, t, k - 1);
    }
  }

  lemma {:induction false} PeakSuffix(s: seq<Instr>, t: seq<Instr>, k: nat)
    requires k <= |t|
    ensures MaxDepth(s + t, |s| + k) == Most(Peak(s), Net(s) + MaxDepth(t, k))
  {
    hide Depth;
    if k == 0 {
      PeakPrefix(s, t, |s|);
      MaxDepthBounds(s, |s|, |s|);
    } else {
      PeakSuffix(s, t, k - 1);
      SuffixShift(s, t, k);
    }
  }

  lemma {:induction false} PeakAppend(s: seq<Instr>, t: seq<Instr>)
    ensures Peak(s + t) == Most(Peak(s), Net(s) + Peak(t)) && Net(s + t) == Net(s) + Net(t)
  {
    hide Depth, MaxDepth;
    PeakSuffix(s, t, |t|);
    NetAppend(s, t);
  }

  lemma {:induction false} PeakEmpty()
    ensures Peak([]) == 0 && Net([]) == 0
  {
  }

  lemma {:induction false} PeakOne(i: Instr)
    ensures Peak([i]) == Most(0, Delta(i)) && Net([i]) == Delta(i)
  {
    var s := [i];
    assert Depth(s, 0) == 0 && Depth(s, 1) == Delta(i);
    assert MaxDepth(s, 0) == 0;
  }

  lemma {:induction false} PeakPositive(s: seq<Instr>)
    ensures Peak(s) >= 0
  {
    MaxDepthBounds(s, |s|, 0);
  }

  /** A level piece between two instructions. */
  lemma {:induction false} PeakBetween(i: Instr, x: seq<Instr>, j: Instr)
    requires Net(x) == 0
    ensures Peak([i] + x + [j]) == Most(Most(0, Delta(i)), Most(Delta(i) + Peak(x), Delta(i) + Delta(j)))
    ensures Net([i] + x + [j]) == Delta(i) + Delta(j)
  {
    hide Net, Peak, Delta;
    PeakOne(i);
    PeakOne(j);
    PeakAppend([i], x);
    PeakAppend([i] + x, [j]);
    PeakPositive(x);
  }

  lemma {:induction false} PeakStar(x: seq<Instr>, greedy: bool, check: bool)
    requires Net(x) == 0
    ensures Net(Star(x, greedy, check)) == 0 && Peak(Star(x, greedy, check)) == Peak(x) + if check then 1 else 0
  {
    var len: int := Size(x);
    hide Net, Peak, Size;
    PeakPositive(x);
    if check {
      var i, j := Split(greedy, len + 6), BneCharPos(-(len + 11));
      PeakBetween(PushCharPos, x, j);
      PeakOne(i);
      PeakAppend([i], [PushCharPos] + x + [j]);
      assert [i, PushCharPos] + x + [j] == [i] + ([PushCharPos] + x + [j]);
    } else {
      PeakBetween(Split(greedy, len + 5), x, Goto(-(len + 10)));
    }
  }

  lemma {:induction false} PeakCounted(k: nat, s: seq<Instr>, off: int)
    requires Net(s) == 0
    ensures Net([PushI32(k)] + s + [Loop(off), Drop]) == 0
    ensures Peak([PushI32(k)] + s + [Loop(off), Drop]) == Peak(s) + 1
  {
    hide Net, Peak;
    var i, j := PushI32(k), Loop(off);
    PeakPositive(s);
    PeakBetween(i, s, j);
    PeakOne(Drop);
    PeakAppend([i] + s + [j], [Drop]);
    assert [i] + s + [j, Drop] == [i] + s + [j] + [Drop];
  }

  /** A branch in front changes nothing. */
  lemma {:induction false} PeakAfter(i: Instr, x: seq<Instr>)
    requires Net(x) == 0 && Delta(i) == 0
    ensures Net([i] + x) == 0 && Peak([i] + x) == Peak(x)
  {
    hide Net, Peak;
    PeakOne(i);
    PeakAppend([i], x);
    PeakPositive(x);
  }

  lemma {:induction false} PeakUpTo(x: seq<Instr>, k: nat, greedy: bool)
    requires Net(x) == 0
    ensures Net(UpTo(x, k, greedy)) == 0 && Peak(UpTo(x, k, greedy)) == Peak(x) + 1
  {
    var len: int := Size(x);
    hide Net, Peak, Size;
    var i := Split(greedy, len + 5);
    PeakAfter(i, x);
    PeakCounted(k, [i] + x, -(len + 10));
    var p, q := PushI32(k), [Loop(-(len + 10)), Drop];
    assert [p, i] + x + q == [p] + ([i] + x) + q;
  }

  lemma {:induction false} PeakReset(cc: nat, n: nat)
    ensures Peak(Reset(cc, n)) == 0 && Net(Reset(cc, n)) == 0
  {
    hide Peak, Net;
    PeakEmpty();
    if n > 0 {
      PeakOne(SaveReset(cc, cc + n - 1));
    }
  }

  lemma {:induction false} PeakZeroOrMore(x: seq<Instr>, max: nat, greedy: bool, check: bool)
    requires Net(x) == 0
    ensures Peak(ZeroOrMore(x, max, greedy, check)) ==
      if max == 0 then 0 else Peak(x) + if (if max == INT32_MAX then check else max > 1) then 1 else 0
  {
    hide Star, UpTo, Peak, Net, Size;
    PeakEmpty();
    PeakStar(x, greedy, check);
    PeakUpTo(x, max, greedy);
    PeakAfter(Split(greedy, Size(x)), x);
  }

  /** At most as deep as one counted pass, and exactly so if there is something to count. */
  lemma {:induction false} PeakRest(x: seq<Instr>, min: nat, max: nat, greedy: bool, check: bool)
    requires Net(x) == 0
    ensures var p := Peak(Rest(x, min, max, greedy, check));
      if max == INT32_MAX then p == Peak(x) + (if check then 1 else 0) else p == if max > min then Peak(x) + 1 else 0
  {
    hide Star, UpTo, Peak, Net, Size;
    PeakEmpty();
    PeakStar(x, greedy, check);
    if max > min {
      PeakUpTo(x, max - min, greedy);
    }
  }

  lemma {:induction false} PeakQuant(x: seq<Instr>, cc: nat, g: nat, min: nat, max: nat, greedy: bool)
    requires Net(x) == 0 && min <= max
    ensures Peak(QuantCode(x, cc, g, min, max, greedy)) ==
      if max == 0 then 0 else Peak(x) + if Counts(x, min, max, greedy) then 1 else 0
  {
    hide ZeroOrMore, Rest, Reset, CheckAdvance, SimpleCount, Peak, Net, Size;
    PeakPositive(x);
    if IsSimpleLoop(x, max, greedy) {
      PeakBetween(SimpleGreedyQuant(Size(x) + 1, min, max, SimpleCount(x)), x, Match);
      return;
    }
    var check := greedy && !CheckAdvance(x);
    if min == 0 {
      PeakReset(cc, g);
      PeakZeroOrMore(x, max, greedy, check);
      PeakAppend(Reset(cc, g), ZeroOrMore(x, max, greedy, check));
    } else if min == 1 && max == INT32_MAX && !check {
      var i := Split(!greedy, -(Size(x) as int + 5));
      PeakOne(i);
      PeakAppend(x, [i]);
    } else {
      PeakCounted(min, x, -(Size(x) + 5));
      PeakRest(x, min, max, greedy, check);
      PeakAppend(if min == 1 then x else Exactly(x, min), Rest(x, min, max, greedy, check));
    }
  }

  lemma {:induction false} PeakAlt(x: seq<Instr>, y: seq<Instr>)
    requires Net(x) == 0 && Net(y) == 0
    ensures Peak(AltCode(x, y)) == Most(Peak(x), Peak(y))
  {
    hide Peak, Net, Size;
    var i, j := SplitNextFirst(Size(x) + 5), Goto(Size(y));
    PeakPositive(x);
    PeakPositive(y);
    PeakBetween(i, x, j);
    PeakAppend([i] + x + [j], y);
  }

  lemma {:induction false} PeakLook(negated: bool, x: seq<Instr>)
    requires Net(x) == 0
    ensures Peak(LookCode(negated, x)) == Peak(x)
  {
    hide Peak, Net, Size;
    var len := Size(x);
    PeakPositive(x);
    PeakBetween(if negated then NegativeLookahead(len + 1) else Lookahead(len + 1), x, Match);
  }

  lemma {:induction false} LevelEmit(r: Re, cc: nat)
    requires WellFormed(r)
    ensures Net(Emit(r, cc)) == 0
  {
    hide Emit, WellFormed, Groups, Fit;
    LinkedEmit(r, cc, cc + Groups(r));
  }

  lemma {:induction false} PeakEmpties(cc: nat)
    ensures Peak(Emit(Empty, cc)) == 0 && Levels(Empty, cc) == 0
  {
  }

  lemma {:induction false} PeakLeaf(r: Re, cc: nat)
    requires WellFormed(r) && IsLeaf(r)
    ensures Peak(Emit(r, cc)) == 0 && Levels(r, cc) == 0
  {
    hide Peak, Emit;
    EmitLeaf(r, cc);
    var i := Emit(r, cc)[0];
    assert Emit(r, cc) == [i];
    PeakOne(i);
  }

  /** The linear scan of the code finds the nesting of the pattern. */
  lemma {:induction false} PeakIsLevels(r: Re, cc: nat)
    requires WellFormed(r)
    ensures Peak(Emit(r, cc)) == Levels(r, cc)
    decreases r
  {
    hide Peak, Net, Emit, AltCode, QuantCode, LookCode, Groups, Counts, WellFormed, IsLeaf, Levels;
    match r
    case Cat(a, b) =>
      LevelsCat(a, b, cc);
      EmitCat(a, b, cc);
      PeakIsLevels(a, cc);
      PeakIsLevels(b, cc + Groups(a));
      LevelEmit(a, cc);
      PeakAppend(Emit(a, cc), Emit(b, cc + Groups(a)));
    case Alt(a, b) =>
      LevelsAlt(a, b, cc);
      EmitAlt(a, b, cc);
      PeakIsLevels(a, cc);
      PeakIsLevels(b, cc + Groups(a));
      LevelEmit(a, cc);
      LevelEmit(b, cc + Groups(a));
      PeakAlt(Emit(a, cc), Emit(b, cc + Groups(a)));
    case Capture(a) =>
      LevelsCapture(a, cc);
      EmitCapture(a, cc);
      PeakIsLevels(a, cc + 1);
      LevelEmit(a, cc + 1);
      PeakBetween(SaveStart(cc), Emit(a, cc + 1), SaveEnd(cc));
    case Quant(a, min, max, greedy) =>
      LevelsQuant(a, min, max, greedy, cc);
      EmitQuant(a, min, max, greedy, cc);
      PeakIsLevels(a, cc);
      LevelEmit(a, cc);
      PeakQuant(Emit(a, cc), cc, Groups(a), min, max, greedy);
    case Look(negated, a) =>
      LevelsLook(negated, a, cc);
      EmitLook(negated, a, cc);
      PeakIsLevels(a, cc);
      LevelEmit(a, cc);
      PeakLook(negated, Emit(a, cc));
    case Empty => PeakEmpties(cc);
    case _ => PeakOther(r, cc);
  }

  lemma {:induction false} PeakOther(r: Re, cc: nat)
    requires WellFormed(r) && !r.Cat? && !r.Alt? && !r.Capture? && !r.Quant? && !r.Look? && !r.Empty?
    ensures Peak(Emit(r, cc)) == Levels(r, cc)
  {
    hide Peak, Emit, WellFormed, Levels;
    PeakLeaf(r, cc);
  }

  lemma {:induction false} PeakPrelude(sticky: bool)
    ensures Peak(Prelude(sticky)) == 0 && Net(Prelude(sticky)) == 0
  {
    hide Peak, Net;
    PeakEmpty();
    PeakOne(Any);
    PeakBetween(SplitGotoFirst(6), [Any], Goto(-11));
    assert [SplitGotoFirst(6)] + [Any] + [Goto(-11)] == Prelude(false);
  }

  /** The same for the whole program: searching and the outer group add nothing. */
  lemma {:induction false} ProgramNesting(r: Re, sticky: bool)
    requires WellFormed(r)
    ensures Peak(Program(r, sticky)) == Levels(r, 1)
  {
    hide Peak, Net, Emit, WellFormed, Levels, Prelude;
    var x := Emit(r, 1);
    PeakIsLevels(r, 1);
    LevelEmit(r, 1);
    PeakBetween(SaveStart(0), x, SaveEnd(0));
    PeakOne(Match);
    var body := [SaveStart(0)] + x + [SaveEnd(0)];
    PeakAppend(body, [Match]);
    PeakPrelude(sticky);
    PeakPositive(x);
    PeakAppend(Prelude(sticky), body + [Match]);
    assert Program(r, sticky) == Prelude(sticky) + (body + [Match]);
  }

  // ----- the limit is reached -----

  /** n loops of two repetitions around a character. */
  function Nest(n: nat): Re {
    if n == 0 then Lit(0x61) else Quant(Nest(n - 1), 2, 2, false)
  }

  lemma {:induction false} NestCode(n: nat)
    ensures WellFormed(Nest(n)) && Size(Emit(Nest(n), 1)) == 3 + 11 * n
  {
    hide Emit, Size, QuantCode;
    if n == 0 {
      CharCode();
    } else {
      NestCode(n - 1);
      EmitQuant(Nest(n - 1), 2, 2, false, 1);
      NestSize(Emit(Nest(n - 1), 1), Groups(Nest(n - 1)));
    }
  }

  lemma {:induction false} CharCode()
    ensures WellFormed(Nest(0)) && Size(Emit(Nest(0), 1)) == 3
  {
    SizeOne(Char(0x61));
  }

  lemma {:induction false} NestSize(x: seq<Instr>, g: nat)
    ensures Size(QuantCode(x, 1, g, 2, 2, false)) == Size(x) + 11
  {
    hide Size, SimpleCount, CheckAdvance;
    var i, j := PushI32(2), Loop(-(Size(x) + 5));
    SizeOne(i);
    SizeOne(j);
    SizeOne(Drop);
    SizeAppend([i], x);
    SizeAppend([i] + x, [j] + [Drop]);
    SizeAppend([j], [Drop]);
    assert [j, Drop] == [j] + [Drop];
    assert QuantCode(x, 1, g, 2, 2, false) == Exactly(x, 2) + [] == Exactly(x, 2);
  }

  /**
   The limit on nesting is met from both sides: patterns of any nesting up to a hundred million
   are small enough and have no lazy unbounded loop, so the compiler gets as far as counting, and
   takes exactly those of at most 255 levels.
   */
  lemma {:induction false} NestLevels(n: nat)
    requires n <= 100_000_000
    ensures Parsed(Nest(n)) && Small(Nest(n), 1) && LazyLoopsMove(Nest(n))
    ensures WellFormed(Nest(n)) && Groups(Nest(n)) == 0 && Levels(Nest(n), 1) == n
  {
    hide Emit, Size;
    NestCode(n);
    if n > 0 {
      NestLevels(n - 1);
    }
  }
}
