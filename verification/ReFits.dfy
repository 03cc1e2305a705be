/** When emitted code fits: jumps in 32 bits and capture indices in a byte. */
module ReFits {
  import opened ReCode
  import opened ReClass
  import opened ReSyntax

  const CAPTURE_COUNT_MAX: nat := 255

  /** Jump distances stay below this. */
  const CODE_MAX: nat := 0x7fff_ff00

  /** What the parser hands on; a class may still have too many ranges to be emitted. */
  predicate Parsed(r: Re) {
    match r
    case Lit(c) => c < 0x11_0000
    case Class(p) => ClassPoints(p)
    case Cat(a, b) => Parsed(a) && Parsed(b)
    case Alt(a, b) => Parsed(a) && Parsed(b)
    case Capture(a) => Parsed(a)
    case Quant(a, min, max, _) => Parsed(a) && min <= max <= INT32_MAX
    case Look(_, a) => Parsed(a)
    case _ => true
  }

  /** No class has 65535 ranges or more. */
  predicate ClassesFit(r: Re) {
    match r
    case Class(p) => |p| / 2 < 65535
    case Cat(a, b) => ClassesFit(a) && ClassesFit(b)
    case Alt(a, b) => ClassesFit(a) && ClassesFit(b)
    case Capture(a) => ClassesFit(a)
    case Quant(a, _, _, _) => ClassesFit(a)
    case Look(_, a) => ClassesFit(a)
    case _ => true
  }

  /** Of what the parser hands on, large classes are all that is refused. */
  lemma {:induction false} AcceptedClasses(r: Re)
    requires Parsed(r)
    ensures WellFormed(r) <==> ClassesFit(r)
    decreases r
  {
    hide ClassPoints, PairsOf;
    match r
    case Cat(a, b) =>
      AcceptedClasses(a);
      AcceptedClasses(b);
    case Alt(a, b) =>
      AcceptedClasses(a);
      AcceptedClasses(b);
    case Capture(a) => AcceptedClasses(a);
    case Quant(a, _, _, _) => AcceptedClasses(a);
    case Look(_, a) => AcceptedClasses(a);
    case _ =>
  }

  /** The code of r, and of every part the compiler emits on the way to it, is below two gigabytes. */
  ghost predicate Small(r: Re, cc: nat)
    decreases r
  {
    && (WellFormed(r) ==> Size(Emit(r, cc)) < CODE_MAX)
    && match r {
      case Cat(a, b) => Small(a, cc) && Small(b, cc + Groups(a))
      case Alt(a, b) => Small(a, cc) && Small(b, cc + Groups(a))
      case Capture(a) => Small(a, cc + 1)
      case Quant(a, _, _, _) => Small(a, cc)
      case Look(_, a) => Small(a, cc)
      case _ => true
    }
  }

  // ----- one level of the conditions on a pattern -----

  lemma {:induction false} CatParts(a: Re, b: Re, cc: nat)
    ensures var r := Cat(a, b);
      && Parsed(r) == (Parsed(a) && Parsed(b)) && WellFormed(r) == (WellFormed(a) && WellFormed(b))
      && Groups(r) == Groups(a) + Groups(b) && (Small(r, cc) ==> Small(a, cc) && Small(b, cc + Groups(a)))
  {
    hide Emit, Size;
  }

  lemma {:induction false} AltParts(a: Re, b: Re, cc: nat)
    ensures var r := Alt(a, b);
      && Parsed(r) == (Parsed(a) && Parsed(b)) && WellFormed(r) == (WellFormed(a) && WellFormed(b))
      && Groups(r) == Groups(a) + Groups(b) && (Small(r, cc) ==> Small(a, cc) && Small(b, cc + Groups(a)))
  {
    hide Emit, Size;
  }

  lemma {:induction false} CaptureParts(a: Re, cc: nat)
    ensures var r := Capture(a);
      && Parsed(r) == Parsed(a) && WellFormed(r) == WellFormed(a)
      && Groups(r) == 1 + Groups(a) && (Small(r, cc) ==> Small(a, cc + 1))
  {
    hide Emit, Size;
  }

  lemma {:induction false} QuantParts(a: Re, min: nat, max: nat, greedy: bool, cc: nat)
    ensures var r := Quant(a, min, max, greedy);
      && Parsed(r) == (Parsed(a) && min <= max <= INT32_MAX)
      && WellFormed(r) == (WellFormed(a) && min <= max <= INT32_MAX)
      && Groups(r) == Groups(a) && (Small(r, cc) ==> Small(a, cc))
  {
    hide Emit, Size;
  }

  lemma {:induction false} LookParts(negated: bool, a: Re, cc: nat)
    ensures var r := Look(negated, a);
      && Parsed(r) == Parsed(a) && WellFormed(r) == WellFormed(a)
      && Groups(r) == Groups(a) && (Small(r, cc) ==> Small(a, cc))
  {
    hide Emit, Size;
  }

  lemma {:induction false} TermParts(r: Re)
    requires IsLeaf(r) || r.Empty?
    ensures Groups(r) == 0
  {
  }

  lemma {:induction false} SmallCode(r: Re, cc: nat)
    requires WellFormed(r) && Small(r, cc)
    ensures Size(Emit(r, cc)) < CODE_MAX
  {
    hide Emit, Size, WellFormed;
  }

  // ----- every construct -----

  lemma {:induction false} OneValid(i: Instr)
    requires ValidInstr(i)
    ensures AllValid([i])
  {
  }

  lemma {:induction false} AppendValid(s: seq<Instr>, t: seq<Instr>)
    requires AllValid(s) && AllValid(t)
    ensures AllValid(s + t)
  {
    hide ValidInstr;
  }

  /** Code between a first and a last instruction. */
  lemma {:induction false} BetweenValid(i: Instr, s: seq<Instr>, j: Instr)
    requires ValidInstr(i) && ValidInstr(j) && AllValid(s)
    ensures AllValid([i] + s + [j])
  {
    hide ValidInstr;
  }

  lemma {:induction false} StarValid(x: seq<Instr>, greedy: bool, check: bool)
    requires AllValid(x) && Size(x) < CODE_MAX
    ensures AllValid(Star(x, greedy, check))
  {
    var len: int := Size(x);
    hide Size, AllValid;
    if check {
      var i, j := Split(greedy, len + 6), BneCharPos(-(len + 11));
      BetweenValid(PushCharPos, x, j);
      OneValid(i);
      AppendValid([i], [PushCharPos] + x + [j]);
      assert [i, PushCharPos] + x + [j] == [i] + ([PushCharPos] + x + [j]);
    } else {
      BetweenValid(Split(greedy, len + 5), x, Goto(-(len + 10)));
    }
  }

  /** A counted body: push, body, loop, drop. */
  lemma {:induction false} CountedValid(k: nat, s: seq<Instr>, off: int)
    requires AllValid(s) && k <= INT32_MAX && IsI32(off)
    ensures AllValid([PushI32(k)] + s + [Loop(off), Drop])
  {
    hide AllValid;
    var i, j := PushI32(k), Loop(off);
    BetweenValid(i, s, j);
    OneValid(Drop);
    AppendValid([i] + s + [j], [Drop]);
    assert [i] + s + [j, Drop] == [i] + s + [j] + [Drop];
  }

  lemma {:induction false} UpToValid(x: seq<Instr>, k: nat, greedy: bool)
    requires AllValid(x) && Size(x) < CODE_MAX && k <= INT32_MAX
    ensures AllValid(UpTo(x, k, greedy))
  {
    var len: int := Size(x);
    hide Size, AllValid;
    var i := Split(greedy, len + 5);
    OneValid(i);
    AppendValid([i], x);
    CountedValid(k, [i] + x, -(len + 10));
    var p, q := PushI32(k), [Loop(-(len + 10)), Drop];
    assert [p, i] + x + q == [p] + ([i] + x) + q;
  }

  lemma {:induction false} ResetValid(cc: nat, n: nat)
    requires cc + n <= 256
    ensures AllValid(Reset(cc, n))
  {
    hide AllValid;
    if n > 0 {
      OneValid(SaveReset(cc, cc + n - 1));
    } else {
      NoneValid();
    }
  }

  lemma {:induction false} NoneValid()
    ensures AllValid([])
  {
  }

  lemma {:induction false} ZeroOrMoreValid(x: seq<Instr>, max: nat, greedy: bool, check: bool)
    requires AllValid(x) && Size(x) < CODE_MAX && max <= INT32_MAX
    ensures AllValid(ZeroOrMore(x, max, greedy, check))
  {
    hide Star, UpTo, AllValid, Size;
    NoneValid();
    StarValid(x, greedy, check);
    UpToValid(x, max, greedy);
    var i := Split(greedy, Size(x));
    OneValid(i);
    AppendValid([i], x);
  }

  lemma {:induction false} RestValid(x: seq<Instr>, min: nat, max: nat, greedy: bool, check: bool)
    requires AllValid(x) && Size(x) < CODE_MAX && min <= max <= INT32_MAX
    ensures AllValid(Rest(x, min, max, greedy, check))
  {
    hide Star, UpTo, AllValid, Size;
    NoneValid();
    StarValid(x, greedy, check);
    UpToValid(x, max - min, greedy);
  }

  lemma {:induction false} SimpleBelow(x: seq<Instr>)
    ensures SimpleCount(x) <= Size(x)
    decreases |x|
  {
    if x != [] {
      SimpleBelow(x[1..]);
    }
  }

  lemma {:induction false} QuantValid(x: seq<Instr>, cc: nat, g: nat, min: nat, max: nat, greedy: bool)
    requires AllValid(x) && Size(x) < CODE_MAX && cc + g <= 256 && min <= max <= INT32_MAX
    ensures AllValid(QuantCode(x, cc, g, min, max, greedy))
  {
    hide ZeroOrMore, Rest, Reset, CheckAdvance, SimpleCount, AllValid, Size;
    if IsSimpleLoop(x, max, greedy) {
      SimpleBelow(x);
      BetweenValid(SimpleGreedyQuant(Size(x) + 1, min, max, SimpleCount(x)), x, Match);
      return;
    }
    var check := greedy && !CheckAdvance(x);
    if min == 0 {
      ResetValid(cc, g);
      ZeroOrMoreValid(x, max, greedy, check);
      AppendValid(Reset(cc, g), ZeroOrMore(x, max, greedy, check));
    } else if min == 1 && max == INT32_MAX && !check {
      var i := Split(!greedy, -(Size(x) as int + 5));
      OneValid(i);
      AppendValid(x, [i]);
    } else {
      CountedValid(min, x, -(Size(x) + 5));
      RestValid(x, min, max, greedy, check);
      AppendValid(if min == 1 then x else Exactly(x, min), Rest(x, min, max, greedy, check));
    }
  }

  lemma {:induction false} AltValid(x: seq<Instr>, y: seq<Instr>)
    requires AllValid(x) && AllValid(y) && Size(x) < CODE_MAX && Size(y) < CODE_MAX
    ensures AllValid(AltCode(x, y))
  {
    hide AllValid, Size;
    var i, j := SplitNextFirst(Size(x) + 5), Goto(Size(y));
    BetweenValid(i, x, j);
    AppendValid([i] + x + [j], y);
  }

  lemma {:induction false} LookValid(negated: bool, x: seq<Instr>)
    requires AllValid(x) && Size(x) < CODE_MAX
    ensures AllValid(LookCode(negated, x))
  {
    hide AllValid, Size;
    var len := Size(x);
    BetweenValid(if negated then NegativeLookahead(len + 1) else Lookahead(len + 1), x, Match);
  }

  lemma {:induction false} EmptyValid(cc: nat)
    ensures AllValid(Emit(Empty, cc))
  {
  }

  lemma {:induction false} LeafValid(r: Re, cc: nat)
    requires WellFormed(r) && IsLeaf(r)
    ensures AllValid(Emit(r, cc))
  {
    hide ValidInstr;
    EmitLeaf(r, cc);
  }

  /** Code below two gigabytes with few enough groups can be written down: all operands fit. */
  lemma {:induction false} EmitFits(r: Re, cc: nat)
    requires WellFormed(r) && cc + Groups(r) <= CAPTURE_COUNT_MAX && Small(r, cc)
    ensures AllValid(Emit(r, cc))
    decreases r
  {
    hide AllValid, Emit, AltCode, QuantCode, LookCode, WellFormed, Groups, Small, Size;
    match r
    case Cat(a, b) =>
      EmitCat(a, b, cc);
      CatParts(a, b, cc);
      EmitFits(a, cc);
      EmitFits(b, cc + Groups(a));
      AppendValid(Emit(a, cc), Emit(b, cc + Groups(a)));
    case Alt(a, b) =>
      EmitAlt(a, b, cc);
      AltParts(a, b, cc);
      EmitFits(a, cc);
      EmitFits(b, cc + Groups(a));
      SmallCode(a, cc);
      SmallCode(b, cc + Groups(a));
      AltValid(Emit(a, cc), Emit(b, cc + Groups(a)));
    case Capture(a) =>
      EmitCapture(a, cc);
      CaptureParts(a, cc);
      EmitFits(a, cc + 1);
      BetweenValid(SaveStart(cc), Emit(a, cc + 1), SaveEnd(cc));
    case Quant(a, min, max, greedy) =>
      EmitQuant(a, min, max, greedy, cc);
      QuantParts(a, min, max, greedy, cc);
      EmitFits(a, cc);
      SmallCode(a, cc);
      QuantValid(Emit(a, cc), cc, Groups(a), min, max, greedy);
    case Look(negated, a) =>
      EmitLook(negated, a, cc);
      LookParts(negated, a, cc);
      EmitFits(a, cc);
      SmallCode(a, cc);
      LookValid(negated, Emit(a, cc));
    case Empty => EmptyValid(cc);
    case _ => LeafValid(r, cc);
  }
}
