/** Expressions that take at least one character on every match, and the compiler's check for them. */
module ReMoves {
  import opened ReCode
  import opened ReSyntax

  /** Every match takes at least one character. */
  predicate Moves(r: Re) {
    match r
    case Lit(_) => true
    case DotAll => true
    case DotLine => true
    case Class(_) => true
    case Cat(a, b) => Moves(a) || Moves(b)
    case Alt(a, b) => Moves(a) && Moves(b)
    case Capture(a) => Moves(a)
    case Quant(a, min, max, _) => min > 0 && max > 0 && Moves(a)
    case _ => false
  }

  /** The body of every loop with optional iterations takes characters; loops that never run do not matter. */
  predicate LoopsAdvance(r: Re) {
    match r
    case Cat(a, b) => LoopsAdvance(a) && LoopsAdvance(b)
    case Alt(a, b) => LoopsAdvance(a) && LoopsAdvance(b)
    case Capture(a) => LoopsAdvance(a)
    case Quant(a, min, max, _) => max == 0 || (LoopsAdvance(a) && (max >= INT32_MAX || max > min ==> Moves(a)))
    case Look(_, a) => LoopsAdvance(a)
    case _ => true
  }

  /** The body of every lazy loop without an upper bound takes characters; loops that never run do not matter. */
  predicate LazyLoopsMove(r: Re) {
    match r
    case Cat(a, b) => LazyLoopsMove(a) && LazyLoopsMove(b)
    case Alt(a, b) => LazyLoopsMove(a) && LazyLoopsMove(b)
    case Capture(a) => LazyLoopsMove(a)
    case Quant(a, _, max, greedy) => max == 0 || (LazyLoopsMove(a) && (!greedy && max == INT32_MAX ==> Moves(a)))
    case Look(_, a) => LazyLoopsMove(a)
    case _ => true
  }

  lemma {:induction false} AdvanceIsEnough(r: Re)
    requires LoopsAdvance(r)
    ensures LazyLoopsMove(r)
    decreases r
  {
    match r
    case Cat(a, b) =>
      AdvanceIsEnough(a);
      AdvanceIsEnough(b);
    case Alt(a, b) =>
      AdvanceIsEnough(a);
      AdvanceIsEnough(b);
    case Capture(a) => AdvanceIsEnough(a);
    case Quant(a, _, max, _) =>
      if max > 0 {
        AdvanceIsEnough(a);
      }
    case Look(_, a) => AdvanceIsEnough(a);
    case _ =>
  }

  // ----- the advance check on emitted code is sound -----

  predicate NoEffect(i: Instr) {
    IsAssertion(i) || i.PushI32? || i.PushCharPos? || i.Drop? || i.SaveStart? || i.SaveEnd? || i.SaveReset?
  }

  lemma {:induction false} AdvanceAppend(x: seq<Instr>, y: seq<Instr>)
    ensures CheckAdvance(x + y) ==> CheckAdvance(x) || CheckAdvance(y)
    decreases |x|
  {
    if x == [] {
      assert x + y == y;
    } else {
      assert (x + y)[1..] == x[1..] + y && (x + y)[0] == x[0];
      AdvanceAppend(x[1..], y);
    }
  }

  lemma AdvanceFirst(i: Instr, y: seq<Instr>)
    ensures CheckAdvance([i] + y) <==> IsCharInstr(i) || (NoEffect(i) && CheckAdvance(y))
  {
    assert ([i] + y)[1..] == y && ([i] + y)[0] == i;
  }

  lemma RestBranches(x: seq<Instr>, min: nat, max: nat, greedy: bool, check: bool)
    ensures !CheckAdvance(Rest(x, min, max, greedy, check)) && !CheckAdvance(ZeroOrMore(x, max, greedy, check))
  {
    hide CheckAdvance, Size;
    StarBranches(x, greedy, check);
    UpToBranches(x, max, greedy);
    if max > min {
      UpToBranches(x, max - min, greedy);
    }
    AdvanceFirst(Split(greedy, Size(x)), x);
    NothingAdvances();
  }

  lemma NothingAdvances()
    ensures !CheckAdvance([])
  {
  }

  lemma StarBranches(x: seq<Instr>, greedy: bool, check: bool)
    ensures !CheckAdvance(Star(x, greedy, check))
  {
    hide CheckAdvance, Size;
    var s := Star(x, greedy, check);
    assert s == [s[0]] + s[1..];
    AdvanceFirst(s[0], s[1..]);
  }

  lemma UpToBranches(x: seq<Instr>, n: nat, greedy: bool)
    ensures !CheckAdvance(UpTo(x, n, greedy))
  {
    hide CheckAdvance, Size;
    var s := UpTo(x, n, greedy);
    assert s == [s[0]] + ([s[1]] + s[2..]);
    AdvanceFirst(s[0], [s[1]] + s[2..]);
    AdvanceFirst(s[1], s[2..]);
  }

  /** A loop is found to advance only if it must run and its body is found to advance. */
  lemma {:induction false} LoopAdvance(x: seq<Instr>, cc: nat, n: nat, min: nat, max: nat, greedy: bool)
    requires CheckAdvance(GenericLoop(x, cc, n, min, max, greedy))
    ensures min > 0 && CheckAdvance(x)
  {
    hide CheckAdvance, Size, ZeroOrMore, Rest;
    var check := greedy && !CheckAdvance(x);
    NothingAdvances();
    RestBranches(x, min, max, greedy, check);
    if min == 0 {
      AdvanceAppend(Reset(cc, n), ZeroOrMore(x, max, greedy, check));
      ResetAdvance(cc, n);
    } else if min == 1 && max == INT32_MAX && !check {
      var i := Split(!greedy, -(Size(x) as int + 5));
      AdvanceAppend(x, [i]);
      assert [i] == [i] + [];
      AdvanceFirst(i, []);
    } else if min == 1 {
      AdvanceAppend(x, Rest(x, min, max, greedy, check));
    } else {
      AdvanceAppend(Exactly(x, min), Rest(x, min, max, greedy, check));
      ExactlyAdvance(x, min);
    }
  }

  lemma ResetAdvance(cc: nat, n: nat)
    ensures !CheckAdvance(Reset(cc, n))
  {
    hide CheckAdvance;
    NothingAdvances();
    if n > 0 {
      AdvanceFirst(SaveReset(cc, cc + n - 1), []);
      assert Reset(cc, n) == [SaveReset(cc, cc + n - 1)] + [];
    }
  }

  lemma ExactlyAdvance(x: seq<Instr>, n: nat)
    ensures CheckAdvance(Exactly(x, n)) ==> CheckAdvance(x)
  {
    hide CheckAdvance, Size;
    var j := Loop(-(Size(x) as int + 5));
    assert Exactly(x, n) == [PushI32(n)] + (x + ([j] + [Drop]));
    AdvanceFirst(PushI32(n), x + ([j] + [Drop]));
    AdvanceAppend(x, [j] + [Drop]);
    AdvanceFirst(j, [Drop]);
  }

  lemma {:induction false} AdvanceMeans(r: Re, cc: nat)
    requires WellFormed(r) && CheckAdvance(Emit(r, cc))
    ensures Moves(r)
    decreases r
  {
    hide CheckAdvance, Size;
    NothingAdvances();
    match r {
      case Cat(a, b) => {
        AdvanceAppend(Emit(a, cc), Emit(b, cc + Groups(a)));
        if CheckAdvance(Emit(a, cc)) {
          AdvanceMeans(a, cc);
        } else {
          AdvanceMeans(b, cc + Groups(a));
        }
      }
      case Capture(a) => {
        var x := Emit(a, cc + 1);
        assert Emit(r, cc) == [SaveStart(cc)] + (x + ([SaveEnd(cc)] + []));
        AdvanceFirst(SaveStart(cc), x + ([SaveEnd(cc)] + []));
        AdvanceAppend(x, [SaveEnd(cc)] + []);
        AdvanceFirst(SaveEnd(cc), []);
        AdvanceMeans(a, cc + 1);
      }
      case Quant(a, min, max, greedy) => QuantAdvance(a, cc, min, max, greedy);
      case _ => OtherAdvance(r, cc);
    }
  }

  lemma {:induction false} QuantAdvance(a: Re, cc: nat, min: nat, max: nat, greedy: bool)
    requires WellFormed(Quant(a, min, max, greedy)) && CheckAdvance(Emit(Quant(a, min, max, greedy), cc))
    ensures Moves(Quant(a, min, max, greedy))
    decreases Quant(a, min, max, greedy), 0
  {
    hide CheckAdvance, Size, SimpleCount, GenericLoop, Emit, WellFormed;
    EmitQuant(a, min, max, greedy, cc);
    var x := Emit(a, cc);
    if IsSimpleLoop(x, max, greedy) {
      var i := SimpleGreedyQuant(Size(x) + 1, min, max, SimpleCount(x));
      assert SimpleLoop(x, min, max) == [i] + (x + [Match]);
      AdvanceFirst(i, x + [Match]);
    } else {
      LoopAdvance(x, cc, Groups(a), min, max, greedy);
      AdvanceMeans(a, cc);
    }
  }

  lemma {:induction false} OtherAdvance(r: Re, cc: nat)
    requires WellFormed(r) && !r.Cat? && !r.Capture? && !r.Quant? && CheckAdvance(Emit(r, cc))
    ensures Moves(r)
  {
    hide CheckAdvance, Size;
    var s := Emit(r, cc);
    NothingAdvances();
    if s != [] {
      assert s == [s[0]] + s[1..];
      AdvanceFirst(s[0], s[1..]);
      if |s| == 1 {
        NothingAdvances();
        assert s[1..] == [];
      }
    }
  }
}
