/** Regular expression syntax and the code emitted for it. */
module ReSyntax {
  import opened Basics
  import opened ReCode
  import opened ReClass

  datatype Re =
    | Empty
    | Lit(c: nat)
    | DotAll
    | DotLine
    | Class(points: seq<nat>)
    | Start
    | End
    | Bound(negated: bool)
    | Cat(a: Re, b: Re)
    | Alt(a: Re, b: Re)
    | Capture(a: Re)
    | Quant(a: Re, min: nat, max: nat, greedy: bool)
    | Look(negated: bool, a: Re)

  function Groups(r: Re): nat {
    match r
    case Cat(a, b) => Groups(a) + Groups(b)
    case Alt(a, b) => Groups(a) + Groups(b)
    case Capture(a) => 1 + Groups(a)
    case Quant(a, _, _, _) => Groups(a)
    case Look(_, a) => Groups(a)
    case _ => 0
  }

  /** What the parser accepts: characters and counts in range, classes that can be emitted. */
  predicate WellFormed(r: Re) {
    match r
    case Lit(c) => c < 0x11_0000
    case Class(p) => ClassPoints(p) && ClassInstr(p).Some?
    case Cat(a, b) => WellFormed(a) && WellFormed(b)
    case Alt(a, b) => WellFormed(a) && WellFormed(b)
    case Capture(a) => WellFormed(a)
    case Quant(a, min, max, _) => WellFormed(a) && min <= max <= INT32_MAX
    case Look(_, a) => WellFormed(a)
    case _ => true
  }

  // ----- code -----

  function Size(s: seq<Instr>): nat {
    if s == [] then 0 else InstrSize(s[0]) + Size(s[1..])
  }

  lemma {:induction false} SizeAppend(s: seq<Instr>, t: seq<Instr>)
    ensures Size(s + t) == Size(s) + Size(t)
    decreases |s|
  {
    if s == [] {
      assert s + t == t;
    } else {
      assert (s + t)[1..] == s[1..] + t;
      SizeAppend(s[1..], t);
    }
  }

  lemma {:induction false} SizeOne(i: Instr)
    ensures Size([i]) == InstrSize(i)
  {
    assert [i][1..] == [];
  }

  /** The number of characters a run of simple instructions takes, -1 if there are others. */
  function SimpleCount(s: seq<Instr>): int {
    if s == [] then 0
    else
      var n := SimpleCount(s[1..]);
      if IsCharInstr(s[0]) then (if n < 0 then -1 else 1 + n)
      else if IsAssertion(s[0]) then n
      else -1
  }

  /** Does the code certainly advance? Decided by the first instruction that takes a character or branches. */
  function CheckAdvance(s: seq<Instr>): bool {
    s != [] && (
      if IsCharInstr(s[0]) then true
      else if IsAssertion(s[0]) || s[0].PushI32? || s[0].PushCharPos? || s[0].Drop? || s[0].SaveStart?
          || s[0].SaveEnd? || s[0].SaveReset?
      then CheckAdvance(s[1..])
      else false)
  }

  function Split(greedy: bool, off: int): Instr {
    if greedy then SplitNextFirst(off) else SplitGotoFirst(off)
  }

  /** Unbounded repetition of the atom: split, optional check that the atom advances, atom, jump back. */
  function Star(atom: seq<Instr>, greedy: bool, check: bool): seq<Instr> {
    var len := Size(atom);
    if check then [Split(greedy, len + 6), PushCharPos] + atom + [BneCharPos(-(len + 11))]
    else [Split(greedy, len + 5)] + atom + [Goto(-(len + 10))]
  }

  /** Up to n repetitions, counted on the stack. */
  function UpTo(atom: seq<Instr>, n: nat, greedy: bool): seq<Instr> {
    var len := Size(atom);
    [PushI32(n), Split(greedy, len + 5)] + atom + [Loop(-(len + 10)), Drop]
  }

  /** Exactly n repetitions, n >= 2. */
  function Exactly(atom: seq<Instr>, n: nat): seq<Instr> {
    [PushI32(n)] + atom + [Loop(-(Size(atom) + 5)), Drop]
  }

  function Reset(cc: nat, n: nat): seq<Instr> {
    if n == 0 then [] else [SaveReset(cc, cc + n - 1)]
  }

  /** The simple loop applies: greedy, and the atom is a fixed number of characters. */
  predicate IsSimpleLoop(atom: seq<Instr>, max: nat, greedy: bool) {
    greedy && max > 0 && SimpleCount(atom) > 0
  }

  /** The loop opcode for atoms of a fixed number of characters. */
  function SimpleLoop(atom: seq<Instr>, min: nat, max: nat): seq<Instr>
    requires SimpleCount(atom) >= 0
  {
    [SimpleGreedyQuant(Size(atom) + 1, min, max, SimpleCount(atom))] + atom + [Match]
  }

  /** The loop for any atom, with n captures from index cc on. */
  function GenericLoop(atom: seq<Instr>, cc: nat, n: nat, min: nat, max: nat, greedy: bool): seq<Instr> {
    var check := greedy && !CheckAdvance(atom);
    if min == 0 then
      Reset(cc, n) + ZeroOrMore(atom, max, greedy, check)
    else if min == 1 && max == INT32_MAX && !check then
      atom + [Split(!greedy, -(Size(atom) as int + 5))]
    else
      (if min == 1 then atom else Exactly(atom, min)) + Rest(atom, min, max, greedy, check)
  }

  function QuantCode(atom: seq<Instr>, cc: nat, n: nat, min: nat, max: nat, greedy: bool): seq<Instr> {
    if IsSimpleLoop(atom, max, greedy) then SimpleLoop(atom, min, max) else GenericLoop(atom, cc, n, min, max, greedy)
  }

  function ZeroOrMore(atom: seq<Instr>, max: nat, greedy: bool, check: bool): seq<Instr> {
    if max == 0 then []
    else if max == 1 then [Split(greedy, Size(atom))] + atom
    else if max == INT32_MAX then Star(atom, greedy, check)
    else UpTo(atom, max, greedy)
  }

  /** What follows the first min repetitions. */
  function Rest(atom: seq<Instr>, min: nat, max: nat, greedy: bool, check: bool): seq<Instr> {
    if max == INT32_MAX then Star(atom, greedy, check)
    else if max > min then UpTo(atom, max - min, greedy)
    else []
  }

  function LitInstr(c: nat): Instr {
    if c <= 0xffff then Char(c) else Char32(c)
  }

  /** The code for r when cc capture indices are taken. */
  function Emit(r: Re, cc: nat): seq<Instr>
    requires WellFormed(r)
  {
    match r
    case Empty => []
    case Lit(c) => [LitInstr(c)]
    case DotAll => [Any]
    case DotLine => [Dot]
    case Class(p) => [ClassInstr(p).value]
    case Start => [LineStart]
    case End => [LineEnd]
    case Bound(negated) => [if negated then NotWordBoundary else WordBoundary]
    case Cat(a, b) => Emit(a, cc) + Emit(b, cc + Groups(a))
    case Alt(a, b) => AltCode(Emit(a, cc), Emit(b, cc + Groups(a)))
    case Capture(a) => [SaveStart(cc)] + Emit(a, cc + 1) + [SaveEnd(cc)]
    case Quant(a, min, max, greedy) => QuantCode(Emit(a, cc), cc, Groups(a), min, max, greedy)
    case Look(negated, a) => LookCode(negated, Emit(a, cc))
  }

  function AltCode(x: seq<Instr>, y: seq<Instr>): seq<Instr> {
    [SplitNextFirst(Size(x) + 5)] + x + [Goto(Size(y))] + y
  }

  function LookCode(negated: bool, x: seq<Instr>): seq<Instr> {
    [if negated then NegativeLookahead(Size(x) + 1) else Lookahead(Size(x) + 1)] + x + [Match]
  }

  /** Try every start position, unless sticky. */
  function Prelude(sticky: bool): seq<Instr> {
    if sticky then [] else [SplitGotoFirst(6), Any, Goto(-11)]
  }

  function Program(r: Re, sticky: bool): seq<Instr>
    requires WellFormed(r)
  {
    Prelude(sticky) + [SaveStart(0)] + Emit(r, 1) + [SaveEnd(0), Match]
  }

  // ----- one level of Emit -----

  lemma EmitCat(a: Re, b: Re, cc: nat)
    requires WellFormed(Cat(a, b))
    ensures WellFormed(a) && WellFormed(b) && Groups(Cat(a, b)) == Groups(a) + Groups(b)
    ensures Emit(Cat(a, b), cc) == Emit(a, cc) + Emit(b, cc + Groups(a))
  {
  }

  lemma EmitAlt(a: Re, b: Re, cc: nat)
    requires WellFormed(Alt(a, b))
    ensures WellFormed(a) && WellFormed(b) && Groups(Alt(a, b)) == Groups(a) + Groups(b)
    ensures Emit(Alt(a, b), cc) == AltCode(Emit(a, cc), Emit(b, cc + Groups(a)))
  {
    hide AltCode;
  }

  lemma EmitCapture(a: Re, cc: nat)
    requires WellFormed(Capture(a))
    ensures WellFormed(a) && Groups(Capture(a)) == 1 + Groups(a)
    ensures Emit(Capture(a), cc) == [SaveStart(cc)] + Emit(a, cc + 1) + [SaveEnd(cc)]
  {
  }

  lemma EmitQuant(a: Re, min: nat, max: nat, greedy: bool, cc: nat)
    requires WellFormed(Quant(a, min, max, greedy))
    ensures WellFormed(a) && min <= max <= INT32_MAX && Groups(Quant(a, min, max, greedy)) == Groups(a)
    ensures Emit(Quant(a, min, max, greedy), cc) == QuantCode(Emit(a, cc), cc, Groups(a), min, max, greedy)
  {
    hide QuantCode;
  }

  lemma EmitLook(negated: bool, a: Re, cc: nat)
    requires WellFormed(Look(negated, a))
    ensures WellFormed(a) && Groups(Look(negated, a)) == Groups(a)
    ensures Emit(Look(negated, a), cc) == LookCode(negated, Emit(a, cc))
  {
    hide LookCode;
  }

  /** Expressions whose code is one instruction, a character or an assertion. */
  predicate IsLeaf(r: Re) {
    r.Lit? || r.DotAll? || r.DotLine? || r.Class? || r.Start? || r.End? || r.Bound?
  }

  lemma EmitLeaf(r: Re, cc: nat)
    requires WellFormed(r) && IsLeaf(r)
    ensures |Emit(r, cc)| == 1 && (IsCharInstr(Emit(r, cc)[0]) || IsAssertion(Emit(r, cc)[0]))
    ensures ValidInstr(Emit(r, cc)[0])
  {
    hide ClassPoints, ValidPairs;
    if r.Class? {
      ClassExact(r.points, ClassInstr(r.points).value, 0);
    }
  }

  // ----- bytes -----

  predicate AllValid(s: seq<Instr>) {
    forall k | 0 <= k < |s| :: ValidInstr(s[k])
  }

  function EncodeAll(s: seq<Instr>): (b: seq<Byte>)
    requires AllValid(s)
    ensures |b| == Size(s)
  {
    if s == [] then [] else Encode(s[0]) + EncodeAll(s[1..])
  }

  lemma {:induction false} EncodeAppend(s: seq<Instr>, t: seq<Instr>)
    requires AllValid(s) && AllValid(t)
    ensures AllValid(s + t) && EncodeAll(s + t) == EncodeAll(s) + EncodeAll(t)
    decreases |s|
  {
    hide Encode, ValidInstr;
    if s == [] {
      assert s + t == t;
    } else {
      assert (s + t)[1..] == s[1..] + t;
      EncodeAppend(s[1..], t);
    }
  }

  /** The instructions s stand at byte position pc. */
  ghost predicate CodeAt(code: seq<Byte>, pc: nat, s: seq<Instr>) {
    AllValid(s) && Has(code, pc, EncodeAll(s))
  }

  lemma {:induction false} CodeSplit(code: seq<Byte>, pc: nat, s: seq<Instr>, t: seq<Instr>)
    ensures CodeAt(code, pc, s + t) <==> CodeAt(code, pc, s) && CodeAt(code, pc + Size(s), t)
  {
    hide Encode, ValidInstr, Has, EncodeAll;
    if AllValid(s) && AllValid(t) {
      EncodeAppend(s, t);
      HasSplit(code, pc, EncodeAll(s), EncodeAll(t));
    } else {
      assert AllValid(s + t) ==> AllValid(s) && AllValid(t) by {
        assert forall k | 0 <= k < |s| :: (s + t)[k] == s[k];
        assert forall k | 0 <= k < |t| :: (s + t)[|s| + k] == t[k];
      }
    }
  }

  /** The first instruction of a piece of code is the one fetched. */
  lemma {:induction false} CodeHead(code: seq<Byte>, pc: nat, i: Instr, t: seq<Instr>)
    requires CodeAt(code, pc, [i] + t)
    ensures Fetch(code, pc) == Some(i) && CodeAt(code, pc + InstrSize(i), t)
  {
    hide Encode, ValidInstr, Has, Fetch;
    CodeSplit(code, pc, [i], t);
    SizeOne(i);
    assert [i][0] == i && ValidInstr(i);
    assert [i][1..] == [];
    assert EncodeAll([i]) == Encode(i) + EncodeAll([]) && Encode(i) + [] == Encode(i);
    FetchEncoded(code, pc, i);
  }
}
