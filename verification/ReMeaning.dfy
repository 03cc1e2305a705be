/** What an expression means from a position in a text, as written, level by level. */
module ReMeaning {
  import opened Basics
  import opened ReCode
  import opened ReClass
  import opened ReText
  import opened ReSyntax
  import opened ReMoves
  import opened ReVm
  import opened ReSpec
  import opened CharRange

  /** Characters are Unicode code points. */
  predicate TextOk(t: Text) {
    forall i | 0 <= i < |t.input| :: t.input[i] < 0x11_0000
  }

  lemma {:induction false} LeafMeans(env: Env, r: Re, cc: nat, o: Out)
    requires WellFormed(r) && IsLeaf(r) && o.pos <= |env.text.input| && TextOk(env.text)
    ensures |Emit(r, cc)| == 1
    ensures var i := Emit(r, cc)[0];
        (IsCharInstr(i) || IsAssertion(i)) && SimpleOuts(env, i, o) == Matches(r, cc, env.text, o, AsWritten)
  {
    hide InSet, Accepts16, InPairs, ClassInstr, AtLineStart, AtLineEnd, AtWordBoundary, ClassPoints;
    if r.Class? {
      var i := ClassInstr(r.points).value;
      if o.pos < |env.text.input| {
        ClassExact(r.points, i, env.text.input[o.pos]);
        ClassKind(r.points);
      } else {
        ClassKind(r.points);
      }
    }
  }

  lemma ClassKind(p: seq<nat>)
    requires ClassInstr(p).Some?
    ensures var i := ClassInstr(p).value; i.Char32? || i.Range? || i.Range32?
  {
  }

  function SimpleOuts(env: Env, i: Instr, o: Out): seq<Out> {
    match Simple(env, i, o.pos)
    case None => []
    case Some(p) => [o.(pos := p)]
  }

  // ----- total functions -----

  /** The code of an expression, as a total function. */
  ghost function Code(r: Re, cc: nat): seq<Instr> {
    if WellFormed(r) then Emit(r, cc) else []
  }

  ghost function Len(r: Re, cc: nat): nat {
    Size(Code(r, cc))
  }

  /** The matches of an expression, as a total function. */
  ghost function Outs(env: Env, r: Re, cc: nat, o: Out): seq<Out> {
    if o.pos <= |env.text.input| then Matches(r, cc, env.text, o, AsWritten) else []
  }

  lemma OutsWithin(env: Env, r: Re, cc: nat, o: Out)
    ensures Within(Outs(env, r, cc, o), o.pos, |env.text.input|, |o.caps|)
  {
    hide Matches;
  }

  /** What the loop body needs, wherever its code stands. */
  ghost predicate Body(env: Env, a: Re, cc: nat, o: Out) {
    && WellFormed(a) && LazyLoopsMove(a) && TextOk(env.text) && o.pos <= |env.text.input|
    && 2 * (cc + Groups(a)) <= |o.caps|
  }

  // ----- one level -----

  ghost function ThenOuts(env: Env, b: Re, cc: nat, outs: seq<Out>): seq<Out> {
    if outs == [] then [] else Outs(env, b, cc, outs[0]) + ThenOuts(env, b, cc, outs[1..])
  }

  lemma {:induction false} ThenIs(env: Env, b: Re, cc: nat, outs: seq<Out>, lo: nat, n: nat)
    requires Within(outs, lo, |env.text.input|, n)
    ensures Then(b, cc, env.text, outs, AsWritten, lo, n) == ThenOuts(env, b, cc, outs)
    decreases |outs|
  {
    hide Matches;
    if outs != [] {
      ThenIs(env, b, cc, outs[1..], lo, n);
    }
  }

  lemma CatMeans(env: Env, a: Re, b: Re, cc: nat, o: Out)
    requires o.pos <= |env.text.input|
    ensures Outs(env, Cat(a, b), cc, o) == ThenOuts(env, b, cc + Groups(a), Outs(env, a, cc, o))
  {
    hide ThenOuts, Then, Matches;
    MatchesCat(a, b, cc, env.text, o, AsWritten);
    ThenIs(env, b, cc + Groups(a), Matches(a, cc, env.text, o, AsWritten), o.pos, |o.caps|);
  }

  lemma AltMeans(env: Env, a: Re, b: Re, cc: nat, o: Out)
    requires o.pos <= |env.text.input|
    ensures Outs(env, Alt(a, b), cc, o) == Outs(env, a, cc, o) + Outs(env, b, cc + Groups(a), o)
  {
    hide Matches;
    MatchesAlt(a, b, cc, env.text, o, AsWritten);
  }

  lemma CaptureMeans(env: Env, a: Re, cc: nat, o: Out)
    requires o.pos <= |env.text.input|
    ensures Outs(env, Capture(a), cc, o) == SetAll(Outs(env, a, cc + 1, SetCap(o, 2 * cc)), 2 * cc + 1)
  {
    hide Matches, SetAll;
    MatchesCapture(a, cc, env.text, o, AsWritten);
  }

  /** What a lookahead yields, given the outcomes of its body. */
  function LookOuts(negated: bool, o: Out, m: seq<Out>): seq<Out> {
    if negated then (if m == [] then [o] else []) else if m == [] then [] else [Out(o.pos, m[0].caps)]
  }

  lemma LookMeans(env: Env, negated: bool, a: Re, cc: nat, o: Out)
    requires o.pos <= |env.text.input|
    ensures Outs(env, Look(negated, a), cc, o) == LookOuts(negated, o, Outs(env, a, cc, o))
  {
    hide Matches;
    MatchesLook(negated, a, cc, env.text, o, AsWritten);
  }

  // ----- repetition -----

  ghost function RepeatOuts(env: Env, a: Re, cc: nat, o: Out, min: nat, max: nat, greedy: bool): seq<Out> {
    if o.pos <= |env.text.input| then Repeat(a, cc, env.text, o, min, max, greedy, AsWritten) else []
  }

  /** What follows an outcome of the body: nothing more if it is at p, otherwise further iterations. */
  ghost function NextOuts(env: Env, a: Re, cc: nat, o: Out, min: nat, max: nat, greedy: bool, p: int): seq<Out> {
    if o.pos == p then [o] else RepeatOuts(env, a, cc, o, min, max, greedy)
  }

  ghost function IterOuts(env: Env, a: Re, cc: nat, outs: seq<Out>, min: nat, max: nat, greedy: bool,
      p: int): seq<Out> {
    if outs == [] then []
    else NextOuts(env, a, cc, outs[0], min, max, greedy, p) + IterOuts(env, a, cc, outs[1..], min, max, greedy, p)
  }

  lemma {:induction false} IterateIs(env: Env, a: Re, cc: nat, outs: seq<Out>, min: nat, max: nat, greedy: bool,
      halt: bool, lo: nat, n: nat)
    requires Within(outs, lo, |env.text.input|, n) && lo <= |env.text.input|
    ensures Iterate(a, cc, env.text, outs, min, max, greedy, AsWritten, halt, lo, n)
         == IterOuts(env, a, cc, outs, min, max, greedy, if halt then lo else -1)
    decreases |outs|
  {
    hide Repeat;
    if outs != [] {
      IterateIs(env, a, cc, outs[1..], min, max, greedy, halt, lo, n);
    }
  }

  /** Outcomes that all moved do not end the loop. */
  lemma {:induction false} IterPastStart(env: Env, a: Re, cc: nat, outs: seq<Out>, min: nat, max: nat, greedy: bool,
      p: nat)
    requires AllPast(outs, p)
    ensures IterOuts(env, a, cc, outs, min, max, greedy, p) == IterOuts(env, a, cc, outs, min, max, greedy, -1)
    decreases |outs|
  {
    hide RepeatOuts;
    if outs != [] {
      assert AllPast(outs[1..], p);
      IterPastStart(env, a, cc, outs[1..], min, max, greedy, p);
    }
  }

  /** All positions past p. */
  ghost predicate AllPast(outs: seq<Out>, p: nat) {
    forall i | 0 <= i < |outs| :: outs[i].pos > p
  }

  lemma {:induction false} AdvancedAll(outs: seq<Out>, p: nat)
    requires AllPast(outs, p)
    ensures Advanced(outs, p) == outs
    decreases |outs|
  {
    hide Advanced;
    if outs == [] {
      AdvancedNone(p);
    } else {
      AdvancedFirst(outs, p);
      AdvancedAll(outs[1..], p);
      assert outs == [outs[0]] + outs[1..];
    }
  }

  lemma {:induction false} AdvancedNone(p: nat)
    ensures Advanced([], p) == []
  {
  }

  lemma {:induction false} AdvancedFirst(outs: seq<Out>, p: nat)
    requires outs != [] && outs[0].pos > p
    ensures Advanced(outs, p) == [outs[0]] + Advanced(outs[1..], p)
  {
  }

  lemma RepeatNone(env: Env, a: Re, cc: nat, o: Out, min: nat, greedy: bool)
    requires o.pos <= |env.text.input|
    ensures RepeatOuts(env, a, cc, o, min, 0, greedy) == [o]
  {
  }

  lemma {:induction false} RepeatMust(env: Env, a: Re, cc: nat, o: Out, min: nat, max: nat, greedy: bool)
    requires o.pos <= |env.text.input| && min > 0 && max > 0
    ensures RepeatOuts(env, a, cc, o, min, max, greedy)
         == IterOuts(env, a, cc, Outs(env, a, cc, o), min - 1, Less(max), greedy, -1)
  {
    hide Matches, IterOuts, Iterate;
    IterateIs(env, a, cc, Outs(env, a, cc, o), min - 1, Less(max), greedy, false, o.pos, |o.caps|);
  }

  /** Counted iterations just count. */
  lemma {:induction false} RepeatCounted(env: Env, a: Re, cc: nat, o: Out, max: nat, greedy: bool)
    requires o.pos <= |env.text.input| && 0 < max && max != INT32_MAX
    ensures RepeatOuts(env, a, cc, o, 0, max, greedy)
         == Order(greedy, IterOuts(env, a, cc, Outs(env, a, cc, o), 0, max - 1, greedy, -1), o)
  {
    hide Matches, IterOuts, Iterate, Order;
    IterateIs(env, a, cc, Outs(env, a, cc, o), 0, max - 1, greedy, false, o.pos, |o.caps|);
  }

  /** An iteration of a greedy unbounded loop that takes nothing ends the loop. */
  lemma {:induction false} RepeatStar(env: Env, a: Re, cc: nat, o: Out)
    requires o.pos <= |env.text.input|
    ensures RepeatOuts(env, a, cc, o, 0, INT32_MAX, true)
         == Order(true, IterOuts(env, a, cc, Outs(env, a, cc, o), 0, INT32_MAX, true, o.pos), o)
  {
    hide Matches, IterOuts, Iterate, Order;
    IterateIs(env, a, cc, Outs(env, a, cc, o), 0, INT32_MAX, true, true, o.pos, |o.caps|);
  }

  lemma {:induction false} RepeatLazy(env: Env, a: Re, cc: nat, o: Out)
    requires o.pos <= |env.text.input| && Moves(a)
    ensures RepeatOuts(env, a, cc, o, 0, INT32_MAX, false)
         == Order(false, IterOuts(env, a, cc, Outs(env, a, cc, o), 0, INT32_MAX, false, -1), o)
  {
    hide Matches, IterOuts, Moves, Advanced, Iterate;
    var once := Outs(env, a, cc, o);
    MovesOn(env, a, cc, o);
    OutsWithin(env, a, cc, o);
    AdvancedAll(once, o.pos);
    if o.pos == |env.text.input| {
      NonePast(once, o.pos, |env.text.input|, |o.caps|);
      IterNone(env, a, cc, INT32_MAX, false);
    } else {
      AdvancedWithin(once, o.pos, o.pos, |env.text.input|, |o.caps|);
      IterateIs(env, a, cc, once, 0, INT32_MAX, false, false, o.pos + 1, |o.caps|);
    }
  }

  /** Optional iterations of a loop that is counted or takes characters. */
  lemma {:induction false} RepeatMay(env: Env, a: Re, cc: nat, o: Out, max: nat, greedy: bool)
    requires o.pos <= |env.text.input| && max > 0 && (max == INT32_MAX ==> Moves(a))
    ensures RepeatOuts(env, a, cc, o, 0, max, greedy)
         == Order(greedy, IterOuts(env, a, cc, Outs(env, a, cc, o), 0, Less(max), greedy, -1), o)
  {
    hide Outs, RepeatOuts, IterOuts, Moves, Order;
    if max != INT32_MAX {
      RepeatCounted(env, a, cc, o, max, greedy);
    } else if greedy {
      RepeatStar(env, a, cc, o);
      MovesOn(env, a, cc, o);
      IterPastStart(env, a, cc, Outs(env, a, cc, o), 0, max, greedy, o.pos);
    } else {
      RepeatLazy(env, a, cc, o);
    }
  }

  lemma NonePast(outs: seq<Out>, lo: nat, hi: nat, n: nat)
    requires Within(outs, lo, hi, n) && AllPast(outs, hi)
    ensures outs == []
  {
    if outs != [] {
      FirstPast(outs, lo, hi, n, hi);
    }
  }

  lemma FirstPast(outs: seq<Out>, lo: nat, hi: nat, n: nat, p: nat)
    requires outs != [] && Within(outs, lo, hi, n) && AllPast(outs, p)
    ensures p < outs[0].pos <= hi
  {
  }

  lemma IterNone(env: Env, a: Re, cc: nat, max: nat, greedy: bool)
    ensures IterOuts(env, a, cc, [], 0, max, greedy, -1) == []
  {
  }

  lemma QuantMeans(env: Env, a: Re, cc: nat, o: Out, min: nat, max: nat, greedy: bool)
    ensures Outs(env, Quant(a, min, max, greedy), cc, o)
         == RepeatOuts(env, a, cc, if min == 0 then ClearCaps(o, cc, Groups(a)) else o, min, max, greedy)
  {
    hide Matches, Repeat;
    if o.pos <= |env.text.input| {
      MatchesQuant(a, min, max, greedy, cc, env.text, o, AsWritten);
    }
  }

  // ----- expressions that take characters -----

  lemma {:induction false} ThenPast(env: Env, b: Re, cc: nat, outs: seq<Out>, p: nat)
    requires (AllPast(outs, p)) || (Moves(b) && forall i | 0 <= i < |outs| :: outs[i].pos >= p)
    ensures AllPast(ThenOuts(env, b, cc, outs), p)
    decreases b, 1, |outs|
  {
    hide Outs, Moves;
    if outs != [] {
      OutsWithin(env, b, cc, outs[0]);
      if Moves(b) {
        MovesOn(env, b, cc, outs[0]);
      }
      assert forall i | 0 <= i < |outs[1..]| :: outs[1..][i] == outs[i + 1];
      ThenPast(env, b, cc, outs[1..], p);
    }
  }

  lemma {:induction false} IterPast(env: Env, a: Re, cc: nat, outs: seq<Out>, min: nat, max: nat, greedy: bool, p: nat)
    requires AllPast(outs, p)
    ensures AllPast(IterOuts(env, a, cc, outs, min, max, greedy, -1), p)
    decreases |outs|
  {
    hide Repeat;
    if outs != [] {
      assert forall i | 0 <= i < |outs[1..]| :: outs[1..][i] == outs[i + 1];
      IterPast(env, a, cc, outs[1..], min, max, greedy, p);
    }
  }

  /** Every match of an expression that takes characters ends past its start. */
  lemma {:induction false} MovesOn(env: Env, r: Re, cc: nat, o: Out)
    requires Moves(r)
    ensures AllPast(Outs(env, r, cc, o), o.pos)
    decreases r, 0, 0
  {
    if o.pos <= |env.text.input| {
      match r {
        case Cat(a, b) => {
          CatMeans(env, a, b, cc, o);
          OutsWithin(env, a, cc, o);
          if Moves(a) {
            MovesOn(env, a, cc, o);
          }
          ThenPast(env, b, cc + Groups(a), Outs(env, a, cc, o), o.pos);
        }
        case Alt(a, b) => {
          AltMeans(env, a, b, cc, o);
          MovesOn(env, a, cc, o);
          MovesOn(env, b, cc + Groups(a), o);
        }
        case Capture(a) => {
          CaptureMeans(env, a, cc, o);
          MovesOn(env, a, cc + 1, SetCap(o, 2 * cc));
        }
        case Quant(a, min, max, greedy) => {
          MovesOn(env, a, cc, o);
          QuantMeans(env, a, cc, o, min, max, greedy);
          RepeatMust(env, a, cc, o, min, max, greedy);
          IterPast(env, a, cc, Outs(env, a, cc, o), min - 1, Less(max), greedy, o.pos);
        }
        case _ =>
      }
    }
  }

  lemma QuantCodeIs(a: Re, cc: nat, min: nat, max: nat, greedy: bool)
    requires WellFormed(Quant(a, min, max, greedy))
    ensures WellFormed(a) && min <= max <= INT32_MAX
    ensures Code(Quant(a, min, max, greedy), cc) == QuantCode(Code(a, cc), cc, Groups(a), min, max, greedy)
  {
    hide QuantCode;
  }
}
