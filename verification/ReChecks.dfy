/** What the compiler's checks on emitted code are worth. */
module ReChecks {
  import opened ReCode
  import opened ReSyntax
  import opened ReMoves
  import opened ReVm
  import opened ReSpec
  import opened ReYields
  import opened ReMeaning
  import opened ReSimple
  import opened ReCorrect

  /**
   For an atom that takes a fixed number of characters, the loop opcode and the generic
   greedy loop offer the continuation the same ends in the same order.
   */
  lemma {:induction false} OpcodeRefinesLoop(env: Env, pc: nat, env': Env, pc': nat, a: Re, cc: nat, o: Out, min: nat,
      max: nat, stack: seq<int>, base: seq<Frame>) returns (outs: seq<Out>)
    requires WellFormed(a) && SimpleCount(Code(a, cc)) > 0 && min <= max <= INT32_MAX && max > 0
    requires CodeAt(env.code, pc, SimpleLoop(Code(a, cc), min, max))
    requires CodeAt(env'.code, pc', GenericLoop(Code(a, cc), cc, Groups(a), min, max, true))
    requires env.text == env'.text && TextOk(env.text) && o.pos <= |env.text.input| && 2 * (cc + Groups(a)) <= |o.caps|
    ensures Yields(env, At(pc, o, stack, base), base, pc + Size(SimpleLoop(Code(a, cc), min, max)), stack, outs)
    ensures Yields(env', At(pc', o, stack, base), base,
        pc' + Size(GenericLoop(Code(a, cc), cc, Groups(a), min, max, true)), stack, outs)
  {
    hide Yields, CodeAt, Code, Size, SimpleCount, Moves, Outs, RepeatOuts, GenericLoop, SimpleLoop, WellFormed,
      TextOk, LazyLoopsMove;
    SimpleShape(a, cc);
    SimpleLoopCode(env, pc, Code(a, cc), min, max);
    SimpleLoopYields(env, pc, a, cc, o, min, max, stack, base);
    GenericCorrect(env', pc', a, cc, o, min, max, true, stack);
    QuantMeans(env', a, cc, o, min, max, true);
    outs := RepeatOuts(env, a, cc, o, min, max, true);
    SameText(env, env', a, cc, o, min, max);
  }

  lemma SameText(env: Env, env': Env, a: Re, cc: nat, o: Out, min: nat, max: nat)
    requires env.text == env'.text
    ensures RepeatOuts(env, a, cc, o, min, max, true) == RepeatOuts(env', a, cc, o, min, max, true)
  {
    hide Repeat;
  }

  /** Code that passes the check takes at least one character on every match. */
  lemma {:induction false} AdvanceSound(env: Env, r: Re, cc: nat, o: Out)
    requires WellFormed(r) && CheckAdvance(Emit(r, cc))
    ensures AllPast(Outs(env, r, cc, o), o.pos)
  {
    hide CheckAdvance, Emit, WellFormed, Moves, Outs;
    AdvanceMeans(r, cc);
    MovesOn(env, r, cc, o);
  }
}
