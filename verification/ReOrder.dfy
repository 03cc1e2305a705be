/** Which match comes first: of two branches the first, of a greedy loop the longest, of a lazy one the shortest. */
module ReOrder {
  import opened ReText
  import opened ReSyntax
  import opened ReSpec
  import opened ReLanguage
  import opened ReDiffers

  /** Every end is before the ones in front of it. */
  predicate Falling(outs: seq<Out>) {
    forall i, j | 0 <= i < j < |outs| :: outs[i].pos > outs[j].pos
  }

  predicate Rising(outs: seq<Out>) {
    forall i, j | 0 <= i < j < |outs| :: outs[i].pos < outs[j].pos
  }

  predicate Sorted(outs: seq<Out>, greedy: bool) {
    if greedy then Falling(outs) else Rising(outs)
  }

  lemma {:induction false} SortedOrder(greedy: bool, more: seq<Out>, o: Out, hi: nat, n: nat)
    requires Sorted(more, greedy) && Within(more, o.pos + 1, hi, n)
    ensures Sorted(Order(greedy, more, o), greedy)
  {
  }

  lemma {:induction false} IterateOne(x: Re, cc: nat, t: Text, q: Out, min: nat, max: nat, greedy: bool, rd: Reading,
      halt: bool, lo: nat, n: nat)
    requires Within([q], lo, |t.input|, n) && lo <= |t.input| && (halt ==> q.pos != lo)
    ensures q.pos <= |t.input|
    ensures Iterate(x, cc, t, [q], min, max, greedy, rd, halt, lo, n) == Repeat(x, cc, t, q, min, max, greedy, rd)
  {
    hide Repeat;
    assert [q][0].pos <= |t.input| && [q][1..] == [];
    var r := Repeat(x, cc, t, q, min, max, greedy, rd);
    assert r + [] == r;
  }

  lemma {:induction false} IterateNone(x: Re, cc: nat, t: Text, min: nat, max: nat, greedy: bool, rd: Reading,
      halt: bool, lo: nat, n: nat)
    requires lo <= |t.input|
    ensures Iterate(x, cc, t, [], min, max, greedy, rd, halt, lo, n) == []
  {
  }

  /** The character at o, if the expression takes it. */
  function Taken(x: Re, t: Text, o: Out): seq<Out>
    requires OneChar(x) && o.pos <= |t.input|
  {
    if o.pos < |t.input| && Accepts(x, t.input[o.pos]) then [o.(pos := o.pos + 1)] else []
  }

  /** Repetitions of one character, in order. */
  lemma {:induction false} RepeatSorted(x: Re, cc: nat, t: Text, o: Out, min: nat, max: nat, greedy: bool, rd: Reading)
    requires OneChar(x) && o.pos <= |t.input|
    ensures Sorted(Repeat(x, cc, t, o, min, max, greedy, rd), greedy)
    decreases |t.input| - o.pos
  {
    hide Matches, Iterate, Order, Sorted, Advanced, Accepts;
    if max == 0 {
      SortedFew(o, greedy);
      return;
    }
    var once, n := Taken(x, t, o), |o.caps|;
    MatchesOne(x, cc, t, o, rd);
    assert Groups(x) == 0;
    SortedFew(o, greedy);
    if once == [] {
      OnceNone(x, cc, t, o, min, max, greedy, rd);
    } else {
      OnceOne(x, cc, t, o, min, max, greedy, rd);
      var q := o.(pos := o.pos + 1);
      RepeatSorted(x, cc, t, q, if min > 0 then min - 1 else 0, Less(max), greedy, rd);
      if min == 0 {
        SortedOrder(greedy, Repeat(x, cc, t, q, 0, Less(max), greedy, rd), o, |t.input|, n);
      }
    }
  }

  lemma {:induction false} SortedFew(o: Out, greedy: bool)
    ensures Sorted([], greedy) && Sorted([o], greedy)
  {
  }

  /** Nothing taken: no match if an iteration is required, else only that of none. */
  lemma {:induction false} OnceNone(x: Re, cc: nat, t: Text, o: Out, min: nat, max: nat, greedy: bool, rd: Reading)
    requires OneChar(x) && o.pos <= |t.input| && max > 0 && Taken(x, t, o) == []
    ensures Repeat(x, cc, t, o, min, max, greedy, rd) == if min > 0 then [] else [o]
  {
    hide Matches, Iterate, Accepts;
    MatchesOne(x, cc, t, o, rd);
    assert Groups(x) == 0;
    var n := |o.caps|;
    assert Advanced([], o.pos) == [];
    IterateNone(x, cc, t, if min > 0 then min - 1 else 0, Less(max), greedy, rd, false, o.pos, n);
    IterateNone(x, cc, t, 0, max, greedy, rd, true, o.pos, n);
    if o.pos < |t.input| {
      IterateNone(x, cc, t, 0, Less(max), greedy, rd, false, o.pos + 1, n);
    }
  }

  lemma {:induction false} AdvancedOne(q: Out, p: nat)
    requires q.pos > p
    ensures Advanced([q], p) == [q]
  {
    assert [q][1..] == [];
  }

  /** One taken: the rest of the repetition from behind it, and if it may be left out, that. */
  lemma {:induction false} OnceOne(x: Re, cc: nat, t: Text, o: Out, min: nat, max: nat, greedy: bool, rd: Reading)
    requires OneChar(x) && o.pos <= |t.input| && max > 0 && Taken(x, t, o) != []
    ensures var q := o.(pos := o.pos + 1);
      && q.pos <= |t.input|
      && Repeat(x, cc, t, o, min, max, greedy, rd) ==
           if min > 0 then Repeat(x, cc, t, q, min - 1, Less(max), greedy, rd)
           else Order(greedy, Repeat(x, cc, t, q, 0, Less(max), greedy, rd), o)
  {
    hide Matches, Iterate, Order, Accepts;
    MatchesOne(x, cc, t, o, rd);
    assert Groups(x) == 0;
    var q, n := o.(pos := o.pos + 1), |o.caps|;
    AdvancedOne(q, o.pos);
    hide Advanced, ClearCaps;
    IterateOne(x, cc, t, q, if min > 0 then min - 1 else 0, Less(max), greedy, rd, false, o.pos, n);
    IterateOne(x, cc, t, q, 0, max, greedy, rd, true, o.pos, n);
    IterateOne(x, cc, t, q, 0, Less(max), greedy, rd, false, o.pos + 1, n);
  }

  /**
   A loop over one character, of any bounds: the first match of the greedy one ends as far right, that of
   the lazy one as far left as any described stretch.
   */
  lemma {:induction false} LoopPrefers(
      x: Re, min: nat, max: nat, greedy: bool, cc: nat, t: Text, o: Out, rd: Reading, j: nat)
    requires OneChar(x) && WellFormed(Quant(x, min, max, greedy)) && o.pos <= |t.input|
    requires Spans(Quant(x, min, max, greedy), t, o.pos, j)
    ensures var outs := Matches(Quant(x, min, max, greedy), cc, t, o, rd);
      outs != [] && if greedy then j <= outs[0].pos else outs[0].pos <= j
  {
    hide Matches, Repeat, Spans, WellFormed;
    var r := Quant(x, min, max, greedy);
    var outs := Matches(r, cc, t, o, rd);
    MatchesSpan(r, cc, t, o, rd);
    assert EndsAt(outs, j);
    MatchesQuant(x, min, max, greedy, cc, t, o, rd);
    assert Groups(x) == 0;
    RepeatSorted(x, cc, t, o, min, max, greedy, rd);
  }

  /** The first branch goes first, the second only where it has no match. */
  lemma {:induction false} ChoicePrefers(a: Re, b: Re, cc: nat, t: Text, o: Out, rd: Reading)
    requires WellFormed(Alt(a, b)) && o.pos <= |t.input|
    ensures var outs := Matches(Alt(a, b), cc, t, o, rd);
      var x, y := Matches(a, cc, t, o, rd), Matches(b, cc + Groups(a), t, o, rd);
      && ((exists j: nat :: Spans(a, t, o.pos, j)) ==> x != [] && outs != [] && outs[0] == x[0])
      && (!(exists j: nat :: Spans(a, t, o.pos, j)) ==> outs == y)
  {
    hide Matches, Spans, Groups;
    MatchesAlt(a, b, cc, t, o, rd);
    MatchesSpan(a, cc, t, o, rd);
    var x := Matches(a, cc, t, o, rd);
    if j: nat :| Spans(a, t, o.pos, j) {
      assert EndsAt(x, j);
    } else {
      if x != [] {
        assert EndsAt(x, x[0].pos);
      }
    }
  }
}
