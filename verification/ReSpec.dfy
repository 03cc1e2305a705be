/**
 What a regular expression means: the ends of all its matches from a position, in the order
 in which ordered choice and backtracking would try them.
 */
module ReSpec {
  import opened Basics
  import opened ReCode
  import opened ReText
  import opened ReSyntax
  import opened CharRange

  datatype Out = Out(pos: nat, caps: Captures)

  /** Positions in [lo, hi], captures of length n. */
  predicate Within(outs: seq<Out>, lo: nat, hi: nat, n: nat) {
    forall i | 0 <= i < |outs| :: lo <= outs[i].pos <= hi && |outs[i].caps| == n
  }

  /** The character at the position, taken if it is accepted. */
  function One(t: Text, o: Out, accepted: bool): (outs: seq<Out>)
    requires o.pos <= |t.input| && (accepted ==> o.pos < |t.input|)
    ensures Within(outs, o.pos, |t.input|, |o.caps|)
  {
    if accepted then [o.(pos := o.pos + 1)] else []
  }

  function If(o: Out, holds: bool): (outs: seq<Out>)
    ensures Within(outs, o.pos, o.pos, |o.caps|)
  {
    if holds then [o] else []
  }

  function SetCap(o: Out, i: nat): (r: Out)
    ensures r.pos == o.pos && |r.caps| == |o.caps|
  {
    if i < |o.caps| then o.(caps := o.caps[i := Some(o.pos)]) else o
  }

  function SetAll(outs: seq<Out>, i: nat): (r: seq<Out>)
    ensures |r| == |outs|
    ensures forall k | 0 <= k < |r| :: r[k] == SetCap(outs[k], i)
  {
    seq(|outs|, k requires 0 <= k < |outs| => SetCap(outs[k], i))
  }

  function ClearCaps(o: Out, cc: nat, n: nat): (r: Out)
    ensures r.pos == o.pos && |r.caps| == |o.caps|
  {
    if n == 0 then o else o.(caps := ResetCaps(o.caps, cc, cc + n - 1))
  }

  /** Those that moved past p. */
  function Advanced(outs: seq<Out>, p: nat): (r: seq<Out>)
    ensures forall k | 0 <= k < |r| :: r[k] in outs && r[k].pos > p
  {
    if outs == [] then []
    else (if outs[0].pos > p then [outs[0]] else []) + Advanced(outs[1..], p)
  }

  lemma {:induction false} AdvancedWithin(outs: seq<Out>, p: nat, lo: nat, hi: nat, n: nat)
    requires Within(outs, lo, hi, n)
    ensures Within(Advanced(outs, p), p + 1, hi, n)
  {
    var r := Advanced(outs, p);
    forall k | 0 <= k < |r|
      ensures p + 1 <= r[k].pos <= hi && |r[k].caps| == n
    {
      var j :| 0 <= j < |outs| && outs[j] == r[k];
    }
  }

  /**
   How loops are read.
   AsWritten: what the compiled code does. Captures inside a loop are cleared once, before a
   loop that may be skipped. Counted iterations just count. An optional iteration of a greedy
   unbounded loop that takes nothing ends the loop with its outcome. (In a lazy unbounded loop
   it is left out here; the machine goes round for ever in those.)
   Pruned: the same, but an optional iteration that takes nothing is no match.
   Ecma: the reading of section 22.2.2 of ECMA-262. Like Pruned, but captures inside a loop are
   cleared before every iteration and not before the loop.
   */
  datatype Reading = AsWritten | Pruned | Ecma

  /** All ends of matches of r from o, in order of preference, when cc capture indices are taken. */
  function Matches(r: Re, cc: nat, t: Text, o: Out, rd: Reading): (outs: seq<Out>)
    requires o.pos <= |t.input|
    ensures Within(outs, o.pos, |t.input|, |o.caps|)
    decreases r, 0, 0, 0, 0, 0
  {
    match r
    case Empty => [o]
    case Lit(c) => One(t, o, o.pos < |t.input| && t.input[o.pos] == c)
    case DotAll => One(t, o, o.pos < |t.input|)
    case DotLine => One(t, o, o.pos < |t.input| && !IsLineTerminator(t.input[o.pos]))
    case Class(p) => One(t, o, o.pos < |t.input| && InSet(p, t.input[o.pos]))
    case Start => If(o, AtLineStart(t, o.pos))
    case End => If(o, AtLineEnd(t, o.pos))
    case Bound(negated) => If(o, AtWordBoundary(t, o.pos) != negated)
    case Cat(a, b) => Then(b, cc + Groups(a), t, Matches(a, cc, t, o, rd), rd, o.pos, |o.caps|)
    case Alt(a, b) => Matches(a, cc, t, o, rd) + Matches(b, cc + Groups(a), t, o, rd)
    case Capture(a) => SetAll(Matches(a, cc + 1, t, SetCap(o, 2 * cc), rd), 2 * cc + 1)
    case Quant(a, min, max, greedy) =>
      Repeat(a, cc, t, if min == 0 && !rd.Ecma? then ClearCaps(o, cc, Groups(a)) else o, min, max, greedy, rd)
    case Look(negated, a) =>
      var m := Matches(a, cc, t, o, rd);
      if negated then If(o, m == []) else if m == [] then [] else [Out(o.pos, m[0].caps)]
  }

  // ----- one level of Matches -----

  lemma MatchesAlt(a: Re, b: Re, cc: nat, t: Text, o: Out, rd: Reading)
    requires o.pos <= |t.input|
    ensures Matches(Alt(a, b), cc, t, o, rd) == Matches(a, cc, t, o, rd) + Matches(b, cc + Groups(a), t, o, rd)
  {
    hide Then, Repeat, One, If, SetAll, SetCap, Within, Groups;
  }

  lemma MatchesCapture(a: Re, cc: nat, t: Text, o: Out, rd: Reading)
    requires o.pos <= |t.input|
    ensures Matches(Capture(a), cc, t, o, rd) == SetAll(Matches(a, cc + 1, t, SetCap(o, 2 * cc), rd), 2 * cc + 1)
  {
    hide Then, Repeat, One, If, SetAll, SetCap, Within, Groups;
  }

  lemma MatchesCat(a: Re, b: Re, cc: nat, t: Text, o: Out, rd: Reading)
    requires o.pos <= |t.input|
    ensures Matches(Cat(a, b), cc, t, o, rd)
        == Then(b, cc + Groups(a), t, Matches(a, cc, t, o, rd), rd, o.pos, |o.caps|)
  {
    hide Then, Repeat, One, If, SetAll, SetCap, Groups;
  }

  lemma MatchesQuant(a: Re, min: nat, max: nat, greedy: bool, cc: nat, t: Text, o: Out, rd: Reading)
    requires o.pos <= |t.input|
    ensures Matches(Quant(a, min, max, greedy), cc, t, o, rd)
         == Repeat(a, cc, t, if min == 0 && !rd.Ecma? then ClearCaps(o, cc, Groups(a)) else o, min, max, greedy, rd)
  {
    hide Then, Repeat, One, If, SetAll, SetCap, Within, Groups, ClearCaps;
  }

  lemma MatchesLook(negated: bool, a: Re, cc: nat, t: Text, o: Out, rd: Reading)
    requires o.pos <= |t.input|
    ensures var m := Matches(a, cc, t, o, rd);
      Matches(Look(negated, a), cc, t, o, rd) == if negated then If(o, m == []) else if m == [] then []
          else [Out(o.pos, m[0].caps)]
  {
    hide Then, Repeat, One, If, SetAll, SetCap, Within, Groups;
  }

  /** Continue every end with b. */
  function Then(b: Re, cc: nat, t: Text, outs: seq<Out>, rd: Reading, lo: nat, n: nat): (r: seq<Out>)
    requires Within(outs, lo, |t.input|, n)
    ensures Within(r, lo, |t.input|, n)
    decreases b, 1, 0, 0, 0, |outs|
  {
    if outs == [] then []
    else Matches(b, cc, t, outs[0], rd) + Then(b, cc, t, outs[1..], rd, lo, n)
  }

  /** One less, unless unbounded. */
  function Less(max: nat): nat {
    if max == INT32_MAX || max == 0 then max else max - 1
  }

  /** Iterations left to count; unbounded loops and the other readings go by the position. */
  function Fuel(max: nat, rd: Reading): nat {
    if rd.AsWritten? && max != INT32_MAX then max else 0
  }

  /** An outcome that ends the loop, and the iterations before it, in the order asked for. */
  function Order(greedy: bool, more: seq<Out>, o: Out): seq<Out> {
    if greedy then more + [o] else [o] + more
  }

  /** At least min and at most max iterations of a. */
  function Repeat(a: Re, cc: nat, t: Text, o: Out, min: nat, max: nat, greedy: bool, rd: Reading): (outs: seq<Out>)
    requires o.pos <= |t.input|
    ensures Within(outs, o.pos, |t.input|, |o.caps|)
    decreases a, 2, min, Fuel(max, rd), |t.input| - o.pos + 1, 0
  {
    if max == 0 then [o]
    else
      var once := Matches(a, cc, t, if rd.Ecma? then ClearCaps(o, cc, Groups(a)) else o, rd);
      var n := |o.caps|;
      if min > 0 then Iterate(a, cc, t, once, min - 1, Less(max), greedy, rd, false, o.pos, n)
      else if rd.AsWritten? && max != INT32_MAX then
        Order(greedy, Iterate(a, cc, t, once, 0, max - 1, greedy, rd, false, o.pos, n), o)
      else if rd.AsWritten? && greedy then
        Order(greedy, Iterate(a, cc, t, once, 0, max, greedy, rd, true, o.pos, n), o)
      else
        var moved := Advanced(once, o.pos);
        AdvancedWithin(once, o.pos, o.pos, |t.input|, n);
        if o.pos == |t.input| then [o]
        else Order(greedy, Iterate(a, cc, t, moved, 0, Less(max), greedy, rd, false, o.pos + 1, n), o)
  }

  /** Continue every end with further iterations; with `halt`, an end at lo itself ends the loop. */
  function Iterate(a: Re, cc: nat, t: Text, outs: seq<Out>, min: nat, max: nat, greedy: bool, rd: Reading, halt: bool,
                   lo: nat, n: nat): (r: seq<Out>)
    requires Within(outs, lo, |t.input|, n) && lo <= |t.input|
    ensures Within(r, lo, |t.input|, n)
    decreases a, 2, min, Fuel(max, rd), |t.input| - lo + (if halt then 0 else 1), |outs|
  {
    if outs == [] then []
    else
      (if halt && outs[0].pos == lo then [outs[0]] else Repeat(a, cc, t, outs[0], min, max, greedy, rd))
      + Iterate(a, cc, t, outs[1..], min, max, greedy, rd, halt, lo, n)
  }

  /** All matches of r as group 0, from every start at or after o.pos in turn; from o.pos only, if sticky. */
  function Search(r: Re, t: Text, o: Out, sticky: bool, rd: Reading): seq<Out>
    requires o.pos <= |t.input|
    decreases |t.input| - o.pos
  {
    Matches(Capture(r), 0, t, o, rd)
      + if sticky || o.pos == |t.input| then [] else Search(r, t, o.(pos := o.pos + 1), sticky, rd)
  }
}
