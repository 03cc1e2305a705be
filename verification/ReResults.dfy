/**
 What a result says: the leftmost start from which the expression describes a stretch of the
 text, and for every group a stretch that its own expression describes.
 */
module ReResults {
  import opened Basics
  import opened ReCode
  import opened ReText
  import opened ReSyntax
  import opened ReSpec
  import opened ReEcma
  import opened ReLanguage

  /** The expression inside group g of r. */
  function GroupBody(r: Re, g: nat): Re
    requires g < Groups(r)
  {
    match r
    case Cat(a, b) => if g < Groups(a) then GroupBody(a, g) else GroupBody(b, g - Groups(a))
    case Alt(a, b) => if g < Groups(a) then GroupBody(a, g) else GroupBody(b, g - Groups(a))
    case Capture(a) => if g == 0 then a else GroupBody(a, g - 1)
    case Quant(a, _, _, _) => GroupBody(a, g)
    case Look(_, a) => GroupBody(a, g)
  }

  /** Group k has no value, or one that its expression describes. */
  ghost predicate Holds(caps: Captures, k: nat, body: Re, t: Text)
    requires 2 * k + 1 < |caps|
  {
    match (caps[2 * k], caps[2 * k + 1])
    case (None, None) => true
    case (Some(s), Some(e)) => Spans(body, t, s, e)
    case _ => false
  }

  /** All groups of r, counted from cc on. */
  ghost predicate AllHold(caps: Captures, r: Re, cc: nat, t: Text) {
    2 * (cc + Groups(r)) <= |caps| && forall g: nat | g < Groups(r) :: Holds(caps, cc + g, GroupBody(r, g), t)
  }

  ghost predicate OutsHold(outs: seq<Out>, r: Re, cc: nat, t: Text) {
    forall k | 0 <= k < |outs| :: AllHold(outs[k].caps, r, cc, t)
  }

  // ----- parts of an expression -----

  lemma {:induction false} PairHolds(caps: Captures, r: Re, a: Re, b: Re, cc: nat, t: Text)
    requires r == Cat(a, b) || r == Alt(a, b)
    ensures AllHold(caps, r, cc, t) <==> AllHold(caps, a, cc, t) && AllHold(caps, b, cc + Groups(a), t)
  {
    hide Holds;
    if AllHold(caps, r, cc, t) {
      forall g: nat | g < Groups(a)
        ensures Holds(caps, cc + g, GroupBody(a, g), t)
      {
        assert GroupBody(r, g) == GroupBody(a, g);
      }
      forall g: nat | g < Groups(b)
        ensures Holds(caps, cc + Groups(a) + g, GroupBody(b, g), t)
      {
        var h := Groups(a) + g;
        assert GroupBody(r, h) == GroupBody(b, g) && Holds(caps, cc + h, GroupBody(r, h), t);
      }
    }
    if AllHold(caps, a, cc, t) && AllHold(caps, b, cc + Groups(a), t) {
      forall g: nat | g < Groups(r)
        ensures Holds(caps, cc + g, GroupBody(r, g), t)
      {
        if g >= Groups(a) {
          var h := g - Groups(a);
          assert Holds(caps, cc + Groups(a) + h, GroupBody(b, h), t);
        }
      }
    }
  }

  lemma {:induction false} CaptureHolds(caps: Captures, a: Re, cc: nat, t: Text)
    requires 2 * (cc + 1 + Groups(a)) <= |caps|
    ensures AllHold(caps, Capture(a), cc, t) <==> Holds(caps, cc, a, t) && AllHold(caps, a, cc + 1, t)
  {
    hide Holds;
    var r := Capture(a);
    if AllHold(caps, r, cc, t) {
      assert Holds(caps, cc + 0, GroupBody(r, 0), t);
      forall g: nat | g < Groups(a)
        ensures Holds(caps, cc + 1 + g, GroupBody(a, g), t)
      {
        assert GroupBody(r, g + 1) == GroupBody(a, g) && Holds(caps, cc + (g + 1), GroupBody(r, g + 1), t);
      }
    }
    if Holds(caps, cc, a, t) && AllHold(caps, a, cc + 1, t) {
      forall g: nat | g < Groups(r)
        ensures Holds(caps, cc + g, GroupBody(r, g), t)
      {
        if g > 0 {
          assert Holds(caps, cc + 1 + (g - 1), GroupBody(a, g - 1), t);
        }
      }
    }
  }

  lemma {:induction false} InnerHolds(caps: Captures, r: Re, a: Re, cc: nat, t: Text)
    requires (r.Quant? && r.a == a) || (r.Look? && r.a == a)
    ensures AllHold(caps, r, cc, t) <==> AllHold(caps, a, cc, t)
  {
    hide Holds;
    assert forall g: nat | g < Groups(a) :: GroupBody(r, g) == GroupBody(a, g);
  }

  /** Groups elsewhere do not matter. */
  lemma {:induction false} KeptHolds(o: Out, p: Out, c0: nat, n: nat, r: Re, cc: nat, t: Text)
    requires Kept(o, p, c0, n) && (c0 + n <= cc || cc + Groups(r) <= c0) && AllHold(o.caps, r, cc, t)
    ensures AllHold(p.caps, r, cc, t)
  {
    hide Spans;
    forall g: nat | g < Groups(r)
      ensures Holds(p.caps, cc + g, GroupBody(r, g), t)
    {
      assert Holds(o.caps, cc + g, GroupBody(r, g), t);
    }
  }

  lemma {:induction false} ClearHolds(o: Out, r: Re, cc: nat, t: Text)
    requires 2 * (cc + Groups(r)) <= |o.caps|
    ensures AllHold(ClearCaps(o, cc, Groups(r)).caps, r, cc, t)
  {
    hide Spans;
  }

  lemma {:induction false} HoldAppend(x: seq<Out>, y: seq<Out>, r: Re, cc: nat, t: Text)
    requires OutsHold(x, r, cc, t) && OutsHold(y, r, cc, t)
    ensures OutsHold(x + y, r, cc, t)
  {
    hide AllHold;
  }

  lemma {:induction false} HoldOne(o: Out, r: Re, cc: nat, t: Text)
    requires AllHold(o.caps, r, cc, t)
    ensures OutsHold([o], r, cc, t)
  {
    hide AllHold;
  }

  lemma {:induction false} HoldOrder(greedy: bool, outs: seq<Out>, o: Out, r: Re, cc: nat, t: Text)
    requires OutsHold(outs, r, cc, t) && AllHold(o.caps, r, cc, t)
    ensures OutsHold(Order(greedy, outs, o), r, cc, t)
  {
    hide OutsHold, AllHold;
    HoldOne(o, r, cc, t);
    HoldAppend(outs, [o], r, cc, t);
    HoldAppend([o], outs, r, cc, t);
  }

  lemma {:induction false} HoldAdvanced(outs: seq<Out>, q: nat, r: Re, cc: nat, t: Text)
    requires OutsHold(outs, r, cc, t)
    ensures OutsHold(Advanced(outs, q), r, cc, t)
  {
    hide AllHold;
    var moved := Advanced(outs, q);
    forall k | 0 <= k < |moved|
      ensures AllHold(moved[k].caps, r, cc, t)
    {
      var j :| 0 <= j < |outs| && outs[j] == moved[k];
    }
  }

  // ----- every match -----

  lemma {:induction false} ThenHold(a: Re, b: Re, cc: nat, t: Text, outs: seq<Out>, rd: Reading, lo: nat, n: nat)
    requires WellFormed(b) && Within(outs, lo, |t.input|, n) && OutsHold(outs, Cat(a, b), cc, t)
    ensures OutsHold(Then(b, cc + Groups(a), t, outs, rd, lo, n), Cat(a, b), cc, t)
    decreases b, 1, 0, 0, 0, |outs|
  {
    hide Matches, AllHold, WellFormed, Groups;
    if outs != [] {
      var o, c := outs[0], cc + Groups(a);
      var next := Matches(b, c, t, o, rd);
      PairHolds(o.caps, Cat(a, b), a, b, cc, t);
      MatchesHold(b, c, t, o, rd);
      MatchesKeep(b, c, t, o, rd);
      forall k | 0 <= k < |next|
        ensures AllHold(next[k].caps, Cat(a, b), cc, t)
      {
        KeptHolds(o, next[k], c, Groups(b), a, cc, t);
        PairHolds(next[k].caps, Cat(a, b), a, b, cc, t);
      }
      ThenHold(a, b, cc, t, outs[1..], rd, lo, n);
      HoldAppend(next, Then(b, c, t, outs[1..], rd, lo, n), Cat(a, b), cc, t);
    }
  }

  lemma {:induction false} IterateHold(
      a: Re, cc: nat, t: Text, outs: seq<Out>, min: nat, max: nat, greedy: bool, rd: Reading, halt: bool,
      lo: nat, n: nat)
    requires WellFormed(a) && Within(outs, lo, |t.input|, n) && lo <= |t.input| && OutsHold(outs, a, cc, t)
    ensures OutsHold(Iterate(a, cc, t, outs, min, max, greedy, rd, halt, lo, n), a, cc, t)
    decreases a, 2, min, Fuel(max, rd), |t.input| - lo + (if halt then 0 else 1), |outs|
  {
    hide Repeat, AllHold, WellFormed, Groups;
    if outs != [] {
      var o := outs[0];
      var first := if halt && o.pos == lo then [o] else Repeat(a, cc, t, o, min, max, greedy, rd);
      if !(halt && o.pos == lo) {
        RepeatHold(a, cc, t, o, min, max, greedy, rd);
      }
      IterateHold(a, cc, t, outs[1..], min, max, greedy, rd, halt, lo, n);
      HoldAppend(first, Iterate(a, cc, t, outs[1..], min, max, greedy, rd, halt, lo, n), a, cc, t);
    }
  }

  lemma {:induction false} RepeatHold(a: Re, cc: nat, t: Text, o: Out, min: nat, max: nat, greedy: bool, rd: Reading)
    requires WellFormed(a) && o.pos <= |t.input| && AllHold(o.caps, a, cc, t)
    ensures OutsHold(Repeat(a, cc, t, o, min, max, greedy, rd), a, cc, t)
    decreases a, 2, min, Fuel(max, rd), |t.input| - o.pos + 1, 0
  {
    hide Matches, AllHold, OutsHold, WellFormed, Iterate, Advanced, Order, Within, ClearCaps, Groups;
    HoldWide(o.caps, a, cc, t);
    HoldOne(o, a, cc, t);
    if max == 0 {
      return;
    }
    var n := |o.caps|;
    ClearHolds(o, a, cc, t);
    var p := if rd.Ecma? then ClearCaps(o, cc, Groups(a)) else o;
    var once := Matches(a, cc, t, p, rd);
    MatchesHold(a, cc, t, p, rd);
    if min > 0 {
      IterateHold(a, cc, t, once, min - 1, Less(max), greedy, rd, false, o.pos, n);
    } else if rd.AsWritten? && max != INT32_MAX {
      IterateHold(a, cc, t, once, 0, max - 1, greedy, rd, false, o.pos, n);
      HoldOrder(greedy, Iterate(a, cc, t, once, 0, max - 1, greedy, rd, false, o.pos, n), o, a, cc, t);
    } else if rd.AsWritten? && greedy {
      IterateHold(a, cc, t, once, 0, max, greedy, rd, true, o.pos, n);
      HoldOrder(greedy, Iterate(a, cc, t, once, 0, max, greedy, rd, true, o.pos, n), o, a, cc, t);
    } else if o.pos < |t.input| {
      var moved := Advanced(once, o.pos);
      AdvancedWithin(once, o.pos, o.pos, |t.input|, n);
      HoldAdvanced(once, o.pos, a, cc, t);
      IterateHold(a, cc, t, moved, 0, Less(max), greedy, rd, false, o.pos + 1, n);
      HoldOrder(greedy, Iterate(a, cc, t, moved, 0, Less(max), greedy, rd, false, o.pos + 1, n), o, a, cc, t);
    }
  }

  lemma {:induction false} HoldWide(caps: Captures, r: Re, cc: nat, t: Text)
    requires AllHold(caps, r, cc, t)
    ensures 2 * (cc + Groups(r)) <= |caps|
  {
  }

  /** A match leaves in every group a stretch that the group's expression describes, or nothing. */
  lemma {:induction false} MatchesHold(r: Re, cc: nat, t: Text, o: Out, rd: Reading)
    requires WellFormed(r) && o.pos <= |t.input| && AllHold(o.caps, r, cc, t)
    ensures OutsHold(Matches(r, cc, t, o, rd), r, cc, t)
    decreases r, 0, 0, 0, 0, 1
  {
    hide Matches, AllHold, OutsHold, WellFormed, Groups;
    match r
    case Cat(a, b) => CatHold(a, b, cc, t, o, rd);
    case Alt(a, b) => AltHold(a, b, cc, t, o, rd);
    case Capture(a) => CaptureHold(a, cc, t, o, rd);
    case Quant(a, min, max, greedy) => QuantHold(a, min, max, greedy, cc, t, o, rd);
    case Look(negated, a) => LookHold(negated, a, cc, t, o, rd);
    case _ => LeafHold(r, cc, t, o, rd);
  }

  lemma {:induction false} LeafHold(r: Re, cc: nat, t: Text, o: Out, rd: Reading)
    requires o.pos <= |t.input| && (IsLeaf(r) || r.Empty?) && AllHold(o.caps, r, cc, t)
    ensures OutsHold(Matches(r, cc, t, o, rd), r, cc, t)
  {
    hide AtWordBoundary, AtLineStart, AtLineEnd, IsLineTerminator;
  }

  lemma {:induction false} CatHold(a: Re, b: Re, cc: nat, t: Text, o: Out, rd: Reading)
    requires WellFormed(Cat(a, b)) && o.pos <= |t.input| && AllHold(o.caps, Cat(a, b), cc, t)
    ensures OutsHold(Matches(Cat(a, b), cc, t, o, rd), Cat(a, b), cc, t)
    decreases Cat(a, b), 0, 0, 0, 0, 0
  {
    hide Matches, Then, AllHold, Groups;
    var outs := Matches(a, cc, t, o, rd);
    PairHolds(o.caps, Cat(a, b), a, b, cc, t);
    MatchesHold(a, cc, t, o, rd);
    MatchesKeep(a, cc, t, o, rd);
    forall k | 0 <= k < |outs|
      ensures AllHold(outs[k].caps, Cat(a, b), cc, t)
    {
      KeptHolds(o, outs[k], cc, Groups(a), b, cc + Groups(a), t);
      PairHolds(outs[k].caps, Cat(a, b), a, b, cc, t);
    }
    MatchesCat(a, b, cc, t, o, rd);
    ThenHold(a, b, cc, t, outs, rd, o.pos, |o.caps|);
  }

  lemma {:induction false} AltHold(a: Re, b: Re, cc: nat, t: Text, o: Out, rd: Reading)
    requires WellFormed(Alt(a, b)) && o.pos <= |t.input| && AllHold(o.caps, Alt(a, b), cc, t)
    ensures OutsHold(Matches(Alt(a, b), cc, t, o, rd), Alt(a, b), cc, t)
    decreases Alt(a, b), 0, 0, 0, 0, 0
  {
    hide Matches, AllHold, Groups;
    var r, c := Alt(a, b), cc + Groups(a);
    var x, y := Matches(a, cc, t, o, rd), Matches(b, c, t, o, rd);
    PairHolds(o.caps, r, a, b, cc, t);
    MatchesHold(a, cc, t, o, rd);
    MatchesHold(b, c, t, o, rd);
    MatchesKeep(a, cc, t, o, rd);
    MatchesKeep(b, c, t, o, rd);
    forall k | 0 <= k < |x|
      ensures AllHold(x[k].caps, r, cc, t)
    {
      KeptHolds(o, x[k], cc, Groups(a), b, c, t);
      PairHolds(x[k].caps, r, a, b, cc, t);
    }
    forall k | 0 <= k < |y|
      ensures AllHold(y[k].caps, r, cc, t)
    {
      KeptHolds(o, y[k], c, Groups(b), a, cc, t);
      PairHolds(y[k].caps, r, a, b, cc, t);
    }
    MatchesAlt(a, b, cc, t, o, rd);
    HoldAppend(x, y, r, cc, t);
  }

  lemma {:induction false} CaptureHold(a: Re, cc: nat, t: Text, o: Out, rd: Reading)
    requires WellFormed(Capture(a)) && o.pos <= |t.input| && AllHold(o.caps, Capture(a), cc, t)
    ensures OutsHold(Matches(Capture(a), cc, t, o, rd), Capture(a), cc, t)
    decreases Capture(a), 0, 0, 0, 0, 0
  {
    hide Matches, AllHold, Groups, Spans, SetCap, EndsAt, Kept;
    CaptureWide(o.caps, a, cc, t);
    CaptureHolds(o.caps, a, cc, t);
    var p := SetCap(o, 2 * cc);
    SetKept(o, cc);
    KeptHolds(o, p, cc, 1, a, cc + 1, t);
    var outs := Matches(a, cc + 1, t, p, rd);
    MatchesHold(a, cc + 1, t, p, rd);
    MatchesKeep(a, cc + 1, t, p, rd);
    MatchesSpan(a, cc + 1, t, p, rd);
    MatchesCapture(a, cc, t, o, rd);
    forall k | 0 <= k < |outs|
      ensures AllHold(SetCap(outs[k], 2 * cc + 1).caps, Capture(a), cc, t)
    {
      EndsThere(outs, k);
      GroupHolds(a, cc, t, o, outs[k]);
    }
  }

  lemma {:induction false} EndsThere(outs: seq<Out>, k: nat)
    requires k < |outs|
    ensures EndsAt(outs, outs[k].pos)
  {
  }

  lemma {:induction false} CaptureWide(caps: Captures, a: Re, cc: nat, t: Text)
    requires AllHold(caps, Capture(a), cc, t)
    ensures 2 * (cc + 1 + Groups(a)) <= |caps|
  {
  }

  lemma {:induction false} SetKept(o: Out, cc: nat)
    ensures Kept(o, SetCap(o, 2 * cc), cc, 1) && Kept(o, SetCap(o, 2 * cc + 1), cc, 1)
  {
  }

  /** Start and end set around a match of the group. */
  lemma {:induction false} GroupHolds(a: Re, cc: nat, t: Text, o: Out, p: Out)
    requires 2 * (cc + 1 + Groups(a)) <= |o.caps| && Kept(SetCap(o, 2 * cc), p, cc + 1, Groups(a))
    requires AllHold(p.caps, a, cc + 1, t) && Spans(a, t, o.pos, p.pos)
    ensures AllHold(SetCap(p, 2 * cc + 1).caps, Capture(a), cc, t)
  {
    hide AllHold, Groups, Spans;
    var q := SetCap(p, 2 * cc + 1);
    assert q.caps[2 * cc] == Some(o.pos) && q.caps[2 * cc + 1] == Some(p.pos);
    SetKept(p, cc);
    KeptHolds(p, q, cc, 1, a, cc + 1, t);
    CaptureHolds(q.caps, a, cc, t);
  }

  lemma {:induction false} QuantHold(a: Re, min: nat, max: nat, greedy: bool, cc: nat, t: Text, o: Out, rd: Reading)
    requires WellFormed(Quant(a, min, max, greedy)) && o.pos <= |t.input|
    requires AllHold(o.caps, Quant(a, min, max, greedy), cc, t)
    ensures OutsHold(Matches(Quant(a, min, max, greedy), cc, t, o, rd), Quant(a, min, max, greedy), cc, t)
    decreases Quant(a, min, max, greedy), 0, 0, 0, 0, 0
  {
    hide Matches, Repeat, AllHold, ClearCaps, Groups;
    var r := Quant(a, min, max, greedy);
    InnerHolds(o.caps, r, a, cc, t);
    HoldWide(o.caps, a, cc, t);
    ClearHolds(o, a, cc, t);
    var p := if min == 0 && !rd.Ecma? then ClearCaps(o, cc, Groups(a)) else o;
    RepeatHold(a, cc, t, p, min, max, greedy, rd);
    MatchesQuant(a, min, max, greedy, cc, t, o, rd);
    var outs := Matches(r, cc, t, o, rd);
    forall k | 0 <= k < |outs|
      ensures AllHold(outs[k].caps, r, cc, t)
    {
      InnerHolds(outs[k].caps, r, a, cc, t);
    }
  }

  lemma {:induction false} LookHold(negated: bool, a: Re, cc: nat, t: Text, o: Out, rd: Reading)
    requires WellFormed(Look(negated, a)) && o.pos <= |t.input| && AllHold(o.caps, Look(negated, a), cc, t)
    ensures OutsHold(Matches(Look(negated, a), cc, t, o, rd), Look(negated, a), cc, t)
    decreases Look(negated, a), 0, 0, 0, 0, 0
  {
    hide Matches, AllHold, Groups;
    var r, m := Look(negated, a), Matches(a, cc, t, o, rd);
    InnerHolds(o.caps, r, a, cc, t);
    MatchesHold(a, cc, t, o, rd);
    MatchesLook(negated, a, cc, t, o, rd);
    if m != [] {
      InnerHolds(m[0].caps, r, a, cc, t);
    }
  }

  // ----- results -----

  /** Where a match may start. */
  predicate MayStart(t: Text, pos: nat, sticky: bool, s: nat) {
    if sticky then s == pos else pos <= s <= |t.input|
  }

  /** Some stretch from an admitted start is described. */
  ghost predicate Described(r: Re, t: Text, pos: nat, sticky: bool) {
    exists s: nat, e: nat :: MayStart(t, pos, sticky, s) && Spans(r, t, s, e)
  }

  /** A described stretch, with no described stretch starting earlier, and every group holding what it should. */
  ghost predicate Leftmost(r: Re, t: Text, pos: nat, sticky: bool, caps: Captures) {
    && |caps| == 2 * (1 + Groups(r)) && AllHold(caps, r, 1, t) && caps[0].Some? && caps[1].Some?
    && MayStart(t, pos, sticky, caps[0].value) && Spans(r, t, caps[0].value, caps[1].value)
    && forall s: nat, e: nat | MayStart(t, pos, sticky, s) && s < caps[0].value :: !Spans(r, t, s, e)
  }

  /** What one match of the whole says. */
  ghost predicate Stands(r: Re, t: Text, i: nat, caps: Captures) {
    && |caps| == 2 * (1 + Groups(r)) && AllHold(caps, r, 1, t) && caps[0] == Some(i) && caps[1].Some?
    && Spans(r, t, i, caps[1].value)
  }

  /** What is found from one start. */
  lemma {:induction false} HereResult(r: Re, t: Text, o: Out, rd: Reading)
    requires WellFormed(r) && o.pos <= |t.input| && Unset(o, 0, 1 + Groups(r)) && |o.caps| == 2 * (1 + Groups(r))
    ensures var outs := Matches(Capture(r), 0, t, o, rd);
      && (outs != [] <==> exists e: nat :: Spans(r, t, o.pos, e))
      && forall k | 0 <= k < |outs| :: Stands(r, t, o.pos, outs[k].caps)
  {
    hide Matches, Spans, Groups, WellFormed, AllHold, Unset, Stands;
    var c := Capture(r);
    WholeIs(r);
    UnsetHolds(o, c, 0, t);
    MatchesHold(c, 0, t, o, rd);
    MatchesSpan(c, 0, t, o, rd);
    var outs := Matches(c, 0, t, o, rd);
    if outs != [] {
      EndsThere(outs, 0);
      SpansCapture(r, t, o.pos, outs[0].pos);
    }
    if e: nat :| Spans(r, t, o.pos, e) {
      SpansCapture(r, t, o.pos, e);
      assert EndsAt(outs, e);
    }
    forall k | 0 <= k < |outs|
      ensures Stands(r, t, o.pos, outs[k].caps)
    {
      OuterGroup(r, t, o, rd, k);
      WholeStands(r, t, o.pos, outs[k].caps);
    }
  }

  lemma {:induction false} WholeIs(r: Re)
    ensures WellFormed(Capture(r)) == WellFormed(r) && Groups(Capture(r)) == 1 + Groups(r)
  {
  }

  lemma {:induction false} WholeStands(r: Re, t: Text, i: nat, caps: Captures)
    requires |caps| == 2 * (1 + Groups(r)) && AllHold(caps, Capture(r), 0, t) && caps[0] == Some(i)
    ensures Stands(r, t, i, caps)
  {
    hide Spans, Groups, AllHold;
    CaptureHolds(caps, r, 0, t);
  }

  lemma {:induction false} UnsetHolds(o: Out, r: Re, cc: nat, t: Text)
    requires Unset(o, cc, Groups(r)) && 2 * (cc + Groups(r)) <= |o.caps|
    ensures AllHold(o.caps, r, cc, t)
  {
    hide Spans;
  }

  /** Group 0 starts where the match does. */
  lemma {:induction false} OuterGroup(r: Re, t: Text, o: Out, rd: Reading, k: nat)
    requires o.pos <= |t.input| && |o.caps| >= 2 && k < |Matches(Capture(r), 0, t, o, rd)|
    ensures var q := Matches(Capture(r), 0, t, o, rd)[k];
      |q.caps| >= 2 && q.caps[0] == Some(o.pos) && q.caps[1] == Some(q.pos)
  {
    hide Matches, Groups;
    var p := SetCap(o, 0);
    MatchesCapture(r, 0, t, o, rd);
    MatchesKeep(r, 1, t, p, rd);
    var outs := Matches(r, 1, t, p, rd);
    assert Kept(p, outs[k], 1, Groups(r));
  }

  lemma {:induction false} Nowhere(r: Re, t: Text, pos: nat, sticky: bool)
    requires (sticky || pos == |t.input|) && forall e: nat :: !Spans(r, t, pos, e)
    ensures !Described(r, t, pos, sticky)
  {
    hide Spans;
    assert forall s: nat | MayStart(t, pos, sticky, s) :: s == pos;
  }

  lemma {:induction false} DescribedNext(r: Re, t: Text, pos: nat)
    requires pos < |t.input| && forall e: nat :: !Spans(r, t, pos, e)
    ensures Described(r, t, pos, false) <==> Described(r, t, pos + 1, false)
  {
    hide Spans;
    if s: nat, e: nat :| MayStart(t, pos + 1, false, s) && Spans(r, t, s, e) {
      assert MayStart(t, pos, false, s);
    }
    if s: nat, e: nat :| MayStart(t, pos, false, s) && Spans(r, t, s, e) {
      assert MayStart(t, pos + 1, false, s);
    }
  }

  lemma {:induction false} LeftmostNext(r: Re, t: Text, pos: nat, caps: Captures)
    requires pos < |t.input| && (forall e: nat :: !Spans(r, t, pos, e)) && Leftmost(r, t, pos + 1, false, caps)
    ensures Leftmost(r, t, pos, false, caps)
  {
    hide Spans, AllHold;
    forall s: nat, e: nat | MayStart(t, pos, false, s) && s < caps[0].value
      ensures !Spans(r, t, s, e)
    {
      if s > pos {
        assert MayStart(t, pos + 1, false, s);
      }
    }
  }

  /**
   Searching finds a match if and only if the expression describes some stretch from an admitted
   start, and then the first one found starts leftmost, with every group in place.
   */
  lemma {:induction false} SearchResult(r: Re, t: Text, o: Out, sticky: bool, rd: Reading)
    requires WellFormed(r) && o.pos <= |t.input| && Unset(o, 0, 1 + Groups(r)) && |o.caps| == 2 * (1 + Groups(r))
    ensures var outs := Search(r, t, o, sticky, rd);
      && (outs != [] <==> Described(r, t, o.pos, sticky))
      && (outs != [] ==> Leftmost(r, t, o.pos, sticky, outs[0].caps))
    decreases |t.input| - o.pos
  {
    hide Matches, Spans, Groups, WellFormed, AllHold, Unset;
    HereResult(r, t, o, rd);
    var here := Matches(Capture(r), 0, t, o, rd);
    if here != [] {
      assert MayStart(t, o.pos, sticky, o.pos);
    } else if sticky || o.pos == |t.input| {
      Nowhere(r, t, o.pos, sticky);
    } else {
      var p := o.(pos := o.pos + 1);
      UnsetMoved(o, p, 0, 1 + Groups(r));
      SearchResult(r, t, p, sticky, rd);
      DescribedNext(r, t, o.pos);
      if Search(r, t, p, sticky, rd) != [] {
        LeftmostNext(r, t, o.pos, Search(r, t, p, sticky, rd)[0].caps);
      }
    }
  }
}
