/**
 Static structure of emitted code: every jump lands on an instruction at the same counter
 depth, counters are only used where there is one, and the depth is the linear prefix count.
 */
module ReStack {
  import opened Basics
  import opened ReCode
  import opened ReSyntax

  /** How an instruction changes the number of counters. */
  function Delta(i: Instr): int {
    if i.PushI32? || i.PushCharPos? then 1 else if i.Drop? || i.BneCharPos? then -1 else 0
  }

  /** The linear count: pushes less pops in the first k instructions. */
  function Depth(s: seq<Instr>, k: nat): int
    requires k <= |s|
  {
    if k == 0 then 0 else Depth(s, k - 1) + Delta(s[k - 1])
  }

  /** The byte position of instruction k. */
  function Addr(s: seq<Instr>, k: nat): nat
    requires k <= |s|
  {
    if k == 0 then 0 else Addr(s, k - 1) + InstrSize(s[k - 1])
  }

  lemma {:induction false} PrefixSame(s: seq<Instr>, t: seq<Instr>, k: nat)
    requires k <= |s|
    ensures Depth(s + t, k) == Depth(s, k) && Addr(s + t, k) == Addr(s, k)
  {
    if k > 0 {
      PrefixSame(s, t, k - 1);
    }
  }

  lemma {:induction false} SuffixShift(s: seq<Instr>, t: seq<Instr>, k: nat)
    requires k <= |t|
    ensures Depth(s + t, |s| + k) == Depth(s, |s|) + Depth(t, k) && Addr(s + t, |s| + k) == Addr(s, |s|) + Addr(t, k)
  {
    if k == 0 {
      PrefixSame(s, t, |s|);
    } else {
      SuffixShift(s, t, k - 1);
      assert (s + t)[|s| + k - 1] == t[k - 1];
    }
  }

  lemma {:induction false} AddrIsSize(s: seq<Instr>)
    ensures Addr(s, |s|) == Size(s)
    decreases |s|
  {
    if s != [] {
      var t := s[1..];
      assert s == [s[0]] + t;
      SuffixShift([s[0]], t, |t|);
      AddrIsSize(t);
      assert Addr([s[0]], 1) == InstrSize(s[0]);
    }
  }

  /** The jump offset of an instruction, from its end. */
  function Offset(i: Instr): Option<int> {
    match i
    case Goto(off) => Some(off)
    case SplitGotoFirst(off) => Some(off)
    case SplitNextFirst(off) => Some(off)
    case Loop(off) => Some(off)
    case Lookahead(off) => Some(off)
    case NegativeLookahead(off) => Some(off)
    case BneCharPos(off) => Some(off)
    case SimpleGreedyQuant(next, _, _, _) => Some(next)
    case _ => None
  }

  /** Instruction k jumps to instruction t, at the depth it leaves behind. */
  ghost predicate Lands(s: seq<Instr>, k: nat, t: nat)
    requires k < |s|
  {
    t <= |s| && Offset(s[k]).Some? && Addr(s, t) == Addr(s, k + 1) + Offset(s[k]).value
        && Depth(s, t) == Depth(s, k + 1)
  }

  /** After a loop opcode stands its atom: simple code taking `count` > 0 characters, then `match`. */
  ghost predicate AtomFollows(s: seq<Instr>, k: nat, n: nat)
    requires k < |s|
  {
    && k + 1 + n < |s| && SimpleCount(s[k + 1..k + 1 + n]) > 0 && s[k + 1 + n] == Match
    && s[k].SimpleGreedyQuant? && s[k].count == SimpleCount(s[k + 1..k + 1 + n])
  }

  /** Instruction k is fit to run, with capture indices below g. */
  ghost predicate Fit(s: seq<Instr>, k: nat, g: nat)
    requires k < |s|
  {
    && Depth(s, k) >= 0 && Depth(s, k + 1) >= 0
    && (s[k].Loop? ==> Depth(s, k) >= 1)
    && (Offset(s[k]).Some? ==> exists t :: Lands(s, k, t))
    && (s[k].SimpleGreedyQuant? ==> s[k].min <= s[k].max && exists n :: AtomFollows(s, k, n))
    && (s[k].SaveStart? || s[k].SaveEnd? ==> s[k].idx < g)
    && (s[k].SaveReset? ==> s[k].last < g)
  }

  /** A self-contained piece of code: all instructions fit, and it ends at the depth it started. */
  ghost predicate Linked(s: seq<Instr>, g: nat) {
    Depth(s, |s|) == 0 && forall k: nat | k < |s| :: Fit(s, k, g)
  }

  /** A piece of code keeps its fitness wherever it is placed, at any depth. */
  lemma {:induction false} FitInside(pre: seq<Instr>, x: seq<Instr>, post: seq<Instr>, k: nat, g: nat)
    requires k < |x| && Fit(x, k, g) && Depth(pre, |pre|) >= 0
    ensures Fit(pre + x + post, |pre| + k, g)
  {
    hide Depth, Addr, Offset, SimpleCount;
    var s := pre + x + post;
    assert s[|pre| + k] == x[k];
    Placed(pre, x, post, k);
    Placed(pre, x, post, k + 1);
    if Offset(x[k]).Some? {
      var t :| Lands(x, k, t);
      Placed(pre, x, post, t);
      assert Lands(s, |pre| + k, |pre| + t);
    }
    if x[k].SimpleGreedyQuant? {
      var n :| AtomFollows(x, k, n);
      assert s[|pre| + k + 1..|pre| + k + 1 + n] == x[k + 1..k + 1 + n];
      assert s[|pre| + k + 1 + n] == x[k + 1 + n];
      assert AtomFollows(s, |pre| + k, n);
    }
  }

  lemma {:induction false} Placed(pre: seq<Instr>, x: seq<Instr>, post: seq<Instr>, k: nat)
    requires k <= |x|
    ensures |pre| + k <= |pre + x + post|
    ensures Depth(pre + x + post, |pre| + k) == Depth(pre, |pre|) + Depth(x, k)
    ensures Addr(pre + x + post, |pre| + k) == Addr(pre, |pre|) + Addr(x, k)
  {
    hide Depth, Addr;
    SuffixShift(pre, x, k);
    PrefixSame(pre + x, post, |pre| + k);
  }

  /** All of a placed piece. */
  lemma {:induction false} AllInside(pre: seq<Instr>, x: seq<Instr>, post: seq<Instr>, g: nat)
    requires Linked(x, g) && Depth(pre, |pre|) >= 0
    ensures forall k: nat | |pre| <= k < |pre| + |x| :: Fit(pre + x + post, k, g)
  {
    hide Depth, Fit;
    forall k: nat | |pre| <= k < |pre| + |x|
      ensures Fit(pre + x + post, k, g)
    {
      FitInside(pre, x, post, k - |pre|, g);
    }
  }

  lemma {:induction false} LinkedEmpty(g: nat)
    ensures Linked([], g)
  {
  }

  /** One after the other. */
  lemma {:induction false} LinkedCat(x: seq<Instr>, y: seq<Instr>, g: nat)
    requires Linked(x, g) && Linked(y, g)
    ensures Linked(x + y, g)
  {
    hide Fit;
    AllInside([], x, y, g);
    AllInside(x, y, [], g);
    assert [] + x + y == x + y && x + y + [] == x + y;
    SuffixShift(x, y, |y|);
  }

  /** An instruction without jump, captures or counters. */
  lemma {:induction false} LinkedPlain(i: Instr, g: nat)
    requires Offset(i).None? && Delta(i) == 0 && (i.SaveStart? || i.SaveEnd? ==> i.idx < g)
    requires i.SaveReset? ==> i.last < g
    ensures Linked([i], g)
  {
    assert Depth([i], 1) == Depth([i], 0) + Delta(i);
    assert Fit([i], 0, g);
  }

  // ----- composing code -----

  /** The change of depth over a whole piece. */
  function Net(s: seq<Instr>): int {
    Depth(s, |s|)
  }

  lemma {:induction false} NetAppend(s: seq<Instr>, t: seq<Instr>)
    ensures Net(s + t) == Net(s) + Net(t)
  {
    SuffixShift(s, t, |t|);
  }

  lemma {:induction false} NetOne(i: Instr)
    ensures Net([i]) == Delta(i) && Size([i]) == InstrSize(i)
  {
    assert Depth([i], 1) == Depth([i], 0) + Delta(i);
    SizeOne(i);
  }

  lemma {:induction false} Boundary(pre: seq<Instr>, post: seq<Instr>)
    ensures Addr(pre + post, |pre|) == Size(pre) && Depth(pre + post, |pre|) == Net(pre)
  {
    PrefixSame(pre, post, |pre|);
    AddrIsSize(pre);
  }

  /** An instruction i after `pre`. */
  lemma {:induction false} FitAt(s: seq<Instr>, pre: seq<Instr>, i: Instr, post: seq<Instr>)
    requires s == pre + [i] + post
    ensures |pre| < |s| && s[|pre|] == i && Depth(s, |pre|) == Net(pre) && Depth(s, |pre| + 1) == Net(pre) + Delta(i)
    ensures Addr(s, |pre| + 1) == Size(pre) + InstrSize(i)
  {
    hide Depth, Addr, Net, Size;
    assert s == pre + ([i] + post) && s == (pre + [i]) + post;
    Boundary(pre, [i] + post);
    Boundary(pre + [i], post);
    NetAppend(pre, [i]);
    NetOne(i);
    SizeAppend(pre, [i]);
  }

  lemma {:induction false} FitPlain(s: seq<Instr>, pre: seq<Instr>, i: Instr, post: seq<Instr>, g: nat)
    requires s == pre + [i] + post && Offset(i).None? && Net(pre) >= 0 && Net(pre) + Delta(i) >= 0
    requires (i.SaveStart? || i.SaveEnd? ==> i.idx < g) && (i.SaveReset? ==> i.last < g)
    ensures Fit(s, |pre|, g)
  {
    hide Depth, Addr, Net, Size;
    FitAt(s, pre, i, post);
  }

  /** A jump to the end of `dest`. */
  lemma {:induction false} FitJump(s: seq<Instr>, pre: seq<Instr>, i: Instr, post: seq<Instr>, dest: seq<Instr>,
      rest: seq<Instr>, g: nat)
    requires s == pre + [i] + post && s == dest + rest && Offset(i).Some? && !i.SimpleGreedyQuant?
    requires Size(dest) == Size(pre) + InstrSize(i) + Offset(i).value && Net(dest) == Net(pre) + Delta(i)
    requires Net(pre) >= 0 && Net(pre) + Delta(i) >= 0 && (i.Loop? ==> Net(pre) >= 1)
    ensures Fit(s, |pre|, g)
  {
    hide Depth, Addr, Net, Size;
    FitAt(s, pre, i, post);
    Boundary(dest, rest);
    assert Lands(s, |pre|, |dest|);
  }

  // ----- every construct -----

  lemma {:induction false} LinkedAlt(x: seq<Instr>, y: seq<Instr>, g: nat)
    requires Linked(x, g) && Linked(y, g)
    ensures Linked(AltCode(x, y), g)
  {
    hide Fit, Depth, Size;
    var i, j := SplitNextFirst(Size(x) + 5), Goto(Size(y));
    var s := AltCode(x, y);
    NetOne(i);
    NetOne(j);
    NetAppend([i], x);
    NetAppend([i] + x, [j]);
    NetAppend([i] + x + [j], y);
    SizeAppend([i], x);
    SizeAppend([i] + x, [j]);
    SizeAppend([i] + x + [j], y);
    NetEmpty();
    assert s == [] + [i] + (x + [j] + y);
    FitJump(s, [], i, x + [j] + y, [i] + x + [j], y, g);
    AllInside([i], x, [j] + y, g);
    assert s == [i] + x + ([j] + y);
    assert s == s + [];
    FitJump(s, [i] + x, j, y, s, [], g);
    AllInside([i] + x + [j], y, [], g);
  }

  lemma NetEmpty()
    ensures Net([]) == 0 && Size([]) == 0
  {
  }

  /** x between two instructions without jumps. */
  lemma {:induction false} LinkedBetween(i: Instr, x: seq<Instr>, j: Instr, g: nat)
    requires Linked(x, g) && Linked([i], g) && Linked([j], g)
    ensures Linked([i] + x + [j], g)
  {
    hide Linked;
    LinkedCat([i], x, g);
    LinkedCat([i] + x, [j], g);
  }

  lemma {:induction false} LinkedLook(negated: bool, x: seq<Instr>, g: nat)
    requires Linked(x, g)
    ensures Linked(LookCode(negated, x), g)
  {
    hide Fit, Depth, Size;
    var i := if negated then NegativeLookahead(Size(x) + 1) else Lookahead(Size(x) + 1);
    var s := LookCode(negated, x);
    NetOne(i);
    NetOne(Match);
    NetAppend([i], x);
    NetAppend([i] + x, [Match]);
    SizeAppend([i], x);
    SizeAppend([i] + x, [Match]);
    NetEmpty();
    assert s == [] + [i] + (x + [Match]) && s == s + [];
    FitJump(s, [], i, x + [Match], s, [], g);
    AllInside([i], x, [Match], g);
    assert s == ([i] + x) + [Match] + [];
    FitPlain(s, [i] + x, Match, [], g);
  }

  lemma {:induction false} LinkedStar(x: seq<Instr>, greedy: bool, check: bool, g: nat)
    requires Linked(x, g)
    ensures Linked(Star(x, greedy, check), g)
  {
    if check {
      LinkedStarChecked(x, greedy, g);
    } else {
      LinkedStarPlain(x, greedy, g);
    }
  }

  lemma {:induction false} LinkedStarPlain(x: seq<Instr>, greedy: bool, g: nat)
    requires Linked(x, g)
    ensures Linked(Star(x, greedy, false), g)
  {
    hide Fit, Depth, Size;
    var len: int := Size(x);
    var i, j := Split(greedy, len + 5), Goto(-(len + 10));
    var s := Star(x, greedy, false);
    NetOne(i);
    NetOne(j);
    NetAppend([i], x);
    NetAppend([i] + x, [j]);
    SizeAppend([i], x);
    SizeAppend([i] + x, [j]);
    NetEmpty();
    assert s == [] + [i] + (x + [j]) && s == s + [] && s == [] + s;
    FitJump(s, [], i, x + [j], s, [], g);
    AllInside([i], x, [j], g);
    assert s == ([i] + x) + [j] + [];
    FitJump(s, [i] + x, j, [], [], s, g);
  }

  lemma {:induction false} LinkedStarChecked(x: seq<Instr>, greedy: bool, g: nat)
    requires Linked(x, g)
    ensures Linked(Star(x, greedy, true), g)
  {
    hide Fit, Depth, Size;
    var len: int := Size(x);
    var i, p, j := Split(greedy, len + 6), PushCharPos, BneCharPos(-(len + 11));
    var s := Star(x, greedy, true);
    NetOne(i);
    NetOne(p);
    NetOne(j);
    NetAppend([i], [p]);
    NetAppend([i] + [p], x);
    NetAppend([i] + [p] + x, [j]);
    SizeAppend([i], [p]);
    SizeAppend([i] + [p], x);
    SizeAppend([i] + [p] + x, [j]);
    NetEmpty();
    assert s == [i] + [p] + x + [j];
    assert s == [] + [i] + ([p] + x + [j]) && s == s + [] && s == [] + s;
    FitJump(s, [], i, [p] + x + [j], s, [], g);
    assert s == [i] + [p] + (x + [j]);
    FitPlain(s, [i], p, x + [j], g);
    AllInside([i] + [p], x, [j], g);
    assert s == ([i] + [p] + x) + [j] + [];
    FitJump(s, [i] + [p] + x, j, [], [], s, g);
  }

  lemma {:induction false} LinkedUpTo(x: seq<Instr>, n: nat, greedy: bool, g: nat)
    requires Linked(x, g)
    ensures Linked(UpTo(x, n, greedy), g)
  {
    hide Fit, Depth, Size;
    var len: int := Size(x);
    var h, i, j, d := PushI32(n), Split(greedy, len + 5), Loop(-(len + 10)), Drop;
    var s := UpTo(x, n, greedy);
    NetOne(h);
    NetOne(i);
    NetOne(j);
    NetOne(d);
    NetAppend([h], [i]);
    NetAppend([h] + [i], x);
    NetAppend([h] + [i] + x, [j]);
    NetAppend([h] + [i] + x + [j], [d]);
    SizeAppend([h], [i]);
    SizeAppend([h] + [i], x);
    SizeAppend([h] + [i] + x, [j]);
    NetEmpty();
    assert s == [h] + [i] + x + [j] + [d];
    assert s == [] + [h] + ([i] + x + [j] + [d]);
    FitPlain(s, [], h, [i] + x + [j] + [d], g);
    assert s == [h] + [i] + (x + [j] + [d]);
    FitJump(s, [h], i, x + [j] + [d], [h] + [i] + x + [j], [d], g);
    assert s == [h] + [i] + x + ([j] + [d]);
    AllInside([h] + [i], x, [j] + [d], g);
    assert s == [h] + ([i] + x + [j] + [d]);
    FitJump(s, [h] + [i] + x, j, [d], [h], [i] + x + [j] + [d], g);
    assert s == ([h] + [i] + x + [j]) + [d] + [];
    FitPlain(s, [h] + [i] + x + [j], d, [], g);
  }

  lemma {:induction false} LinkedExactly(x: seq<Instr>, n: nat, g: nat)
    requires Linked(x, g)
    ensures Linked(Exactly(x, n), g)
  {
    hide Fit, Depth, Size;
    var len: int := Size(x);
    var h, j, d := PushI32(n), Loop(-(len + 5)), Drop;
    var s := Exactly(x, n);
    NetOne(h);
    NetOne(j);
    NetOne(d);
    NetAppend([h], x);
    NetAppend([h] + x, [j]);
    NetAppend([h] + x + [j], [d]);
    SizeAppend([h], x);
    NetEmpty();
    assert s == [h] + x + [j] + [d];
    assert s == [] + [h] + (x + [j] + [d]);
    FitPlain(s, [], h, x + [j] + [d], g);
    assert s == [h] + x + ([j] + [d]);
    AllInside([h], x, [j] + [d], g);
    assert s == [h] + (x + [j] + [d]);
    FitJump(s, [h] + x, j, [d], [h], x + [j] + [d], g);
    assert s == ([h] + x + [j]) + [d] + [];
    FitPlain(s, [h] + x + [j], d, [], g);
  }

  lemma {:induction false} LinkedOptional(x: seq<Instr>, greedy: bool, g: nat)
    requires Linked(x, g)
    ensures Linked([Split(greedy, Size(x))] + x, g)
  {
    hide Fit, Depth, Size;
    var i := Split(greedy, Size(x));
    var s := [i] + x;
    NetOne(i);
    NetAppend([i], x);
    SizeAppend([i], x);
    NetEmpty();
    assert s == [] + [i] + x && s == s + [];
    FitJump(s, [], i, x, s, [], g);
    assert s == [i] + x + [];
    AllInside([i], x, [], g);
  }

  lemma {:induction false} LinkedPlus(x: seq<Instr>, nextFirst: bool, g: nat)
    requires Linked(x, g)
    ensures Linked(x + [Split(nextFirst, -(Size(x) as int + 5))], g)
  {
    hide Fit, Depth, Size;
    var i := Split(nextFirst, -(Size(x) as int + 5));
    var s := x + [i];
    NetOne(i);
    NetAppend(x, [i]);
    NetEmpty();
    assert s == [] + x + [i];
    AllInside([], x, [i], g);
    assert s == x + [i] + [] && s == [] + s;
    FitJump(s, x, i, [], [], s, g);
  }

  lemma {:induction false} LinkedSimple(x: seq<Instr>, min: nat, max: nat, g: nat)
    requires Linked(x, g) && SimpleCount(x) > 0 && min <= max
    ensures Linked(SimpleLoop(x, min, max), g)
  {
    hide Fit, Depth, Size, SimpleCount;
    var i := SimpleGreedyQuant(Size(x) + 1, min, max, SimpleCount(x));
    var s := SimpleLoop(x, min, max);
    NetOne(i);
    NetOne(Match);
    NetAppend([i], x);
    NetAppend([i] + x, [Match]);
    SizeAppend([i], x);
    SizeAppend([i] + x, [Match]);
    NetEmpty();
    assert s == [] + [i] + (x + [Match]) && s == s + [];
    FitOpcode(s, i, x, g);
    AllInside([i], x, [Match], g);
    assert s == ([i] + x) + [Match] + [];
    FitPlain(s, [i] + x, Match, [], g);
  }

  lemma {:induction false} FitOpcode(s: seq<Instr>, i: Instr, x: seq<Instr>, g: nat)
    requires s == [i] + x + [Match] && i.SimpleGreedyQuant? && i.min <= i.max && i.count == SimpleCount(x) > 0
    requires i.next == Size(x) + 1
    requires Net(s) == 0 && Size(s) == 17 + Size(x) + 1
    ensures Fit(s, 0, g)
  {
    hide Depth, Addr, Net, Size, SimpleCount;
    assert s == [] + [i] + (x + [Match]) && s == s + [];
    FitAt(s, [], i, x + [Match]);
    NetEmpty();
    Boundary(s, []);
    assert Lands(s, 0, |s|);
    assert s[1..1 + |x|] == x && s[1 + |x|] == Match;
    assert AtomFollows(s, 0, |x|);
  }

  lemma {:induction false} LinkedZeroOrMore(x: seq<Instr>, max: nat, greedy: bool, check: bool, g: nat)
    requires Linked(x, g)
    ensures Linked(ZeroOrMore(x, max, greedy, check), g)
  {
    hide Linked;
    LinkedEmpty(g);
    LinkedOptional(x, greedy, g);
    LinkedStar(x, greedy, check, g);
    LinkedUpTo(x, max, greedy, g);
  }

  lemma {:induction false} LinkedRest(x: seq<Instr>, min: nat, max: nat, greedy: bool, check: bool, g: nat)
    requires Linked(x, g)
    ensures Linked(Rest(x, min, max, greedy, check), g)
  {
    hide Linked;
    LinkedEmpty(g);
    LinkedStar(x, greedy, check, g);
    if max > min {
      LinkedUpTo(x, max - min, greedy, g);
    }
  }

  lemma {:induction false} LinkedReset(cc: nat, n: nat, g: nat)
    requires cc + n <= g
    ensures Linked(Reset(cc, n), g)
  {
    hide Linked;
    LinkedEmpty(g);
    if n > 0 {
      LinkedPlain(SaveReset(cc, cc + n - 1), g);
    }
  }

  lemma {:induction false} LinkedQuant(x: seq<Instr>, cc: nat, n: nat, min: nat, max: nat, greedy: bool, g: nat)
    requires Linked(x, g) && cc + n <= g && min <= max
    ensures Linked(QuantCode(x, cc, n, min, max, greedy), g)
  {
    hide Linked, Size, SimpleCount, CheckAdvance, ZeroOrMore, Rest, Reset, Exactly, SimpleLoop;
    if IsSimpleLoop(x, max, greedy) {
      LinkedSimple(x, min, max, g);
    } else {
      var check := greedy && !CheckAdvance(x);
      LinkedReset(cc, n, g);
      LinkedZeroOrMore(x, max, greedy, check, g);
      LinkedRest(x, min, max, greedy, check, g);
      LinkedExactly(x, min, g);
      LinkedPlus(x, !greedy, g);
      if min == 0 {
        LinkedCat(Reset(cc, n), ZeroOrMore(x, max, greedy, check), g);
      } else if min == 1 {
        LinkedCat(x, Rest(x, min, max, greedy, check), g);
      } else {
        LinkedCat(Exactly(x, min), Rest(x, min, max, greedy, check), g);
      }
    }
  }

  /** The code of every accepted expression is self-contained. */
  lemma {:induction false} LinkedEmit(r: Re, cc: nat, g: nat)
    requires WellFormed(r) && cc + Groups(r) <= g
    ensures Linked(Emit(r, cc), g)
    decreases r
  {
    hide Linked, QuantCode, AltCode, LookCode, Emit, WellFormed, Groups;
    match r
    case Empty => {
      EmitEmpty(cc);
      LinkedEmpty(g);
    }
    case Cat(a, b) => {
      EmitCat(a, b, cc);
      LinkedEmit(a, cc, g);
      LinkedEmit(b, cc + Groups(a), g);
      LinkedCat(Emit(a, cc), Emit(b, cc + Groups(a)), g);
    }
    case Alt(a, b) => {
      EmitAlt(a, b, cc);
      LinkedEmit(a, cc, g);
      LinkedEmit(b, cc + Groups(a), g);
      LinkedAlt(Emit(a, cc), Emit(b, cc + Groups(a)), g);
    }
    case Capture(a) => {
      EmitCapture(a, cc);
      LinkedEmit(a, cc + 1, g);
      LinkedPlain(SaveStart(cc), g);
      LinkedPlain(SaveEnd(cc), g);
      LinkedBetween(SaveStart(cc), Emit(a, cc + 1), SaveEnd(cc), g);
    }
    case Quant(a, min, max, greedy) => {
      EmitQuant(a, min, max, greedy, cc);
      LinkedEmit(a, cc, g);
      LinkedQuant(Emit(a, cc), cc, Groups(a), min, max, greedy, g);
    }
    case Look(negated, a) => {
      EmitLook(negated, a, cc);
      LinkedEmit(a, cc, g);
      LinkedLook(negated, Emit(a, cc), g);
    }
    case _ => {
      EmitLeaf(r, cc);
      assert Emit(r, cc) == [Emit(r, cc)[0]];
      LinkedPlain(Emit(r, cc)[0], g);
    }
  }

  lemma EmitEmpty(cc: nat)
    ensures WellFormed(Empty) && Emit(Empty, cc) == []
  {
  }

  /** The search loop in front of the expression. */
  lemma {:induction false} LinkedPrelude(sticky: bool, g: nat)
    ensures Linked(Prelude(sticky), g)
  {
    hide Fit, Depth, Size;
    if sticky {
      LinkedEmpty(g);
    } else {
      var i, j := SplitGotoFirst(6), Goto(-11);
      var s := Prelude(sticky);
      NetOne(i);
      NetOne(Any);
      NetOne(j);
      NetAppend([i], [Any]);
      NetAppend([i] + [Any], [j]);
      SizeAppend([i], [Any]);
      SizeAppend([i] + [Any], [j]);
      NetEmpty();
      assert s == [i] + [Any] + [j];
      assert s == [] + [i] + [Any, j] && s == s + [] && s == [] + s;
      FitJump(s, [], i, [Any, j], s, [], g);
      assert s == [i] + [Any] + [j];
      FitPlain(s, [i], Any, [j], g);
      assert s == ([i] + [Any]) + [j] + [];
      FitJump(s, [i] + [Any], j, [], [], s, g);
    }
  }

  lemma {:induction false} LinkedProgram(r: Re, sticky: bool)
    requires WellFormed(r)
    ensures Linked(Program(r, sticky), 1 + Groups(r)) && |Program(r, sticky)| > 0
    ensures Program(r, sticky)[|Program(r, sticky)| - 1] == Match
  {
    hide Linked, Prelude, Emit, WellFormed, Groups;
    var g := 1 + Groups(r);
    LinkedPrelude(sticky, g);
    LinkedEmit(r, 1, g);
    LinkedPlain(SaveStart(0), g);
    LinkedPlain(SaveEnd(0), g);
    LinkedPlain(Match, g);
    LinkedBetween(SaveStart(0), Emit(r, 1), SaveEnd(0), g);
    var body := [SaveStart(0)] + Emit(r, 1) + [SaveEnd(0)];
    LinkedCat(Prelude(sticky), body, g);
    LinkedCat(Prelude(sticky) + body, [Match], g);
    assert Program(r, sticky) == Prelude(sticky) + body + [Match];
  }
}
