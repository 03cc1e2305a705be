/**
 The JSON tokenizer as a function: one character position at a time over a flat sequence of
 tokens, with a limit on their number. Restarting and counting.
 */
module Jsmn {
  import opened Basics

  datatype Kind = Object | Array | String | Primitive

  /** A token; -1 as an end means the object or array is still open. */
  datatype Token = Token(kind: Kind, start: int, end: int, size: nat)

  /** Position, parent of the next token (-1 for none), tokens so far. */
  datatype State = State(pos: nat, super: int, toks: seq<Token>)

  predicate Valid(st: State) {
    -1 <= st.super < |st.toks|
  }

  const INIT: State := State(0, -1, [])

  const NOMEM: int := -1
  const INVAL: int := -2
  const PART: int := -3

  // ----- characters -----

  const QUOTE: Byte := 0x22
  const BACKSLASH: Byte := 0x5c
  const COLON: Byte := 0x3a
  const COMMA: Byte := 0x2c

  predicate IsSpace(c: Byte) {
    c == 0x09 || c == 0x0d || c == 0x0a || c == 0x20
  }

  predicate IsOpen(c: Byte) {
    c == 0x7b || c == 0x5b
  }

  predicate IsClose(c: Byte) {
    c == 0x7d || c == 0x5d
  }

  function KindOf(c: Byte): Kind {
    if c == 0x7b || c == 0x7d then Object else Array
  }

  /** What ends a primitive. */
  predicate IsDelimiter(c: Byte) {
    c == COLON || IsSpace(c) || c == COMMA || IsClose(c)
  }

  predicate IsHex(c: Byte) {
    48 <= c <= 57 || 65 <= c <= 70 || 97 <= c <= 102
  }

  /** Letters that may follow a backslash, apart from u. */
  predicate IsEscape(c: Byte) {
    c == QUOTE || c == 0x2f || c == BACKSLASH || c == 0x62 || c == 0x66 || c == 0x72 || c == 0x6e || c == 0x74
  }

  /** The input stops at its end or at a zero byte. */
  predicate AtEnd(js: seq<Byte>, pos: nat) {
    pos >= |js| || js[pos] == 0
  }

  // ----- scans -----

  datatype Scan = Found(at: nat) | Bad | Cut

  /** The end of a primitive. */
  function PrimitiveEnd(js: seq<Byte>, i: nat): (r: Scan)
    requires i <= |js|
    ensures r.Found? ==> i <= r.at <= |js|
    decreases |js| - i
  {
    if AtEnd(js, i) || IsDelimiter(js[i]) then Found(i)
    else if js[i] < 32 || js[i] >= 127 then Bad
    else PrimitiveEnd(js, i + 1)
  }

  /** Up to four hexadecimal digits, of which k have been seen. */
  function HexEnd(js: seq<Byte>, i: nat, k: nat): (r: Scan)
    requires k <= 4 && i <= |js|
    ensures !r.Cut? && (r.Found? ==> i <= r.at <= |js|)
    decreases 4 - k
  {
    if k == 4 || AtEnd(js, i) then Found(i)
    else if !IsHex(js[i]) then Bad
    else HexEnd(js, i + 1, k + 1)
  }

  /** The closing quote of a string. */
  function StringEnd(js: seq<Byte>, i: nat): (r: Scan)
    requires i <= |js|
    ensures r.Found? ==> i <= r.at < |js|
    decreases |js| - i
  {
    if AtEnd(js, i) then Cut
    else if js[i] == QUOTE then Found(i)
    else if js[i] == BACKSLASH && i + 1 < |js| then
      if IsEscape(js[i + 1]) then StringEnd(js, i + 2)
      else if js[i + 1] == 0x75 then
        match HexEnd(js, i + 2, 0)
        case Found(j) => StringEnd(js, j)
        case _ => Bad
      else Bad
    else StringEnd(js, i + 1)
  }

  // ----- tokens -----

  predicate Open(t: Token) {
    t.start != -1 && t.end == -1
  }

  /** The last open token, -1 if there is none. */
  function LastOpen(toks: seq<Token>): (i: int)
    ensures -1 <= i < |toks| && (i >= 0 ==> Open(toks[i]))
  {
    if toks == [] then -1
    else if Open(toks[|toks| - 1]) then |toks| - 1
    else LastOpen(toks[..|toks| - 1])
  }

  predicate IsContainer(t: Token) {
    t.kind.Array? || t.kind.Object?
  }

  /** The last open object or array, -1 if there is none. */
  function LastContainer(toks: seq<Token>): (i: int)
    ensures -1 <= i < |toks| && (i >= 0 ==> Open(toks[i]) && IsContainer(toks[i]))
  {
    if toks == [] then -1
    else if IsContainer(toks[|toks| - 1]) && Open(toks[|toks| - 1]) then |toks| - 1
    else LastContainer(toks[..|toks| - 1])
  }

  /** One more child for the parent. */
  function Bump(toks: seq<Token>, s: int): (r: seq<Token>)
    requires -1 <= s < |toks|
    ensures |r| == |toks|
  {
    if s == -1 then toks else toks[s := toks[s].(size := toks[s].size + 1)]
  }

  // ----- steps -----

  datatype Next = Go(st: State) | Halt(code: int)

  /** A new token as a child of the current parent. */
  function Add(st: State, n: nat, pos: nat, t: Token): Next
    requires Valid(st)
  {
    if |st.toks| >= n then Halt(NOMEM) else Go(State(pos, st.super, Bump(st.toks, st.super) + [t]))
  }

  function OpenStep(c: Byte, n: nat, st: State): Next
    requires Valid(st)
  {
    if |st.toks| >= n then Halt(NOMEM)
    else Go(State(st.pos + 1, |st.toks|, Bump(st.toks, st.super) + [Token(KindOf(c), st.pos, -1, 0)]))
  }

  function CloseStep(c: Byte, st: State): Next {
    var i := LastOpen(st.toks);
    if i == -1 || st.toks[i].kind != KindOf(c) then Halt(INVAL)
    else Go(State(st.pos + 1, LastOpen(st.toks[..i]), st.toks[i := st.toks[i].(end := st.pos + 1)]))
  }

  function StringStep(js: seq<Byte>, n: nat, st: State): Next
    requires Valid(st) && st.pos < |js|
  {
    match StringEnd(js, st.pos + 1)
    case Found(q) => Add(st, n, q + 1, Token(String, st.pos + 1, q, 0))
    case Bad => Halt(INVAL)
    case Cut => Halt(PART)
  }

  function PrimitiveStep(js: seq<Byte>, n: nat, st: State): Next
    requires Valid(st) && st.pos < |js|
  {
    match PrimitiveEnd(js, st.pos)
    case Found(q) => Add(st, n, q, Token(Primitive, st.pos, q, 0))
    case _ => Halt(INVAL)
  }

  /** After a comma the parent is the enclosing object or array again. */
  function CommaSuper(st: State): (s: int)
    requires Valid(st)
    ensures -1 <= s < |st.toks|
  {
    if st.super != -1 && !IsContainer(st.toks[st.super]) && LastContainer(st.toks) != -1 then LastContainer(st.toks)
        else st.super
  }

  /** One step from a position that is not at the end, with room for n tokens. */
  function Step(js: seq<Byte>, n: nat, st: State): (r: Next)
    requires Valid(st) && !AtEnd(js, st.pos)
    ensures r.Go? ==> Valid(r.st) && st.pos < r.st.pos <= |js|
  {
    var c := js[st.pos];
    if IsOpen(c) then OpenStep(c, n, st)
    else if IsClose(c) then CloseStep(c, st)
    else if c == QUOTE then StringStep(js, n, st)
    else if IsSpace(c) then Go(st.(pos := st.pos + 1))
    else if c == COLON then Go(State(st.pos + 1, |st.toks| - 1, st.toks))
    else if c == COMMA then Go(State(st.pos + 1, CommaSuper(st), st.toks))
    else PrimitiveStep(js, n, st)
  }

  /** At the end of the input: the number of tokens, unless something is still open. */
  function Final(toks: seq<Token>): int {
    if LastOpen(toks) != -1 then PART else |toks|
  }

  /** Tokenize from a state on: the state it stops in, and the result. */
  function Run(js: seq<Byte>, n: nat, st: State): (r: (State, int))
    requires Valid(st)
    ensures Valid(r.0)
    decreases |js| - st.pos
  {
    if AtEnd(js, st.pos) then (st, Final(st.toks))
    else
      match Step(js, n, st)
      case Go(st') => Run(js, n, st')
      case Halt(code) => (st, code)
  }

  // ----- restart -----

  /** More room changes nothing but a lack of room. */
  lemma StepRoom(js: seq<Byte>, n: nat, m: nat, st: State)
    requires Valid(st) && !AtEnd(js, st.pos) && n <= m
    ensures Step(js, n, st) != Halt(NOMEM) ==> Step(js, m, st) == Step(js, n, st)
  {
    hide StringEnd, PrimitiveEnd, LastOpen, LastContainer, Bump;
  }

  /**
   A run that was stopped for lack of room and resumed where it stopped, with more room, ends
   in the same tokens, state and result as one run with that room; and a run that was not
   stopped for lack of room does not depend on how much there is.
   */
  lemma {:induction false} Restart(js: seq<Byte>, n: nat, m: nat, st: State)
    requires Valid(st) && n <= m
    ensures var (stop, code) := Run(js, n, st);
      if code == NOMEM then Run(js, m, stop) == Run(js, m, st) else Run(js, m, st) == (stop, code)
    decreases |js| - st.pos
  {
    hide Step, LastOpen;
    if !AtEnd(js, st.pos) {
      StepRoom(js, n, m, st);
      match Step(js, n, st)
      case Go(st') => Restart(js, n, m, st');
      case Halt(code) =>
    }
  }

  /** Restarts with ever more room, each only if the one before lacked it. */
  function Resume(js: seq<Byte>, rooms: seq<nat>, st: State): (r: (State, int))
    requires Valid(st) && |rooms| > 0
    ensures Valid(r.0)
    decreases |rooms|
  {
    var (stop, code) := Run(js, rooms[0], st);
    if code == NOMEM && |rooms| > 1 then Resume(js, rooms[1..], stop) else (stop, code)
  }

  /** Any number of restarts ends like one run with the largest room. */
  lemma {:induction false} RestartMany(js: seq<Byte>, rooms: seq<nat>, m: nat, st: State)
    requires Valid(st) && |rooms| > 0 && rooms[|rooms| - 1] == m && forall k | 0 <= k < |rooms| :: rooms[k] <= m
    ensures Resume(js, rooms, st) == Run(js, m, st)
    decreases |rooms|
  {
    hide Run;
    Restart(js, rooms[0], m, st);
    var (stop, code) := Run(js, rooms[0], st);
    if code == NOMEM && |rooms| > 1 {
      assert rooms[1..][|rooms| - 2] == m;
      assert forall k | 0 <= k < |rooms| - 1 :: rooms[1..][k] == rooms[k + 1];
      RestartMany(js, rooms[1..], m, stop);
    }
  }

  // ----- counting -----

  /** One step without tokens: the next position, and whether a token would be added. */
  function CountStep(js: seq<Byte>, pos: nat): (r: Scan)
    requires !AtEnd(js, pos)
    ensures r.Found? ==> pos < r.at <= |js|
  {
    var c := js[pos];
    if c == QUOTE then
      match StringEnd(js, pos + 1)
      case Found(q) => Found(q + 1)
      case e => e
    else if IsOpen(c) || IsClose(c) || IsSpace(c) || c == COLON || c == COMMA then Found(pos + 1)
    else PrimitiveEnd(js, pos)
  }

  function Counts(c: Byte): nat {
    if IsClose(c) || IsSpace(c) || c == COLON || c == COMMA then 0 else 1
  }

  /** The run without tokens: where it stops, and the count or the error. */
  function CountRun(js: seq<Byte>, pos: nat, count: nat): (nat, int)
    decreases |js| - pos
  {
    if AtEnd(js, pos) then (pos, count)
    else
      match CountStep(js, pos)
      case Found(q) => CountRun(js, q, count + Counts(js[pos]))
      case Bad => (pos, INVAL)
      case Cut => (pos, PART)
  }

  /** How a step with tokens relates to one without. */
  lemma StepCounts(js: seq<Byte>, n: nat, st: State)
    requires Valid(st) && !AtEnd(js, st.pos)
    ensures match Step(js, n, st) {
      case Go(st') => CountStep(js, st.pos) == Found(st'.pos) && |st'.toks| == |st.toks| + Counts(js[st.pos])
          && (|st'.toks| > |st.toks| ==> |st'.toks| <= n)
      case Halt(code) =>
        if code == NOMEM then CountStep(js, st.pos).Found? && |st.toks| >= n && Counts(js[st.pos]) == 1
        else (code == PART && CountStep(js, st.pos) == Cut) || code == INVAL
    }
  {
    hide StringEnd, PrimitiveEnd, LastOpen, LastContainer, Bump;
    PrimitiveNotCut(js, st.pos);
  }

  lemma {:induction false} PrimitiveNotCut(js: seq<Byte>, i: nat)
    requires i <= |js|
    ensures !PrimitiveEnd(js, i).Cut?
    decreases |js| - i
  {
    if !AtEnd(js, i) {
      PrimitiveNotCut(js, i + 1);
    }
  }

  /** A successful run has as many tokens as it reports, and the run without tokens reports the same. */
  lemma {:induction false} CountAgrees(js: seq<Byte>, n: nat, st: State)
    requires Valid(st) && Run(js, n, st).1 >= 0
    ensures var (end, code) := Run(js, n, st);
      code == |end.toks| && CountRun(js, st.pos, |st.toks|) == (end.pos, code)
    decreases |js| - st.pos
  {
    hide Step, CountStep, LastOpen;
    if !AtEnd(js, st.pos) {
      StepCounts(js, n, st);
      CountAgrees(js, n, Step(js, n, st).st);
    }
  }

  /** The count never goes down. */
  lemma {:induction false} CountGrows(js: seq<Byte>, pos: nat, count: nat)
    ensures CountRun(js, pos, count).1 < 0 || CountRun(js, pos, count).1 >= count
    decreases |js| - pos
  {
    hide CountStep;
    if !AtEnd(js, pos) {
      match CountStep(js, pos)
      case Found(q) => CountGrows(js, q, count + Counts(js[pos]));
      case _ =>
    }
  }

  /**
   The count found without tokens is exactly enough: with that much room a run does not lack
   room, and with less it does not succeed.
   */
  lemma {:induction false} CountSuffices(js: seq<Byte>, n: nat, st: State)
    requires Valid(st) && CountRun(js, st.pos, |st.toks|).1 >= 0
    ensures n >= CountRun(js, st.pos, |st.toks|).1 ==> Run(js, n, st).1 != NOMEM
    ensures n < CountRun(js, st.pos, |st.toks|).1 && |st.toks| <= n ==>
        Run(js, n, st).1 == NOMEM || Run(js, n, st).1 == INVAL
    decreases |js| - st.pos
  {
    hide Step, CountStep, LastOpen;
    if !AtEnd(js, st.pos) {
      StepCounts(js, n, st);
      match Step(js, n, st)
      case Go(st') => CountSuffices(js, n, st');
      case Halt(code) =>
        if code == NOMEM {
          CountGrows(js, CountStep(js, st.pos).at, |st.toks| + 1);
        }
    }
  }

  // ----- when a counted text tokenizes -----

  /**
   The text read for its brackets alone: every closing bracket answers the last one still open,
   and none is left. 0 if so, else the error; strings and primitives are skipped.
   */
  function Brackets(js: seq<Byte>, pos: nat, stack: seq<Kind>): int
    decreases |js| - pos
  {
    if AtEnd(js, pos) then (if stack == [] then 0 else PART)
    else if IsOpen(js[pos]) then Brackets(js, pos + 1, stack + [KindOf(js[pos])])
    else if IsClose(js[pos]) then
      if stack == [] || stack[|stack| - 1] != KindOf(js[pos]) then INVAL
      else Brackets(js, pos + 1, stack[..|stack| - 1])
    else
      match CountStep(js, pos)
      case Found(q) => Brackets(js, q, stack)
      case Bad => INVAL
      case Cut => PART
  }

  /** The kinds of the open tokens, outermost first. */
  function OpenKinds(toks: seq<Token>): seq<Kind> {
    if toks == [] then []
    else
      var t := toks[|toks| - 1];
      OpenKinds(toks[..|toks| - 1]) + if Open(t) then [t.kind] else []
  }

  lemma OpenSnoc(toks: seq<Token>, t: Token)
    ensures OpenKinds(toks + [t]) == OpenKinds(toks) + if Open(t) then [t.kind] else []
  {
    hide Open;
    assert (toks + [t])[..|toks|] == toks;
  }

  /** A change of token i that leaves it open or closed as it was. */
  lemma {:induction false} OpenSame(toks: seq<Token>, i: nat, t: Token)
    requires i < |toks| && Open(t) == Open(toks[i]) && t.kind == toks[i].kind
    ensures OpenKinds(toks[i := t]) == OpenKinds(toks)
    decreases |toks|
  {
    hide Open;
    var last := |toks| - 1;
    if i < last {
      assert toks[i := t][..last] == toks[..last][i := t];
      OpenSame(toks[..last], i, t);
    } else {
      assert toks[i := t][..last] == toks[..last];
    }
  }

  lemma OpenBump(toks: seq<Token>, s: int)
    requires -1 <= s < |toks|
    ensures OpenKinds(Bump(toks, s)) == OpenKinds(toks)
  {
    hide OpenKinds;
    if s != -1 {
      OpenSame(toks, s, toks[s].(size := toks[s].size + 1));
    }
  }

  /** Closing the last open token takes the last kind away. */
  lemma {:induction false} OpenClose(toks: seq<Token>, end: nat)
    ensures var i, k := LastOpen(toks), OpenKinds(toks);
      if i == -1 then k == []
      else k != [] && k[|k| - 1] == toks[i].kind && OpenKinds(toks[i := toks[i].(end := end)]) == k[..|k| - 1]
    decreases |toks|
  {
    if toks != [] {
      var last := |toks| - 1;
      if !Open(toks[last]) {
        OpenClose(toks[..last], end);
        var i := LastOpen(toks);
        if i != -1 {
          var t := toks[i].(end := end);
          assert toks[i := t][..last] == toks[..last][i := t];
        }
      } else {
        var t := toks[last].(end := end);
        assert toks[last := t][..last] == toks[..last];
      }
    }
  }

  /** One step of the tokenizer is one step of the bracket reader. */
  lemma {:induction false} StepBrackets(js: seq<Byte>, n: nat, st: State)
    requires Valid(st) && !AtEnd(js, st.pos)
    ensures match Step(js, n, st) {
      case Go(st') => Brackets(js, st.pos, OpenKinds(st.toks)) == Brackets(js, st'.pos, OpenKinds(st'.toks))
      case Halt(code) => code == NOMEM || code == Brackets(js, st.pos, OpenKinds(st.toks))
    }
  {
    hide StringEnd, PrimitiveEnd, LastOpen, LastContainer, Bump, OpenKinds;
    var c := js[st.pos];
    PrimitiveNotCut(js, st.pos);
    OpenBump(st.toks, st.super);
    if IsOpen(c) {
      OpenSnoc(Bump(st.toks, st.super), Token(KindOf(c), st.pos, -1, 0));
    } else if IsClose(c) {
      OpenClose(st.toks, st.pos + 1);
    } else {
      match Step(js, n, st)
      case Go(st') => SameBrackets(js, n, st);
      case Halt(_) =>
    }
  }

  lemma SameBrackets(js: seq<Byte>, n: nat, st: State)
    requires Valid(st) && !AtEnd(js, st.pos) && !IsOpen(js[st.pos]) && !IsClose(js[st.pos]) && Step(js, n, st).Go?
    ensures OpenKinds(Step(js, n, st).st.toks) == OpenKinds(st.toks)
  {
    hide StringEnd, PrimitiveEnd, LastOpen, LastContainer, Bump, OpenKinds, CommaSuper;
    OpenBump(st.toks, st.super);
    var st' := Step(js, n, st).st;
    if |st'.toks| > |st.toks| {
      OpenSnoc(Bump(st.toks, st.super), st'.toks[|st.toks|]);
    }
  }

  /**
   What a run reports, for every text and every room: lack of room, or else the count where the
   brackets match and the bracket error where they do not.
   */
  lemma {:induction false} RunReports(js: seq<Byte>, n: nat, st: State)
    requires Valid(st)
    ensures var code, b := Run(js, n, st).1, Brackets(js, st.pos, OpenKinds(st.toks));
      code == NOMEM || code == if b == 0 then CountRun(js, st.pos, |st.toks|).1 else b
    decreases |js| - st.pos
  {
    hide Step, CountStep, Brackets, OpenKinds, LastOpen;
    if AtEnd(js, st.pos) {
      OpenClose(st.toks, 0);
      EndBrackets(js, st.pos, OpenKinds(st.toks));
    } else {
      StepCounts(js, n, st);
      StepBrackets(js, n, st);
      match Step(js, n, st)
      case Go(st') => RunReports(js, n, st');
      case Halt(code) => HaltNegative(js, n, st);
    }
  }

  lemma EndBrackets(js: seq<Byte>, pos: nat, stack: seq<Kind>)
    requires AtEnd(js, pos)
    ensures Brackets(js, pos, stack) == if stack == [] then 0 else PART
  {
  }

  lemma HaltNegative(js: seq<Byte>, n: nat, st: State)
    requires Valid(st) && !AtEnd(js, st.pos) && Step(js, n, st).Halt?
    ensures Step(js, n, st).code < 0
  {
    hide StringEnd, PrimitiveEnd, LastOpen, LastContainer, Bump, CommaSuper;
  }

  /**
   After a successful count, a run with that much room fails exactly if the brackets do not match:
   with INVAL at a wrong closing bracket, with PART if one is still open at the end.
   */
  lemma CountThenRun(js: seq<Byte>, n: nat, st: State)
    requires Valid(st) && 0 <= CountRun(js, st.pos, |st.toks|).1 <= n
    ensures var code, b := Run(js, n, st).1, Brackets(js, st.pos, OpenKinds(st.toks));
      && code == (if b == 0 then CountRun(js, st.pos, |st.toks|).1 else b)
      && (code >= 0 <==> b == 0)
  {
    hide Run, CountRun, Brackets, OpenKinds;
    CountSuffices(js, n, st);
    RunReports(js, n, st);
    BracketCodes(js, st.pos, OpenKinds(st.toks));
  }

  lemma {:induction false} BracketCodes(js: seq<Byte>, pos: nat, stack: seq<Kind>)
    ensures var b := Brackets(js, pos, stack); b == 0 || b == INVAL || b == PART
    decreases |js| - pos
  {
    hide CountStep, KindOf;
    if !AtEnd(js, pos) {
      if IsOpen(js[pos]) {
        BracketCodes(js, pos + 1, stack + [KindOf(js[pos])]);
      } else if IsClose(js[pos]) {
        if stack != [] {
          BracketCodes(js, pos + 1, stack[..|stack| - 1]);
        }
      } else {
        match CountStep(js, pos)
        case Found(q) => BracketCodes(js, q, stack);
        case _ =>
      }
    }
  }
}
