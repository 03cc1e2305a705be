/**
 What the two errors mean. PART: more bytes can make the text complete. INVAL: no bytes can.
 Texts have no zero byte, where the tokenizer would stop.
 */
module JsmnParts {
  import opened Basics
  import opened Jsmn
  import opened JsmnExact

  predicate NoZero(js: Bytes) {
    forall k | 0 <= k < |js| :: js[k] != 0
  }

  // ----- scans of a longer text -----

  lemma {:induction false} HexLonger(js: Bytes, t: Bytes, i: nat, k: nat)
    requires k <= 4 && i <= |js| && NoZero(js)
    ensures var r := HexEnd(js, i, k);
      (r.Bad? ==> HexEnd(js + t, i, k).Bad?) && (r.Found? && r.at < |js| ==> HexEnd(js + t, i, k) == r)
    decreases 4 - k
  {
    if k < 4 && i < |js| {
      assert (js + t)[i] == js[i];
      HexLonger(js, t, i + 1, k + 1);
    }
  }

  /** A string that ends, or that no string starts with, stays so. */
  lemma {:induction false} StringLonger(js: Bytes, t: Bytes, i: nat)
    requires i <= |js| && NoZero(js) && !StringEnd(js, i).Cut?
    ensures StringEnd(js + t, i) == StringEnd(js, i)
    decreases |js| - i
  {
    hide HexEnd;
    var u := js + t;
    assert i < |js| && u[i] == js[i];
    if js[i] == QUOTE {
    } else if js[i] == BACKSLASH && i + 1 < |js| {
      assert u[i + 1] == js[i + 1];
      if IsEscape(js[i + 1]) {
        StringLonger(js, t, i + 2);
      } else if js[i + 1] == 0x75 {
        HexLonger(js, t, i + 2, 0);
        match HexEnd(js, i + 2, 0)
        case Found(j) =>
          assert j < |js|;
          StringLonger(js, t, j);
        case _ =>
      }
    } else {
      StringLonger(js, t, i + 1);
    }
  }

  /** The digits missing from an escape, then the quote. */
  function Rest(n: nat): Bytes {
    seq(n, _ => '0' as nat) + ['"' as nat]
  }

  lemma {:induction false} HexCompletes(js: Bytes, i: nat, k: nat) returns (n: nat)
    requires k <= 4 && i <= |js| && NoZero(js) && HexEnd(js, i, k) == Found(|js|)
    ensures HexEnd(js + Rest(n), i, k) == Found(|js| + n)
    decreases 4 - k
  {
    if i < |js| && k < 4 {
      n := HexCompletes(js, i + 1, k + 1);
      assert (js + Rest(n))[i] == js[i];
    } else {
      assert i == |js|;
      n := 4 - k;
      var u := js + Rest(n);
      assert forall z | i <= z < i + n :: u[z] == '0' as nat;
      HexExact(u, i, k);
    }
  }

  /** A string cut off can be completed. */
  lemma {:induction false} StringCompletes(js: Bytes, i: nat) returns (t: Bytes)
    requires i <= |js| && NoZero(js) && StringEnd(js, i).Cut?
    ensures NoZero(t) && |t| > 0 && StringEnd(js + t, i) == Found(|js + t| - 1)
    decreases |js| - i
  {
    hide HexEnd;
    if i == |js| {
      t := [QUOTE];
      assert (js + t)[i] == QUOTE;
    } else if js[i] == BACKSLASH && i + 1 == |js| {
      t := [BACKSLASH, QUOTE];
      var u := js + t;
      assert u[i] == BACKSLASH && u[i + 1] == BACKSLASH && u[i + 2] == QUOTE;
      assert StringEnd(u, i + 2) == Found(i + 2);
    } else if js[i] == BACKSLASH {
      t := EscapeCompletes(js, i);
    } else {
      t := StringCompletes(js, i + 1);
      assert (js + t)[i] == js[i];
    }
  }

  lemma {:induction false} EscapeCompletes(js: Bytes, i: nat) returns (t: Bytes)
    requires i + 1 < |js| && js[i] == BACKSLASH && NoZero(js) && StringEnd(js, i).Cut?
    ensures NoZero(t) && |t| > 0 && StringEnd(js + t, i) == Found(|js + t| - 1)
    decreases |js| - i, 0
  {
    hide HexEnd;
    if js[i + 1] != 0x75 {
      t := StringCompletes(js, i + 2);
      assert (js + t)[i] == js[i] && (js + t)[i + 1] == js[i + 1];
      return;
    }
    var j := HexEnd(js, i + 2, 0).at;
    if j < |js| {
      t := StringCompletes(js, j);
      HexLonger(js, t, i + 2, 0);
    } else {
      var n := HexCompletes(js, i + 2, 0);
      t := Rest(n);
      var q := |js| + n;
      assert (js + t)[q] == QUOTE && StringEnd(js + t, q) == Found(q);
    }
    assert (js + t)[i] == js[i] && (js + t)[i + 1] == js[i + 1];
  }

  /** A primitive that ends before the end of the text, or that none starts with, stays so. */
  lemma {:induction false} PrimitiveLonger(js: Bytes, t: Bytes, i: nat)
    requires i <= |js| && NoZero(js)
    ensures var r := PrimitiveEnd(js, i);
      (r.Bad? ==> PrimitiveEnd(js + t, i).Bad?) && (r.Found? && r.at < |js| ==> PrimitiveEnd(js + t, i) == r)
    decreases |js| - i
  {
    if i < |js| {
      assert (js + t)[i] == js[i];
      PrimitiveLonger(js, t, i + 1);
    }
  }

  lemma {:induction false} PrimitiveToEnd(js: Bytes, t: Bytes, i: nat)
    requires i <= |js| && NoZero(js) && PrimitiveEnd(js, i) == Found(|js|) && (t == [] || IsDelimiter(t[0]))
    ensures PrimitiveEnd(js + t, i) == Found(|js|)
    decreases |js| - i
  {
    var u := js + t;
    if i < |js| {
      assert u[i] == js[i];
      PrimitiveToEnd(js, t, i + 1);
    } else if t != [] {
      assert u[i] == t[0];
    }
  }

  // ----- closing what is open -----

  /** The closing bracket of an object or array. */
  function Closer(k: Kind): Byte {
    if k == Object then '}' as nat else ']' as nat
  }

  predicate AllContainers(stack: seq<Kind>) {
    forall k | 0 <= k < |stack| :: stack[k] == Object || stack[k] == Array
  }

  function Closers(stack: seq<Kind>): Bytes {
    if stack == [] then [] else [Closer(stack[|stack| - 1])] + Closers(stack[..|stack| - 1])
  }

  lemma {:induction false} ClosersNoZero(stack: seq<Kind>)
    ensures NoZero(Closers(stack)) && (stack != [] ==> |Closers(stack)| > 0 && IsDelimiter(Closers(stack)[0]))
  {
    if stack != [] {
      ClosersNoZero(stack[..|stack| - 1]);
    }
  }

  /** A closing bracket that fits. */
  lemma {:induction false} CloseOne(u: Bytes, pos: nat, stack: seq<Kind>)
    requires stack != [] && AllContainers(stack) && pos < |u| && u[pos] == Closer(stack[|stack| - 1])
    ensures Brackets(u, pos, stack) == Brackets(u, pos + 1, stack[..|stack| - 1])
  {
    hide CountStep;
  }

  lemma {:induction false} ClosersClose(js: Bytes, stack: seq<Kind>)
    requires AllContainers(stack)
    ensures Brackets(js + Closers(stack), |js|, stack) == 0
    decreases |stack|
  {
    if stack == [] {
      EndBrackets(js + [], |js|, stack);
    } else {
      var n := |stack| - 1;
      var c, more := Closer(stack[n]), Closers(stack[..n]);
      assert Closers(stack) == [c] + more;
      hide Brackets, Closers, Closer;
      ClosersClose(js + [c], stack[..n]);
      assert js + ([c] + more) == js + [c] + more;
      CloseOne(js + ([c] + more), |js|, stack);
    }
  }

  // ----- the two errors -----

  /** One step of a longer text. */
  lemma {:induction false} StepLonger(js: Bytes, t: Bytes, pos: nat)
    requires pos < |js| && NoZero(js)
    ensures var r := CountStep(js, pos);
      && (r.Bad? ==> CountStep(js + t, pos).Bad?)
      && (r.Found? && (r.at < |js| || js[pos] == QUOTE || Counts(js[pos]) == 0 || IsOpen(js[pos])) ==>
            CountStep(js + t, pos) == r)
  {
    hide StringEnd, PrimitiveEnd;
    assert (js + t)[pos] == js[pos];
    if js[pos] == QUOTE {
      if !StringEnd(js, pos + 1).Cut? {
        StringLonger(js, t, pos + 1);
      }
    } else {
      PrimitiveLonger(js, t, pos);
    }
  }

  /** INVAL is final. */
  lemma {:induction false} InvalidStays(js: Bytes, t: Bytes, pos: nat, stack: seq<Kind>)
    requires NoZero(js) && pos <= |js| && Brackets(js, pos, stack) == INVAL
    ensures Brackets(js + t, pos, stack) == INVAL
    decreases |js| - pos
  {
    hide CountStep;
    assert pos < |js| && (js + t)[pos] == js[pos];
    if IsOpen(js[pos]) {
      InvalidStays(js, t, pos + 1, stack + [KindOf(js[pos])]);
    } else if IsClose(js[pos]) {
      if stack != [] && stack[|stack| - 1] == KindOf(js[pos]) {
        InvalidStays(js, t, pos + 1, stack[..|stack| - 1]);
      }
    } else {
      StepLonger(js, t, pos);
      match CountStep(js, pos)
      case Found(q) =>
        assert q < |js|;
        InvalidStays(js, t, q, stack);
      case _ =>
    }
  }

  /** PART can be repaired. */
  lemma {:induction false} PartCompletes(js: Bytes, pos: nat, stack: seq<Kind>) returns (t: Bytes)
    requires NoZero(js) && pos <= |js| && AllContainers(stack) && Brackets(js, pos, stack) == PART
    ensures NoZero(t) && Brackets(js + t, pos, stack) == 0
    decreases |js| - pos
  {
    hide CountStep, Closers;
    if pos == |js| {
      ClosersNoZero(stack);
      ClosersClose(js, stack);
      t := Closers(stack);
    } else if IsOpen(js[pos]) {
      t := PartCompletes(js, pos + 1, stack + [KindOf(js[pos])]);
      assert (js + t)[pos] == js[pos];
    } else if IsClose(js[pos]) {
      t := PartCompletes(js, pos + 1, stack[..|stack| - 1]);
      assert (js + t)[pos] == js[pos];
    } else {
      t := PlainCompletes(js, pos, stack);
    }
  }

  lemma {:induction false} PlainCompletes(js: Bytes, pos: nat, stack: seq<Kind>) returns (t: Bytes)
    requires NoZero(js) && pos < |js| && AllContainers(stack) && Brackets(js, pos, stack) == PART
    requires !IsOpen(js[pos]) && !IsClose(js[pos])
    ensures NoZero(t) && Brackets(js + t, pos, stack) == 0
    decreases |js| - pos, 0
  {
    hide StringEnd, PrimitiveEnd, Closers;
    match CountStep(js, pos)
    case Found(q) =>
      if q == |js| && js[pos] != QUOTE && Counts(js[pos]) == 1 {
        ClosersNoZero(stack);
        ClosersClose(js, stack);
        t := Closers(stack);
        assert Brackets(js, q, stack) == PART;
        PrimitiveToEnd(js, t, pos);
        assert (js + t)[pos] == js[pos];
      } else {
        t := PartCompletes(js, q, stack);
        StepLonger(js, t, pos);
        assert (js + t)[pos] == js[pos];
      }
    case Bad => assert false;
    case Cut => t := CutCompletes(js, pos, stack);
  }

  lemma {:induction false} CutCompletes(js: Bytes, pos: nat, stack: seq<Kind>) returns (t: Bytes)
    requires NoZero(js) && pos < |js| && AllContainers(stack) && CountStep(js, pos).Cut?
    ensures NoZero(t) && Brackets(js + t, pos, stack) == 0
  {
    hide StringEnd, PrimitiveEnd, Closers;
    PrimitiveNotCut(js, pos);
    assert js[pos] == QUOTE;
    var s := StringCompletes(js, pos + 1);
    var u, c := js + s, Closers(stack);
    ClosersNoZero(stack);
    ClosersClose(u, stack);
    StringLonger(u, c, pos + 1);
    t := s + c;
    assert js + t == u + c;
    assert (u + c)[pos] == js[pos];
  }

  lemma {:induction false} MatchedCounts(js: Bytes, pos: nat, stack: seq<Kind>, count: nat)
    requires Brackets(js, pos, stack) == 0
    ensures CountRun(js, pos, count).1 >= 0
    decreases |js| - pos
  {
    hide StringEnd, PrimitiveEnd;
    if !AtEnd(js, pos) {
      var q := CountStep(js, pos).at;
      var stack' :=
        if IsOpen(js[pos]) then stack + [KindOf(js[pos])]
        else if IsClose(js[pos]) then stack[..|stack| - 1] else stack;
      MatchedCounts(js, q, stack', count + Counts(js[pos]));
    }
  }

  /** A text reported as incomplete can be completed: with more bytes and room it succeeds. */
  lemma {:induction false} PartMeans(js: Bytes, n: nat) returns (t: Bytes, m: nat)
    requires NoZero(js) && Run(js, n, INIT).1 == -3
    ensures NoZero(t) && Run(js + t, m, INIT).1 >= 0
  {
    hide Run, Brackets, CountRun;
    assert OpenKinds(INIT.toks) == [];
    RunReports(js, n, INIT);
    if Brackets(js, 0, []) == 0 {
      MatchedCounts(js, 0, [], 0);
    }
    t := PartCompletes(js, 0, []);
    MatchedCounts(js + t, 0, [], 0);
    m := CountRun(js + t, 0, 0).1;
    CountThenRun(js + t, m, INIT);
  }

  /** A text reported as invalid stays so, whatever follows and however much room there is. */
  lemma {:induction false} InvalMeans(js: Bytes, n: nat, t: Bytes, m: nat)
    requires NoZero(js) && Run(js, n, INIT).1 == -2
    ensures Run(js + t, m, INIT).1 == -2 || Run(js + t, m, INIT).1 == -1
  {
    hide Run, Brackets, CountRun;
    assert OpenKinds(INIT.toks) == [];
    RunReports(js, n, INIT);
    if Brackets(js, 0, []) == 0 {
      MatchedCounts(js, 0, [], 0);
    }
    InvalidStays(js, t, 0, []);
    RunReports(js + t, m, INIT);
  }
}
