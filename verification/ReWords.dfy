/** Words and lines of a text, and that anchors, boundaries and the dot go by them. */
module ReWords {
  import opened ReText

  /** Digits, letters and the underscore. */
  predicate Letter(c: nat) {
    '0' as nat <= c <= '9' as nat || 'A' as nat <= c <= 'Z' as nat || 'a' as nat <= c <= 'z' as nat || c == '_' as nat
  }

  /** Line feed, carriage return, line and paragraph separator. */
  predicate Break(c: nat) {
    c == '\n' as nat || c == '\r' as nat || c == 0x2028 || c == 0x2029
  }

  /** A word: letters from s to e, and no letter next to them. */
  ghost predicate Word(s: seq<nat>, i: nat, j: nat) {
    && i < j <= |s| && (forall k | i <= k < j :: Letter(s[k]))
    && (i == 0 || !Letter(s[i - 1])) && (j == |s| || !Letter(s[j]))
  }

  /** A line, without the break behind it: it may be empty. */
  ghost predicate Line(s: seq<nat>, i: nat, j: nat) {
    && i <= j <= |s| && (forall k | i <= k < j :: !Break(s[k]))
    && (i == 0 || Break(s[i - 1])) && (j == |s| || Break(s[j]))
  }

  /** Where a word starts or ends. */
  ghost predicate WordEdge(s: seq<nat>, p: nat) {
    (exists j :: Word(s, p, j)) || exists i :: Word(s, i, p)
  }

  ghost predicate StartsLine(s: seq<nat>, p: nat) {
    exists j :: Line(s, p, j)
  }

  ghost predicate EndsLine(s: seq<nat>, p: nat) {
    exists i :: Line(s, i, p)
  }

  /** A place taken by a character of a line. */
  ghost predicate InLine(s: seq<nat>, p: nat) {
    exists i: nat, j: nat :: Line(s, i, j) && i <= p < j
  }

  lemma SameLetters(c: nat)
    ensures IsWordChar(c) <==> Letter(c)
    ensures IsLineTerminator(c) <==> Break(c)
  {
  }

  // ----- how far a run goes -----

  lemma {:induction false} LettersUp(s: seq<nat>, i: nat) returns (j: nat)
    requires i <= |s|
    ensures i <= j <= |s| && (forall k | i <= k < j :: Letter(s[k])) && (j == |s| || !Letter(s[j]))
    decreases |s| - i
  {
    if i < |s| && Letter(s[i]) {
      j := LettersUp(s, i + 1);
    } else {
      j := i;
    }
  }

  lemma {:induction false} LettersDown(s: seq<nat>, j: nat) returns (i: nat)
    requires j <= |s|
    ensures i <= j && (forall k | i <= k < j :: Letter(s[k])) && (i == 0 || !Letter(s[i - 1]))
    decreases j
  {
    if j > 0 && Letter(s[j - 1]) {
      i := LettersDown(s, j - 1);
    } else {
      i := j;
    }
  }

  lemma {:induction false} LineUp(s: seq<nat>, i: nat) returns (j: nat)
    requires i <= |s|
    ensures i <= j <= |s| && (forall k | i <= k < j :: !Break(s[k])) && (j == |s| || Break(s[j]))
    decreases |s| - i
  {
    if i < |s| && !Break(s[i]) {
      j := LineUp(s, i + 1);
    } else {
      j := i;
    }
  }

  lemma {:induction false} LineDown(s: seq<nat>, j: nat) returns (i: nat)
    requires j <= |s|
    ensures i <= j && (forall k | i <= k < j :: !Break(s[k])) && (i == 0 || Break(s[i - 1]))
    decreases j
  {
    if j > 0 && !Break(s[j - 1]) {
      i := LineDown(s, j - 1);
    } else {
      i := j;
    }
  }

  // ----- what the assertions mean -----

  /** A boundary is where a word starts or ends. */
  lemma BoundaryIsEdge(t: Text, p: nat)
    requires p <= |t.input|
    ensures AtWordBoundary(t, p) <==> WordEdge(t.input, p)
  {
    hide Letter, IsWordChar;
    var s := t.input;
    var before, behind := p > 0 && Letter(s[p - 1]), p < |s| && Letter(s[p]);
    assert AtWordBoundary(t, p) <==> before != behind by {
      if p > 0 {
        SameLetters(s[p - 1]);
      }
      if p < |s| {
        SameLetters(s[p]);
      }
    }
    if behind && !before {
      var j := LettersUp(s, p);
      assert Word(s, p, j);
    }
    if before && !behind {
      var i := LettersDown(s, p);
      assert Word(s, i, p);
    }
  }

  /** The start of the text or, with the flag, of any line. */
  lemma LineStartIs(t: Text, p: nat)
    requires p <= |t.input|
    ensures AtLineStart(t, p) <==> if t.multiLine then StartsLine(t.input, p) else p == 0
  {
    hide Break, IsLineTerminator;
    var s := t.input;
    if p > 0 {
      SameLetters(s[p - 1]);
    }
    var j := LineUp(s, p);
    assert p == 0 || Break(s[p - 1]) ==> Line(s, p, j);
  }

  /** The end of the text or, with the flag, of any line. */
  lemma LineEndIs(t: Text, p: nat)
    requires p <= |t.input|
    ensures AtLineEnd(t, p) <==> if t.multiLine then EndsLine(t.input, p) else p == |t.input|
  {
    hide Break, IsLineTerminator;
    var s := t.input;
    if p < |s| {
      SameLetters(s[p]);
    }
    var i := LineDown(s, p);
    assert p == |s| || Break(s[p]) ==> Line(s, i, p);
  }

  /** The dot takes the characters of lines. */
  lemma DotIs(s: seq<nat>, p: nat)
    requires p < |s|
    ensures !IsLineTerminator(s[p]) <==> InLine(s, p)
  {
    hide Break, IsLineTerminator;
    SameLetters(s[p]);
    if !Break(s[p]) {
      var i := LineDown(s, p);
      var j := LineUp(s, p);
      assert Line(s, i, j);
    }
  }
}
