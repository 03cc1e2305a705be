/** The tokenizer as the source runs it: parser fields and a token array updated step by step. */
module JsmnParser {
  import opened Basics
  import opened Jsmn

  /** The state before and after a step, positions on a character: as it should be, or unchanged with an error. */
  ghost predicate Did(step: Next, before: State, now: State, r: int) {
    match step
    case Go(st) => r == 0 && now.(pos := now.pos + 1) == st
    case Halt(code) => r == code && now == before
  }

  class Parser {
    var pos: nat
    var toknext: nat
    var toksuper: int

    constructor ()
      ensures pos == 0 && toknext == 0 && toksuper == -1
    {
      pos, toknext, toksuper := 0, 0, -1;
    }

    /** The parser's fields make sense for this array. */
    ghost predicate Ready(tokens: array?<Token>)
      reads this
    {
      -1 <= toksuper && (tokens != null ==> toksuper < toknext <= tokens.Length)
    }

    /** The state, with the position p. */
    ghost function At(p: nat, tokens: array<Token>): State
      requires toknext <= tokens.Length
      reads this, tokens
    {
      State(p, toksuper, tokens[..toknext])
    }

    /** The index of a fresh token, -1 if there is none left. */
    method AllocToken(tokens: array<Token>) returns (i: int)
      requires toknext <= tokens.Length
      modifies this`toknext, tokens
      ensures old(toknext) >= tokens.Length ==> i == -1 && toknext == old(toknext) && tokens[..] == old(tokens[..])
      ensures old(toknext) < tokens.Length ==>
        && i == old(toknext) && toknext == i + 1
        && tokens[..] == old(tokens[..])[i := Token(old(tokens[toknext]).kind, -1, -1, 0)]
    {
      if toknext >= tokens.Length {
        return -1;
      }
      i := toknext;
      toknext := toknext + 1;
      tokens[i] := Token(tokens[i].kind, -1, -1, 0);
    }

    /** A token for a string or primitive, if there is room. */
    method PutToken(tokens: array<Token>, t: Token) returns (ok: bool)
      requires toknext <= tokens.Length
      modifies this`toknext, tokens
      ensures ok == (old(toknext) < tokens.Length)
      ensures !ok ==> toknext == old(toknext) && tokens[..] == old(tokens[..])
      ensures ok ==> toknext == old(toknext) + 1 && tokens[..toknext] == old(tokens[..toknext]) + [t]
    {
      var i := AllocToken(tokens);
      ok := i != -1;
      if ok {
        tokens[i] := t;
      }
    }

    /** A primitive: its token, and the position of its last character. */
    method ParsePrimitive(js: seq<Byte>, tokens: array?<Token>) returns (r: int)
      requires Ready(tokens) && !AtEnd(js, pos) && !IsDelimiter(js[pos])
      modifies this`pos, this`toknext, tokens
      ensures match PrimitiveEnd(js, old(pos)) {
        case Found(q) =>
          if tokens != null && old(toknext) == tokens.Length
              then r == NOMEM && pos == old(pos) && toknext == old(toknext) && tokens[..] == old(tokens[..])
          else
            && r == 0 && pos + 1 == q
            && (tokens == null ==> toknext == old(toknext))
            && (tokens != null ==>
                 toknext == old(toknext) + 1 <= tokens.Length
                     && tokens[..toknext] == old(tokens[..toknext]) + [Token(Primitive, old(pos), q, 0)])
        case _ => r == INVAL && pos == old(pos) && toknext == old(toknext)
            && (tokens != null ==> tokens[..] == old(tokens[..]))
      }
    {
      hide PrimitiveEnd;
      var start := pos;
      while pos < |js| && js[pos] != 0
        invariant start <= pos <= |js| && PrimitiveEnd(js, start) == PrimitiveEnd(js, pos)
        invariant pos == start ==> !AtEnd(js, pos) && !IsDelimiter(js[pos])
        invariant toknext == old(toknext) && (tokens != null ==> tokens[..] == old(tokens[..]))
      {
        PrimitiveGo(js, pos);
        if IsDelimiter(js[pos]) {
          break;
        }
        if js[pos] < 32 || js[pos] >= 127 {
          pos := start;
          return INVAL;
        }
        pos := pos + 1;
      }
      PrimitiveStop(js, pos);
      if tokens == null {
        pos := pos - 1;
        return 0;
      }
      var ok := PutToken(tokens, Token(Primitive, start, pos, 0));
      if !ok {
        pos := start;
        return NOMEM;
      }
      pos := pos - 1;
      r := 0;
    }

    /** The digits of a \u escape. */
    method SkipHex(js: seq<Byte>) returns (ok: bool)
      requires pos <= |js|
      modifies this`pos
      ensures match HexEnd(js, old(pos), 0) {
        case Found(q) => ok && pos == q
        case _ => !ok
      }
    {
      var i := 0;
      while i < 4 && pos < |js| && js[pos] != 0
        invariant 0 <= i <= 4 && pos <= |js| && HexEnd(js, old(pos), 0) == HexEnd(js, pos, i)
      {
        if !IsHex(js[pos]) {
          return false;
        }
        pos := pos + 1;
        i := i + 1;
      }
      ok := true;
    }

    /** To the closing quote: 0, or an error. */
    method SkipString(js: seq<Byte>) returns (r: int)
      requires pos < |js|
      modifies this`pos
      ensures match StringEnd(js, old(pos) + 1) {
        case Found(q) => r == 0 && pos == q
        case Bad => r == INVAL && pos == old(pos)
        case Cut => r == PART && pos == old(pos)
      }
    {
      hide StringEnd;
      var start := pos;
      pos := pos + 1;
      while pos < |js| && js[pos] != 0
        invariant start < pos <= |js| && StringEnd(js, start + 1) == StringEnd(js, pos)
      {
        StringGo(js, pos);
        var c := js[pos];
        if c == QUOTE {
          return 0;
        }
        if c == BACKSLASH && pos + 1 < |js| {
          pos := pos + 1;
          var e := js[pos];
          if e == 0x75 {
            pos := pos + 1;
            var ok := SkipHex(js);
            if !ok {
              pos := start;
              return INVAL;
            }
            pos := pos - 1;
          } else if !IsEscape(e) {
            pos := start;
            return INVAL;
          }
        }
        pos := pos + 1;
      }
      StringStop(js, pos);
      pos := start;
      r := PART;
    }

    /** A string: its token, and the position of its closing quote. */
    method ParseString(js: seq<Byte>, tokens: array?<Token>) returns (r: int)
      requires Ready(tokens) && pos < |js|
      modifies this`pos, this`toknext, tokens
      ensures match StringEnd(js, old(pos) + 1) {
        case Found(q) =>
          if tokens != null && old(toknext) == tokens.Length
              then r == NOMEM && pos == old(pos) && toknext == old(toknext) && tokens[..] == old(tokens[..])
          else
            && r == 0 && pos == q
            && (tokens == null ==> toknext == old(toknext))
            && (tokens != null ==>
                 toknext == old(toknext) + 1 <= tokens.Length
                     && tokens[..toknext] == old(tokens[..toknext]) + [Token(String, old(pos) + 1, q, 0)])
        case e => r == (if e == Bad then INVAL else PART) && pos == old(pos) && toknext == old(toknext)
            && (tokens != null ==> tokens[..] == old(tokens[..]))
      }
    {
      hide StringEnd;
      var start := pos;
      r := SkipString(js);
      if r == 0 && tokens != null {
        var ok := PutToken(tokens, Token(String, start + 1, pos, 0));
        if !ok {
          pos := start;
          return NOMEM;
        }
      }
    }

    /** One more child for the parent. */
    method CountChild(tokens: array?<Token>)
      requires Ready(tokens)
      modifies tokens
      ensures tokens != null ==> tokens[..toknext] == Bump(old(tokens[..toknext]), toksuper)
    {
      if toksuper != -1 && tokens != null {
        tokens[toksuper] := tokens[toksuper].(size := tokens[toksuper].size + 1);
      }
    }

    /** An opening brace or bracket. */
    method OpenContainer(c: Byte, tokens: array<Token>) returns (r: int)
      requires Ready(tokens)
      modifies this`toknext, this`toksuper, tokens
      ensures Ready(tokens)
      ensures Did(OpenStep(c, tokens.Length, old(At(pos, tokens))), old(At(pos, tokens)), At(pos, tokens), r)
    {
      var i := AllocToken(tokens);
      if i == -1 {
        return NOMEM;
      }
      if toksuper != -1 {
        tokens[toksuper] := tokens[toksuper].(size := tokens[toksuper].size + 1);
      }
      tokens[i] := Token(KindOf(c), pos, tokens[i].end, tokens[i].size);
      toksuper := toknext - 1;
      r := 0;
      ghost var was := old(tokens[..toknext]);
      assert tokens[..toknext] == Bump(was, old(toksuper)) + [Token(KindOf(c), pos, -1, 0)];
    }

    /** The last open token before index `from`. */
    method FindOpen(tokens: array<Token>, from: nat) returns (i: int)
      requires from <= tokens.Length
      ensures i == LastOpen(tokens[..from])
    {
      i := from - 1;
      while i >= 0
        invariant -1 <= i < from && LastOpen(tokens[..from]) == LastOpen(tokens[..i + 1])
      {
        assert tokens[..i + 1][..i] == tokens[..i];
        if tokens[i].start != -1 && tokens[i].end == -1 {
          return;
        }
        i := i - 1;
      }
    }

    /** The last open object or array. */
    method FindContainer(tokens: array<Token>, from: nat) returns (i: int)
      requires from <= tokens.Length
      ensures i == LastContainer(tokens[..from])
    {
      i := from - 1;
      while i >= 0
        invariant -1 <= i < from && LastContainer(tokens[..from]) == LastContainer(tokens[..i + 1])
      {
        assert tokens[..i + 1][..i] == tokens[..i];
        if tokens[i].kind == Array || tokens[i].kind == Object {
          if tokens[i].start != -1 && tokens[i].end == -1 {
            return;
          }
        }
        i := i - 1;
      }
    }

    /** A closing brace or bracket: close the last open token, and find the one around it. */
    method CloseContainer(c: Byte, tokens: array<Token>) returns (r: int)
      requires Ready(tokens)
      modifies this`toksuper, tokens
      ensures Ready(tokens) && Did(CloseStep(c, old(At(pos, tokens))), old(At(pos, tokens)), At(pos, tokens), r)
    {
      hide LastOpen;
      var i := FindOpen(tokens, toknext);
      if i == -1 {
        return INVAL;
      }
      if tokens[i].kind != KindOf(c) {
        return INVAL;
      }
      ghost var was := tokens[..toknext];
      toksuper := -1;
      tokens[i] := tokens[i].(end := pos + 1);
      assert tokens[..toknext] == was[i := was[i].(end := pos + 1)];
      var outer := FindOpen(tokens, i + 1);
      assert tokens[..i + 1] == was[..i] + [tokens[i]];
      ClosedLast(was[..i], tokens[i]);
      if outer != -1 {
        toksuper := outer;
      }
      r := 0;
    }

    /** A comma: back to the enclosing object or array. */
    method Comma(tokens: array?<Token>)
      requires Ready(tokens)
      modifies this`toksuper
      ensures tokens == null ==> toksuper == old(toksuper)
      ensures tokens != null ==> toksuper == CommaSuper(old(At(pos, tokens)))
    {
      hide LastContainer;
      if tokens != null && toksuper != -1 && tokens[toksuper].kind != Array && tokens[toksuper].kind != Object {
        var i := FindContainer(tokens, toknext);
        if i >= 0 {
          toksuper := i;
        }
      }
    }

    /** One more child for the parent of the token just added. */
    method CountAdded(tokens: array?<Token>, ghost was: seq<Token>, ghost t: Token)
      requires -1 <= toksuper
      requires tokens != null ==>
          toksuper < |was| && toknext == |was| + 1 <= tokens.Length && tokens[..toknext] == was + [t]
      modifies tokens
      ensures tokens != null ==> tokens[..toknext] == Bump(was, toksuper) + [t]
    {
      hide Bump;
      CountChild(tokens);
      if tokens != null {
        BumpAppend(was, t, toksuper);
      }
    }

    /** A string, counted as a child of its parent. */
    method StringValue(js: seq<Byte>, tokens: array?<Token>) returns (r: int)
      requires Ready(tokens) && !AtEnd(js, pos) && js[pos] == QUOTE
      modifies this`pos, this`toknext, tokens
      ensures Ready(tokens)
      ensures tokens != null ==>
          Did(StringStep(js, tokens.Length, old(At(pos, tokens))), old(At(pos, tokens)), At(pos, tokens), r)
      ensures tokens == null ==> toknext == old(toknext) && match CountStep(js, old(pos)) {
        case Found(q) => r == 0 && pos + 1 == q
        case Bad => r == INVAL && pos == old(pos)
        case Cut => r == PART && pos == old(pos)
      }
    {
      hide StringEnd, Bump;
      ghost var start, was := pos, if tokens == null then [] else tokens[..toknext];
      r := ParseString(js, tokens);
      if r == 0 {
        CountAdded(tokens, was, Token(String, start + 1, pos, 0));
      }
    }

    /** A primitive, counted as a child of its parent. */
    method PrimitiveValue(js: seq<Byte>, tokens: array?<Token>) returns (r: int)
      requires Ready(tokens) && !AtEnd(js, pos) && !IsDelimiter(js[pos]) && !IsOpen(js[pos]) && js[pos] != QUOTE
      modifies this`pos, this`toknext, tokens
      ensures Ready(tokens)
      ensures tokens != null ==>
          Did(PrimitiveStep(js, tokens.Length, old(At(pos, tokens))), old(At(pos, tokens)), At(pos, tokens), r)
      ensures tokens == null ==> toknext == old(toknext) && match CountStep(js, old(pos)) {
        case Found(q) => r == 0 && pos + 1 == q
        case Bad => r == INVAL && pos == old(pos)
        case Cut => r == PART && pos == old(pos)
      }
    {
      hide PrimitiveEnd, Bump;
      PrimitiveNotCut(js, pos);
      ghost var start, was := pos, if tokens == null then [] else tokens[..toknext];
      r := ParsePrimitive(js, tokens);
      if r == 0 {
        CountAdded(tokens, was, Token(Primitive, start, pos + 1, 0));
      }
    }

    /** One character position: 0, or an error. */
    method Advance(js: seq<Byte>, tokens: array?<Token>) returns (r: int)
      requires Ready(tokens) && !AtEnd(js, pos)
      modifies this, tokens
      ensures Ready(tokens)
      ensures tokens != null ==>
          Did(Step(js, tokens.Length, old(At(pos, tokens))), old(At(pos, tokens)), At(pos, tokens), r)
      ensures tokens == null ==> toknext == old(toknext) && match CountStep(js, old(pos)) {
        case Found(q) => r == 0 && pos + 1 == q
        case Bad => r == INVAL && pos == old(pos)
        case Cut => r == PART && pos == old(pos)
      }
    {
      hide OpenStep, CloseStep, StringStep, PrimitiveStep, CommaSuper, StringEnd, PrimitiveEnd, Bump;
      var c := js[pos];
      r := 0;
      if IsOpen(c) {
        if tokens != null {
          r := OpenContainer(c, tokens);
        }
      } else if IsClose(c) {
        if tokens != null {
          r := CloseContainer(c, tokens);
        }
      } else if IsSpace(c) {
      } else if c == COLON {
        toksuper := toknext - 1;
      } else if c == COMMA {
        Comma(tokens);
      } else if c == QUOTE {
        r := StringValue(js, tokens);
      } else {
        r := PrimitiveValue(js, tokens);
      }
    }

    /**
     Tokenize from the parser's state on. With an array, exactly the run of the tokenizer with
     room for its length; without, exactly the count.
     */
    method Parse(js: seq<Byte>, tokens: array?<Token>) returns (r: int)
      requires Ready(tokens)
      modifies this, tokens
      ensures Ready(tokens)
      ensures tokens != null ==> (At(pos, tokens), r) == Run(js, tokens.Length, old(At(pos, tokens)))
      ensures tokens == null ==> toknext == old(toknext) && (pos, r) == CountRun(js, old(pos), toknext)
    {
      hide Step, CountStep, LastOpen;
      var count := toknext;
      ghost var n, st := if tokens == null then 0 else tokens.Length, if tokens == null then INIT else At(pos, tokens);
      ghost var pos0 := pos;
      while pos < |js| && js[pos] != 0
        invariant Ready(tokens) && (if tokens == null then toknext == old(toknext) else count == toknext)
        invariant tokens != null ==> Run(js, n, st) == Run(js, n, At(pos, tokens))
        invariant tokens == null ==> CountRun(js, pos0, toknext) == CountRun(js, pos, count)
        decreases |js| - pos
      {
        var c := js[pos];
        ghost var cur := if tokens == null then INIT else At(pos, tokens);
        if tokens != null {
          StepCounts(js, n, cur);
        }
        r := Advance(js, tokens);
        if r != 0 {
          return;
        }
        if !(IsClose(c) || IsSpace(c) || c == COLON || c == COMMA) {
          count := count + 1;
        }
        pos := pos + 1;
      }
      if tokens != null {
        var i := FindOpen(tokens, toknext);
        if i >= 0 {
          return PART;
        }
      }
      r := count;
    }
  }

  lemma ClosedLast(toks: seq<Token>, t: Token)
    requires t.end != -1
    ensures LastOpen(toks + [t]) == LastOpen(toks)
  {
    assert (toks + [t])[..|toks|] == toks;
  }

  lemma BumpAppend(toks: seq<Token>, t: Token, s: int)
    requires -1 <= s < |toks|
    ensures Bump(toks + [t], s) == Bump(toks, s) + [t]
  {
  }

  // ----- one step of a scan -----

  lemma PrimitiveGo(js: seq<Byte>, i: nat)
    requires !AtEnd(js, i)
    ensures PrimitiveEnd(js, i) == if IsDelimiter(js[i]) then Found(i) else if js[i] < 32 || js[i] >= 127 then Bad
        else PrimitiveEnd(js, i + 1)
  {
  }

  lemma PrimitiveStop(js: seq<Byte>, i: nat)
    requires i <= |js| && (AtEnd(js, i) || IsDelimiter(js[i]))
    ensures PrimitiveEnd(js, i) == Found(i)
  {
  }

  lemma StringGo(js: seq<Byte>, i: nat)
    requires !AtEnd(js, i)
    ensures StringEnd(js, i) ==
      if js[i] == QUOTE then Found(i)
      else if js[i] == BACKSLASH && i + 1 < |js| then
        if IsEscape(js[i + 1]) then StringEnd(js, i + 2)
        else if js[i + 1] == 0x75 then
          match HexEnd(js, i + 2, 0)
          case Found(j) => StringEnd(js, j)
          case _ => Bad
        else Bad
      else StringEnd(js, i + 1)
  {
    hide HexEnd;
  }

  lemma StringStop(js: seq<Byte>, i: nat)
    requires i <= |js| && AtEnd(js, i)
    ensures StringEnd(js, i) == Cut
  {
  }
}
