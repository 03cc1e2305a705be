/** What the tokenizer's character classes and scans accept, byte by byte. */
module JsmnExact {
  import opened Basics
  import opened Jsmn
  import opened JsonText

  /** The classes of bytes are those of the grammar. */
  lemma {:induction false} ByteClasses(c: Byte)
    ensures IsSpace(c) <==> Blank(c)
    ensures IsEscape(c) <==> Escapable(c)
    ensures IsHex(c) <==> HexDigit(c)
    ensures IsOpen(c) <==> Is(c, '{') || Is(c, '[')
    ensures IsClose(c) <==> Is(c, '}') || Is(c, ']')
    ensures IsDelimiter(c) <==> Blank(c) || Is(c, ':') || Is(c, ',') || Is(c, '}') || Is(c, ']')
    ensures IsOpen(c) || IsClose(c) ==> (KindOf(c) == Object <==> Is(c, '{') || Is(c, '}'))
    ensures (c == QUOTE <==> Is(c, '"')) && (c == BACKSLASH <==> Is(c, '\\'))
    ensures (c == COLON <==> Is(c, ':')) && (c == COMMA <==> Is(c, ','))
  {
  }

  /** Strings as the tokenizer takes them: like the grammar's, but any other byte except zero counts as plain. */
  predicate LooseText(s: Bytes)
    decreases |s|
  {
    if s == [] then true
    else if Is(s[0], '\\') then
      |s| > 1 &&
      if Is(s[1], 'u') then |s| >= 6 && (forall k | 2 <= k < 6 :: HexDigit(s[k])) && LooseText(s[6..])
      else Escapable(s[1]) && LooseText(s[2..])
    else s[0] != 0 && !Is(s[0], '"') && LooseText(s[1..])
  }

  /** The only difference to the grammar are control characters. */
  lemma {:induction false} LooseIs(s: Bytes)
    ensures IsStringText(s) <==> LooseText(s) && forall k | 0 <= k < |s| :: s[k] >= 0x20
    decreases |s|
  {
    if s != [] {
      if Is(s[0], '\\') {
        if |s| > 1 {
          if Is(s[1], 'u') {
            if |s| >= 6 {
              LooseIs(s[6..]);
              TailAbove(s, 6);
            }
          } else {
            LooseIs(s[2..]);
            TailAbove(s, 2);
          }
        }
      } else {
        LooseIs(s[1..]);
        TailAbove(s, 1);
      }
    }
  }

  lemma {:induction false} TailAbove(s: Bytes, n: nat)
    requires n <= |s|
    ensures (forall k | 0 <= k < |s| :: s[k] >= 0x20) <==>
      (forall k | 0 <= k < n :: s[k] >= 0x20) && forall k | 0 <= k < |s| - n :: s[n..][k] >= 0x20
  {
    var u := s[n..];
    assert forall k | n <= k < |s| :: s[k] == u[k - n];
  }

  /** Four hexadecimal digits, or the input ends among them. */
  lemma {:induction false} HexExact(js: Bytes, i: nat, k: nat)
    requires k <= 4 && i <= |js|
    ensures var r := HexEnd(js, i, k);
      r.Found? ==> (r.at == i + (4 - k) && forall z | i <= z < r.at :: HexDigit(js[z])) || AtEnd(js, r.at)
    ensures i + (4 - k) <= |js| && (forall z | i <= z < i + (4 - k) :: HexDigit(js[z])) ==>
      HexEnd(js, i, k) == Found(i + (4 - k))
    decreases 4 - k
  {
    if k < 4 && !AtEnd(js, i) {
      ByteClasses(js[i]);
      HexExact(js, i + 1, k + 1);
    }
  }

  /** A string ends at the first quote behind well-formed text, and only there. */
  lemma {:induction false} StringExact(js: Bytes, i: nat, q: nat)
    requires i <= |js|
    ensures StringEnd(js, i) == Found(q) <==> i <= q < |js| && Is(js[q], '"') && LooseText(js[i..q])
    decreases |js| - i
  {
    hide HexEnd, LooseText;
    if i < |js| {
      ByteClasses(js[i]);
    }
    if AtEnd(js, i) || Is(js[i], '"') {
      StringStops(js, i, q);
    } else if Is(js[i], '\\') && i + 1 < |js| {
      ByteClasses(js[i + 1]);
      if Escapable(js[i + 1]) {
        StringExact(js, i + 2, q);
        LooseStep(js, i, q, 2);
      } else if Is(js[i + 1], 'u') {
        UnicodeExact(js, i, q);
      } else {
        LooseBad(js, i, q);
      }
    } else {
      StringExact(js, i + 1, q);
      LooseStep(js, i, q, 1);
    }
  }

  lemma {:induction false} StringStops(js: Bytes, i: nat, q: nat)
    requires i <= |js| && (AtEnd(js, i) || Is(js[i], '"'))
    ensures i < q < |js| ==> !LooseText(js[i..q])
    ensures i < |js| && q == i ==> LooseText(js[i..q])
  {
    if i < q < |js| {
      assert js[i..q][0] == js[i];
    }
  }

  /** One plain byte or short escape in front. */
  lemma {:induction false} LooseStep(js: Bytes, i: nat, q: nat, n: nat)
    requires i < |js| && !AtEnd(js, i) && !Is(js[i], '"') && i + n <= |js|
    requires if n == 2 then Is(js[i], '\\') && Escapable(js[i + 1]) && !Is(js[i + 1], 'u')
      else n == 1 && (!Is(js[i], '\\') || i + 1 == |js|)
    ensures i + n <= q < |js| ==> (LooseText(js[i..q]) <==> LooseText(js[i + n..q]))
    ensures q < |js| && i < q < i + n ==> !LooseText(js[i..q])
  {
    if i < q < |js| {
      var s := js[i..q];
      assert s[0] == js[i];
      if n == 1 {
        assert s[1..] == js[i + 1..q];
      } else if q >= i + 2 {
        assert s[1] == js[i + 1] && s[2..] == js[i + 2..q];
      }
    }
  }

  lemma {:induction false} LooseBad(js: Bytes, i: nat, q: nat)
    requires i + 1 < |js| && Is(js[i], '\\') && !Escapable(js[i + 1]) && !Is(js[i + 1], 'u')
    ensures i < q < |js| ==> !LooseText(js[i..q])
  {
    if i < q < |js| {
      var s := js[i..q];
      assert s[0] == js[i] && (|s| > 1 ==> s[1] == js[i + 1]);
    }
  }

  /** The long escape. */
  lemma {:induction false} UnicodeExact(js: Bytes, i: nat, q: nat)
    requires i + 1 < |js| && Is(js[i], '\\') && Is(js[i + 1], 'u') && !AtEnd(js, i)
    ensures StringEnd(js, i) == Found(q) <==> i <= q < |js| && Is(js[q], '"') && LooseText(js[i..q])
    decreases |js| - i, 0
  {
    hide LooseText;
    HexExact(js, i + 2, 0);
    LooseLong(js, i, q);
    var four := i + 6 <= |js| && forall z | i + 2 <= z < i + 6 :: HexDigit(js[z]);
    ByteClasses(js[i + 1]);
    ByteClasses(js[i]);
    if four {
      StringExact(js, i + 6, q);
    } else {
      CutEscape(js, i, q);
    }
  }

  /** A string does not go on behind an escape that is cut short. */
  lemma {:induction false} CutEscape(js: Bytes, i: nat, q: nat)
    requires i + 1 < |js| && Is(js[i], '\\') && Is(js[i + 1], 'u')
    requires HexEnd(js, i + 2, 0).Found? ==> AtEnd(js, HexEnd(js, i + 2, 0).at)
    ensures !StringEnd(js, i).Found?
  {
    hide HexEnd;
    ByteClasses(js[i]);
    ByteClasses(js[i + 1]);
  }

  lemma {:induction false} LooseLong(js: Bytes, i: nat, q: nat)
    requires i + 1 < |js| && Is(js[i], '\\') && Is(js[i + 1], 'u')
    ensures i < q < |js| && LooseText(js[i..q]) ==>
      i + 6 <= q && (forall z | i + 2 <= z < i + 6 :: HexDigit(js[z])) && LooseText(js[i + 6..q])
    ensures i + 6 <= q < |js| && (forall z | i + 2 <= z < i + 6 :: HexDigit(js[z])) && LooseText(js[i + 6..q]) ==>
      LooseText(js[i..q])
  {
    if i < q < |js| {
      var s := js[i..q];
      assert s[0] == js[i] && (|s| > 1 ==> s[1] == js[i + 1]);
      if |s| >= 6 {
        assert s[6..] == js[i + 6..q];
        assert forall z | 2 <= z < 6 :: s[z] == js[i + z];
        assert forall z | i + 2 <= z < i + 6 :: js[z] == s[z - i];
      }
    }
  }

  predicate EndsItem(c: Byte) {
    Is(c, ':') || Is(c, ',') || Is(c, '}') || Is(c, ']')
  }

  /** What ends a primitive: the end of the input, white space, a colon, a comma or a closing bracket. */
  predicate Ends(js: Bytes, q: nat) {
    q == |js| || (q < |js| && (js[q] == 0 || Blank(js[q]) || EndsItem(js[q])))
  }

  /** A primitive goes on to the first end, over printable characters only. */
  lemma {:induction false} PrimitiveExact(js: Bytes, i: nat, q: nat)
    requires i <= |js|
    ensures PrimitiveEnd(js, i) == Found(q) <==>
      i <= q && Ends(js, q) && forall k | i <= k < q :: Between(js[k], '!', '~') && !Ends(js, k)
    decreases |js| - i
  {
    if i < |js| {
      ByteClasses(js[i]);
      if !Ends(js, i) {
        PrimitiveExact(js, i + 1, q);
      }
    }
  }
}
