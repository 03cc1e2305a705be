/**
 JSON values, printed with any legal whitespace (sections 2 to 7 of RFC 8259), and what the
 tokenizer makes of them.
 */
module JsonText {
  import opened Basics
  import opened Jsmn

  /** A value with its layout: texts are as printed, strings without their quotes. */
  datatype Json =
    | Prim(text: Bytes)
    | Str(text: Bytes)
    | Arr(pad: Bytes, items: Items)
    | Obj(pad: Bytes, members: Members)

  datatype Items = NoItems | Item(before: Bytes, value: Json, after: Bytes, rest: Items)

  datatype Members = NoMembers | Member(before: Bytes, key: Bytes, mid: Bytes, gap: Bytes, value: Json, after: Bytes,
      rest: Members)

  // ----- characters -----

  predicate Is(c: Byte, x: char) {
    c as int == x as int
  }

  predicate Between(c: Byte, x: char, y: char) {
    x as int <= c as int <= y as int
  }

  /** Section 2 of RFC 8259: space, horizontal tab, line feed, carriage return. */
  predicate Blank(c: Byte) {
    Is(c, ' ') || Is(c, '\t') || Is(c, '\n') || Is(c, '\r')
  }

  /** Section 2: the six structural characters. */
  predicate Structural(c: Byte) {
    Is(c, '[') || Is(c, ']') || Is(c, '{') || Is(c, '}') || Is(c, ':') || Is(c, ',')
  }

  /** Section 7: what may follow a backslash, apart from u. */
  predicate Escapable(c: Byte) {
    || Is(c, '"') || Is(c, '\\') || Is(c, '/') || Is(c, 'b')
    || Is(c, 'f') || Is(c, 'n') || Is(c, 'r') || Is(c, 't')
  }

  predicate HexDigit(c: Byte) {
    Between(c, '0', '9') || Between(c, 'A', 'F') || Between(c, 'a', 'f')
  }

  /** Printable ASCII that is neither structural nor a quote. */
  predicate WordByte(c: Byte) {
    Between(c, '!', '~') && !Structural(c) && !Is(c, '"')
  }

  // ----- legal texts -----

  predicate IsWhite(s: Bytes) {
    forall i | 0 <= i < |s| :: Blank(s[i])
  }

  /** A word of such characters; numbers, true, false and null are. */
  predicate IsWord(s: Bytes) {
    |s| > 0 && forall i | 0 <= i < |s| :: WordByte(s[i])
  }

  /** The inside of a string (section 7): plain bytes and escapes. */
  predicate IsStringText(s: Bytes)
    decreases |s|
  {
    if s == [] then true
    else if Is(s[0], '\\') then
      |s| > 1 &&
      if Is(s[1], 'u') then |s| >= 6 && (forall k | 2 <= k < 6 :: HexDigit(s[k])) && IsStringText(s[6..])
      else Escapable(s[1]) && IsStringText(s[2..])
    else s[0] >= 0x20 && !Is(s[0], '"') && IsStringText(s[1..])
  }

  // ----- numbers and literals (sections 3 and 6) -----

  predicate Digits(s: Bytes) {
    |s| > 0 && forall i | 0 <= i < |s| :: Between(s[i], '0', '9')
  }

  predicate IsInt(s: Bytes) {
    Digits(s) && (Is(s[0], '0') ==> |s| == 1)
  }

  predicate IsExp(s: Bytes) {
    && |s| > 1 && (Is(s[0], 'e') || Is(s[0], 'E'))
    && (Digits(s[1..]) || ((Is(s[1], '+') || Is(s[1], '-')) && Digits(s[2..])))
  }

  /** Sign, integer part, fraction and exponent. */
  ghost predicate IsNumber(s: Bytes) {
    exists sign: Bytes, whole: Bytes, frac: Bytes, exp: Bytes ::
      && s == sign + whole + frac + exp
      && (sign == [] || (|sign| == 1 && Is(sign[0], '-'))) && IsInt(whole)
      && (frac == [] || (Is(frac[0], '.') && Digits(frac[1..]))) && (exp == [] || IsExp(exp))
  }

  function FromString(s: string): Bytes
    requires forall i | 0 <= i < |s| :: s[i] < 256 as char
  {
    seq(|s|, i requires 0 <= i < |s| => s[i] as nat)
  }

  predicate IsLiteral(s: Bytes) {
    s == FromString("true") || s == FromString("false") || s == FromString("null")
  }

  /** Every number and literal is a word, so what holds of words holds of them. */
  lemma {:induction false} PrimitivesAreWords(s: Bytes)
    requires IsNumber(s) || IsLiteral(s)
    ensures IsWord(s)
  {
    if IsNumber(s) {
      var sign: Bytes, whole: Bytes, frac: Bytes, exp: Bytes :|
        && s == sign + whole + frac + exp
        && (sign == [] || (|sign| == 1 && Is(sign[0], '-'))) && IsInt(whole)
        && (frac == [] || (Is(frac[0], '.') && Digits(frac[1..]))) && (exp == [] || IsExp(exp));
      NumberParts(sign, whole, frac, exp);
    }
  }

  predicate AllWordBytes(s: Bytes) {
    forall i | 0 <= i < |s| :: WordByte(s[i])
  }

  lemma {:induction false} NumberParts(sign: Bytes, whole: Bytes, frac: Bytes, exp: Bytes)
    requires (sign == [] || (|sign| == 1 && Is(sign[0], '-'))) && IsInt(whole)
    requires (frac == [] || (Is(frac[0], '.') && Digits(frac[1..]))) && (exp == [] || IsExp(exp))
    ensures IsWord(sign + whole + frac + exp)
  {
    assert AllWordBytes(whole);
    if frac != [] {
      assert forall i | 1 <= i < |frac| :: frac[i] == frac[1..][i - 1];
    }
    if exp != [] {
      var k := if Digits(exp[1..]) then 1 else 2;
      assert forall i | k <= i < |exp| :: exp[i] == exp[k..][i - k];
    }
    assert AllWordBytes(frac) && AllWordBytes(exp) && AllWordBytes(sign);
  }

  predicate Legal(v: Json) {
    match v
    case Prim(text) => IsWord(text)
    case Str(text) => IsStringText(text)
    case Arr(pad, items) => IsWhite(pad) && LegalItems(items)
    case Obj(pad, members) => IsWhite(pad) && LegalMembers(members)
  }

  predicate LegalItems(l: Items) {
    match l
    case NoItems => true
    case Item(before, value, after, rest) => IsWhite(before) && Legal(value) && IsWhite(after) && LegalItems(rest)
  }

  predicate LegalMembers(l: Members) {
    match l
    case NoMembers => true
    case Member(before, key, mid, gap, value, after, rest) =>
      IsWhite(before) && IsStringText(key) && IsWhite(mid) && IsWhite(gap) && Legal(value) && IsWhite(after)
          && LegalMembers(rest)
  }

  // ----- printing -----

  function Quoted(s: Bytes): Bytes {
    ['"' as nat] + s + ['"' as nat]
  }

  function Print(v: Json): Bytes {
    match v
    case Prim(text) => text
    case Str(text) => Quoted(text)
    case Arr(pad, items) => ['[' as nat] + (if items.NoItems? then pad else PrintItems(items)) + [']' as nat]
    case Obj(pad, members) => ['{' as nat] + (if members.NoMembers? then pad else PrintMembers(members)) + ['}' as nat]
  }

  function PrintItems(l: Items): Bytes {
    match l
    case NoItems => []
    case Item(before, value, after, rest) =>
      before + Print(value) + after + if rest.NoItems? then [] else [',' as nat] + PrintItems(rest)
  }

  function PrintMembers(l: Members): Bytes {
    match l
    case NoMembers => []
    case Member(before, key, mid, gap, value, after, rest) =>
      before + Quoted(key) + mid + [':' as nat] + gap + Print(value) + after
      + if rest.NoMembers? then [] else [',' as nat] + PrintMembers(rest)
  }

  // ----- the tokens of a value -----

  function ItemCount(l: Items): nat {
    match l
    case NoItems => 0
    case Item(_, _, _, rest) => 1 + ItemCount(rest)
  }

  function MemberCount(l: Members): nat {
    match l
    case NoMembers => 0
    case Member(_, _, _, _, _, _, rest) => 1 + MemberCount(rest)
  }

  /** In preorder: a value printed at position p. */
  function Tokens(v: Json, p: nat): seq<Token> {
    match v
    case Prim(text) => [Token(Primitive, p, p + |text|, 0)]
    case Str(text) => [Token(String, p + 1, p + 1 + |text|, 0)]
    case Arr(_, items) => [Token(Array, p, p + |Print(v)|, ItemCount(items))] + ItemTokens(items, p + 1)
    case Obj(_, members) => [Token(Object, p, p + |Print(v)|, MemberCount(members))] + MemberTokens(members, p + 1)
  }

  function ItemTokens(l: Items, p: nat): seq<Token> {
    match l
    case NoItems => []
    case Item(before, value, after, rest) =>
      var q := p + |before|;
      Tokens(value, q) + ItemTokens(rest, q + |Print(value)| + |after| + 1)
  }

  /** A key has its value as its only child. */
  function MemberTokens(l: Members, p: nat): seq<Token> {
    match l
    case NoMembers => []
    case Member(before, key, mid, gap, value, after, rest) =>
      var k := p + |before|;
      var q := k + |key| + 2 + |mid| + 1 + |gap|;
      [Token(String, k + 1, k + 1 + |key|, 1)] + Tokens(value, q) + MemberTokens(rest, q + |Print(value)| + |after| + 1)
  }
}
