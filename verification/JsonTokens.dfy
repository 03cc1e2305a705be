/** Printing then tokenizing gives the preorder traversal of the value. */
module JsonTokens {
  import opened Basics
  import opened Jsmn
  import opened JsonText
  import opened JsmnExact

  lemma HasHead(js: Bytes, p: nat, s: Bytes)
    requires Has(js, p, s) && |s| > 0
    ensures p < |js| && js[p] == s[0] && Has(js, p + 1, s[1..])
  {
    assert s == [s[0]] + s[1..];
    HasFirst(js, p, s[0], s[1..]);
  }

  // ----- leaves -----

  lemma {:induction false} WhiteRuns(js: Bytes, n: nat, st: State, w: Bytes)
    requires Valid(st) && Has(js, st.pos, w) && IsWhite(w)
    ensures Run(js, n, st) == Run(js, n, st.(pos := st.pos + |w|))
    decreases |w|
  {
    hide Has, LastOpen;
    if w != [] {
      HasHead(js, st.pos, w);
      assert Blank(w[0]);
      ByteClasses(w[0]);
      assert forall i | 0 <= i < |w| - 1 :: w[1..][i] == w[i + 1];
      SpaceStep(js, n, st);
      WhiteRuns(js, n, st.(pos := st.pos + 1), w[1..]);
    }
  }

  lemma SpaceStep(js: Bytes, n: nat, st: State)
    requires Valid(st) && st.pos < |js| && IsSpace(js[st.pos])
    ensures Run(js, n, st) == Run(js, n, st.(pos := st.pos + 1))
  {
    hide LastOpen;
  }

  lemma WordFound(js: Bytes, i: nat, s: Bytes)
    requires Has(js, i, s) && IsWord(s) && (AtEnd(js, i + |s|) || IsDelimiter(js[i + |s|]))
    ensures PrimitiveEnd(js, i) == Found(i + |s|)
  {
    var q := i + |s|;
    if q < |js| {
      ByteClasses(js[q]);
    }
    assert forall k | i <= k < q :: js[k] == s[k - i];
    PrimitiveExact(js, i, q);
  }

  lemma StringFound(js: Bytes, i: nat, s: Bytes)
    requires Has(js, i, s + [QUOTE]) && IsStringText(s)
    ensures StringEnd(js, i) == Found(i + |s|)
  {
    hide StringEnd, IsStringText, LooseText;
    var q := i + |s|;
    assert js[q] == js[i..i + |s + [QUOTE]|][|s|] == QUOTE;
    assert js[i..q] == js[i..i + |s + [QUOTE]|][..|s|] == s;
    LooseIs(s);
    StringExact(js, i, q);
  }

  // ----- open and closed tokens -----

  predicate Closed(toks: seq<Token>) {
    forall i | 0 <= i < |toks| :: toks[i].end != -1
  }

  /** o is the last open token: everything behind it is closed. */
  ghost predicate Inside(toks: seq<Token>, o: nat) {
    o < |toks| && Open(toks[o]) && forall i | o < i < |toks| :: toks[i].end != -1
  }

  lemma {:induction false} InsideLast(toks: seq<Token>, o: nat)
    requires Inside(toks, o)
    ensures LastOpen(toks) == o && (IsContainer(toks[o]) ==> LastContainer(toks) == o)
    decreases |toks|
  {
    if o < |toks| - 1 {
      InsideLast(toks[..|toks| - 1], o);
    }
  }

  lemma {:induction false} ClosedLast(toks: seq<Token>, more: seq<Token>)
    requires Closed(more)
    ensures LastOpen(toks + more) == LastOpen(toks)
    decreases |more|
  {
    if more == [] {
      assert toks + more == toks;
    } else {
      var m := |more| - 1;
      assert (toks + more)[..|toks| + m] == toks + more[..m];
      assert (toks + more)[|toks| + m] == more[m];
      ClosedLast(toks, more[..m]);
    }
  }

  lemma {:induction false} BumpLast(toks: seq<Token>, s: int)
    requires -1 <= s < |toks|
    ensures LastOpen(Bump(toks, s)) == LastOpen(toks)
    decreases |toks|
  {
    if toks != [] && s != -1 {
      var m := |toks| - 1;
      if s < m {
        assert Bump(toks, s)[..m] == Bump(toks[..m], s);
        BumpLast(toks[..m], s);
      } else {
        assert Bump(toks, s)[..m] == toks[..m];
      }
    }
  }

  lemma {:induction false} TokensClosed(v: Json, p: nat)
    ensures Closed(Tokens(v, p)) && |Tokens(v, p)| > 0
    decreases v
  {
    hide Print, PrintItems, PrintMembers;
    match v
    case Arr(_, items) => ItemsClosed(items, p + 1);
    case Obj(_, members) => MembersClosed(members, p + 1);
    case _ =>
  }

  lemma {:induction false} ItemsClosed(l: Items, p: nat)
    ensures Closed(ItemTokens(l, p))
    decreases l
  {
    hide Print, Tokens;
    match l
    case NoItems =>
    case Item(before, value, after, rest) =>
      var q := p + |before|;
      TokensClosed(value, q);
      ItemsClosed(rest, q + |Print(value)| + |after| + 1);
  }

  lemma {:induction false} MembersClosed(l: Members, p: nat)
    ensures Closed(MemberTokens(l, p))
    decreases l
  {
    hide Print, Tokens;
    match l
    case NoMembers =>
    case Member(before, key, mid, gap, value, after, rest) =>
      var q := p + |before| + |key| + 2 + |mid| + 1 + |gap|;
      TokensClosed(value, q);
      MembersClosed(rest, q + |Print(value)| + |after| + 1);
  }

  // ----- the number of tokens does not depend on the place -----

  function Nodes(v: Json): nat {
    match v
    case Arr(_, items) => 1 + ItemNodes(items)
    case Obj(_, members) => 1 + MemberNodes(members)
    case _ => 1
  }

  function ItemNodes(l: Items): nat {
    match l
    case NoItems => 0
    case Item(_, value, _, rest) => Nodes(value) + ItemNodes(rest)
  }

  /** Every key is a token too. */
  function MemberNodes(l: Members): nat {
    match l
    case NoMembers => 0
    case Member(_, _, _, _, value, _, rest) => 1 + Nodes(value) + MemberNodes(rest)
  }

  lemma {:induction false} TokensCount(v: Json, p: nat)
    ensures |Tokens(v, p)| == Nodes(v)
    decreases v
  {
    hide Print, PrintItems, PrintMembers;
    match v
    case Arr(_, items) => ItemsCount(items, p + 1);
    case Obj(_, members) => MembersCount(members, p + 1);
    case _ =>
  }

  lemma {:induction false} ItemsCount(l: Items, p: nat)
    ensures |ItemTokens(l, p)| == ItemNodes(l)
    decreases l
  {
    hide Print, Tokens;
    match l
    case NoItems =>
    case Item(before, value, after, rest) =>
      var q := p + |before|;
      TokensCount(value, q);
      ItemsCount(rest, q + |Print(value)| + |after| + 1);
  }

  lemma {:induction false} MembersCount(l: Members, p: nat)
    ensures |MemberTokens(l, p)| == MemberNodes(l)
    decreases l
  {
    hide Print, Tokens;
    match l
    case NoMembers =>
    case Member(before, key, mid, gap, value, after, rest) =>
      var q := p + |before| + |key| + 2 + |mid| + 1 + |gap|;
      TokensCount(value, q);
      MembersCount(rest, q + |Print(value)| + |after| + 1);
  }

  // ----- single steps of a run -----

  lemma OpenRuns(js: Bytes, n: nat, st: State, c: Byte)
    requires Valid(st) && st.pos < |js| && js[st.pos] == c && IsOpen(c) && |st.toks| < n
    ensures Run(js, n, st)
        == Run(js, n, State(st.pos + 1, |st.toks|, Bump(st.toks, st.super) + [Token(KindOf(c), st.pos, -1, 0)]))
  {
    hide LastOpen, Bump;
  }

  lemma CloseRuns(js: Bytes, n: nat, st: State, c: Byte, o: nat)
    requires Valid(st) && st.pos < |js| && js[st.pos] == c && IsClose(c) && Inside(st.toks, o)
    requires st.toks[o].kind == KindOf(c)
    ensures Run(js, n, st)
        == Run(js, n, State(st.pos + 1, LastOpen(st.toks[..o]), st.toks[o := st.toks[o].(end := st.pos + 1)]))
  {
    InsideLast(st.toks, o);
    hide LastOpen, Inside;
  }

  lemma WordRuns(js: Bytes, n: nat, st: State, s: Bytes)
    requires Valid(st) && Has(js, st.pos, s) && IsWord(s) && |st.toks| < n
    requires AtEnd(js, st.pos + |s|) || IsDelimiter(js[st.pos + |s|])
    ensures Run(js, n, st)
        == Run(js, n,
            State(st.pos + |s|, st.super, Bump(st.toks, st.super) + [Token(Primitive, st.pos, st.pos + |s|, 0)]))
  {
    hide LastOpen, Bump, PrimitiveEnd, Has;
    WordFound(js, st.pos, s);
    HasHead(js, st.pos, s);
    HasFits(js, st.pos, s);
  }

  lemma StringRuns(js: Bytes, n: nat, st: State, s: Bytes)
    requires Valid(st) && Has(js, st.pos, Quoted(s)) && IsStringText(s) && |st.toks| < n
    ensures Run(js, n, st)
        == Run(js, n,
            State(st.pos + |s| + 2, st.super,
                Bump(st.toks, st.super) + [Token(String, st.pos + 1, st.pos + 1 + |s|, 0)]))
  {
    hide LastOpen, Bump, StringEnd, Has, IsStringText;
    HasHead(js, st.pos, Quoted(s));
    assert Quoted(s)[1..] == s + [QUOTE];
    StringFound(js, st.pos + 1, s);
    HasFits(js, st.pos, Quoted(s));
  }

  lemma ColonRuns(js: Bytes, n: nat, st: State)
    requires Valid(st) && st.pos < |js| && js[st.pos] == COLON
    ensures Run(js, n, st) == Run(js, n, State(st.pos + 1, |st.toks| - 1, st.toks))
  {
    hide LastOpen;
  }

  /** After a comma the parent is the object or array again. */
  lemma CommaRuns(js: Bytes, n: nat, st: State, o: nat)
    requires Valid(st) && st.pos < |js| && js[st.pos] == COMMA && Inside(st.toks, o) && IsContainer(st.toks[o])
    requires st.super == o || (st.super != -1 && !IsContainer(st.toks[st.super]))
    ensures Run(js, n, st) == Run(js, n, State(st.pos + 1, o, st.toks))
  {
    InsideLast(st.toks, o);
    hide LastOpen, LastContainer, Inside;
  }

  // ----- bookkeeping of tokens -----

  /** The parent after k more children. */
  function Grow(toks: seq<Token>, o: nat, k: nat): (r: seq<Token>)
    requires o < |toks|
    ensures |r| == |toks|
  {
    toks[o := toks[o].(size := toks[o].size + k)]
  }

  lemma BumpIsGrow(toks: seq<Token>, o: nat)
    requires o < |toks|
    ensures Bump(toks, o) == Grow(toks, o, 1)
  {
  }

  lemma GrowTwice(toks: seq<Token>, o: nat, j: nat, more: seq<Token>, k: nat, rest: seq<Token>)
    requires o < |toks|
    ensures Grow(Grow(toks, o, j) + more, o, k) + rest == Grow(toks, o, j + k) + (more + rest)
  {
    var a, b := Grow(Grow(toks, o, j) + more, o, k) + rest, Grow(toks, o, j + k) + (more + rest);
    assert |a| == |b| && a[o] == b[o];
    assert forall i | 0 <= i < |a| :: a[i] == b[i];
  }

  lemma GrowNone(toks: seq<Token>, o: nat)
    requires o < |toks|
    ensures Grow(toks, o, 0) + [] == toks
  {
  }

  lemma InsideGrow(toks: seq<Token>, o: nat, k: nat, more: seq<Token>)
    requires Inside(toks, o) && Closed(more)
    ensures Inside(Grow(toks, o, k) + more, o) && (Grow(toks, o, k) + more)[o].kind == toks[o].kind
  {
  }

  /** The char behind a value ends a word. */
  predicate Stops(js: Bytes, p: nat) {
    AtEnd(js, p) || IsDelimiter(js[p])
  }

  /** The state behind a value. */
  function After(st: State, v: Json): (r: State)
    requires Valid(st)
    ensures Valid(r)
  {
    var toks := Bump(st.toks, st.super) + Tokens(v, st.pos);
    State(st.pos + |Print(v)|, if v.Prim? || v.Str? then st.super else LastOpen(st.toks), toks)
  }

  /** A container closed after its children: its own token, completed, and theirs. */
  lemma Completed(toks: seq<Token>, t: Token, count: nat, more: seq<Token>, end: int)
    requires t.size == 0
    ensures var all := Grow(toks + [t], |toks|, count) + more;
      all[..|toks|] == toks
          && all[|toks| := all[|toks|].(end := end)] == toks + ([t.(end := end, size := count)] + more)
  {
  }

  // ----- the induction -----

  /** Tokenizing a printed value adds exactly its tokens, as a child of the current parent. */
  lemma {:induction false} ValueRuns(js: Bytes, n: nat, st: State, v: Json)
    requires Valid(st) && Legal(v) && Has(js, st.pos, Print(v)) && |st.toks| + Nodes(v) <= n
    requires Stops(js, st.pos + |Print(v)|)
    ensures Run(js, n, st) == Run(js, n, After(st, v))
    decreases v, 1
  {
    hide Run, Has, IsWord, IsStringText, PrintItems, PrintMembers, Quoted, LastOpen, Bump;
    match v
    case Prim(text) => WordRuns(js, n, st, text);
    case Str(text) =>
      QuotedSize(text);
      StringRuns(js, n, st, text);
    case Arr(pad, items) => ArrayRuns(js, n, st, pad, items);
    case Obj(pad, members) => ObjectRuns(js, n, st, pad, members);
  }

  lemma QuotedSize(s: Bytes)
    ensures |Quoted(s)| == |s| + 2
  {
  }

  lemma ArrayIs(pad: Bytes, items: Items, p: nat)
    ensures var v := Arr(pad, items); var body := if items.NoItems? then pad else PrintItems(items);
      && Print(v) == [0x5b] + (body + [0x5d]) && Nodes(v) == 1 + ItemNodes(items)
      && Tokens(v, p) == [Token(Array, p, p + |body| + 2, ItemCount(items))] + ItemTokens(items, p + 1)
      && (Legal(v) ==> IsWhite(pad) && LegalItems(items))
  {
    hide PrintItems, ItemTokens;
  }

  lemma ObjectIs(pad: Bytes, members: Members, p: nat)
    ensures var v := Obj(pad, members); var body := if members.NoMembers? then pad else PrintMembers(members);
      && Print(v) == [0x7b] + (body + [0x7d]) && Nodes(v) == 1 + MemberNodes(members)
      && Tokens(v, p) == [Token(Object, p, p + |body| + 2, MemberCount(members))] + MemberTokens(members, p + 1)
      && (Legal(v) ==> IsWhite(pad) && LegalMembers(members))
  {
    hide PrintMembers, MemberTokens;
  }

  /** What stands between the brackets, and the brackets. */
  lemma Bracketed(js: Bytes, p: nat, open: Byte, body: Bytes, close: Byte)
    requires Has(js, p, [open] + (body + [close]))
    ensures p + |body| + 1 < |js| && js[p] == open && Has(js, p + 1, body) && js[p + 1 + |body|] == close
  {
    hide Has;
    HasSplit(js, p, [open], body + [close]);
    HasSplit(js, p + 1, body, [close]);
    HasHead(js, p, [open]);
    HasHead(js, p + 1 + |body|, [close]);
  }

  lemma NoItemsAre(p: nat)
    ensures ItemTokens(NoItems, p) == [] && ItemCount(NoItems) == 0 && MemberTokens(NoMembers, p) == []
    ensures MemberCount(NoMembers) == 0
  {
  }

  lemma JustOpened(toks: seq<Token>, t: Token)
    requires Open(t)
    ensures Inside(toks + [t], |toks|)
  {
  }

  lemma {:induction false} ArrayRuns(js: Bytes, n: nat, st: State, pad: Bytes, items: Items)
    requires var v := Arr(pad, items); Valid(st) && Legal(v) && Has(js, st.pos, Print(v)) && |st.toks| + Nodes(v) <= n
    ensures Run(js, n, st) == Run(js, n, After(st, Arr(pad, items)))
    decreases Arr(pad, items), 0
  {
    hide Run, Has, Print, PrintItems, Tokens, ItemTokens, LastOpen, Bump, Inside, Legal, LegalItems, Nodes, IsWhite,
      Grow;
    var v, p, o := Arr(pad, items), st.pos, |st.toks|;
    ArrayIs(pad, items, p);
    var body := if items.NoItems? then pad else PrintItems(items);
    Bracketed(js, p, 0x5b, body, 0x5d);
    var toks, t := Bump(st.toks, st.super), Token(Array, p, -1, 0);
    OpenRuns(js, n, st, 0x5b);
    var st1 := State(p + 1, o, toks + [t]);
    JustOpened(toks, t);
    var st2 := State(p + 1 + |body|, o, Grow(st1.toks, o, ItemCount(items)) + ItemTokens(items, p + 1));
    if items.NoItems? {
      NoItemsAre(p + 1);
      GrowNone(st1.toks, o);
      WhiteRuns(js, n, st1, pad);
    } else {
      ItemsRun(js, n, st1, items, o);
    }
    ItemsClosed(items, p + 1);
    InsideGrow(st1.toks, o, ItemCount(items), ItemTokens(items, p + 1));
    CloseRuns(js, n, st2, 0x5d, o);
    Completed(toks, t, ItemCount(items), ItemTokens(items, p + 1), st2.pos + 1);
    BumpLast(st.toks, st.super);
  }

  lemma ItemIs(l: Items, p: nat)
    requires l.Item?
    ensures var q := p + |l.before|; var next := q + |Print(l.value)| + |l.after|;
      && PrintItems(l)
           == l.before + (Print(l.value) + (l.after + if l.rest.NoItems? then [] else [COMMA] + PrintItems(l.rest)))
      && ItemTokens(l, p) == Tokens(l.value, q) + ItemTokens(l.rest, next + 1)
      && ItemCount(l) == 1 + ItemCount(l.rest) && ItemNodes(l) == Nodes(l.value) + ItemNodes(l.rest)
      && (LegalItems(l) ==> IsWhite(l.before) && Legal(l.value) && IsWhite(l.after) && LegalItems(l.rest))
  {
    hide Print, Tokens;
  }

  /** Behind white space comes what stops a word, if that is what follows. */
  lemma StopsAfter(js: Bytes, p: nat, w: Bytes, tail: Bytes)
    requires Has(js, p, w + tail) && IsWhite(w) && p + |w| < |js|
    requires if tail == [] then IsClose(js[p + |w|]) else tail[0] == COMMA
    ensures Stops(js, p) && Has(js, p, w) && Has(js, p + |w|, tail)
  {
    HasSplit(js, p, w, tail);
    hide Has;
    if w != [] {
      HasHead(js, p, w);
    } else if tail != [] {
      HasHead(js, p + |w|, tail);
    }
  }

  lemma {:induction false} ItemsRun(js: Bytes, n: nat, st: State, l: Items, o: nat)
    requires Valid(st) && l.Item? && LegalItems(l) && Has(js, st.pos, PrintItems(l)) && |st.toks| + ItemNodes(l) <= n
    requires st.super == o && Inside(st.toks, o) && st.toks[o].kind == Array
    requires st.pos + |PrintItems(l)| < |js| && IsClose(js[st.pos + |PrintItems(l)|])
    ensures Run(js, n, st)
        == Run(js, n, State(st.pos + |PrintItems(l)|, o, Grow(st.toks, o, ItemCount(l)) + ItemTokens(l, st.pos)))
    decreases l, 2
  {
    hide Run, Has, Print, PrintItems, Tokens, ItemTokens, LastOpen, Bump, Inside, Legal, LegalItems, Nodes, ItemNodes,
      ItemCount, IsWhite, Grow, IsClose, Stops;
    var p, rest := st.pos, l.rest;
    ItemIs(l, p);
    var tail := if rest.NoItems? then [] else [COMMA] + PrintItems(rest);
    HasSplit(js, p, l.before, Print(l.value) + (l.after + tail));
    WhiteRuns(js, n, st, l.before);
    var st1 := st.(pos := p + |l.before|);
    HasSplit(js, st1.pos, Print(l.value), l.after + tail);
    var next := st1.pos + |Print(l.value)|;
    HasFits(js, next, l.after + tail);
    StopsAfter(js, next, l.after, tail);
    ValueRuns(js, n, st1, l.value);
    InsideLast(st.toks, o);
    var st2 := After(st1, l.value);
    BumpIsGrow(st.toks, o);
    TokensClosed(l.value, st1.pos);
    TokensCount(l.value, st1.pos);
    InsideGrow(st.toks, o, 1, Tokens(l.value, st1.pos));
    WhiteRuns(js, n, st2, l.after);
    var st3 := st2.(pos := next + |l.after|);
    GrowTwice(st.toks, o, 1, Tokens(l.value, st1.pos), ItemCount(rest), ItemTokens(rest, st3.pos + 1));
    if rest.NoItems? {
      NoItemsAre(st3.pos + 1);
      GrowNone(st3.toks, o);
    } else {
      HasHead(js, st3.pos, tail);
      assert tail[1..] == PrintItems(rest);
      CommaRuns(js, n, st3, o);
      ItemsRun(js, n, State(st3.pos + 1, o, st3.toks), rest, o);
    }
  }

  lemma {:induction false} ObjectRuns(js: Bytes, n: nat, st: State, pad: Bytes, members: Members)
    requires var v := Obj(pad, members); Valid(st) && Legal(v) && Has(js, st.pos, Print(v)) && |st.toks| + Nodes(v) <= n
    ensures Run(js, n, st) == Run(js, n, After(st, Obj(pad, members)))
    decreases Obj(pad, members), 0
  {
    hide Run, Has, Print, PrintMembers, Tokens, MemberTokens, LastOpen, Bump, Inside, Legal, LegalMembers, Nodes,
      IsWhite, Grow;
    var v, p, o := Obj(pad, members), st.pos, |st.toks|;
    ObjectIs(pad, members, p);
    var body := if members.NoMembers? then pad else PrintMembers(members);
    Bracketed(js, p, 0x7b, body, 0x7d);
    var toks, t := Bump(st.toks, st.super), Token(Object, p, -1, 0);
    OpenRuns(js, n, st, 0x7b);
    var st1 := State(p + 1, o, toks + [t]);
    JustOpened(toks, t);
    var all := Grow(st1.toks, o, MemberCount(members)) + MemberTokens(members, p + 1);
    var s := o;
    if members.NoMembers? {
      NoItemsAre(p + 1);
      GrowNone(st1.toks, o);
      WhiteRuns(js, n, st1, pad);
    } else {
      s := MembersRun(js, n, st1, members, o);
    }
    var st2 := State(p + 1 + |body|, s, all);
    MembersClosed(members, p + 1);
    InsideGrow(st1.toks, o, MemberCount(members), MemberTokens(members, p + 1));
    CloseRuns(js, n, st2, 0x7d, o);
    Completed(toks, t, MemberCount(members), MemberTokens(members, p + 1), st2.pos + 1);
    BumpLast(st.toks, st.super);
  }

  lemma MemberIs(l: Members, p: nat)
    requires l.Member?
    ensures var k := p + |l.before|; var q := k + |l.key| + 2 + |l.mid| + 1 + |l.gap|;
        var next := q + |Print(l.value)| + |l.after|;
      && PrintMembers(l)
           == l.before + (Quoted(l.key)
               + (l.mid + ([COLON]
                   + (l.gap + (Print(l.value)
                       + (l.after + if l.rest.NoMembers? then [] else [COMMA] + PrintMembers(l.rest)))))))
      && MemberTokens(l, p)
           == ([Token(String, k + 1, k + 1 + |l.key|, 1)] + Tokens(l.value, q)) + MemberTokens(l.rest, next + 1)
      && MemberCount(l) == 1 + MemberCount(l.rest) && MemberNodes(l) == 1 + Nodes(l.value) + MemberNodes(l.rest)
      && (LegalMembers(l) ==>
           IsWhite(l.before) && IsStringText(l.key) && IsWhite(l.mid) && IsWhite(l.gap) && Legal(l.value)
               && IsWhite(l.after) && LegalMembers(l.rest))
  {
    hide Print, Tokens, Quoted, IsStringText;
  }

  /** A key, its colon and the white space around it: the key becomes the parent. */
  lemma {:induction false} KeyRuns(js: Bytes, n: nat, st: State, l: Members, tail: Bytes)
    requires Valid(st) && l.Member? && IsWhite(l.before) && IsStringText(l.key) && IsWhite(l.mid) && IsWhite(l.gap)
    requires |st.toks| < n
    requires Has(js, st.pos, l.before + (Quoted(l.key) + (l.mid + ([COLON] + (l.gap + tail)))))
    ensures var k := st.pos + |l.before|; var q := k + |l.key| + 2 + |l.mid| + 1 + |l.gap|;
      && Has(js, q, tail)
      && Run(js, n, st)
           == Run(js, n, State(q, |st.toks|, Bump(st.toks, st.super) + [Token(String, k + 1, k + 1 + |l.key|, 0)]))
  {
    hide Run, Has, Quoted, IsStringText, IsWhite, Bump;
    var k := st.pos + |l.before|;
    QuotedSize(l.key);
    HasSplit(js, st.pos, l.before, Quoted(l.key) + (l.mid + ([COLON] + (l.gap + tail))));
    WhiteRuns(js, n, st, l.before);
    HasSplit(js, k, Quoted(l.key), l.mid + ([COLON] + (l.gap + tail)));
    StringRuns(js, n, st.(pos := k), l.key);
    var m := k + |l.key| + 2;
    var toks := Bump(st.toks, st.super) + [Token(String, k + 1, k + 1 + |l.key|, 0)];
    HasSplit(js, m, l.mid, [COLON] + (l.gap + tail));
    WhiteRuns(js, n, State(m, st.super, toks), l.mid);
    var c := m + |l.mid|;
    HasSplit(js, c, [COLON], l.gap + tail);
    HasHead(js, c, [COLON]);
    ColonRuns(js, n, State(c, st.super, toks));
    HasSplit(js, c + 1, l.gap, tail);
    WhiteRuns(js, n, State(c + 1, |st.toks|, toks), l.gap);
  }

  /** A value under its key: the key has one child. */
  lemma Keyed(toks: seq<Token>, o: nat, key: Token, more: seq<Token>)
    requires o < |toks| && key.size == 0
    ensures Bump(Grow(toks, o, 1) + [key], |toks|) + more == Grow(toks, o, 1) + ([key.(size := 1)] + more)
  {
    var a, b := Bump(Grow(toks, o, 1) + [key], |toks|) + more, Grow(toks, o, 1) + ([key.(size := 1)] + more);
    assert |a| == |b| && a[|toks|] == b[|toks|];
    assert forall i | 0 <= i < |a| :: a[i] == b[i];
  }

  /** Inside object o, with that object or one of its closed leaves as the parent. */
  ghost predicate Under(toks: seq<Token>, s: int, o: nat) {
    -1 <= s < |toks| && Inside(toks, o) && toks[o].kind == Object && (s == o || (s != -1 && !IsContainer(toks[s])))
  }

  /** One member, up to what follows its white space. */
  lemma {:induction false} MemberRuns(js: Bytes, n: nat, st: State, l: Members, o: nat, tail: Bytes) returns (s: int)
    requires Valid(st) && l.Member? && LegalMembers(l) && |st.toks| + 1 + Nodes(l.value) <= n
    requires st.super == o && Inside(st.toks, o) && st.toks[o].kind == Object
    requires Has(js, st.pos,
        l.before + (Quoted(l.key) + (l.mid + ([COLON] + (l.gap + (Print(l.value) + (l.after + tail)))))))
    requires var next := st.pos + |l.before| + |l.key| + 2 + |l.mid| + 1 + |l.gap| + |Print(l.value)| + |l.after|;
      next < |js| && (if tail == [] then IsClose(js[next]) else tail[0] == COMMA)
    ensures var k := st.pos + |l.before|; var q := k + |l.key| + 2 + |l.mid| + 1 + |l.gap|;
        var next := q + |Print(l.value)| + |l.after|;
      var toks := Grow(st.toks, o, 1) + ([Token(String, k + 1, k + 1 + |l.key|, 1)] + Tokens(l.value, q));
      Under(toks, s, o) && Has(js, next, tail) && Run(js, n, st) == Run(js, n, State(next, s, toks))
    decreases l, 1
  {
    hide Run, Has, Print, PrintMembers, Tokens, MemberTokens, LastOpen, Bump, Inside, Legal, Nodes, IsWhite, Grow,
      IsClose, Stops, Quoted, IsStringText;
    MemberIs(l, st.pos);
    var k := st.pos + |l.before|;
    var q := k + |l.key| + 2 + |l.mid| + 1 + |l.gap|;
    var key := Token(String, k + 1, k + 1 + |l.key|, 0);
    KeyRuns(js, n, st, l, Print(l.value) + (l.after + tail));
    BumpIsGrow(st.toks, o);
    var st1 := State(q, |st.toks|, Grow(st.toks, o, 1) + [key]);
    HasSplit(js, q, Print(l.value), l.after + tail);
    var end := q + |Print(l.value)|;
    StopsAfter(js, end, l.after, tail);
    ValueRuns(js, n, st1, l.value);
    Keyed(st.toks, o, key, Tokens(l.value, q));
    InsideGrow(st.toks, o, 1, [key]);
    InsideLast(st1.toks, o);
    TokensClosed(l.value, q);
    var st2 := After(st1, l.value);
    s := st2.super;
    InsideGrow(st.toks, o, 1, [key.(size := 1)] + Tokens(l.value, q));
    WhiteRuns(js, n, st2, l.after);
    assert st2.toks == Grow(st.toks, o, 1) + ([key.(size := 1)] + Tokens(l.value, q));
    assert st2.toks[|st.toks|] == key.(size := 1);
  }

  lemma {:induction false} MembersRun(js: Bytes, n: nat, st: State, l: Members, o: nat) returns (s: int)
    requires Valid(st) && l.Member? && LegalMembers(l) && Has(js, st.pos, PrintMembers(l))
    requires |st.toks| + MemberNodes(l) <= n
    requires st.super == o && Inside(st.toks, o) && st.toks[o].kind == Object
    requires st.pos + |PrintMembers(l)| < |js| && IsClose(js[st.pos + |PrintMembers(l)|])
    ensures var toks := Grow(st.toks, o, MemberCount(l)) + MemberTokens(l, st.pos);
      -1 <= s < |toks| && Run(js, n, st) == Run(js, n, State(st.pos + |PrintMembers(l)|, s, toks))
    decreases l, 2
  {
    hide Run, Has, Print, PrintMembers, Tokens, MemberTokens, LastOpen, Bump, Inside, Legal, LegalMembers, Nodes,
      MemberNodes, MemberCount, IsWhite, Grow, IsClose, Quoted, IsStringText;
    var p, rest := st.pos, l.rest;
    MemberIs(l, p);
    QuotedSize(l.key);
    var tail := if rest.NoMembers? then [] else [COMMA] + PrintMembers(rest);
    var k := p + |l.before|;
    var q := k + |l.key| + 2 + |l.mid| + 1 + |l.gap|;
    var next := q + |Print(l.value)| + |l.after|;
    HasFits(js, p, PrintMembers(l));
    s := MemberRuns(js, n, st, l, o, tail);
    var own := [Token(String, k + 1, k + 1 + |l.key|, 1)] + Tokens(l.value, q);
    var toks := Grow(st.toks, o, 1) + own;
    GrowTwice(st.toks, o, 1, own, MemberCount(rest), MemberTokens(rest, next + 1));
    if rest.NoMembers? {
      NoItemsAre(next + 1);
      GrowNone(toks, o);
    } else {
      HasHead(js, next, tail);
      assert tail[1..] == PrintMembers(rest);
      CommaRuns(js, n, State(next, s, toks), o);
      TokensCount(l.value, q);
      s := MembersRun(js, n, State(next + 1, o, toks), rest, o);
    }
  }

  /**
   Every JSON text, with any legal white space, tokenizes to the preorder traversal of its
   value with exact starts, ends, kinds and sizes, and the result is the number of nodes.
   */
  lemma {:induction false} PrintThenTokenize(before: Bytes, v: Json, after: Bytes, n: nat)
    requires IsWhite(before) && Legal(v) && IsWhite(after) && n >= Nodes(v)
    ensures var js := before + Print(v) + after;
      Run(js, n, INIT) == (State(|js|, -1, Tokens(v, |before|)), Nodes(v))
  {
    hide Run, Print, Tokens, LastOpen, Legal, Nodes, Has, Stops, IsWhite;
    var js := before + Print(v) + after;
    var p := |before|;
    var q := p + |Print(v)|;
    Whole(before, Print(v), after);
    WhiteRuns(js, n, INIT, before);
    var st := State(p, -1, []);
    ValueRuns(js, n, st, v);
    var st1 := After(st, v);
    assert st1.toks == [] + Tokens(v, p) == Tokens(v, p);
    WhiteRuns(js, n, st1, after);
    TokensClosed(v, p);
    ClosedLast([], Tokens(v, p));
    NothingOpen();
    TokensCount(v, p);
    Ends(js, n, State(|js|, -1, Tokens(v, p)));
  }

  lemma Whole(before: Bytes, s: Bytes, after: Bytes)
    requires IsWhite(after)
    ensures var js := before + s + after;
      Has(js, 0, before) && Has(js, |before|, s) && Has(js, |before| + |s|, after) && Stops(js, |before| + |s|)
  {
    var js := before + s + after;
    assert js[|before|..|before| + |s|] == s;
    if after != [] {
      assert js[|before| + |s|] == after[0];
    }
  }

  lemma NothingOpen()
    ensures LastOpen([]) == -1
  {
  }

  lemma Ends(js: Bytes, n: nat, st: State)
    requires Valid(st) && st.pos == |js| && LastOpen(st.toks) == -1
    ensures Run(js, n, st) == (st, |st.toks|)
  {
  }
}
