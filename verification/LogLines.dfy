/** Assembling log lines from the bytes a guest writes, in whatever chunks they arrive. */
module LogLines {
  import opened Basics

  const NEWLINE: Byte := 0x0a

  // ----- lines -----

  /** The first newline, the length if there is none. */
  function FirstNewline(s: Bytes): (k: nat)
    ensures k <= |s| && (k < |s| ==> s[k] == NEWLINE) && forall i | 0 <= i < k :: s[i] != NEWLINE
  {
    if s == [] || s[0] == NEWLINE then 0 else 1 + FirstNewline(s[1..])
  }

  /** The pieces between newlines, of which there is one more than newlines. */
  function Pieces(s: Bytes): (ps: seq<Bytes>)
    ensures |ps| > 0
    decreases |s|
  {
    var k := FirstNewline(s);
    if k == |s| then [s] else [s[..k]] + Pieces(s[k + 1..])
  }

  /** All pieces but the last are complete lines. */
  function Complete(s: Bytes): seq<Bytes> {
    Pieces(s)[..|Pieces(s)| - 1]
  }

  function Rest(s: Bytes): Bytes {
    Pieces(s)[|Pieces(s)| - 1]
  }

  /** The pieces put back together. */
  function Join(ps: seq<Bytes>): Bytes
    requires |ps| > 0
  {
    if |ps| == 1 then ps[0] else ps[0] + ['\n' as nat] + Join(ps[1..])
  }

  predicate NoNewline(s: Bytes) {
    forall i | 0 <= i < |s| :: s[i] as int != '\n' as int
  }

  lemma {:induction false} FirstIs(s: Bytes, k: nat)
    requires k <= |s| && (k < |s| ==> s[k] == NEWLINE) && NoNewline(s[..k])
    ensures FirstNewline(s) == k
  {
    var f := FirstNewline(s);
    assert forall i | 0 <= i < k :: s[i] == s[..k][i];
  }

  /** Pieces are what joins to the text and has no newline in it, and nothing else is. */
  lemma {:induction false} PiecesExact(s: Bytes, ps: seq<Bytes>)
    requires |ps| > 0
    ensures ps == Pieces(s) <==> Join(ps) == s && forall i | 0 <= i < |ps| :: NoNewline(ps[i])
  {
    PiecesJoin(s);
    if Join(ps) == s && forall i | 0 <= i < |ps| :: NoNewline(ps[i]) {
      PiecesOf(ps);
    }
  }

  lemma {:induction false} PiecesJoin(s: Bytes)
    ensures Join(Pieces(s)) == s && forall i | 0 <= i < |Pieces(s)| :: NoNewline(Pieces(s)[i])
    decreases |s|
  {
    hide FirstNewline;
    var k := FirstNewline(s);
    if k < |s| {
      var rest := Pieces(s[k + 1..]);
      PiecesJoin(s[k + 1..]);
      assert ([s[..k]] + rest)[1..] == rest;
      assert s == s[..k] + [NEWLINE] + s[k + 1..];
    }
  }

  // One level of Pieces.

  lemma {:induction false} PiecesFirst(s: Bytes, k: nat)
    requires FirstNewline(s) == k < |s|
    ensures Pieces(s) == [s[..k]] + Pieces(s[k + 1..])
  {
    hide FirstNewline;
  }

  lemma {:induction false} PiecesOnly(s: Bytes)
    requires FirstNewline(s) == |s|
    ensures Pieces(s) == [s]
  {
    hide FirstNewline;
  }

  lemma {:induction false} PiecesOf(ps: seq<Bytes>)
    requires |ps| > 0 && forall i | 0 <= i < |ps| :: NoNewline(ps[i])
    ensures Pieces(Join(ps)) == ps
    decreases |ps|
  {
    hide FirstNewline, NoNewline, Pieces, Join;
    var s := Join(ps);
    if |ps| == 1 {
      JoinOne(ps[0]);
      assert ps == [ps[0]] && s[..|s|] == s;
      FirstIs(s, |s|);
      PiecesOnly(s);
    } else {
      var k, rest := |ps[0]|, Join(ps[1..]);
      JoinMore(ps);
      JoinFirst(ps[0], rest);
      FirstIs(s, k);
      assert forall i | 0 <= i < |ps| - 1 :: ps[1..][i] == ps[i + 1];
      PiecesOf(ps[1..]);
      PiecesFirst(s, k);
      assert ps == [ps[0]] + ps[1..];
    }
  }

  lemma {:induction false} JoinOne(p: Bytes)
    ensures Join([p]) == p
  {
  }

  lemma {:induction false} JoinMore(ps: seq<Bytes>)
    requires |ps| > 1
    ensures Join(ps) == ps[0] + [NEWLINE] + Join(ps[1..])
  {
  }

  lemma {:induction false} JoinFirst(first: Bytes, rest: Bytes)
    ensures var s, k := first + [NEWLINE] + rest, |first|;
      k < |s| && s[..k] == first && s[k] == NEWLINE && s[k + 1..] == rest
  {
  }

  /** Lines of a text that arrives in two parts: what the first left over goes before the second. */
  lemma {:induction false} TwoParts(s: Bytes, t: Bytes)
    ensures Complete(s + t) == Complete(s) + Complete(Rest(s) + t) && Rest(s + t) == Rest(Rest(s) + t)
    decreases |s|
  {
    hide Complete, Rest, FirstNewline;
    var k := FirstNewline(s);
    if k == |s| {
      NoMore(s);
    } else {
      var u := s[k + 1..];
      TwoParts(u, t);
      assert (s + t)[..k] == s[..k] && (s + t)[k + 1..] == u + t;
      FirstIs(s + t, k);
      OneMore(s, k);
      OneMore(s + t, k);
    }
  }

  lemma {:induction false} OneMore(s: Bytes, k: nat)
    requires FirstNewline(s) == k < |s|
    ensures Complete(s) == [s[..k]] + Complete(s[k + 1..]) && Rest(s) == Rest(s[k + 1..])
  {
    hide Pieces, FirstNewline;
    PiecesFirst(s, k);
    var ps, first := Pieces(s[k + 1..]), [s[..k]];
    assert (first + ps)[..|ps|] == first + ps[..|ps| - 1] && (first + ps)[|ps|] == ps[|ps| - 1];
  }

  lemma {:induction false} NoMore(s: Bytes)
    requires FirstNewline(s) == |s|
    ensures Complete(s) == [] && Rest(s) == s
  {
  }

  /** What is left over has no newline. */
  lemma {:induction false} RestPlain(s: Bytes)
    ensures NoNewline(Rest(s))
  {
    PiecesJoin(s);
  }

  /** The log that a text should give: its pieces, without an empty last one. */
  function Lines(s: Bytes): seq<Bytes> {
    if Rest(s) == [] then Complete(s) else Pieces(s)
  }

  // ----- the forwarder -----

  class LogForwarder {
    var incomplete: Bytes
    /** What the logger has been given. */
    var log: seq<Bytes>

    constructor ()
      ensures incomplete == [] && log == []
    {
      incomplete, log := [], [];
    }

    method Log(line: Bytes)
      modifies this`log
      ensures log == old(log) + [line]
    {
      log := log + [line];
    }

    /** The position of the first newline, if there is one. */
    static method Position(s: Bytes) returns (found: bool, pos: nat)
      ensures pos == FirstNewline(s) && found == (pos < |s|)
    {
      pos := 0;
      while pos < |s| && s[pos] != NEWLINE
        invariant pos <= |s| && forall i | 0 <= i < pos :: s[i] != NEWLINE
      {
        pos := pos + 1;
      }
      found := pos < |s|;
      FirstIs(s, pos);
    }

    /** Log the lines the buffer completes and keep the rest; everything is taken. */
    method Write(buf: Bytes) returns (n: nat)
      requires NoNewline(incomplete)
      modifies this
      ensures NoNewline(incomplete) && n == |buf|
      ensures log == old(log) + Complete(old(incomplete) + buf) && incomplete == Rest(old(incomplete) + buf)
    {
      hide FirstNewline, Pieces, Complete, Rest;
      ghost var all := incomplete + buf;
      RestPlain(all);
      var found, pos := Position(buf);
      n := |buf|;
      assert all[..|incomplete|] == incomplete && all[|incomplete|..] == buf;
      if !found {
        incomplete := incomplete + buf;
        assert NoNewline(all[..|all|]);
        FirstIs(all, |all|);
        NoMore(all);
        return;
      }
      ghost var k := |incomplete| + pos;
      FirstInAll(incomplete, buf, pos);
      OneMore(all, k);
      var line := buf[..pos];
      if |incomplete| == 0 {
        Log(line);
      } else {
        incomplete := incomplete + line;
        Log(incomplete);
        incomplete := [];
      }
      WriteRest(buf[pos + 1..]);
    }

    /** The rest of a buffer behind its first newline. */
    method WriteRest(buf: Bytes)
      requires incomplete == []
      modifies this
      ensures log == old(log) + Complete(buf) && incomplete == Rest(buf)
    {
      hide FirstNewline, Pieces, Complete, Rest;
      var rest := buf;
      var found, pos := Position(rest);
      while found
        invariant pos == FirstNewline(rest) && found == (pos < |rest|) && incomplete == []
        invariant log + Complete(rest) == old(log) + Complete(buf) && Rest(rest) == Rest(buf)
        decreases |rest|
      {
        OneMore(rest, pos);
        Log(rest[..pos]);
        rest := rest[pos + 1..];
        found, pos := Position(rest);
      }
      NoMore(rest);
      incomplete := incomplete + rest;
    }

    /** At the end, log what is left. */
    method Drop()
      modifies this`log
      ensures log == if incomplete == [] then old(log) else old(log) + [incomplete]
    {
      if |incomplete| != 0 {
        Log(incomplete);
      }
    }
  }

  lemma {:induction false} FirstInAll(inc: Bytes, buf: Bytes, pos: nat)
    requires NoNewline(inc) && FirstNewline(buf) == pos < |buf|
    ensures var all := inc + buf; var k := |inc| + pos;
      FirstNewline(all) == k && all[..k] == inc + buf[..pos] && all[k + 1..] == buf[pos + 1..]
  {
    hide FirstNewline;
    assert NoNewline(buf[..pos]);
    hide NoNewline;
    ShiftedBy(inc, buf, pos);
    NoneInBoth(inc, buf[..pos]);
    FirstIs(inc + buf, |inc| + pos);
  }

  lemma {:induction false} ShiftedBy(s: Bytes, t: Bytes, k: nat)
    requires k < |t|
    ensures var all, n := s + t, |s| + k;
      all[..n] == s + t[..k] && all[n] == t[k] && all[n + 1..] == t[k + 1..]
  {
  }

  lemma {:induction false} NoneInBoth(s: Bytes, t: Bytes)
    requires NoNewline(s) && NoNewline(t)
    ensures NoNewline(s + t)
  {
  }

  // ----- whole runs -----

  function Concat(chunks: seq<Bytes>): Bytes {
    if chunks == [] then [] else Concat(chunks[..|chunks| - 1]) + chunks[|chunks| - 1]
  }

  /** What has been logged, and what is left over, after some writes. */
  function Written(chunks: seq<Bytes>): (seq<Bytes>, Bytes) {
    if chunks == [] then ([], [])
    else
      var (log, inc) := Written(chunks[..|chunks| - 1]);
      var all := inc + chunks[|chunks| - 1];
      (log + Complete(all), Rest(all))
  }

  /** What has been logged after the end. */
  function Logged(chunks: seq<Bytes>): seq<Bytes> {
    var (log, inc) := Written(chunks);
    if inc == [] then log else log + [inc]
  }

  lemma {:induction false} WrittenIs(chunks: seq<Bytes>)
    ensures Written(chunks) == (Complete(Concat(chunks)), Rest(Concat(chunks)))
    decreases |chunks|
  {
    hide Complete, Rest;
    if chunks == [] {
      Nothing();
    } else {
      var n := |chunks| - 1;
      WrittenIs(chunks[..n]);
      TwoParts(Concat(chunks[..n]), chunks[n]);
    }
  }

  lemma {:induction false} Nothing()
    ensures Complete([]) == [] && Rest([]) == []
  {
  }

  lemma {:induction false} LastPiece(s: Bytes)
    ensures Pieces(s) == Complete(s) + [Rest(s)]
  {
    hide Pieces;
  }

  /** However the bytes are cut into writes, the log is the lines of all of them, an empty last one left out. */
  lemma {:induction false} ChunksDoNotMatter(chunks: seq<Bytes>)
    ensures Logged(chunks) == Lines(Concat(chunks))
  {
    hide Complete, Rest, Written, Concat, Pieces;
    WrittenIs(chunks);
    LastPiece(Concat(chunks));
  }

  /** The log of a text: lines without newlines that join to it, the newline at its end left out. */
  ghost predicate LogOf(s: Bytes, log: seq<Bytes>) {
    && (forall i | 0 <= i < |log| :: NoNewline(log[i]))
    && if s == [] then log == []
       else |log| > 0 && s == Join(log) + if s[|s| - 1] as int == '\n' as int then ['\n' as nat] else []
  }

  lemma {:induction false} JoinSnoc(ps: seq<Bytes>, p: Bytes)
    requires |ps| > 0
    ensures Join(ps + [p]) == Join(ps) + ['\n' as nat] + p
    decreases |ps|
  {
    if |ps| == 1 {
      assert (ps + [p])[1..] == [p];
    } else {
      assert (ps + [p])[1..] == ps[1..] + [p];
      JoinSnoc(ps[1..], p);
    }
  }

  lemma {:induction false} LinesAreLog(s: Bytes)
    ensures LogOf(s, Lines(s))
  {
    hide Pieces, Join;
    var ps := Pieces(s);
    PiecesJoin(s);
    LastPiece(s);
    var done, rest := Complete(s), Rest(s);
    if done == [] {
      assert ps == [rest];
      JoinOne(rest);
    } else {
      JoinSnoc(done, rest);
      if rest != [] {
        assert s[|s| - 1] == rest[|rest| - 1];
        assert Join(ps) + [] == s;
      }
    }
  }

  /** A forwarder fed any chunks and dropped has logged exactly those lines. */
  method Forward(chunks: seq<Bytes>) returns (log: seq<Bytes>)
    ensures log == Lines(Concat(chunks)) && LogOf(Concat(chunks), log)
  {
    hide Complete, Rest, LogOf;
    LinesAreLog(Concat(chunks));
    var f := new LogForwarder();
    var i := 0;
    assert chunks[..0] == [];
    while i < |chunks|
      invariant 0 <= i <= |chunks| && NoNewline(f.incomplete) && (f.log, f.incomplete) == Written(chunks[..i])
      invariant fresh(f)
    {
      assert chunks[..i + 1][..i] == chunks[..i];
      var n := f.Write(chunks[i]);
      i := i + 1;
    }
    assert chunks[..i] == chunks;
    f.Drop();
    ChunksDoNotMatter(chunks);
    log := f.log;
  }
}
