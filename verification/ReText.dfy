/** The text a regular expression runs on, and what its anchors mean. */
module ReText {
  import opened Basics

  /** One unit per character, and whether anchors also match at line ends. */
  datatype Text = Text(input: seq<nat>, multiLine: bool)

  /** Start and end of every group: None while it has not taken part. */
  type Captures = seq<Option<nat>>

  function ResetCaps(caps: Captures, first: nat, last: nat): (r: Captures)
    ensures |r| == |caps|
  {
    seq(|caps|, i requires 0 <= i < |caps| => if 2 * first <= i <= 2 * last + 1 then None else caps[i])
  }

  predicate IsLineTerminator(c: nat) {
    c == 0x0a || c == 0x0d || c == 0x2028 || c == 0x2029
  }

  predicate IsWordChar(c: nat) {
    0x30 <= c <= 0x39 || 0x61 <= c <= 0x7a || 0x41 <= c <= 0x5a || c == 0x5f
  }

  predicate WordAt(t: Text, i: int) {
    0 <= i < |t.input| && IsWordChar(t.input[i])
  }

  predicate AtLineStart(t: Text, pos: nat) {
    pos == 0 || (t.multiLine && pos <= |t.input| && IsLineTerminator(t.input[pos - 1]))
  }

  predicate AtLineEnd(t: Text, pos: nat) {
    pos == |t.input| || (t.multiLine && pos < |t.input| && IsLineTerminator(t.input[pos]))
  }

  predicate AtWordBoundary(t: Text, pos: nat) {
    WordAt(t, pos - 1) != WordAt(t, pos)
  }
}
