/** Bytes, options, and where one sequence of bytes stands in another. */
module Basics {
  type Byte = x: nat | x < 256 witness 0
  type Bytes = seq<Byte>

  datatype Option<T> = None | Some(value: T)

  /** The bytes t stand at position i. */
  predicate Has(s: Bytes, i: nat, t: Bytes) {
    i + |t| <= |s| && s[i..i + |t|] == t
  }

  lemma HasSplit(s: Bytes, i: nat, a: Bytes, b: Bytes)
    ensures Has(s, i, a + b) <==> Has(s, i, a) && Has(s, i + |a|, b)
  {
    if i + |a| + |b| <= |s| {
      var t := s[i..i + |a + b|];
      assert t[..|a|] == s[i..i + |a|] && t[|a|..] == s[i + |a|..i + |a| + |b|];
      assert (a + b)[..|a|] == a && (a + b)[|a|..] == b;
      assert t == t[..|a|] + t[|a|..];
    }
  }

  lemma HasFits(s: Bytes, i: nat, t: Bytes)
    requires Has(s, i, t)
    ensures i + |t| <= |s|
  {
  }

  lemma HasFirst(s: Bytes, i: nat, x: Byte, t: Bytes)
    requires Has(s, i, [x] + t)
    ensures i < |s| && s[i] == x && Has(s, i + 1, t)
  {
    HasSplit(s, i, [x], t);
    assert s[i] == s[i..i + 1][0];
  }
}
