/**
 Sets of characters as sorted boundary points: a character is in the set when an odd number
 of points lie at or below it.
 */
module CharRange {
  const UINT32_MAX: nat := 0xffff_ffff

  function CountLe(s: seq<nat>, c: nat): nat {
    if s == [] then 0 else (if s[0] <= c then 1 else 0) + CountLe(s[1..], c)
  }

  predicate InSet(s: seq<nat>, c: nat) {
    CountLe(s, c) % 2 == 1
  }

  predicate Sorted(s: seq<nat>) {
    forall i, j | 0 <= i < j < |s| :: s[i] <= s[j]
  }

  /** Strictly increasing and of even length: non-empty intervals with gaps between them. */
  predicate Canonical(s: seq<nat>) {
    |s| % 2 == 0 && forall i, j | 0 <= i < j < |s| :: s[i] < s[j]
  }

  lemma {:induction false} CountAppend(s: seq<nat>, t: seq<nat>, c: nat)
    ensures CountLe(s + t, c) == CountLe(s, c) + CountLe(t, c)
    decreases |s|
  {
    if s == [] {
      assert s + t == t;
    } else {
      assert (s + t)[1..] == s[1..] + t;
      CountAppend(s[1..], t, c);
    }
  }

  lemma {:induction false} CountOne(x: nat, c: nat)
    ensures CountLe([x], c) == if x <= c then 1 else 0
  {
    assert [x][1..] == [];
  }

  lemma {:induction false} CountSnoc(s: seq<nat>, x: nat, c: nat)
    ensures CountLe(s + [x], c) == CountLe(s, c) + if x <= c then 1 else 0
  {
    CountAppend(s, [x], c);
    CountOne(x, c);
  }

  lemma {:induction false} CountAll(s: seq<nat>, c: nat)
    requires forall i | 0 <= i < |s| :: s[i] <= c
    ensures CountLe(s, c) == |s|
    decreases |s|
  {
    if s != [] {
      CountAll(s[1..], c);
    }
  }

  lemma {:induction false} CountNone(s: seq<nat>, c: nat)
    requires forall i | 0 <= i < |s| :: s[i] > c
    ensures CountLe(s, c) == 0
    decreases |s|
  {
    if s != [] {
      CountNone(s[1..], c);
    }
  }

  /** With k points at or below c and the rest above, the count is k. */
  lemma {:induction false} CountSplit(s: seq<nat>, k: nat, c: nat)
    requires k <= |s| && (forall i | 0 <= i < k :: s[i] <= c) && (forall i | k <= i < |s| :: s[i] > c)
    ensures CountLe(s, c) == k
  {
    assert s == s[..k] + s[k..];
    CountAppend(s[..k], s[k..], c);
    CountAll(s[..k], c);
    CountNone(s[k..], c);
  }

  /** Two equal points cancel. */
  lemma {:induction false} PairCancels(s: seq<nat>, x: nat, t: seq<nat>, c: nat)
    ensures InSet(s + [x, x] + t, c) == InSet(s + t, c)
  {
    CountAppend(s + [x, x], t, c);
    assert s + [x, x] == s + [x] + [x];
    CountSnoc(s + [x], x, c);
    CountSnoc(s, x, c);
    CountAppend(s, t, c);
  }

  ghost predicate SameSet(s: seq<nat>, t: seq<nat>) {
    forall c: nat :: InSet(s, c) == InSet(t, c)
  }

  lemma {:induction false} SamePair(s: seq<nat>, x: nat, t: seq<nat>)
    ensures SameSet(s + [x, x] + t, s + t)
  {
    hide InSet;
    forall c: nat
      ensures InSet(s + [x, x] + t, c) == InSet(s + t, c)
    {
      PairCancels(s, x, t, c);
    }
  }

  /** A canonical list is determined by its set. */
  lemma {:induction false} CanonicalUnique(s: seq<nat>, t: seq<nat>)
    requires Canonical(s) && Canonical(t) && SameSet(s, t)
    ensures s == t
  {
    if s != t {
      var k := FirstDifference(s, t);
      if k == |s| {
        DifferenceSeen(t, s, k);
      } else if k == |t| || s[k] < t[k] {
        DifferenceSeen(s, t, k);
      } else {
        DifferenceSeen(t, s, k);
      }
    }
  }

  lemma FirstDifference(s: seq<nat>, t: seq<nat>) returns (k: nat)
    requires s != t
    ensures k <= |s| && k <= |t| && s[..k] == t[..k] && (k == |s| || k == |t| || s[k] != t[k])
  {
    k := 0;
    while k < |s| && k < |t| && s[k] == t[k]
      invariant k <= |s| && k <= |t| && s[..k] == t[..k]
    {
      k := k + 1;
    }
  }

  /** Two lists that agree up to k, where s has the smaller next point x: they differ at x. */
  lemma {:induction false} DifferenceSeen(s: seq<nat>, t: seq<nat>, k: nat)
    requires Canonical(s) && Canonical(t) && k < |s| && k <= |t| && s[..k] == t[..k] && (k == |t| || s[k] < t[k])
    ensures InSet(s, s[k]) != InSet(t, s[k])
  {
    var x := s[k];
    CountSplit(s, k + 1, x);
    assert forall i | 0 <= i < k :: t[i] == t[..k][i] == s[..k][i] == s[i];
    CountSplit(t, k, x);
  }

  // ----- compression -----

  /** What remains to be represented: the points written so far and those not yet read. */
  ghost function Pending(head: seq<nat>, s: seq<nat>, i: nat): seq<nat>
    requires i <= |s|
  {
    head + s[i..]
  }

  /** The same with the interval from s[i] to s[j+1] in between. */
  ghost function Merged(head: seq<nat>, s: seq<nat>, i: nat, j: nat): seq<nat>
    requires i < |s| && j + 1 < |s|
  {
    Pending(head + [s[i], s[j + 1]], s, j + 2)
  }

  /** An equal pair at the seam disappears. */
  lemma {:induction false} DropPair(s: seq<nat>, head: seq<nat>, i: nat, all: seq<nat>)
    requires i + 1 < |s| && s[i] == s[i + 1] && SameSet(all, Pending(head, s, i))
    ensures SameSet(all, Pending(head, s, i + 2))
  {
    hide InSet;
    assert head + s[i..] == head + [s[i], s[i]] + s[i + 2..];
    SamePair(head, s[i], s[i + 2..]);
  }

  lemma {:induction false} MergeStart(head: seq<nat>, s: seq<nat>, i: nat)
    requires i + 1 < |s|
    ensures Pending(head, s, i) == Merged(head, s, i, i)
  {
  }

  /** Touching intervals become one. */
  lemma {:induction false} MergeStep(head: seq<nat>, s: seq<nat>, i: nat, j: nat)
    requires i < |s| && j + 3 < |s| && s[j + 1] == s[j + 2] && SameSet(s, Merged(head, s, i, j))
    ensures SameSet(s, Merged(head, s, i, j + 2))
  {
    hide SameSet;
    assert Merged(head, s, i, j) == Pending(head + [s[i]], s, j + 1) by {
      assert s[j + 1..] == [s[j + 1]] + s[j + 2..];
      assert head + [s[i], s[j + 1]] + s[j + 2..] == head + [s[i]] + ([s[j + 1]] + s[j + 2..]);
    }
    DropPair(s, head + [s[i]], j + 1, s);
    assert s[j + 3..] == [s[j + 3]] + s[j + 4..];
    assert head + [s[i]] + ([s[j + 3]] + s[j + 4..]) == head + [s[i], s[j + 3]] + s[j + 4..];
  }

  lemma SortedAt(s: seq<nat>, i: nat, j: nat)
    requires Sorted(s) && i <= j < |s|
    ensures s[i] <= s[j]
  {
  }

  lemma CanonicalExtend(s: seq<nat>, x: nat, y: nat)
    requires Canonical(s) && (s != [] ==> s[|s| - 1] < x) && x < y
    ensures Canonical(s + [x, y])
  {
    var t := s + [x, y];
    forall i, j | 0 <= i < j < |t|
      ensures t[i] < t[j]
    {
      if j >= |s| && i < |s| {
        assert s[i] <= s[|s| - 1];
      }
    }
  }

  /** Merge consecutive intervals and remove empty ones, in place. */
  method Compress(pt: array<nat>, len: nat) returns (k: nat)
    requires len <= pt.Length && Sorted(pt[..len]) && len % 2 == 0
    modifies pt
    ensures k <= len && Canonical(pt[..k]) && SameSet(old(pt[..len]), pt[..k])
  {
    hide InSet, SameSet, Sorted, Canonical, Pending, Merged;
    ghost var s := pt[..len];
    ghost var out: seq<nat> := [];
    var i := 0;
    k := 0;
    CompressStart(s);
    while i + 1 < len
      invariant k == |out| <= i <= len && i % 2 == 0 && forall z | 0 <= z < k :: pt[z] == out[z]
      invariant forall z | i <= z < len :: pt[z] == s[z]
      invariant Canonical(out) && (0 < k && i < len ==> out[k - 1] < s[i])
      invariant SameSet(s, Pending(out, s, i))
    {
      if pt[i] == pt[i + 1] {
        DropPair(s, out, i, s);
        if i + 2 < len {
          SortedAt(s, i, i + 2);
        }
        i := i + 2;
      } else {
        MergeStart(out, s, i);
        var j := MergedUpTo(pt, len, i, s, out);
        pt[k] := pt[i];
        pt[k + 1] := pt[j + 1];
        CanonicalExtend(out, s[i], s[j + 1]);
        out := out + [s[i], s[j + 1]];
        k := k + 2;
        i := j + 2;
      }
    }
    assert pt[..k] == out;
    CompressEnd(s, out, i);
  }

  lemma CompressStart(s: seq<nat>)
    ensures SameSet(s, Pending([], s, 0)) && Canonical([])
  {
    assert [] + s[0..] == s;
  }

  lemma CompressEnd(s: seq<nat>, out: seq<nat>, i: nat)
    requires i == |s| && SameSet(s, Pending(out, s, i))
    ensures SameSet(s, out)
  {
    assert out + s[i..] == out;
  }

  /** The end of the run of touching intervals that starts at i. */
  method MergedUpTo(pt: array<nat>, len: nat, i: nat, ghost s: seq<nat>, ghost head: seq<nat>) returns (j: nat)
    requires i + 1 < len <= pt.Length && |s| == len && Sorted(s) && len % 2 == 0 && i % 2 == 0 && s[i] != s[i + 1]
    requires forall z | i <= z < len :: pt[z] == s[z]
    requires SameSet(s, Merged(head, s, i, i))
    ensures i <= j && j + 1 < len && j % 2 == 0 && (j + 2 < len ==> s[j + 1] < s[j + 2]) && s[i] < s[j + 1]
    ensures SameSet(s, Pending(head + [s[i], s[j + 1]], s, j + 2))
  {
    hide SameSet, Pending, Sorted;
    j := i;
    while j + 3 < len && pt[j + 1] == pt[j + 2]
      invariant i <= j && j + 1 < len && j % 2 == 0
      invariant SameSet(s, Merged(head, s, i, j))
    {
      MergeStep(head, s, i, j);
      j := j + 2;
    }
    SortedAt(s, i, i + 1);
    SortedAt(s, i + 1, j + 1);
    if j + 2 < len {
      SortedAt(s, j + 1, j + 2);
    }
  }

  // ----- union, intersection, symmetric difference -----

  datatype SetOp = Union | Inter | Xor

  function Combine(op: SetOp, a: bool, b: bool): bool {
    match op
    case Union => a || b
    case Inter => a && b
    case Xor => a != b
  }

  /** The set of out is the combination of the sets of a and b. */
  ghost predicate Combines(out: seq<nat>, a: seq<nat>, b: seq<nat>, op: SetOp) {
    match op
    case Union => forall c: nat :: InSet(out, c) <==> InSet(a, c) || InSet(b, c)
    case Inter => forall c: nat :: InSet(out, c) <==> InSet(a, c) && InSet(b, c)
    case Xor => forall c: nat :: InSet(out, c) <==> InSet(a, c) != InSet(b, c)
  }

  ghost predicate AllAtMost(s: seq<nat>, v: nat) {
    forall i | 0 <= i < |s| :: s[i] <= v
  }

  /** a' is a, or a with the point v added. */
  ghost predicate MayAdd(a: seq<nat>, v: nat, a': seq<nat>) {
    a' == a || a' == a + [v]
  }

  lemma {:induction false} AddedPoint(a: seq<nat>, v: nat, a': seq<nat>, c: nat)
    requires AllAtMost(a, v) && MayAdd(a, v, a')
    ensures InSet(a', c) == if c < v then InSet(a, c) else |a'| % 2 == 1
  {
    CountSnoc(a, v, c);
    if c >= v {
      CountAll(a, c);
    }
  }

  /** Adding the next point v to a, to b or to both, and to the output where the status changes. */
  lemma {:induction false} NextPoint(out: seq<nat>, a: seq<nat>, b: seq<nat>, v: nat, out': seq<nat>, a': seq<nat>,
      b': seq<nat>, op: SetOp)
    requires Combines(out, a, b, op) && AllAtMost(out, v) && AllAtMost(a, v) && AllAtMost(b, v)
    requires MayAdd(a, v, a') && MayAdd(b, v, b') && MayAdd(out, v, out')
    requires (|out'| % 2 == 1) == Combine(op, |a'| % 2 == 1, |b'| % 2 == 1)
    ensures Combines(out', a', b', op)
  {
    hide InSet, AllAtMost, MayAdd;
    forall c: nat
      ensures InSet(out', c) == Combine(op, InSet(a', c), InSet(b', c))
    {
      AddedPoint(a, v, a', c);
      AddedPoint(b, v, b', c);
      AddedPoint(out, v, out', c);
    }
  }

  lemma SortedSnoc(s: seq<nat>, v: nat)
    requires Sorted(s) && AllAtMost(s, v)
    ensures Sorted(s + [v]) && AllAtMost(s + [v], v)
  {
  }

  lemma AtMostWeaker(s: seq<nat>, v: nat, w: nat)
    requires AllAtMost(s, v) && v <= w
    ensures AllAtMost(s, w)
  {
  }

  lemma PrefixAtMost(s: seq<nat>, i: nat)
    requires Sorted(s) && i < |s|
    ensures AllAtMost(s[..i], s[i]) && s[..i + 1] == s[..i] + [s[i]]
  {
  }

  /** The points still to come are at least v. */
  ghost predicate RestAtLeast(s: seq<nat>, i: nat, v: nat) {
    i < |s| ==> v <= s[i]
  }

  class CharRange {
    var points: array<nat>
    var len: nat

    constructor ()
      ensures Valid() && fresh(points) && Contents() == []
    {
      points := new nat[0];
      len := 0;
    }

    ghost predicate Valid()
      reads this
    {
      len <= points.Length
    }

    ghost function Contents(): seq<nat>
      requires Valid()
      reads this, points
    {
      points[..len]
    }

    /** Grow the buffer by half or to the size asked for. */
    method Realloc(size: nat)
      requires Valid()
      modifies this`points
      ensures Valid() && size <= points.Length && Contents() == old(Contents())
      ensures points == old(points) || fresh(points)
    {
      if size > points.Length {
        var half := points.Length * 3 / 2;
        var a := new nat[if size > half then size else half];
        var p, n := points, len;
        var i := 0;
        while i < n
          invariant 0 <= i <= n && a[..i] == p[..i]
        {
          a[i] := p[i];
          i := i + 1;
        }
        points := a;
      }
    }

    method AddPoint(v: nat)
      requires Valid()
      modifies this, points
      ensures Valid() && Contents() == old(Contents()) + [v] && (points == old(points) || fresh(points))
    {
      if len >= points.Length {
        Realloc(len + 1);
      }
      points[len] := v;
      len := len + 1;
    }

    /** Merge the points of a and b in increasing order and keep those where the status changes. */
    method Op(a: seq<nat>, b: seq<nat>, op: SetOp)
      requires Valid() && len == 0 && Sorted(a) && Sorted(b) && |a| % 2 == 0 && |b| % 2 == 0
      modifies this, points
      ensures Valid() && (points == old(points) || fresh(points))
      ensures Canonical(Contents()) && Combines(Contents(), a, b, op)
    {
      hide InSet, Combines, Sorted, AllAtMost, RestAtLeast, Combine, Canonical;
      var i, j := 0, 0;
      ghost var last := 0;
      OpStart(a, b, op);
      assert a[..0] == [] && b[..0] == [] && Contents() == [];
      while i < |a| || j < |b|
        invariant Valid() && (points == old(points) || fresh(points)) && i <= |a| && j <= |b|
        invariant Combines(Contents(), a[..i], b[..j], op)
        invariant (len % 2 == 1) == Combine(op, i % 2 == 1, j % 2 == 1)
        invariant Sorted(Contents()) && AllAtMost(Contents(), last) && AllAtMost(a[..i], last)
        invariant AllAtMost(b[..j], last)
        invariant RestAtLeast(a, i, last) && RestAtLeast(b, j, last)
        decreases |a| - i + |b| - j
      {
        ghost var i0, j0 := i, j;
        var v := 0;
        if i < |a| && (j >= |b| || a[i] <= b[j]) {
          v := a[i];
          if j < |b| && a[i] == b[j] {
            j := j + 1;
          }
          i := i + 1;
        } else {
          v := b[j];
          j := j + 1;
        }
        ghost var out := Contents();
        NextIs(a, b, i0, j0, i, j, v, last);
        AtMostWeaker(out, last, v);
        if Combine(op, i % 2 == 1, j % 2 == 1) != (len % 2 == 1) {
          SortedSnoc(out, v);
          AddPoint(v);
        }
        NextPoint(out, a[..i0], b[..j0], v, Contents(), a[..i], b[..j], op);
        last := v;
      }
      assert a[..i] == a && b[..j] == b;
      OpEnd(op, |a|, |b|);
      ghost var out := Contents();
      len := Compress(points, len);
      CombinesSame(out, Contents(), a, b, op);
    }

    /** Replace the set by its union with the set of b. */
    method Union1(b: seq<nat>)
      requires Valid() && Sorted(Contents()) && Sorted(b) && len % 2 == 0 && |b| % 2 == 0
      modifies this, points
      ensures Valid() && (points == old(points) || fresh(points))
      ensures Canonical(Contents()) && Combines(Contents(), old(Contents()), b, Union)
    {
      hide Sorted, Combines, Canonical;
      var a := points[..len];
      len := 0;
      points := new nat[0];
      Op(a, b, Union);
    }

    /** Add the characters c1 to c2. */
    method UnionInterval(c1: nat, c2: nat)
      requires Valid() && Sorted(Contents()) && len % 2 == 0 && c1 <= c2
      modifies this, points
      ensures Valid() && Canonical(Contents()) && (points == old(points) || fresh(points))
      ensures forall c: nat :: InSet(Contents(), c) <==> InSet(old(Contents()), c) || c1 <= c <= c2
    {
      hide InSet;
      ghost var a := Contents();
      Union1([c1, c2 + 1]);
      forall c: nat
        ensures InSet(Contents(), c) <==> InSet(a, c) || c1 <= c <= c2
      {
        IntervalSet(c1, c2 + 1, c);
      }
    }

    /** The complement below UINT32_MAX, of any sorted list of intervals, empty and touching ones included. */
    method Invert()
      requires Valid() && Sorted(Contents()) && len % 2 == 0 && AllAtMost(Contents(), UINT32_MAX)
      modifies this, points
      ensures Valid() && (points == old(points) || fresh(points))
      ensures IsComplement(old(Contents()), Contents())
    {
      hide InSet, Canonical, AllAtMost, Sorted, SameSet, IsComplement;
      ghost var s := Contents();
      var n := len;
      Realloc(n + 2);
      assert points[..n] == s;
      Frame(points, n);
      len := n + 2;
      FramedSorted(s);
      len := Compress(points, len);
      ComplementBy(s, Contents());
    }
  }

  lemma {:induction false} IntervalSet(lo: nat, hi: nat, c: nat)
    requires lo < hi
    ensures InSet([lo, hi], c) <==> lo <= c < hi
  {
    assert [lo, hi] == [lo] + [hi];
    CountSnoc([lo], hi, c);
    CountOne(lo, c);
  }

  /** Move n points up by one and put 0 below and UINT32_MAX above them. */
  method Frame(a: array<nat>, n: nat)
    requires n + 2 <= a.Length
    modifies a
    ensures a[..n + 2] == [0] + old(a[..n]) + [UINT32_MAX]
  {
    ghost var s := a[..n];
    var i := n;
    while i > 0
      invariant 0 <= i <= n
      invariant forall z | 0 <= z < i :: a[z] == s[z]
      invariant forall z | i < z <= n :: a[z] == s[z - 1]
    {
      a[i] := a[i - 1];
      i := i - 1;
    }
    a[0] := 0;
    a[n + 1] := UINT32_MAX;
  }

  lemma {:induction false} FramedSorted(s: seq<nat>)
    requires Sorted(s) && AllAtMost(s, UINT32_MAX)
    ensures Sorted([0] + s + [UINT32_MAX])
  {
    var t := [0] + s + [UINT32_MAX];
    forall i, j | 0 <= i < j < |t|
      ensures t[i] <= t[j]
    {
      if 0 < i && j < |t| - 1 {
        assert s[i - 1] <= s[j - 1];
      }
    }
  }

  /** t is canonical and holds exactly the characters below UINT32_MAX that s does not hold. */
  ghost predicate IsComplement(s: seq<nat>, t: seq<nat>) {
    Canonical(t) && AllAtMost(t, 0xffff_ffff) && forall c: nat | c < 0xffff_ffff :: InSet(t, c) != InSet(s, c)
  }

  lemma {:induction false} FramedCount(s: seq<nat>, c: nat)
    requires AllAtMost(s, UINT32_MAX) && |s| % 2 == 0
    ensures InSet([0] + s + [UINT32_MAX], c) == if c < UINT32_MAX then !InSet(s, c) else false
  {
    CountSnoc([0] + s, UINT32_MAX, c);
    CountAppend([0], s, c);
    CountOne(0, c);
    if c >= UINT32_MAX {
      CountAll(s, c);
    }
  }

  lemma {:induction false} ComplementBy(s: seq<nat>, t: seq<nat>)
    requires |s| % 2 == 0 && AllAtMost(s, UINT32_MAX) && Canonical(t) && SameSet([0] + s + [UINT32_MAX], t)
    ensures IsComplement(s, t)
  {
    hide InSet;
    forall c: nat
      ensures InSet(t, c) == if c < UINT32_MAX then !InSet(s, c) else false
    {
      FramedCount(s, c);
      assert InSet([0] + s + [UINT32_MAX], c) == InSet(t, c);
    }
    BoundedPoints(t, UINT32_MAX);
  }

  /** A canonical list whose set is empty from v on has no point above v. */
  lemma {:induction false} BoundedPoints(t: seq<nat>, v: nat)
    requires Canonical(t) && forall c: nat | c >= v :: !InSet(t, c)
    ensures AllAtMost(t, v)
  {
    if t != [] && t[|t| - 1] > v {
      var n := |t| - 1;
      var c := if t[n - 1] >= v then t[n - 1] else v;
      CountSplit(t, n, c);
      assert InSet(t, c);
    }
  }

  /** Above the last point of an even list there is nothing. */
  lemma {:induction false} NothingAbove(s: seq<nat>, v: nat, c: nat)
    requires AllAtMost(s, v) && |s| % 2 == 0 && c >= v
    ensures !InSet(s, c)
  {
    CountAll(s, c);
  }

  /** Complementing twice gives back the same points. */
  lemma {:induction false} InvertTwice(s: seq<nat>, t: seq<nat>, u: seq<nat>)
    requires Canonical(s) && AllAtMost(s, UINT32_MAX) && IsComplement(s, t) && IsComplement(t, u)
    ensures u == s
  {
    hide InSet;
    forall c: nat
      ensures InSet(u, c) == InSet(s, c)
    {
      if c >= UINT32_MAX {
        NothingAbove(u, UINT32_MAX, c);
        NothingAbove(s, UINT32_MAX, c);
      }
    }
    CanonicalUnique(s, u);
  }

  lemma OpStart(a: seq<nat>, b: seq<nat>, op: SetOp)
    ensures Combines([], [], [], op) && Sorted([]) && AllAtMost([], 0) && RestAtLeast(a, 0, 0) && RestAtLeast(b, 0, 0)
    ensures !Combine(op, false, false)
  {
  }

  lemma OpEnd(op: SetOp, m: nat, n: nat)
    requires m % 2 == 0 && n % 2 == 0
    ensures !Combine(op, m % 2 == 1, n % 2 == 1)
  {
  }

  lemma CombinesSame(out: seq<nat>, out': seq<nat>, a: seq<nat>, b: seq<nat>, op: SetOp)
    requires Combines(out, a, b, op) && SameSet(out, out')
    ensures Combines(out', a, b, op)
  {
    hide InSet;
    forall c: nat
      ensures InSet(out', c) == Combine(op, InSet(a, c), InSet(b, c))
    {
      assert InSet(out, c) == InSet(out', c);
    }
  }

  /** The point taken is the least of those left, and at least the last one. */
  lemma NextIs(a: seq<nat>, b: seq<nat>, i: nat, j: nat, i': nat, j': nat, v: nat, last: nat)
    requires i <= |a| && j <= |b| && i <= i' <= i + 1 && j <= j' <= j + 1 && i' <= |a| && j' <= |b|
    requires i < i' || j < j'
    requires Sorted(a) && Sorted(b) && RestAtLeast(a, i, last) && RestAtLeast(b, j, last)
    requires AllAtMost(a[..i], last) && AllAtMost(b[..j], last)
    requires (i < i' ==> v == a[i]) && (j < j' ==> v == b[j])
    requires (i == i' && i < |a| ==> v <= a[i]) && (j == j' && j < |b| ==> v <= b[j])
    ensures last <= v && AllAtMost(a[..i], v) && AllAtMost(b[..j], v) && AllAtMost(a[..i'], v) && AllAtMost(b[..j'], v)
    ensures MayAdd(a[..i], v, a[..i']) && MayAdd(b[..j], v, b[..j'])
    ensures RestAtLeast(a, i', v) && RestAtLeast(b, j', v)
  {
    AtMostWeaker(a[..i], last, v);
    AtMostWeaker(b[..j], last, v);
    if i < i' {
      PrefixAtMost(a, i);
    }
    if j < j' {
      PrefixAtMost(b, j);
    }
  }
}
