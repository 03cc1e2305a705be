/** Comparison callbacks, and what sorting by one means. */
module SortSpec {
  type Compare<!T> = (T, T) -> int

  /** Negative, zero and positive results are those of one total preorder. */
  ghost predicate Preorder<T(!new)>(cmp: Compare<T>) {
    && (forall x, y :: cmp(x, y) < 0 <==> cmp(y, x) > 0)
    && (forall x, y, z :: cmp(x, y) <= 0 && cmp(y, z) <= 0 ==> cmp(x, z) <= 0)
  }

  /** A comparison callback: any answers at all, which may change from one call to the next. */
  class Comparison<T> {
    const answer: (nat, T, T) -> int
    var calls: nat

    constructor (answer: (nat, T, T) -> int)
      ensures this.answer == answer && calls == 0
    {
      this.answer := answer;
      calls := 0;
    }

    method Compare(x: T, y: T) returns (c: int)
      modifies this`calls
      ensures c == answer(old(calls), x, y) && calls == old(calls) + 1
    {
      c := answer(calls, x, y);
      calls := calls + 1;
    }
  }

  /** All answers are those of one total preorder. */
  ghost predicate Lawful<T(!new)>(cmp: Comparison<T>, order: Compare<T>) {
    Preorder(order) && forall n, x, y :: cmp.answer(n, x, y) == order(x, y)
  }

  lemma LawfulOrder<T(!new)>(cmp: Comparison<T>, order: Compare<T>)
    requires Lawful(cmp, order)
    ensures Preorder(order)
  {
  }

  /** One comparison; if the answers are lawful, the order's. */
  method Ask<T(!new)>(cmp: Comparison<T>, x: T, y: T, ghost order: Compare<T>, ghost ok: bool) returns (c: int)
    requires ok ==> Lawful(cmp, order)
    modifies cmp`calls
    ensures ok ==> c == order(x, y)
  {
    hide Preorder;
    c := cmp.Compare(x, y);
  }

  predicate Le<T>(cmp: Compare<T>, x: T, y: T) {
    cmp(x, y) <= 0
  }

  lemma LeSelf<T(!new)>(cmp: Compare<T>, x: T)
    requires Preorder(cmp)
    ensures cmp(x, x) == 0
  {
  }

  lemma LeTrans<T(!new)>(cmp: Compare<T>, x: T, y: T, z: T)
    requires Preorder(cmp) && Le(cmp, x, y) && Le(cmp, y, z)
    ensures Le(cmp, x, z)
  {
  }

  lemma LeFlip<T(!new)>(cmp: Compare<T>, x: T, y: T)
    requires Preorder(cmp)
    ensures cmp(x, y) >= 0 <==> Le(cmp, y, x)
    ensures cmp(x, y) == 0 <==> cmp(y, x) == 0
  {
  }

  /** Every element is at most every later one, in s[lo..hi]. */
  ghost predicate SortedIn<T>(cmp: Compare<T>, s: seq<T>, lo: nat, hi: nat) {
    hi <= |s| && forall i, j | lo <= i < j < hi :: Le(cmp, s[i], s[j])
  }

  /** t is s with the elements of s[lo..hi] rearranged. */
  ghost predicate Rearranged<T>(s: seq<T>, t: seq<T>, lo: nat, hi: nat) {
    && lo <= hi <= |s| && |t| == |s|
    && (forall k | 0 <= k < |s| && !(lo <= k < hi) :: t[k] == s[k])
    && multiset(t[lo..hi]) == multiset(s[lo..hi])
  }

  lemma RearrangedTrans<T>(s: seq<T>, t: seq<T>, u: seq<T>, lo: nat, hi: nat)
    requires Rearranged(s, t, lo, hi) && Rearranged(t, u, lo, hi)
    ensures Rearranged(s, u, lo, hi)
  {
  }

  /** An element of the new window is an element of the old one. */
  lemma Came<T>(s: seq<T>, t: seq<T>, lo: nat, hi: nat, k: nat) returns (j: nat)
    requires Rearranged(s, t, lo, hi) && lo <= k < hi
    ensures lo <= j < hi && t[k] == s[j]
  {
    assert t[k] == t[lo..hi][k - lo];
    assert t[k] in multiset(s[lo..hi]);
    var i :| 0 <= i < hi - lo && s[lo..hi][i] == t[k];
    j := lo + i;
  }

  lemma RearrangedWider<T>(s: seq<T>, t: seq<T>, lo: nat, hi: nat, lo': nat, hi': nat)
    requires Rearranged(s, t, lo, hi) && lo' <= lo && hi <= hi' <= |s|
    ensures Rearranged(s, t, lo', hi')
  {
    assert s[lo'..hi'] == s[lo'..lo] + s[lo..hi] + s[hi..hi'];
    assert t[lo'..hi'] == t[lo'..lo] + t[lo..hi] + t[hi..hi'];
    assert t[lo'..lo] == s[lo'..lo] && t[hi..hi'] == s[hi..hi'];
  }

  function Swapped<T>(s: seq<T>, i: nat, j: nat): (t: seq<T>)
    requires i < |s| && j < |s|
    ensures |t| == |s|
  {
    s[i := s[j]][j := s[i]]
  }

  lemma SwapRearranges<T>(s: seq<T>, i: nat, j: nat, lo: nat, hi: nat)
    requires lo <= i < hi && lo <= j < hi && hi <= |s|
    ensures Rearranged(s, Swapped(s, i, j), lo, hi)
  {
    var t := Swapped(s, i, j);
    var a, b := i - lo, j - lo;
    var w := s[lo..hi];
    assert t[lo..hi] == w[a := w[b]][b := w[a]];
    assert multiset(w[a := w[b]]) == multiset(w) - multiset{w[a]} + multiset{w[b]};
  }

  method Swap<T>(a: array<T>, i: nat, j: nat)
    requires i < a.Length && j < a.Length
    modifies a
    ensures a[..] == Swapped(old(a[..]), i, j)
  {
    a[i], a[j] := a[j], a[i];
  }
}
