/**
 Quicksort with three-way partitioning, an explicit stack of 50 entries, heapsort when the
 depth limit is passed and insertion sort for small pieces. Whatever the comparison answers,
 the stack does not overflow, the sort ends and the elements are rearranged; `ok` says that the
 answers are those of the order cmp, and then they end up sorted.
 */
module Rqsort {
  import opened SortSpec
  import HeapSort

  /** One of three indices. */
  function Med3<T>(s: seq<T>, a: nat, b: nat, c: nat, cmp: Compare<T>): (m: nat)
    requires a < |s| && b < |s| && c < |s|
    ensures m == a || m == b || m == c
  {
    if cmp(s[a], s[b]) < 0 then
      (if cmp(s[b], s[c]) < 0 then b else if cmp(s[a], s[c]) < 0 then c else a)
    else
      (if cmp(s[b], s[c]) > 0 then b else if cmp(s[a], s[c]) < 0 then a else c)
  }

  /** The same, asking for one comparison at a time. */
  method ChooseMedian<T(!new)>(
    s: array<T>, a: nat, b: nat, c: nat, comparison: Comparison<T>, ghost cmp: Compare<T>,
        ghost ok: bool) returns (m: nat)
    requires a < s.Length && b < s.Length && c < s.Length && (ok ==> Lawful(comparison, cmp))
    modifies comparison`calls
    ensures (m == a || m == b || m == c) && (ok ==> m == Med3(s[..], a, b, c, cmp))
  {
    hide Lawful;
    var ab := Ask(comparison, s[a], s[b], cmp, ok);
    var bc := Ask(comparison, s[b], s[c], cmp, ok);
    if (ab < 0 && bc < 0) || (ab >= 0 && bc > 0) {
      return b;
    }
    var ac := Ask(comparison, s[a], s[c], cmp, ok);
    m := if ab < 0 then (if ac < 0 then c else a) else if ac < 0 then a else c;
  }

  /** It holds a median: of the other two, one is at most it and one at least it. */
  lemma MedianIs<T(!new)>(s: seq<T>, a: nat, b: nat, c: nat, cmp: Compare<T>) returns (lo: nat, hi: nat)
    requires Preorder(cmp) && a < |s| && b < |s| && c < |s|
    ensures var m := Med3(s, a, b, c, cmp);
      multiset{lo, m, hi} == multiset{a, b, c} && lo < |s| && hi < |s| && Le(cmp, s[lo], s[m]) && Le(cmp, s[m], s[hi])
  {
    LeFlip(cmp, s[a], s[b]);
    LeFlip(cmp, s[b], s[c]);
    LeFlip(cmp, s[a], s[c]);
    var around := Around(s, a, b, c, cmp);
    lo, hi := around.0, around.1;
  }

  /** What the comparisons of Med3 leave below and above its result. */
  function Around<T>(s: seq<T>, a: nat, b: nat, c: nat, cmp: Compare<T>): (nat, nat)
    requires a < |s| && b < |s| && c < |s|
  {
    if cmp(s[a], s[b]) < 0 then
      (if cmp(s[b], s[c]) < 0 then (a, c) else if cmp(s[a], s[c]) < 0 then (a, b) else (c, b))
    else
      (if cmp(s[b], s[c]) > 0 then (c, a) else if cmp(s[a], s[c]) < 0 then (b, c) else (b, a))
  }

  // ----- partitioning -----

  function Sign(x: int): int {
    if x < 0 then -1 else if x == 0 then 0 else 1
  }

  /** Every element of s[lo..hi] compares to v in the same way: 1 below it, 0 like it, -1 above it. */
  ghost predicate All<T>(cmp: Compare<T>, s: seq<T>, lo: int, hi: int, v: T, sign: int) {
    0 <= lo && hi <= |s| && forall k | lo <= k < hi :: Sign(cmp(v, s[k])) == sign
  }

  /** How the bounds of the parts lie. */
  predicate Spans(p: nat, plt: nat, pi: nat, pj: nat, pgt: nat, top: nat) {
    p < plt <= pi <= pj <= pgt <= top
  }

  /** Like the pivot, below it, not yet seen, above it, like it. */
  ghost predicate Parts<T>(cmp: Compare<T>, s: seq<T>, p: nat, plt: nat, pi: nat, pj: nat, pgt: nat, top: nat, v: T) {
    && Spans(p, plt, pi, pj, pgt, top) && top <= |s| && s[p] == v
    && All(cmp, s, p, plt, v, 0) && All(cmp, s, plt, pi, v, 1) && All(cmp, s, pj, pgt, v, -1)
    && All(cmp, s, pgt, top, v, 0)
  }

  lemma UpStep<T>(cmp: Compare<T>, s: seq<T>, p: nat, plt: nat, pi: nat, pj: nat, pgt: nat, top: nat, v: T)
    requires Parts(cmp, s, p, plt, pi, pj, pgt, top, v) && pi < pj
    ensures cmp(v, s[pi]) > 0 ==> Parts(cmp, s, p, plt, pi + 1, pj, pgt, top, v)
    ensures cmp(v, s[pi]) == 0 ==> Parts(cmp, Swapped(s, plt, pi), p, plt + 1, pi + 1, pj, pgt, top, v)
  {
  }

  lemma DownStep<T>(cmp: Compare<T>, s: seq<T>, p: nat, plt: nat, pi: nat, pj: nat, pgt: nat, top: nat, v: T)
    requires Parts(cmp, s, p, plt, pi, pj + 1, pgt, top, v) && pi <= pj
    ensures cmp(v, s[pj]) < 0 ==> Parts(cmp, s, p, plt, pi, pj, pgt, top, v)
    ensures cmp(v, s[pj]) == 0 ==> Parts(cmp, Swapped(s, pgt - 1, pj), p, plt, pi, pj, pgt - 1, top, v)
  {
  }

  lemma CrossStep<T>(cmp: Compare<T>, s: seq<T>, p: nat, plt: nat, pi: nat, pj: nat, pgt: nat, top: nat, v: T)
    requires Parts(cmp, s, p, plt, pi, pj + 1, pgt, top, v) && pi < pj && cmp(v, s[pi]) < 0 && cmp(v, s[pj]) > 0
    ensures Parts(cmp, Swapped(s, pi, pj), p, plt, pi + 1, pj, pgt, top, v)
  {
  }

  /** Move up over elements not above the pivot. */
  method ScanUp<T(!new)>(
    a: array<T>, p: nat, plt0: nat, pi0: nat, pj: nat, comparison: Comparison<T>,
    ghost pgt: nat, ghost top: nat, ghost v: T, ghost s: seq<T>, ghost cmp: Compare<T>, ghost ok: bool)
    returns (plt: nat, pi: nat)
    requires Spans(p, plt0, pi0, pj, pgt, top) && top <= a.Length && Rearranged(s, a[..], p, top)
    requires ok ==> Lawful(comparison, cmp) && Parts(cmp, a[..], p, plt0, pi0, pj, pgt, top, v)
    modifies a, comparison`calls
    ensures pi >= pi0 && Spans(p, plt, pi, pj, pgt, top) && Rearranged(s, a[..], p, top)
    ensures ok ==> Parts(cmp, a[..], p, plt, pi, pj, pgt, top, v) && (pi == pj || cmp(v, a[pi]) < 0)
  {
    hide All, Rearranged, Swapped, Lawful;
    plt, pi := plt0, pi0;
    while pi < pj
      invariant pi0 <= pi && Spans(p, plt, pi, pj, pgt, top) && Rearranged(s, a[..], p, top)
      invariant ok ==> Parts(cmp, a[..], p, plt, pi, pj, pgt, top, v)
    {
      ghost var t := a[..];
      var c := Ask(comparison, a[p], a[pi], cmp, ok);
      assert a[..] == t;
      if c < 0 {
        return;
      }
      if ok {
        UpStep(cmp, t, p, plt, pi, pj, pgt, top, v);
      }
      if c == 0 {
        SwapRearranges(t, plt, pi, p, top);
        Swap(a, plt, pi);
        RearrangedTrans(s, t, a[..], p, top);
        plt := plt + 1;
      }
      pi := pi + 1;
    }
  }

  /** Move down over elements not below the pivot. */
  method ScanDown<T(!new)>(
    a: array<T>, p: nat, pi: nat, pj0: nat, pgt0: nat, comparison: Comparison<T>,
    ghost plt: nat, ghost top: nat, ghost v: T, ghost s: seq<T>, ghost cmp: Compare<T>, ghost ok: bool)
    returns (pj: nat, pgt: nat)
    requires Spans(p, plt, pi, pj0, pgt0, top) && top <= a.Length && Rearranged(s, a[..], p, top)
    requires ok ==> Lawful(comparison, cmp) && Parts(cmp, a[..], p, plt, pi, pj0, pgt0, top, v)
    modifies a, comparison`calls
    ensures pj < pj0 && Spans(p, plt, pi, pj + 1, pgt, top) && Rearranged(s, a[..], p, top)
    ensures if pi == pj0 then pj + 1 == pi else pi <= pj && a[pi] == old(a[pi])
    ensures ok ==> Parts(cmp, a[..], p, plt, pi, pj + 1, pgt, top, v) && (pi < pj ==> cmp(v, a[pj]) > 0)
  {
    hide All, Rearranged, Lawful;
    pj, pgt := pj0 - 1, pgt0;
    while pi < pj
      invariant pj < pj0 && Spans(p, plt, pi, pj + 1, pgt, top) && Rearranged(s, a[..], p, top)
      invariant if pi == pj0 then pj + 1 == pi else pi <= pj && a[pi] == old(a[pi])
      invariant ok ==> Parts(cmp, a[..], p, plt, pi, pj + 1, pgt, top, v)
    {
      ghost var t := a[..];
      var c := Ask(comparison, a[p], a[pj], cmp, ok);
      assert a[..] == t;
      if c > 0 {
        return;
      }
      if ok {
        DownStep(cmp, t, p, plt, pi, pj, pgt, top, v);
      }
      if c == 0 {
        pgt := pgt - 1;
        SwapRearranges(t, pgt, pj, p, top);
        Swap(a, pgt, pj);
        RearrangedTrans(s, t, a[..], p, top);
      }
      pj := pj - 1;
    }
  }

  lemma PartsStart<T(!new)>(cmp: Compare<T>, s: seq<T>, p: nat, n: nat)
    requires Preorder(cmp) && n > 0 && p + n <= |s|
    ensures Parts(cmp, s, p, p + 1, p + 1, p + n, p + n, p + n, s[p]) && Rearranged(s, s, p, p + n)
  {
    LeSelf(cmp, s[p]);
  }

  lemma PartsMet<T>(cmp: Compare<T>, s: seq<T>, p: nat, plt: nat, pi: nat, pgt: nat, top: nat, v: T)
    requires Parts(cmp, s, p, plt, pi, pi + 1, pgt, top, v) && cmp(v, s[pi]) < 0
    ensures Parts(cmp, s, p, plt, pi, pi, pgt, top, v)
  {
  }

  /** Split around the pivot, which is the first element. */
  method Partition<T(!new)>(a: array<T>, p: nat, n: nat, comparison: Comparison<T>, ghost cmp: Compare<T>,
      ghost ok: bool)
    returns (plt: nat, pi: nat, pgt: nat)
    requires n > 0 && p + n <= a.Length && (ok ==> Lawful(comparison, cmp))
    modifies a, comparison`calls
    ensures Spans(p, plt, pi, pi, pgt, p + n) && Rearranged(old(a[..]), a[..], p, p + n)
    ensures ok ==> Parts(cmp, a[..], p, plt, pi, pi, pgt, p + n, old(a[p]))
  {
    hide Parts, Rearranged, Swapped, Lawful, Preorder;
    ghost var s, v, top := a[..], a[p], p + n;
    RearrangedSelf(s, p, top);
    if ok {
      LawfulOrder(comparison, cmp);
      PartsStart(cmp, s, p, n);
    }
    plt, pi, pgt := p + 1, p + 1, p + n;
    var pj: nat := p + n;
    while true
      invariant Spans(p, plt, pi, pj, pgt, top) && Rearranged(s, a[..], p, top)
      invariant ok ==> Parts(cmp, a[..], p, plt, pi, pj, pgt, top, v)
      decreases pj - pi
    {
      plt, pi := ScanUp(a, p, plt, pi, pj, comparison, pgt, top, v, s, cmp, ok);
      ghost var was := pj;
      pj, pgt := ScanDown(a, p, pi, pj, pgt, comparison, plt, top, v, s, cmp, ok);
      if pi >= pj {
        if ok && pi < was {
          PartsMet(cmp, a[..], p, plt, pi, pgt, top, v);
        }
        return;
      }
      ghost var t := a[..];
      if ok {
        CrossStep(cmp, t, p, plt, pi, pj, pgt, top, v);
      }
      SwapRearranges(t, pi, pj, p, top);
      Swap(a, pi, pj);
      RearrangedTrans(s, t, a[..], p, top);
      pi := pi + 1;
    }
  }

  // ----- the equal elements go to the middle -----

  /** Where the element now at k came from, when blocks of n at x and y changed places. */
  function Source(x: nat, y: nat, n: nat, k: int): int {
    if x <= k < x + n then k - x + y else if y <= k < y + n then k - y + x else k
  }

  ghost predicate Exchanged<T>(s: seq<T>, t: seq<T>, x: nat, y: nat, n: nat) {
    x + n <= y && y + n <= |s| && |t| == |s| && forall k | 0 <= k < |s| :: t[k] == s[Source(x, y, n, k)]
  }

  lemma ExchangeOne<T>(s: seq<T>, t: seq<T>, x: nat, y: nat, n: nat, m: nat)
    requires x + m <= y && y + m <= |s| && n < m && Exchanged(s, t, x, y, n)
    ensures Exchanged(s, Swapped(t, x + n, y + n), x, y, n + 1)
  {
  }

  lemma ExchangeNone<T>(s: seq<T>, x: nat, y: nat)
    requires x <= y <= |s|
    ensures Exchanged(s, s, x, y, 0)
  {
  }

  /** Exchange two blocks of n elements. */
  method SwapBlock<T>(a: array<T>, x: nat, y: nat, n: nat, ghost lo: nat, ghost hi: nat)
    requires lo <= x && x + n <= y && y + n <= hi <= a.Length
    modifies a
    ensures Exchanged(old(a[..]), a[..], x, y, n) && Rearranged(old(a[..]), a[..], lo, hi)
  {
    hide Exchanged, Rearranged, Swapped;
    ghost var s := a[..];
    ExchangeNone(s, x, y);
    assert Rearranged(s, s, lo, hi) by { RearrangedSelf(s, lo, hi); }
    var k := 0;
    while k < n
      invariant 0 <= k <= n && Exchanged(s, a[..], x, y, k) && Rearranged(s, a[..], lo, hi)
    {
      ghost var t := a[..];
      ExchangeOne(s, t, x, y, k, n);
      SwapRearranges(t, x + k, y + k, lo, hi);
      Swap(a, x + k, y + k);
      RearrangedTrans(s, t, a[..], lo, hi);
      k := k + 1;
    }
  }

  lemma RearrangedSelf<T>(s: seq<T>, lo: nat, hi: nat)
    requires lo <= hi <= |s|
    ensures Rearranged(s, s, lo, hi)
  {
  }

  function Min(x: nat, y: nat): nat {
    if x < y then x else y
  }

  /** Exchanging the smaller of two neighbours with the far end of the other swaps their kinds. */
  lemma Turned<T>(cmp: Compare<T>, s: seq<T>, t: seq<T>, lo: nat, mid: nat, hi: nat, v: T, e: int, f: int)
    requires lo <= mid <= hi <= |s| && All(cmp, s, lo, mid, v, e) && All(cmp, s, mid, hi, v, f)
    requires var n := Min(mid - lo, hi - mid); Exchanged(s, t, lo, hi - n, n)
    ensures All(cmp, t, lo, lo + (hi - mid), v, f) && All(cmp, t, lo + (hi - mid), hi, v, e)
  {
  }

  lemma AllSame<T>(cmp: Compare<T>, s: seq<T>, t: seq<T>, x: nat, y: nat, n: nat, lo: nat, hi: nat, v: T, e: int)
    requires Exchanged(s, t, x, y, n) && All(cmp, s, lo, hi, v, e) && (y + n <= lo || hi <= x)
    ensures All(cmp, t, lo, hi, v, e)
  {
  }

  /** Below the pivot, like it, above it. */
  ghost predicate ThreeWay<T>(cmp: Compare<T>, s: seq<T>, p: nat, lt: nat, gt: nat, n: nat, v: T) {
    && lt < gt <= n && p + n <= |s|
    && All(cmp, s, p, p + lt, v, 1) && All(cmp, s, p + lt, p + gt, v, 0) && All(cmp, s, p + gt, p + n, v, -1)
  }

  lemma AllJoin<T>(cmp: Compare<T>, s: seq<T>, lo: nat, mid: nat, hi: nat, v: T, e: int)
    requires lo <= mid <= hi && All(cmp, s, lo, mid, v, e) && All(cmp, s, mid, hi, v, e)
    ensures All(cmp, s, lo, hi, v, e)
  {
  }

  /** Move the elements like the pivot from both ends to the middle. */
  method Gather<T(!new)>(a: array<T>, p: nat, n: nat, plt: nat, pi: nat, pgt: nat, ghost v: T, ghost cmp: Compare<T>,
      ghost ok: bool)
    returns (lt: nat, gt: nat)
    requires Spans(p, plt, pi, pi, pgt, p + n) && p + n <= a.Length
    requires ok ==> Parts(cmp, a[..], p, plt, pi, pi, pgt, p + n, v)
    modifies a
    ensures lt < gt <= n && Rearranged(old(a[..]), a[..], p, p + n)
    ensures ok ==> ThreeWay(cmp, a[..], p, lt, gt, n, v)
  {
    hide Parts, ThreeWay, Rearranged, Exchanged;
    var top := p + n;
    ghost var s := a[..];
    lt := pi - plt;
    gt := n - (pgt - pi);
    var span := Min(plt - p, pi - plt);
    SwapBlock(a, p, pi - span, span, p, top);
    ghost var t := a[..];
    span := Min(top - pgt, pgt - pi);
    SwapBlock(a, pi, top - span, span, p, top);
    RearrangedTrans(s, t, a[..], p, top);
    if ok {
      Gathered(cmp, s, t, a[..], p, n, plt, pi, pgt, v);
    }
  }

  /** Two exchanges leave three parts. */
  lemma Gathered<T>(cmp: Compare<T>, s: seq<T>, t: seq<T>, u: seq<T>, p: nat, n: nat, plt: nat, pi: nat, pgt: nat, v: T)
    requires Parts(cmp, s, p, plt, pi, pi, pgt, p + n, v)
    requires var k := Min(plt - p, pi - plt); Exchanged(s, t, p, pi - k, k)
    requires var k := Min(p + n - pgt, pgt - pi); Exchanged(t, u, pi, p + n - k, k)
    ensures ThreeWay(cmp, u, p, pi - plt, n - (pgt - pi), n, v)
  {
    hide All, Exchanged;
    var top, lt, gt := p + n, pi - plt, n - (pgt - pi);
    var k, l := Min(plt - p, pi - plt), Min(p + n - pgt, pgt - pi);
    ExchangedLength(s, t, p, pi - k, k);
    ExchangedLength(t, u, pi, top - l, l);
    Turned(cmp, s, t, p, plt, pi, v, 0, 1);
    AllSame(cmp, s, t, p, pi - k, k, pi, pgt, v, -1);
    AllSame(cmp, s, t, p, pi - k, k, pgt, top, v, 0);
    assert Min(pgt - pi, top - pgt) == l;
    Turned(cmp, t, u, pi, pgt, top, v, -1, 0);
    AllSame(cmp, t, u, pi, top - l, l, p, p + lt, v, 1);
    AllSame(cmp, t, u, pi, top - l, l, p + lt, pi, v, 0);
    AllJoin(cmp, u, p + lt, pi, p + gt, v, 0);
  }

  lemma ExchangedLength<T>(s: seq<T>, t: seq<T>, x: nat, y: nat, n: nat)
    requires Exchanged(s, t, x, y, n)
    ensures |t| == |s|
  {
  }

  // ----- small pieces -----

  /** s[lo..hi] is sorted except that the element at j may be too far right. */
  ghost predicate SortedBut<T>(cmp: Compare<T>, s: seq<T>, lo: nat, j: nat, hi: nat) {
    && lo <= j < hi <= |s|
    && (forall x, y | lo <= x < y < hi && y != j && x != j :: Le(cmp, s[x], s[y]))
    && (forall y | j < y < hi :: Le(cmp, s[j], s[y]))
  }

  lemma InsertStart<T>(cmp: Compare<T>, s: seq<T>, lo: nat, hi: nat)
    requires SortedIn(cmp, s, lo, hi) && lo <= hi < |s|
    ensures SortedBut(cmp, s, lo, hi, hi + 1)
  {
  }

  lemma InsertStep<T(!new)>(cmp: Compare<T>, s: seq<T>, lo: nat, j: nat, hi: nat)
    requires Preorder(cmp) && SortedBut(cmp, s, lo, j, hi) && j > lo && cmp(s[j - 1], s[j]) > 0
    ensures SortedBut(cmp, Swapped(s, j, j - 1), lo, j - 1, hi)
  {
    LeFlip(cmp, s[j - 1], s[j]);
    hide Preorder, Le;
  }

  lemma InsertStop<T(!new)>(cmp: Compare<T>, s: seq<T>, lo: nat, j: nat, hi: nat)
    requires Preorder(cmp) && SortedBut(cmp, s, lo, j, hi) && (j == lo || cmp(s[j - 1], s[j]) <= 0)
    ensures SortedIn(cmp, s, lo, hi)
  {
    hide Preorder;
    forall x | lo <= x < j
      ensures Le(cmp, s[x], s[j])
    {
      if x < j - 1 {
        LeTrans(cmp, s[x], s[j - 1], s[j]);
      }
    }
    hide Le;
  }

  /** Exchange the element at j, which is too far right, with the one before it. */
  method MoveDown<T(!new)>(a: array<T>, p: nat, j: nat, ghost hi: nat, ghost s: seq<T>, ghost cmp: Compare<T>,
      ghost ok: bool)
    requires p < j < hi <= a.Length && Rearranged(s, a[..], p, hi)
    requires ok ==> Preorder(cmp) && SortedBut(cmp, a[..], p, j, hi) && cmp(a[j - 1], a[j]) > 0
    modifies a
    ensures (ok ==> SortedBut(cmp, a[..], p, j - 1, hi)) && Rearranged(s, a[..], p, hi)
  {
    hide Preorder, SortedBut, Rearranged, Swapped;
    ghost var t := a[..];
    if ok {
      InsertStep(cmp, t, p, j, hi);
    }
    SwapRearranges(t, j, j - 1, p, hi);
    Swap(a, j, j - 1);
    RearrangedTrans(s, t, a[..], p, hi);
  }

  /** Insert the element at i into the sorted part before it. */
  method InsertAt<T(!new)>(a: array<T>, p: nat, i: nat, comparison: Comparison<T>, ghost cmp: Compare<T>,
      ghost ok: bool)
    requires p <= i < a.Length && (ok ==> Lawful(comparison, cmp) && SortedIn(cmp, a[..], p, i))
    modifies a, comparison`calls
    ensures (ok ==> SortedIn(cmp, a[..], p, i + 1)) && Rearranged(old(a[..]), a[..], p, i + 1)
  {
    hide Preorder, SortedIn, SortedBut, Rearranged, Swapped, Lawful;
    ghost var s := a[..];
    if ok {
      LawfulOrder(comparison, cmp);
      InsertStart(cmp, s, p, i);
    }
    RearrangedSelf(s, p, i + 1);
    var j := i;
    while j > p
      invariant p <= j <= i && (ok ==> SortedBut(cmp, a[..], p, j, i + 1)) && Rearranged(s, a[..], p, i + 1)
    {
      ghost var t := a[..];
      var c := Ask(comparison, a[j - 1], a[j], cmp, ok);
      assert a[..] == t;
      if c <= 0 {
        break;
      }
      MoveDown(a, p, j, i + 1, s, cmp, ok);
      j := j - 1;
    }
    if ok {
      InsertStop(cmp, a[..], p, j, i + 1);
    }
  }

  lemma SortedNone<T>(cmp: Compare<T>, s: seq<T>, p: nat, n: nat)
    requires p + n <= |s|
    ensures SortedIn(cmp, s, p, p + Min(1, n))
  {
  }

  method InsertionSort<T(!new)>(a: array<T>, p: nat, n: nat, comparison: Comparison<T>, ghost cmp: Compare<T>,
      ghost ok: bool)
    requires p + n <= a.Length && (ok ==> Lawful(comparison, cmp))
    modifies a, comparison`calls
    ensures (ok ==> SortedIn(cmp, a[..], p, p + n)) && Rearranged(old(a[..]), a[..], p, p + n)
  {
    hide Lawful, SortedIn, Rearranged;
    ghost var s := a[..];
    SortedNone(cmp, s, p, n);
    RearrangedSelf(s, p, p + n);
    var pi := p + 1;
    while pi < p + n
      invariant p < pi && (n > 0 ==> pi <= p + n) && Rearranged(s, a[..], p, p + n)
      invariant ok ==> SortedIn(cmp, a[..], p, if n == 0 then p else pi)
    {
      ghost var t := a[..];
      InsertAt(a, p, pi, comparison, cmp, ok);
      RearrangedWider(t, a[..], p, pi + 1, p, p + n);
      RearrangedTrans(s, t, a[..], p, p + n);
      pi := pi + 1;
    }
  }

  // ----- pending pieces -----

  /** a[base..base + count] is still to be sorted. */
  datatype Piece = Piece(base: nat, count: nat, depth: nat)

  predicate Covers(q: Piece, i: int, j: int) {
    q.base <= i && j < q.base + q.count
  }

  ghost predicate Covered(pieces: seq<Piece>, i: int, j: int) {
    exists k | 0 <= k < |pieces| :: Covers(pieces[k], i, j)
  }

  /** Any two elements are in order, unless both are in one pending piece. */
  ghost predicate Ordered<T>(cmp: Compare<T>, s: seq<T>, pieces: seq<Piece>) {
    forall i, j | 0 <= i < j < |s| :: Le(cmp, s[i], s[j]) || Covered(pieces, i, j)
  }

  predicate Disjoint(q: Piece, r: Piece) {
    q.base + q.count <= r.base || r.base + r.count <= q.base
  }

  /** Pieces lie within the array and do not overlap. */
  ghost predicate Apart(pieces: seq<Piece>, len: nat) {
    && (forall k | 0 <= k < |pieces| :: pieces[k].base + pieces[k].count <= len)
    && (forall j, k | 0 <= j < k < |pieces| :: Disjoint(pieces[j], pieces[k]))
  }

  lemma CoveredMore(pieces: seq<Piece>, more: seq<Piece>, i: int, j: int)
    ensures Covered(pieces, i, j) ==> Covered(pieces + more, i, j)
    ensures Covered(more, i, j) ==> Covered(pieces + more, i, j)
  {
    if Covered(pieces, i, j) {
      var k :| 0 <= k < |pieces| && Covers(pieces[k], i, j);
      assert Covers((pieces + more)[k], i, j);
    }
    if Covered(more, i, j) {
      var k :| 0 <= k < |more| && Covers(more[k], i, j);
      assert Covers((pieces + more)[|pieces| + k], i, j);
    }
  }

  /** A pair that reaches out of the last piece is in order, or in an earlier piece. */
  lemma Outside<T>(cmp: Compare<T>, s: seq<T>, pieces: seq<Piece>, q: Piece, i: nat, j: nat)
    requires Ordered(cmp, s, pieces + [q]) && i < j < |s| && !Covers(q, i, j)
    ensures Le(cmp, s[i], s[j]) || Covered(pieces, i, j)
  {
    if !Le(cmp, s[i], s[j]) {
      var k :| 0 <= k < |pieces + [q]| && Covers((pieces + [q])[k], i, j);
      assert Covers(pieces[k], i, j);
    }
  }

  /** An index in a piece is in no other. */
  lemma OnlyOne(pieces: seq<Piece>, q: Piece, len: nat, i: nat, j: nat)
    requires Apart(pieces + [q], len) && i < j && (q.base <= i < q.base + q.count || q.base <= j < q.base + q.count)
    ensures !Covered(pieces, i, j)
  {
    forall k | 0 <= k < |pieces|
      ensures !Covers(pieces[k], i, j)
    {
      var ps := pieces + [q];
      assert Disjoint(ps[k], ps[|pieces|]);
    }
  }

  /** Working on the last piece: the rest stays in order if the piece falls into smaller ones. */
  lemma Refine<T>(cmp: Compare<T>, s: seq<T>, t: seq<T>, pieces: seq<Piece>, q: Piece, parts: seq<Piece>)
    requires Ordered(cmp, s, pieces + [q]) && Apart(pieces + [q], |s|) && Rearranged(s, t, q.base, q.base + q.count)
    requires forall i, j | q.base <= i < j < q.base + q.count :: Le(cmp, t[i], t[j]) || Covered(parts, i, j)
    ensures Ordered(cmp, t, pieces + parts)
  {
    hide Le, Rearranged, Ordered, Apart, Covered;
    assert |t| == |s| by { Lengths(s, t, q.base, q.base + q.count); }
    forall i, j | 0 <= i < j < |t|
      ensures Le(cmp, t[i], t[j]) || Covered(pieces + parts, i, j)
    {
      CoveredMore(pieces, parts, i, j);
      if !Covers(q, i, j) {
        RefinePair(cmp, s, t, pieces, q, i, j);
      }
    }
    OrderedIf(cmp, t, pieces + parts);
  }

  lemma Lengths<T>(s: seq<T>, t: seq<T>, lo: nat, hi: nat)
    requires Rearranged(s, t, lo, hi)
    ensures |t| == |s|
  {
  }

  lemma OrderedIf<T>(cmp: Compare<T>, s: seq<T>, pieces: seq<Piece>)
    requires forall i, j | 0 <= i < j < |s| :: Le(cmp, s[i], s[j]) || Covered(pieces, i, j)
    ensures Ordered(cmp, s, pieces)
  {
  }

  lemma RefinePair<T>(cmp: Compare<T>, s: seq<T>, t: seq<T>, pieces: seq<Piece>, q: Piece, i: nat, j: nat)
    requires Ordered(cmp, s, pieces + [q]) && Apart(pieces + [q], |s|) && Rearranged(s, t, q.base, q.base + q.count)
    requires i < j < |s| && !Covers(q, i, j)
    ensures Le(cmp, t[i], t[j]) || Covered(pieces, i, j)
  {
    hide Le, Ordered, Apart, Covered;
    var lo, hi := q.base, q.base + q.count;
    if lo <= i < hi {
      var i' := Came(s, t, lo, hi, i);
      OnlyOne(pieces, q, |s|, i', j);
      Outside(cmp, s, pieces, q, i', j);
    } else if lo <= j < hi {
      var j' := Came(s, t, lo, hi, j);
      OnlyOne(pieces, q, |s|, i, j');
      Outside(cmp, s, pieces, q, i, j');
    } else {
      Outside(cmp, s, pieces, q, i, j);
    }
  }

  /** A three-way split leaves two pieces. */
  lemma SplitPiece<T(!new)>(cmp: Compare<T>, t: seq<T>, q: Piece, lt: nat, gt: nat, v: T, parts: seq<Piece>, i: nat,
      j: nat)
    requires Preorder(cmp) && ThreeWay(cmp, t, q.base, lt, gt, q.count, v) && q.base <= i < j < q.base + q.count
    requires |parts| == 2
    requires exists k, l | 0 <= k < 2 && 0 <= l < 2 ::
      parts[k].base == q.base && parts[k].count == lt && parts[l].base == q.base + gt && parts[l].count == q.count - gt
    ensures Le(cmp, t[i], t[j]) || Covered(parts, i, j)
  {
    if j < q.base + lt || i >= q.base + gt {
      var k, l :| 0 <= k < 2 && 0 <= l < 2 && parts[k].base == q.base && parts[k].count == lt
          && parts[l].base == q.base + gt && parts[l].count == q.count - gt;
      assert Covers(parts[k], i, j) || Covers(parts[l], i, j);
    } else {
      LeFlip(cmp, v, t[i]);
      assert Le(cmp, t[i], v) && Le(cmp, v, t[j]);
      LeTrans(cmp, t[i], v, t[j]);
    }
  }

  lemma ApartSplit(pieces: seq<Piece>, q: Piece, x: Piece, y: Piece, len: nat)
    requires Apart(pieces + [q], len) && Disjoint(x, y)
    requires q.base <= x.base && x.base + x.count <= q.base + q.count && q.base <= y.base
    requires y.base + y.count <= q.base + q.count
    ensures Apart(pieces + [x] + [y], len)
  {
    var ps := pieces + [x] + [y];
    var os := pieces + [q];
    assert os[|pieces|] == q;
    forall k | 0 <= k < |pieces|
      ensures ps[k] == pieces[k] && Disjoint(pieces[k], x) && Disjoint(pieces[k], y) && ps[k].base + ps[k].count <= len
    {
      assert os[k] == pieces[k] && Disjoint(os[k], os[|pieces|]);
    }
    forall j, k | 0 <= j < k < |ps|
      ensures Disjoint(ps[j], ps[k])
    {
      if k < |pieces| {
        assert os[j] == ps[j] && os[k] == ps[k];
      }
    }
  }

  lemma ApartFewer(pieces: seq<Piece>, q: Piece, len: nat)
    requires Apart(pieces + [q], len)
    ensures Apart(pieces, len) && q.base + q.count <= len
  {
    var os := pieces + [q];
    assert os[|pieces|] == q;
    assert forall k | 0 <= k < |pieces| :: os[k] == pieces[k];
  }

  // ----- the sort -----

  /** Work still pending. */
  function Weight(pieces: seq<Piece>): nat {
    if pieces == [] then 0 else Weight(pieces[..|pieces| - 1]) + 2 * pieces[|pieces| - 1].count + 1
  }

  lemma WeightPush(pieces: seq<Piece>, q: Piece)
    ensures Weight(pieces + [q]) == Weight(pieces) + 2 * q.count + 1
  {
    assert (pieces + [q])[..|pieces|] == pieces;
  }

  /** t is s rearranged, and if ok sorted up to the pending pieces. */
  ghost predicate Pending<T>(cmp: Compare<T>, ok: bool, s: seq<T>, t: seq<T>, pieces: seq<Piece>) {
    Rearranged(s, t, 0, |s|) && Apart(pieces, |t|) && (ok ==> Ordered(cmp, t, pieces))
  }

  lemma PendingStart<T>(cmp: Compare<T>, ok: bool, s: seq<T>)
    ensures Pending(cmp, ok, s, s, [Piece(0, |s|, 0)])
  {
    var ps := [Piece(0, |s|, 0)];
    forall i, j | 0 <= i < j < |s|
      ensures Covered(ps, i, j)
    {
      assert Covers(ps[0], i, j);
    }
  }

  lemma PendingEnd<T>(cmp: Compare<T>, ok: bool, s: seq<T>, t: seq<T>)
    requires Pending(cmp, ok, s, t, [])
    ensures (ok ==> SortedIn(cmp, t, 0, |t|)) && multiset(t) == multiset(s)
  {
    hide Le, Apart;
    assert s[0..|s|] == s && t[0..|s|] == t;
  }

  /** The last piece has been sorted. */
  lemma PendingSorted<T>(cmp: Compare<T>, ok: bool, s: seq<T>, t: seq<T>, u: seq<T>, pieces: seq<Piece>, q: Piece,
      d: nat)
    requires Pending(cmp, ok, s, t, pieces + [q]) && Rearranged(t, u, q.base, q.base + q.count)
    requires ok ==> SortedIn(cmp, u, q.base, q.base + q.count)
    ensures Pending(cmp, ok, s, u, pieces) && Pending(cmp, ok, s, u, pieces + [Piece(q.base, 0, d)])
  {
    hide Ordered, Apart, Rearranged, Le;
    var none := Piece(q.base, 0, d);
    assert |t| == |s| && |u| == |s| by {
      Lengths(s, t, 0, |s|);
      Lengths(t, u, q.base, q.base + q.count);
    }
    ApartFewer(pieces, q, |t|);
    if ok {
      Refine(cmp, t, u, pieces, q, []);
      assert pieces + [] == pieces;
      Refine(cmp, t, u, pieces, q, [none]);
    }
    ApartSplit(pieces, q, none, none, |t|);
    ApartFewer(pieces + [none], none, |t|);
    RearrangedWider(t, u, q.base, q.base + q.count, 0, |s|);
    RearrangedTrans(s, t, u, 0, |s|);
  }

  /** The last piece has been split around a pivot. */
  lemma PendingSplit<T(!new)>(
    cmp: Compare<T>, ok: bool, s: seq<T>, t: seq<T>, u: seq<T>, pieces: seq<Piece>, q: Piece,
    lt: nat, gt: nat, v: T, x: Piece, y: Piece)
    requires Pending(cmp, ok, s, t, pieces + [q]) && Rearranged(t, u, q.base, q.base + q.count)
    requires ok ==> Preorder(cmp) && ThreeWay(cmp, u, q.base, lt, gt, q.count, v)
    requires IsPart(q, lt, gt, x, y) || IsPart(q, lt, gt, y, x)
    ensures Pending(cmp, ok, s, u, pieces + [x] + [y])
  {
    hide Preorder, Ordered, Apart, Rearranged, ThreeWay;
    assert |t| == |s| && |u| == |s| by {
      Lengths(s, t, 0, |s|);
      Lengths(t, u, q.base, q.base + q.count);
    }
    ApartFewer(pieces, q, |t|);
    if ok {
      OrderedSplit(cmp, t, u, pieces, q, lt, gt, v, x, y);
    }
    ApartSplit(pieces, q, x, y, |t|);
    RearrangedWider(t, u, q.base, q.base + q.count, 0, |s|);
    RearrangedTrans(s, t, u, 0, |s|);
  }

  lemma OrderedSplit<T(!new)>(
    cmp: Compare<T>, t: seq<T>, u: seq<T>, pieces: seq<Piece>, q: Piece, lt: nat, gt: nat, v: T, x: Piece, y: Piece)
    requires Preorder(cmp) && Ordered(cmp, t, pieces + [q]) && Apart(pieces + [q], |t|)
    requires Rearranged(t, u, q.base, q.base + q.count) && ThreeWay(cmp, u, q.base, lt, gt, q.count, v)
    requires IsPart(q, lt, gt, x, y) || IsPart(q, lt, gt, y, x)
    ensures Ordered(cmp, u, pieces + [x] + [y])
  {
    hide Preorder, Ordered, Apart, Rearranged, Le, All;
    var parts := [x, y];
    assert parts[0] == x && parts[1] == y;
    forall i, j | q.base <= i < j < q.base + q.count
      ensures Le(cmp, u[i], u[j]) || Covered(parts, i, j)
    {
      SplitPiece(cmp, u, q, lt, gt, v, parts, i, j);
    }
    Refine(cmp, t, u, pieces, q, parts);
    assert pieces + parts == pieces + [x] + [y];
  }

  predicate IsPart(q: Piece, lt: nat, gt: nat, x: Piece, y: Piece) {
    lt < gt <= q.count && x.base == q.base && x.count == lt && y.base == q.base + gt && y.count == q.count - gt
  }

  /** Move a median of three to the front. */
  method ChoosePivot<T(!new)>(a: array<T>, p: nat, n: nat, comparison: Comparison<T>, ghost cmp: Compare<T>,
      ghost ok: bool)
    requires n > 6 && p + n <= a.Length && (ok ==> Lawful(comparison, cmp))
    modifies a, comparison`calls
    ensures Rearranged(old(a[..]), a[..], p, p + n)
    ensures var m4 := n / 4; ok ==> a[p] == old(a[Med3(a[..], p + m4, p + 2 * m4, p + 3 * m4, cmp)])
  {
    hide Rearranged, Lawful, Med3;
    var m4 := n / 4;
    ghost var s := a[..];
    var m := ChooseMedian(a, p + m4, p + 2 * m4, p + 3 * m4, comparison, cmp, ok);
    assert a[..] == s;
    SwapRearranges(s, p, m, p, p + n);
    Swap(a, p, m);
    assert a[p] == a[..][p] == s[m];
  }

  /** Choose a pivot and split around it: lt elements below, those from gt on above. */
  method SplitAround<T(!new)>(a: array<T>, p: nat, n: nat, comparison: Comparison<T>, ghost cmp: Compare<T>,
      ghost ok: bool)
    returns (lt: nat, gt: nat, ghost v: T)
    requires n > 6 && p + n <= a.Length && (ok ==> Lawful(comparison, cmp))
    modifies a, comparison`calls
    ensures lt < gt <= n && Rearranged(old(a[..]), a[..], p, p + n)
    ensures ok ==> ThreeWay(cmp, a[..], p, lt, gt, n, v)
  {
    hide ThreeWay, Parts, Rearranged, Lawful, Med3;
    ghost var s := a[..];
    ChoosePivot(a, p, n, comparison, cmp, ok);
    v := a[p];
    ghost var t := a[..];
    var plt, pi, pgt := Partition(a, p, n, comparison, cmp, ok);
    ghost var u := a[..];
    lt, gt := Gather(a, p, n, plt, pi, pgt, v, cmp, ok);
    RearrangedTrans(s, t, u, p, p + n);
    RearrangedTrans(s, u, a[..], p, p + n);
  }

  const DEPTH_MAX: nat := 50

  /** The depth of an entry is at least its place on the stack. */
  ghost predicate Deep(pieces: seq<Piece>) {
    forall k | 0 <= k < |pieces| :: k <= pieces[k].depth <= DEPTH_MAX
  }

  /** Split one piece until it is small, stacking the larger parts; what is left of it is returned. */
  method Narrow<T(!new)>(
    a: array<T>, stack: array<Piece>, sp0: nat, q: Piece, comparison: Comparison<T>,
    ghost s: seq<T>, ghost cmp: Compare<T>, ghost ok: bool)
    returns (sp: nat, ptr: nat, n: nat)
    requires a as object != stack && stack.Length == DEPTH_MAX && sp0 <= q.depth <= DEPTH_MAX
    requires Pending(cmp, ok, s, a[..], stack[..sp0] + [q]) && Deep(stack[..sp0]) && (ok ==> Lawful(comparison, cmp))
    modifies a, stack, comparison`calls
    ensures sp <= DEPTH_MAX && Deep(stack[..sp])
    ensures Weight(stack[..sp]) + 2 * n + 1 <= Weight(old(stack[..sp0])) + 2 * q.count + 1
    ensures Pending(cmp, ok, s, a[..], stack[..sp] + [Piece(ptr, n, 0)]) && ptr + n <= a.Length
  {
    hide Pending, Rearranged, Weight, Deep, SortedIn, ThreeWay, Lawful, Preorder;
    sp, ptr, n := sp0, q.base, q.count;
    var depth := q.depth;
    assert q == Piece(ptr, n, depth);
    while n > 6
      invariant sp <= depth <= DEPTH_MAX && Deep(stack[..sp])
      invariant Pending(cmp, ok, s, a[..], stack[..sp] + [Piece(ptr, n, depth)])
      invariant Weight(stack[..sp]) + 2 * n + 1 <= Weight(old(stack[..sp0])) + 2 * q.count + 1
      decreases n
    {
      ghost var t, below, here := a[..], stack[..sp], Piece(ptr, n, depth);
      PendingFits(cmp, ok, s, t, below, here);
      depth := depth + 1;
      if depth > DEPTH_MAX {
        HeapSort.Sort(a, ptr, n, comparison, cmp, ok);
        PendingSorted(cmp, ok, s, t, a[..], below, here, 0);
        n := 0;
        return;
      }
      var lt, gt;
      ghost var v;
      lt, gt, v := SplitAround(a, ptr, n, comparison, cmp, ok);
      if ok {
        LawfulOrder(comparison, cmp);
      }
      var x, y := Piece(ptr, lt, depth), Piece(ptr + gt, n - gt, depth);
      if lt > n - gt {
        PendingSplit(cmp, ok, s, t, a[..], below, here, lt, gt, v, x, y);
        stack[sp] := x;
        ptr, n := ptr + gt, n - gt;
      } else {
        PendingSplit(cmp, ok, s, t, a[..], below, here, lt, gt, v, y, x);
        stack[sp] := y;
        n := lt;
      }
      assert stack[..sp + 1] == below + [stack[sp]];
      WeightPush(below, stack[sp]);
      DeepPush(below, stack[sp]);
      sp := sp + 1;
    }
    PendingDepth(cmp, ok, s, a[..], stack[..sp], Piece(ptr, n, depth));
  }

  lemma PendingFits<T>(cmp: Compare<T>, ok: bool, s: seq<T>, t: seq<T>, pieces: seq<Piece>, q: Piece)
    requires Pending(cmp, ok, s, t, pieces + [q])
    ensures |t| == |s| && q.base + q.count <= |t|
  {
    hide Ordered;
    ApartFewer(pieces, q, |t|);
  }

  lemma PendingDepth<T>(cmp: Compare<T>, ok: bool, s: seq<T>, t: seq<T>, pieces: seq<Piece>, q: Piece)
    requires Pending(cmp, ok, s, t, pieces + [q])
    ensures Pending(cmp, ok, s, t, pieces + [q.(depth := 0)]) && q.base + q.count <= |t|
  {
    hide Rearranged, Le;
    PendingFits(cmp, ok, s, t, pieces, q);
    var ps, os := pieces + [q.(depth := 0)], pieces + [q];
    forall i, j | Covered(os, i, j)
      ensures Covered(ps, i, j)
    {
      var k :| 0 <= k < |os| && Covers(os[k], i, j);
      assert Covers(ps[k], i, j);
    }
    assert forall j, k | 0 <= j < k < |ps| :: Disjoint(ps[j], ps[k]) == Disjoint(os[j], os[k]);
  }

  lemma DeepPush(pieces: seq<Piece>, q: Piece)
    requires Deep(pieces) && |pieces| <= q.depth <= DEPTH_MAX
    ensures Deep(pieces + [q])
  {
  }

  method SortBy<T(!new)>(a: array<T>, comparison: Comparison<T>, ghost cmp: Compare<T>, ghost ok: bool)
    requires ok ==> Lawful(comparison, cmp)
    modifies a, comparison`calls
    ensures (ok ==> SortedIn(cmp, a[..], 0, a.Length)) && multiset(a[..]) == multiset(old(a[..]))
  {
    hide Pending, Rearranged, Weight, Deep, Le, Lawful;
    if a.Length < 2 {
      return;
    }
    ghost var s := a[..];
    var stack := new Piece[DEPTH_MAX];
    stack[0] := Piece(0, a.Length, 0);
    var sp := 1;
    PendingStart(cmp, ok, s);
    assert stack[..1] == [Piece(0, |s|, 0)];
    DeepStart(stack[..1]);
    while sp > 0
      invariant 0 <= sp <= DEPTH_MAX && Pending(cmp, ok, s, a[..], stack[..sp]) && Deep(stack[..sp])
      decreases Weight(stack[..sp])
    {
      ghost var all := stack[..sp];
      sp := sp - 1;
      var q := stack[sp];
      assert all == stack[..sp] + [q];
      DeepPop(stack[..sp], q);
      WeightPush(stack[..sp], q);
      var ptr, n;
      sp, ptr, n := Narrow(a, stack, sp, q, comparison, s, cmp, ok);
      ghost var t := a[..];
      InsertionSort(a, ptr, n, comparison, cmp, ok);
      PendingSorted(cmp, ok, s, t, a[..], stack[..sp], Piece(ptr, n, 0), 0);
    }
    assert stack[..0] == [];
    PendingEnd(cmp, ok, s, a[..]);
  }

  /**
   Sort the whole array. Every comparison, lawful or not, leaves a permutation, within the bounds
   of the array and of the stack; if its answers are those of a total preorder, it is sorted.
   */
  method Sort<T(!new)>(a: array<T>, comparison: Comparison<T>)
    modifies a, comparison`calls
    ensures multiset(a[..]) == multiset(old(a[..]))
    ensures forall order, i, j | Lawful(comparison, order) && 0 <= i < j < a.Length :: order(a[i], a[j]) <= 0
  {
    hide Lawful;
    ghost var order := (x, y) => comparison.answer(0, x, y);
    ghost var ok := Lawful(comparison, order);
    SortBy(a, comparison, order, ok);
    forall order', i, j | Lawful(comparison, order') && 0 <= i < j < a.Length
      ensures order'(a[i], a[j]) <= 0
    {
      SameOrder(comparison, order', order);
      SameSorted(order, order', a[..]);
      InOrder(order', a[..], i, j);
    }
  }

  lemma SameOrder<T(!new)>(comparison: Comparison<T>, order: Compare<T>, first: Compare<T>)
    requires Lawful(comparison, order) && forall x, y :: first(x, y) == comparison.answer(0, x, y)
    ensures Lawful(comparison, first) && forall x, y :: first(x, y) == order(x, y)
  {
    hide Preorder;
    assert forall x, y :: first(x, y) == order(x, y);
    assert Preorder(first) by { PreorderSame(order, first); }
  }

  lemma PreorderSame<T(!new)>(cmp: Compare<T>, other: Compare<T>)
    requires Preorder(cmp) && forall x, y :: other(x, y) == cmp(x, y)
    ensures Preorder(other)
  {
  }

  lemma InOrder<T(!new)>(cmp: Compare<T>, s: seq<T>, i: nat, j: nat)
    requires SortedIn(cmp, s, 0, |s|) && i < j < |s|
    ensures cmp(s[i], s[j]) <= 0
  {
    assert Le(cmp, s[i], s[j]);
  }

  lemma SameSorted<T(!new)>(cmp: Compare<T>, other: Compare<T>, s: seq<T>)
    requires SortedIn(cmp, s, 0, |s|) && forall x, y :: cmp(x, y) == other(x, y)
    ensures SortedIn(other, s, 0, |s|)
  {
  }

  lemma DeepStart(pieces: seq<Piece>)
    requires |pieces| == 1 && pieces[0].depth == 0
    ensures Deep(pieces)
  {
  }

  lemma DeepPop(pieces: seq<Piece>, q: Piece)
    requires Deep(pieces + [q])
    ensures Deep(pieces) && |pieces| <= q.depth <= DEPTH_MAX
  {
    var ps := pieces + [q];
    assert ps[|pieces|] == q;
    assert forall k | 0 <= k < |pieces| :: ps[k] == pieces[k];
  }
}
