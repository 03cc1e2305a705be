/**
 In-place heapsort of a window of an array. Whatever the comparison answers, the elements are
 rearranged and the sort ends; `ok` says that the answers are those of the order cmp.
 */
module HeapSort {
  import opened SortSpec

  /** Node r of the heap in s[b..b + n] is at least its children. */
  predicate Node<T>(cmp: Compare<T>, s: seq<T>, b: nat, n: nat, r: nat)
    requires b + n <= |s| && r < n
  {
    && (2 * r + 1 < n ==> Le(cmp, s[b + 2 * r + 1], s[b + r]))
    && (2 * r + 2 < n ==> Le(cmp, s[b + 2 * r + 2], s[b + r]))
  }

  /** All nodes from `from` on, except perhaps one. */
  ghost predicate HeapBut<T>(cmp: Compare<T>, s: seq<T>, b: nat, n: nat, from: nat, but: int) {
    b + n <= |s| && forall r | from <= r < n && r != but :: Node(cmp, s, b, n, r)
  }

  ghost predicate Heap<T>(cmp: Compare<T>, s: seq<T>, b: nat, n: nat, from: nat) {
    HeapBut(cmp, s, b, n, from, -1)
  }

  /** The children of r are at most r's parent, if that is part of the heap. */
  predicate Grand<T>(cmp: Compare<T>, s: seq<T>, b: nat, n: nat, from: nat, r: nat)
    requires b + n <= |s| && r < n
  {
    r > 0 && (r - 1) / 2 >= from ==>
      && (2 * r + 1 < n ==> Le(cmp, s[b + 2 * r + 1], s[b + (r - 1) / 2]))
      && (2 * r + 2 < n ==> Le(cmp, s[b + 2 * r + 2], s[b + (r - 1) / 2]))
  }

  /** The larger child, the right one on ties. */
  predicate Larger<T>(cmp: Compare<T>, s: seq<T>, b: nat, n: nat, r: nat, c: nat)
    requires b + n <= |s| && r < n
  {
    && (c == 2 * r + 1 || c == 2 * r + 2) && c < n
    && Le(cmp, s[b + 2 * r + 1], s[b + c]) && (2 * r + 2 < n ==> Le(cmp, s[b + 2 * r + 2], s[b + c]))
  }

  /** Exchanging r with its larger child moves the exception down. */
  lemma SiftStep<T(!new)>(cmp: Compare<T>, s: seq<T>, b: nat, n: nat, from: nat, r: nat, c: nat)
    requires Preorder(cmp) && HeapBut(cmp, s, b, n, from, r) && from <= r < n && Grand(cmp, s, b, n, from, r)
    requires Larger(cmp, s, b, n, r, c) && Le(cmp, s[b + r], s[b + c])
    ensures HeapBut(cmp, Swapped(s, b + r, b + c), b, n, from, c) && Grand(cmp, Swapped(s, b + r, b + c), b, n, from, c)
  {
    hide Preorder, Swapped, Le;
    var t := Swapped(s, b + r, b + c);
    forall k | from <= k < n && k != c
      ensures Node(cmp, t, b, n, k)
    {
      SiftNode(cmp, s, b, n, from, r, c, k);
    }
    SiftGrand(cmp, s, b, n, from, r, c);
  }

  lemma SiftNode<T(!new)>(cmp: Compare<T>, s: seq<T>, b: nat, n: nat, from: nat, r: nat, c: nat, k: nat)
    requires HeapBut(cmp, s, b, n, from, r) && from <= r < n && Grand(cmp, s, b, n, from, r)
    requires Larger(cmp, s, b, n, r, c) && Le(cmp, s[b + r], s[b + c]) && from <= k < n && k != c
    ensures Node(cmp, Swapped(s, b + r, b + c), b, n, k)
  {
    hide Le;
    if k != r {
      assert Node(cmp, s, b, n, k);
      if 2 * k + 1 == r || 2 * k + 2 == r {
        assert (r - 1) / 2 == k;
      }
    }
  }

  lemma SiftGrand<T(!new)>(cmp: Compare<T>, s: seq<T>, b: nat, n: nat, from: nat, r: nat, c: nat)
    requires HeapBut(cmp, s, b, n, from, r) && from <= r < n && Larger(cmp, s, b, n, r, c)
    ensures Grand(cmp, Swapped(s, b + r, b + c), b, n, from, c)
  {
    hide Le;
    assert (c - 1) / 2 == r;
    assert Node(cmp, s, b, n, c);
  }

  lemma SiftStop<T(!new)>(cmp: Compare<T>, s: seq<T>, b: nat, n: nat, from: nat, r: nat, c: nat)
    requires Preorder(cmp) && HeapBut(cmp, s, b, n, from, r) && from <= r < n
    requires 2 * r + 1 < n ==> Larger(cmp, s, b, n, r, c) && cmp(s[b + r], s[b + c]) > 0
    ensures Heap(cmp, s, b, n, from)
  {
    if 2 * r + 1 < n {
      LeFlip(cmp, s[b + r], s[b + c]);
      LeTrans(cmp, s[b + 2 * r + 1], s[b + c], s[b + r]);
      if 2 * r + 2 < n {
        LeTrans(cmp, s[b + 2 * r + 2], s[b + c], s[b + r]);
      }
    }
    assert Node(cmp, s, b, n, r);
  }

  /** One exchange on the way down. */
  method Descend<T(!new)>(a: array<T>, b: nat, n: nat, r: nat, c: nat, ghost from: nat, ghost cmp: Compare<T>,
      ghost ok: bool, ghost s: seq<T>)
    requires b + n <= a.Length && from <= r < n && c < n && Rearranged(s, a[..], b, b + n)
    requires ok ==> Preorder(cmp) && HeapBut(cmp, a[..], b, n, from, r) && Grand(cmp, a[..], b, n, from, r)
    requires ok ==> Larger(cmp, a[..], b, n, r, c) && cmp(a[b + r], a[b + c]) <= 0
    modifies a
    ensures ok ==> HeapBut(cmp, a[..], b, n, from, c) && Grand(cmp, a[..], b, n, from, c)
    ensures Rearranged(s, a[..], b, b + n)
  {
    hide Preorder, HeapBut, Grand, Larger, Rearranged, Swapped;
    ghost var t := a[..];
    if ok {
      SiftStep(cmp, t, b, n, from, r, c);
    }
    SwapRearranges(t, b + r, b + c, b, b + n);
    Swap(a, b + r, b + c);
    RearrangedTrans(s, t, a[..], b, b + n);
  }

  /** The child of r to compare it with. */
  method PickChild<T(!new)>(a: array<T>, b: nat, n: nat, r: nat, comparison: Comparison<T>, ghost cmp: Compare<T>,
      ghost ok: bool)
    returns (c: nat)
    requires b + n <= a.Length && 2 * r + 1 < n && (ok ==> Lawful(comparison, cmp))
    modifies comparison`calls
    ensures r < c < n && (ok ==> Larger(cmp, a[..], b, n, r, c))
  {
    hide Preorder, Larger, Lawful;
    c := 2 * r + 1;
    if c < n - 1 {
      var d := Ask(comparison, a[b + c], a[b + c + 1], cmp, ok);
      if d <= 0 {
        c := c + 1;
      }
    }
    if ok {
      LawfulOrder(comparison, cmp);
      ChildIs(cmp, a[..], b, n, r, c);
    }
  }

  /** Move element i down until it is at least its children. */
  method SiftDown<T(!new)>(a: array<T>, b: nat, n: nat, i: nat, comparison: Comparison<T>, ghost cmp: Compare<T>,
      ghost ok: bool)
    requires b + n <= a.Length && i < n && (ok ==> Lawful(comparison, cmp) && HeapBut(cmp, a[..], b, n, i, i))
    modifies a, comparison`calls
    ensures (ok ==> Heap(cmp, a[..], b, n, i)) && Rearranged(old(a[..]), a[..], b, b + n)
  {
    hide Preorder, HeapBut, Grand, Larger, Rearranged, Le, Lawful;
    if ok {
      LawfulOrder(comparison, cmp);
    }
    var r := i;
    ghost var s := a[..];
    SiftStart(cmp, s, b, n, i);
    while 2 * r + 1 < n
      invariant i <= r < n && Rearranged(s, a[..], b, b + n)
      invariant ok ==> HeapBut(cmp, a[..], b, n, i, r) && Grand(cmp, a[..], b, n, i, r)
      decreases n - r
    {
      ghost var t := a[..];
      var c := PickChild(a, b, n, r, comparison, cmp, ok);
      var d := Ask(comparison, a[b + r], a[b + c], cmp, ok);
      assert a[..] == t;
      if d > 0 {
        if ok {
          SiftStop(cmp, a[..], b, n, i, r, c);
        }
        return;
      }
      Descend(a, b, n, r, c, i, cmp, ok, s);
      r := c;
    }
    if ok {
      SiftStop(cmp, a[..], b, n, i, r, 0);
    }
  }

  lemma SiftStart<T>(cmp: Compare<T>, s: seq<T>, b: nat, n: nat, i: nat)
    requires b + n <= |s| && i < n
    ensures Grand(cmp, s, b, n, i, i) && Rearranged(s, s, b, b + n)
  {
  }

  lemma ChildIs<T(!new)>(cmp: Compare<T>, s: seq<T>, b: nat, n: nat, r: nat, c: nat)
    requires Preorder(cmp) && b + n <= |s| && 2 * r + 1 < n
    requires c == if 2 * r + 1 < n - 1 && cmp(s[b + 2 * r + 1], s[b + 2 * r + 2]) <= 0 then 2 * r + 2 else 2 * r + 1
    ensures Larger(cmp, s, b, n, r, c)
  {
    LeSelf(cmp, s[b + c]);
    if 2 * r + 2 < n {
      LeFlip(cmp, s[b + 2 * r + 1], s[b + 2 * r + 2]);
    }
  }

  /** The root is the largest. */
  lemma {:induction false} RootLargest<T(!new)>(cmp: Compare<T>, s: seq<T>, b: nat, n: nat, k: nat)
    requires Preorder(cmp) && Heap(cmp, s, b, n, 0) && k < n
    ensures Le(cmp, s[b + k], s[b])
    decreases k
  {
    if k == 0 {
      LeSelf(cmp, s[b]);
    } else {
      var p := (k - 1) / 2;
      RootLargest(cmp, s, b, n, p);
      assert Node(cmp, s, b, n, p) && (k == 2 * p + 1 || k == 2 * p + 2);
      LeTrans(cmp, s[b + k], s[b + p], s[b]);
    }
  }

  /** s[b..b + m] is a heap, the rest of the window is sorted and above it. */
  ghost predicate Half<T>(cmp: Compare<T>, s: seq<T>, b: nat, m: nat, n: nat) {
    && m <= n && Heap(cmp, s, b, m, 0) && SortedIn(cmp, s, b + m, b + n)
    && forall i, j | b <= i < b + m <= j < b + n :: Le(cmp, s[i], s[j])
  }

  /** After the root has gone behind the heap: everything but the root is still in order. */
  lemma Extracted<T(!new)>(cmp: Compare<T>, s: seq<T>, b: nat, m: nat, n: nat)
    requires Preorder(cmp) && Half(cmp, s, b, m + 1, n) && m > 0
    ensures var t := Swapped(s, b, b + m);
      && HeapBut(cmp, t, b, m, 0, 0) && SortedIn(cmp, t, b + m, b + n)
      && forall i, j | b <= i < b + m <= j < b + n :: Le(cmp, t[i], t[j])
  {
    hide Preorder, Le, Node;
    var t := Swapped(s, b, b + m);
    forall r | 0 <= r < m && r != 0
      ensures Node(cmp, t, b, m, r)
    {
      ExtractNode(cmp, s, b, m, r);
    }
    forall i | b <= i < b + m
      ensures Le(cmp, t[i], t[b + m])
    {
      var k := if i == b then m else i - b;
      RootLargest(cmp, s, b, m + 1, k);
    }
  }

  lemma ExtractNode<T(!new)>(cmp: Compare<T>, s: seq<T>, b: nat, m: nat, r: nat)
    requires Heap(cmp, s, b, m + 1, 0) && 0 < r < m
    ensures Node(cmp, Swapped(s, b, b + m), b, m, r)
  {
    hide Le;
    assert Node(cmp, s, b, m + 1, r);
  }

  /** Rearranging the part below keeps the part above sorted and above. */
  lemma StaysAbove<T(!new)>(cmp: Compare<T>, s: seq<T>, t: seq<T>, b: nat, m: nat, n: nat)
    requires Rearranged(s, t, b, b + m) && m <= n && SortedIn(cmp, s, b + m, b + n)
    requires forall i, j | b <= i < b + m <= j < b + n :: Le(cmp, s[i], s[j])
    ensures SortedIn(cmp, t, b + m, b + n)
    ensures forall i, j | b <= i < b + m <= j < b + n :: Le(cmp, t[i], t[j])
  {
    hide Le;
    forall i, j | b <= i < b + m <= j < b + n
      ensures Le(cmp, t[i], t[j])
    {
      var i' := Came(s, t, b, b + m, i);
    }
  }

  lemma HalfDone<T(!new)>(cmp: Compare<T>, s: seq<T>, b: nat, n: nat)
    requires Half(cmp, s, b, 1, n) && n >= 1
    ensures SortedIn(cmp, s, b, b + n)
  {
    hide Le;
  }

  /** One extraction. */
  method Extract<T(!new)>(a: array<T>, b: nat, m: nat, n: nat, comparison: Comparison<T>, ghost cmp: Compare<T>,
      ghost ok: bool)
    requires 0 < m < n && b + n <= a.Length && (ok ==> Lawful(comparison, cmp) && Half(cmp, a[..], b, m + 1, n))
    modifies a, comparison`calls
    ensures (ok ==> Half(cmp, a[..], b, m, n)) && Rearranged(old(a[..]), a[..], b, b + n)
  {
    hide Preorder, HeapBut, Rearranged, Swapped, SortedIn, Le, Lawful;
    ghost var s := a[..];
    if ok {
      LawfulOrder(comparison, cmp);
      Extracted(cmp, s, b, m, n);
    }
    SwapRearranges(s, b, b + m, b, b + n);
    Swap(a, b, b + m);
    ghost var t := a[..];
    SiftDown(a, b, m, 0, comparison, cmp, ok);
    if ok {
      StaysAbove(cmp, t, a[..], b, m, n);
    }
    RearrangedWider(t, a[..], b, b + m, b, b + n);
    RearrangedTrans(s, t, a[..], b, b + n);
  }

  lemma Leaves<T>(cmp: Compare<T>, s: seq<T>, b: nat, n: nat)
    requires b + n <= |s|
    ensures Heap(cmp, s, b, n, n / 2) && Rearranged(s, s, b, b + n)
  {
  }

  lemma Whole<T>(cmp: Compare<T>, s: seq<T>, b: nat, n: nat)
    requires Heap(cmp, s, b, n, 0)
    ensures Half(cmp, s, b, n, n)
  {
  }

  lemma OneMore<T>(cmp: Compare<T>, s: seq<T>, b: nat, n: nat, i: nat)
    requires Heap(cmp, s, b, n, i + 1)
    ensures HeapBut(cmp, s, b, n, i, i)
  {
  }

  /** Sort a[b..b + n]. */
  method Sort<T(!new)>(a: array<T>, b: nat, n: nat, comparison: Comparison<T>, ghost cmp: Compare<T>, ghost ok: bool)
    requires b + n <= a.Length && (ok ==> Lawful(comparison, cmp))
    modifies a, comparison`calls
    ensures (ok ==> SortedIn(cmp, a[..], b, b + n)) && Rearranged(old(a[..]), a[..], b, b + n)
  {
    hide Preorder, Heap, HeapBut, Half, Rearranged, Le, Lawful;
    ghost var s := a[..];
    Leaves(cmp, s, b, n);
    if n > 1 {
      var i := n / 2;
      while i > 0
        invariant 0 <= i <= n / 2 && (ok ==> Heap(cmp, a[..], b, n, i)) && Rearranged(s, a[..], b, b + n)
      {
        i := i - 1;
        ghost var t := a[..];
        if ok {
          OneMore(cmp, t, b, n, i);
        }
        SiftDown(a, b, n, i, comparison, cmp, ok);
        RearrangedTrans(s, t, a[..], b, b + n);
      }
      if ok {
        Whole(cmp, a[..], b, n);
      }
      i := n - 1;
      while i > 0
        invariant 0 <= i < n && (ok ==> Half(cmp, a[..], b, i + 1, n)) && Rearranged(s, a[..], b, b + n)
      {
        ghost var t := a[..];
        Extract(a, b, i, n, comparison, cmp, ok);
        RearrangedTrans(s, t, a[..], b, b + n);
        i := i - 1;
      }
      if ok {
        HalfDone(cmp, a[..], b, n);
      }
    }
  }
}
