/**
 The carry loops: one pass over limb arrays, in place, with wrap-around word arithmetic.
 A pointer into the middle of a buffer is an array together with an offset.
 */
module LimbOps {
  import opened Arith
  import opened Limbs

  // ----- word arithmetic -----

  function WAdd(x: Limb, y: Limb): Limb {
    if x + y < B then x + y else x + y - B
  }

  function WSub(x: Limb, y: Limb): Limb {
    if x >= y then x - y else x - y + B
  }

  function Flag(b: bool): Limb {
    if b then 1 else 0
  }

  /** One word of an addition: wrap-around sums and comparisons recover the carry. */
  function AddWord(w: Limb, y: Limb, k: Limb): (r: (Limb, Limb))
    requires k <= 1
    ensures r.1 <= 1 && r.0 + r.1 * B == w + y + k
  {
    var a := WAdd(w, y);
    var k1 := a < w;
    var a' := WAdd(a, k);
    (a', Flag(a' < k || k1))
  }

  /** One word of a subtraction: the borrow is seen from the wrapped differences. */
  function SubWord(w: Limb, y: Limb, k: Limb): (r: (Limb, Limb))
    requires k <= 1
    ensures r.1 <= 1 && r.0 + y + k == w + r.1 * B
  {
    var a := WSub(w, y);
    var k1 := a > w;
    var v := WSub(a, k);
    (v, Flag(v > a || k1))
  }

  // ----- what a carry loop keeps -----

  /** On the limbs below `i`, s + t + c equals w up to a carry `k` still to be placed. */
  ghost predicate Carrying(s: seq<Limb>, t: seq<Limb>, c: int, w: seq<Limb>, i: nat, k: int)
    requires i <= |s| && i <= |t| && i <= |w|
  {
    Val(s[..i]) + Val(t[..i]) + c == Val(w[..i]) + k * BPow(i)
  }

  lemma CarryWord(p: int, b: int, x: int, y: int, k: int, z: int, k': int)
    requires x + y + k == z + k' * b
    ensures x * p + y * p + k * p == z * p + k' * (b * p)
  {
    assert (z + k' * b) * p == z * p + k' * (b * p);
  }

  lemma {:induction false} CarryStep(s: seq<Limb>, t: seq<Limb>, c: int, w: seq<Limb>, i: nat, k: int, k': int)
    requires i < |s| && i < |t| && i < |w|
    requires Carrying(s, t, c, w, i, k)
    requires s[i] + t[i] + k == w[i] + k' * B
    ensures Carrying(s, t, c, w, i + 1, k')
  {
    hide Val, BPow;
    ValTake(s, i);
    ValTake(t, i);
    ValTake(w, i);
    BPowStep(i);
    CarryWord(BPow(i), B, s[i], t[i], k, w[i], k');
  }

  /** Only the limbs below i matter. */
  lemma {:induction false} CarrySame(s: seq<Limb>, t: seq<Limb>, c: int, w: seq<Limb>, s': seq<Limb>, w': seq<Limb>,
      i: nat, k: int)
    requires i <= |s| && i <= |t| && i <= |w| && i <= |s'| && i <= |w'|
    requires s'[..i] == s[..i] && w'[..i] == w[..i] && Carrying(s, t, c, w, i, k)
    ensures Carrying(s', t, c, w', i, k)
  {
    hide Val, BPow;
  }

  lemma {:induction false} CarryNone(s: seq<Limb>, t: seq<Limb>, c: int, w: seq<Limb>)
    ensures Carrying(s, t, c, w, 0, c)
  {
  }

  /** Past the last carry the two numbers share their limbs. */
  lemma {:induction false} CarryStop(s: seq<Limb>, t: seq<Limb>, c: int, w: seq<Limb>, i: nat, n: nat)
    requires i <= n == |s| == |t| == |w|
    requires Carrying(s, t, c, w, i, 0)
    requires s[i..] == w[i..] && forall j | i <= j < n :: t[j] == 0
    ensures Carrying(s, t, c, w, n, 0)
  {
    hide Val, BPow;
    ValSplit(s, i);
    ValSplit(w, i);
    ValSplit(t, i);
    ValZeros(t[i..]);
    assert s[..n] == s && w[..n] == w && t[..n] == t;
  }

  lemma {:induction false} CarryDone(s: seq<Limb>, t: seq<Limb>, c: int, w: seq<Limb>, n: nat, k: int)
    requires |s| == |t| == |w| == n && Carrying(s, t, c, w, n, k)
    ensures Val(s) + Val(t) + c == Val(w) + k * BPow(n)
  {
    assert s[..n] == s && t[..n] == t && w[..n] == w;
  }

  // ----- addition and subtraction -----

  method Add(res: array<Limb>, ro: nat, a: array<Limb>, ao: nat, b: array<Limb>, bo: nat, n: nat, carry: Limb)
    returns (k: Limb)
    requires ro + n <= res.Length && ao + n <= a.Length && bo + n <= b.Length
    requires Upward(res, ro, a, ao, n) && Upward(res, ro, b, bo, n)
    requires carry <= 1
    modifies res
    ensures k <= 1 && OnlyWindow(res, ro, ro + n)
    ensures Val(res[ro..ro + n]) + k * BPow(n) == old(Val(a[ao..ao + n])) + old(Val(b[bo..bo + n])) + carry
  {
    hide Val, BPow, Carrying;
    ghost var u, v := a[ao..ao + n], b[bo..bo + n];
    k := carry;
    CarryNone(u, v, carry, []);
    assert res[ro..ro + 0] == [];
    var i := 0;
    while i < n
      invariant i <= n && k <= 1
      invariant OnlyWindow(res, ro, ro + i)
      invariant Carrying(u, v, carry, res[ro..ro + i], i, k)
    {
      assert a[ao + i] == u[i] && b[bo + i] == v[i];
      ghost var r, k0 := res[ro..ro + i], k;
      var (s, k') := AddWord(a[ao + i], b[bo + i], k);
      res[ro + i] := s;
      k := k';
      assert res[ro..ro + i + 1] == r + [s] && (r + [s])[..i] == r[..i];
      CarrySame(u, v, carry, r, u, r + [s], i, k0);
      CarryStep(u, v, carry, r + [s], i, k0, k);
      i := i + 1;
    }
    CarryDone(u, v, carry, res[ro..ro + n], n, k);
  }

  method Sub(res: array<Limb>, ro: nat, a: array<Limb>, ao: nat, b: array<Limb>, bo: nat, n: nat, carry: Limb)
    returns (k: Limb)
    requires ro + n <= res.Length && ao + n <= a.Length && bo + n <= b.Length
    requires Upward(res, ro, a, ao, n) && Upward(res, ro, b, bo, n)
    requires carry <= 1
    modifies res
    ensures k <= 1 && OnlyWindow(res, ro, ro + n)
    ensures Val(res[ro..ro + n]) + old(Val(b[bo..bo + n])) + carry == old(Val(a[ao..ao + n])) + k * BPow(n)
  {
    hide Val, BPow, Carrying;
    ghost var u, v := a[ao..ao + n], b[bo..bo + n];
    k := carry;
    CarryNone([], v, carry, u);
    assert res[ro..ro + 0] == [];
    var i := 0;
    while i < n
      invariant i <= n && k <= 1
      invariant OnlyWindow(res, ro, ro + i)
      invariant Carrying(res[ro..ro + i], v, carry, u, i, k)
    {
      assert a[ao + i] == u[i] && b[bo + i] == v[i];
      ghost var r, k0 := res[ro..ro + i], k;
      var (s, k') := SubWord(a[ao + i], b[bo + i], k);
      res[ro + i] := s;
      k := k';
      assert res[ro..ro + i + 1] == r + [s] && (r + [s])[..i] == r[..i];
      CarrySame(r, v, carry, u, r + [s], u, i, k0);
      CarryStep(r + [s], v, carry, u, i, k0, k);
      i := i + 1;
    }
    CarryDone(res[ro..ro + n], v, carry, u, n, k);
  }

  /** 0 - b. */
  method Neg(res: array<Limb>, ro: nat, b: array<Limb>, bo: nat, n: nat, carry: Limb) returns (k: Limb)
    requires ro + n <= res.Length && bo + n <= b.Length
    requires Upward(res, ro, b, bo, n)
    requires carry <= 1
    modifies res
    ensures k <= 1 && OnlyWindow(res, ro, ro + n)
    ensures Val(res[ro..ro + n]) + old(Val(b[bo..bo + n])) + carry == k * BPow(n)
  {
    hide Val, BPow, Carrying;
    ghost var u, v := Zeros(n), b[bo..bo + n];
    k := carry;
    CarryNone([], v, carry, u);
    assert res[ro..ro + 0] == [];
    var i := 0;
    while i < n
      invariant i <= n && k <= 1
      invariant OnlyWindow(res, ro, ro + i)
      invariant Carrying(res[ro..ro + i], v, carry, u, i, k)
    {
      assert b[bo + i] == v[i];
      ghost var r, k0 := res[ro..ro + i], k;
      var (s, k') := SubWord(0, b[bo + i], k);
      res[ro + i] := s;
      k := k';
      assert res[ro..ro + i + 1] == r + [s] && (r + [s])[..i] == r[..i];
      CarrySame(r, v, carry, u, r + [s], u, i, k0);
      CarryStep(r + [s], v, carry, u, i, k0, k);
      i := i + 1;
    }
    CarryDone(res[ro..ro + n], v, carry, u, n, k);
  }

  function AddUiWord(x: Limb, k: Limb): (r: (Limb, Limb))
    ensures r.1 <= 1 && r.0 + r.1 * B == x + k
  {
    var a := WAdd(x, k);
    (a, Flag(a < k))
  }

  function SubUiWord(x: Limb, k: Limb): (r: (Limb, Limb))
    ensures r.1 <= 1 && r.0 + k == x + r.1 * B
  {
    var a := WSub(x, k);
    (a, Flag(a > x))
  }

  /** tab += b, stopping as soon as no carry is left. */
  method AddUi(tab: array<Limb>, o: nat, b: Limb, n: nat) returns (k: Limb)
    requires o + n <= tab.Length
    modifies tab
    ensures (n > 0 ==> k <= 1) && OnlyWindow(tab, o, o + n)
    ensures Val(tab[o..o + n]) + k * BPow(n) == old(Val(tab[o..o + n])) + b
  {
    hide Val, BPow, Carrying;
    ghost var u, z := tab[o..o + n], Zeros(n);
    k := b;
    CarryNone(u, z, b, u);
    var i := 0;
    while i < n && k != 0
      invariant i <= n && (i > 0 ==> k <= 1)
      invariant OnlyWindow(tab, o, o + i)
      invariant Carrying(u, z, b, tab[o..o + n], i, k)
    {
      ghost var r, k0 := tab[o..o + n], k;
      assert tab[o + i] == u[i] == r[i];
      var (s, k') := AddUiWord(tab[o + i], k);
      tab[o + i] := s;
      k := k';
      assert tab[o..o + n] == r[i := s] && r[i := s][..i] == r[..i];
      CarrySame(u, z, b, r, u, r[i := s], i, k0);
      CarryStep(u, z, b, r[i := s], i, k0, k);
      i := i + 1;
    }
    ghost var r := tab[o..o + n];
    if i < n {
      assert u[i..] == r[i..];
      CarryStop(u, z, b, r, i, n);
    }
    CarryDone(u, z, b, r, n, k);
  }

  /** tab -= b, stopping as soon as no borrow is left. */
  method SubUi(tab: array<Limb>, o: nat, b: Limb, n: nat) returns (k: Limb)
    requires o + n <= tab.Length
    modifies tab
    ensures (n > 0 ==> k <= 1) && OnlyWindow(tab, o, o + n)
    ensures Val(tab[o..o + n]) + b == old(Val(tab[o..o + n])) + k * BPow(n)
  {
    hide Val, BPow, Carrying;
    ghost var u, z := tab[o..o + n], Zeros(n);
    k := b;
    CarryNone(u, z, b, u);
    var i := 0;
    while i < n
      invariant i <= n && (i > 0 ==> k <= 1)
      invariant OnlyWindow(tab, o, o + i)
      invariant Carrying(tab[o..o + n], z, b, u, i, k)
    {
      ghost var r, k0 := tab[o..o + n], k;
      assert tab[o + i] == u[i] == r[i];
      var (s, k') := SubUiWord(tab[o + i], k);
      tab[o + i] := s;
      k := k';
      assert tab[o..o + n] == r[i := s] && r[i := s][..i] == r[..i];
      CarrySame(r, z, b, u, r[i := s], u, i, k0);
      CarryStep(r[i := s], z, b, u, i, k0, k);
      i := i + 1;
      if k == 0 {
        break;
      }
    }
    ghost var r := tab[o..o + n];
    if i < n {
      assert u[i..] == r[i..];
      CarryStop(r, z, b, u, i, n);
    }
    CarryDone(r, z, b, u, n, k);
  }

  // ----- multiplication by one limb -----

  /** On the limbs below `i`, s * b + t + c equals w up to a carry `l` still to be placed. */
  ghost predicate Multiplying(s: seq<Limb>, b: Limb, t: seq<Limb>, c: int, w: seq<Limb>, i: nat, l: int)
    requires i <= |s| && i <= |t| && i <= |w|
  {
    Val(s[..i]) * b + Val(t[..i]) + c == Val(w[..i]) + l * BPow(i)
  }

  lemma MultiplyWord(p: int, bb: int, v: int, x: int, b: int, y: int, l: int, z: int, l': int)
    requires x * b + y + l == z + l' * bb
    ensures (v + x * p) * b + y * p + l * p == v * b + z * p + l' * (bb * p)
  {
    assert (x * b + y + l) * p == (z + l' * bb) * p;
    assert (x * b) * p == (x * p) * b;
    assert (l' * bb) * p == l' * (bb * p);
  }

  lemma {:induction false} MultiplyStep(s: seq<Limb>, b: Limb, t: seq<Limb>, c: int, w: seq<Limb>, i: nat, l: int,
      l': int)
    requires i < |s| && i < |t| && i < |w|
    requires Multiplying(s, b, t, c, w, i, l)
    requires s[i] * b + t[i] + l == w[i] + l' * B
    ensures Multiplying(s, b, t, c, w, i + 1, l')
  {
    hide Val, BPow;
    ValTake(s, i);
    ValTake(t, i);
    ValTake(w, i);
    BPowStep(i);
    MultiplyWord(BPow(i), B, Val(s[..i]), s[i], b, t[i], l, w[i], l');
  }

  lemma {:induction false} MultiplySame(s: seq<Limb>, b: Limb, t: seq<Limb>, c: int, w: seq<Limb>, t': seq<Limb>,
      w': seq<Limb>, i: nat, l: int)
    requires i <= |s| && i <= |t| && i <= |w| && i <= |t'| && i <= |w'|
    requires t'[..i] == t[..i] && w'[..i] == w[..i] && Multiplying(s, b, t, c, w, i, l)
    ensures Multiplying(s, b, t', c, w', i, l)
  {
    hide Val, BPow;
  }

  lemma {:induction false} MultiplyNone(s: seq<Limb>, b: Limb, t: seq<Limb>, c: int, w: seq<Limb>)
    ensures Multiplying(s, b, t, c, w, 0, c)
  {
  }

  lemma {:induction false} MultiplyDone(s: seq<Limb>, b: Limb, t: seq<Limb>, c: int, w: seq<Limb>, n: nat, l: int)
    requires |s| == |t| == |w| == n && Multiplying(s, b, t, c, w, n, l)
    ensures Val(s) * b + Val(t) + c == Val(w) + l * BPow(n)
  {
    hide Val, BPow;
    assert s[..n] == s && t[..n] == t && w[..n] == w;
  }

  /** The low and the high word of a product with two addends. */
  function MulWord(x: Limb, b: Limb, l: Limb, y: Limb): (r: (Limb, Limb))
    ensures x * b + y + l == r.0 + r.1 * B
  {
    MulAddFits(x, b, l, y);
    var t := x * b + l + y;
    DoubleWord(t);
    (t % B, t / B)
  }

  lemma MulAddFits(x: Limb, y: Limb, k: Limb, l: Limb)
    ensures 0 <= x * y + k + l < B * B
  {
    ProductBelow(x, y, B);
  }

  lemma ProductBelow(x: int, y: int, b: int)
    requires 0 <= x < b && 0 <= y < b
    ensures 0 <= x * y <= b * b - 2 * b + 1
  {
    MulBetween(x, 0, y, b - 1);
    MulMono(x, b - 1, b - 1);
    assert (b - 1) * (b - 1) == b * b - 2 * b + 1;
  }

  lemma DoubleWord(t: int)
    requires 0 <= t < B * B
    ensures 0 <= t / B < B && 0 <= t % B < B && t == t % B + (t / B) * B
  {
    var h := t / B;
    if h >= B {
      MulMono(B, h, B);
    }
  }

  /** The double word y - x * b - l wraps; the negated high word is what is still owed. */
  function SubMulWord(y: Limb, x: Limb, b: Limb, l: Limb): (r: (Limb, Limb))
    ensures x * b + r.0 + l == y + r.1 * B
  {
    MulAddFits(x, b, l, 0);
    var d := y - x * b - l;
    var t := if d >= 0 then d else d + B * B;
    SubMulFits(y, x, b, l);
    DoubleWord(t);
    (t % B, if t / B == 0 then 0 else B - t / B)
  }

  lemma SubMulFits(y: Limb, x: Limb, b: Limb, l: Limb)
    ensures var d := y - x * b - l; d < B && (d < 0 ==> d + B * B >= B)
  {
    ProductBelow(x, b, B);
  }

  /** tabr = taba * b + l, returning the high word. */
  method Mul1(res: array<Limb>, ro: nat, a: array<Limb>, ao: nat, n: nat, b: Limb, l0: Limb) returns (l: Limb)
    requires ro + n <= res.Length && ao + n <= a.Length
    requires Upward(res, ro, a, ao, n)
    modifies res
    ensures OnlyWindow(res, ro, ro + n)
    ensures Val(res[ro..ro + n]) + l * BPow(n) == old(Val(a[ao..ao + n])) * b + l0
  {
    hide Val, BPow, Multiplying;
    ghost var u, z := a[ao..ao + n], Zeros(n);
    l := l0;
    MultiplyNone(u, b, z, l, []);
    assert res[ro..ro + 0] == [];
    var i := 0;
    while i < n
      invariant i <= n
      invariant OnlyWindow(res, ro, ro + i)
      invariant Multiplying(u, b, z, l0, res[ro..ro + i], i, l)
    {
      assert a[ao + i] == u[i];
      ghost var r, l1 := res[ro..ro + i], l;
      var (x, l') := MulWord(a[ao + i], b, l, 0);
      res[ro + i] := x;
      l := l';
      assert res[ro..ro + i + 1] == r + [x] && (r + [x])[..i] == r[..i];
      MultiplySame(u, b, z, l0, r, z, r + [x], i, l1);
      MultiplyStep(u, b, z, l0, r + [x], i, l1, l);
      i := i + 1;
    }
    MultiplyDone(u, b, z, l0, res[ro..ro + n], n, l);
  }

  /** tabr += taba * b, returning the high word. */
  method AddMul1(res: array<Limb>, ro: nat, a: array<Limb>, ao: nat, n: nat, b: Limb) returns (l: Limb)
    requires ro + n <= res.Length && ao + n <= a.Length
    requires Upward(res, ro, a, ao, n)
    modifies res
    ensures OnlyWindow(res, ro, ro + n)
    ensures Val(res[ro..ro + n]) + l * BPow(n) == old(Val(a[ao..ao + n])) * b + old(Val(res[ro..ro + n]))
  {
    hide Val, BPow, Multiplying;
    ghost var u, v := a[ao..ao + n], res[ro..ro + n];
    l := 0;
    MultiplyNone(u, b, v, 0, []);
    assert res[ro..ro + 0] == [];
    var i := 0;
    while i < n
      invariant i <= n
      invariant OnlyWindow(res, ro, ro + i)
      invariant Multiplying(u, b, v, 0, res[ro..ro + i], i, l)
    {
      assert a[ao + i] == u[i] && res[ro + i] == v[i];
      ghost var r, l1 := res[ro..ro + i], l;
      var (x, l') := MulWord(a[ao + i], b, l, res[ro + i]);
      res[ro + i] := x;
      l := l';
      assert res[ro..ro + i + 1] == r + [x] && (r + [x])[..i] == r[..i];
      MultiplySame(u, b, v, 0, r, v, r + [x], i, l1);
      MultiplyStep(u, b, v, 0, r + [x], i, l1, l);
      i := i + 1;
    }
    MultiplyDone(u, b, v, 0, res[ro..ro + n], n, l);
  }

  /** tabr -= taba * b, returning what is to be subtracted from the next limb. */
  method SubMul1(res: array<Limb>, ro: nat, a: array<Limb>, ao: nat, n: nat, b: Limb) returns (l: Limb)
    requires ro + n <= res.Length && ao + n <= a.Length
    requires Upward(res, ro, a, ao, n)
    modifies res
    ensures OnlyWindow(res, ro, ro + n)
    ensures old(Val(a[ao..ao + n])) * b + Val(res[ro..ro + n]) == old(Val(res[ro..ro + n])) + l * BPow(n)
  {
    hide Val, BPow, Multiplying;
    ghost var u, v := a[ao..ao + n], res[ro..ro + n];
    l := 0;
    MultiplyNone(u, b, [], 0, v);
    assert res[ro..ro + 0] == [];
    var i := 0;
    while i < n
      invariant i <= n
      invariant OnlyWindow(res, ro, ro + i)
      invariant Multiplying(u, b, res[ro..ro + i], 0, v, i, l)
    {
      assert a[ao + i] == u[i] && res[ro + i] == v[i];
      ghost var r, l1 := res[ro..ro + i], l;
      var (x, l') := SubMulWord(res[ro + i], a[ao + i], b, l);
      res[ro + i] := x;
      l := l';
      assert res[ro..ro + i + 1] == r + [x] && (r + [x])[..i] == r[..i];
      MultiplySame(u, b, r, 0, v, r + [x], v, i, l1);
      MultiplyStep(u, b, r + [x], 0, v, i, l1, l);
      i := i + 1;
    }
    MultiplyDone(u, b, res[ro..ro + n], 0, v, n, l);
  }

  // ----- schoolbook multiplication -----

  /** w is u times the number the lowest i limbs of v stand for. */
  ghost predicate IsProduct(w: seq<Limb>, u: seq<Limb>, v: seq<Limb>, i: nat)
    requires i <= |v|
  {
    Val(w) == Val(u) * Val(v[..i])
  }

  lemma RowSum(p: int, low: int, win: int, win': int, u: int, x: int, v: int, v': int)
    requires low + p * win == u * v && win' == u * x + win && v' == v + x * p
    ensures low + p * win' == u * v'
  {
    assert p * (u * x) == u * (x * p);
  }

  lemma {:induction false} FirstRow(win: seq<Limb>, r: Limb, u: seq<Limb>, v: seq<Limb>)
    requires |v| > 0
    requires Val(win) + r * BPow(|win|) == Val(u) * v[0]
    ensures IsProduct(win + [r], u, v, 1)
  {
    hide Val, BPow;
    ValSnoc(win, r);
    assert v[..1] == [v[0]];
    ValSingle(v[0]);
  }

  /** Adding one more row of partial products. */
  lemma {:induction false} NextRow(low: seq<Limb>, win: seq<Limb>, win': seq<Limb>, r: Limb, u: seq<Limb>,
      v: seq<Limb>, i: nat)
    requires i < |v| && |low| == i && |win| == |win'|
    requires IsProduct(low + win, u, v, i)
    requires Val(win') + r * BPow(|win|) == Val(u) * v[i] + Val(win)
    ensures IsProduct(low + win' + [r], u, v, i + 1)
  {
    hide Val, BPow;
    ValAppend(low, win);
    assert low + win' + [r] == low + (win' + [r]);
    ValAppend(low, win' + [r]);
    ValSnoc(win', r);
    ValTake(v, i);
    RowSum(BPow(i), Val(low), Val(win), Val(win' + [r]), Val(u), v[i], Val(v[..i]), Val(v[..i + 1]));
  }

  /** Row i of the product: the partial product grows by one limb. */
  method AddRow(res: array<Limb>, ro: nat, a: array<Limb>, ao: nat, n1: nat, x: Limb, i: nat, ghost v: seq<Limb>)
    requires res != a && i < |v| && v[i] == x
    requires ro + n1 + i + 1 <= res.Length && ao + n1 <= a.Length
    requires IsProduct(res[ro..ro + n1 + i], a[ao..ao + n1], v, i)
    modifies res
    ensures OnlyWindow(res, ro, ro + n1 + i + 1)
    ensures IsProduct(res[ro..ro + n1 + i + 1], a[ao..ao + n1], v, i + 1)
  {
    hide Val, BPow, IsProduct;
    ghost var u, low, win := a[ao..ao + n1], res[ro..ro + i], res[ro + i..ro + i + n1];
    assert res[ro..ro + n1 + i] == low + win;
    var r := AddMul1(res, ro + i, a, ao, n1, x);
    ghost var win' := res[ro + i..ro + i + n1];
    NextRow(low, win, win', r, u, v, i);
    res[ro + i + n1] := r;
    assert res[ro..ro + n1 + i + 1] == low + win' + [r];
  }

  /** The full product, in a result buffer that shares nothing with the operands. */
  method MulBasecase(res: array<Limb>, ro: nat, a: array<Limb>, ao: nat, n1: nat, b: array<Limb>, bo: nat, n2: nat)
    requires n2 >= 1 && res != a && res != b
    requires ro + n1 + n2 <= res.Length && ao + n1 <= a.Length && bo + n2 <= b.Length
    modifies res
    ensures OnlyWindow(res, ro, ro + n1 + n2)
    ensures Val(res[ro..ro + n1 + n2]) == Val(a[ao..ao + n1]) * Val(b[bo..bo + n2])
  {
    hide Val, BPow, IsProduct;
    ghost var u, v := a[ao..ao + n1], b[bo..bo + n2];
    var r := Mul1(res, ro, a, ao, n1, b[bo], 0);
    ghost var win := res[ro..ro + n1];
    FirstRow(win, r, u, v);
    res[ro + n1] := r;
    assert res[ro..ro + n1 + 1] == win + [r];
    var i := 1;
    while i < n2
      invariant 1 <= i <= n2
      invariant OnlyWindow(res, ro, ro + n1 + i)
      invariant IsProduct(res[ro..ro + n1 + i], u, v, i)
    {
      assert a[ao..ao + n1] == u && b[bo + i] == v[i];
      AddRow(res, ro, a, ao, n1, b[bo + i], i, v);
      i := i + 1;
    }
    ProductDone(res[ro..ro + n1 + n2], u, v);
  }

  lemma {:induction false} ProductDone(w: seq<Limb>, u: seq<Limb>, v: seq<Limb>)
    requires IsProduct(w, u, v, |v|)
    ensures Val(w) == Val(u) * Val(v)
  {
    assert v[..|v|] == v;
  }

  // ----- shifting and comparing -----

  /** w times 2^shift, plus the low bits of `l`, is u with the low bits of `high` on top. */
  ghost predicate Shifted(w: seq<Limb>, shift: nat, l: Limb, u: seq<Limb>, high: Limb) {
    Pow2(shift) * Val(w) + l % Pow2(shift) == Val(u) + (high % Pow2(shift)) * BPow(|u|)
  }

  lemma ShiftWord(s: int, x: int, l: int, b: int, t: int, w: int, w': int, u: int, u': int, e: int)
    requires s > 0 && b == s * t && s * w + l == u + e
    requires w' == x / s + l * t + b * w && u' == x + b * u
    ensures s * w' + x % s == u' + b * e
  {
    assert s * (x / s) + x % s == x;
    assert s * (l * t) == b * l;
    assert s * (b * w) == b * (s * w);
    assert b * (s * w + l) == b * (u + e);
  }

  /** A limb's high bits and the bits carried in from above do not overlap. */
  lemma {:induction false} ShiftFits(x: Limb, shift: nat, l: nat)
    requires 1 <= shift < LIMB_BITS && l < Pow2(shift)
    ensures B == Pow2(shift) * Pow2(LIMB_BITS - shift)
    ensures x / Pow2(shift) < Pow2(LIMB_BITS - shift)
    ensures 0 <= x / Pow2(shift) + l * Pow2(LIMB_BITS - shift) < B
  {
    hide Pow2;
    var s, t := Pow2(shift), Pow2(LIMB_BITS - shift);
    Pow2Add(shift, LIMB_BITS - shift);
    BaseIsPow2();
    var q := x / s;
    if q >= t {
      MulMono(t, q, s);
      MulComm(t, s);
      MulComm(q, s);
    }
    MulBetween(t, 0, l, s - 1);
    MulDist(t, s, -1);
    MulComm(l, t);
  }

  /** The word written by a right shift: this limb's high bits below the low bits of the limb above. */
  function ShiftedWord(x: Limb, l: Limb, shift: nat): Limb
    requires 1 <= shift < LIMB_BITS
  {
    hide Pow2;
    var carried := l % Pow2(shift);
    ShiftFits(x, shift, carried);
    x / Pow2(shift) + carried * Pow2(LIMB_BITS - shift)
  }

  lemma {:induction false} ShiftStep(w: seq<Limb>, shift: nat, l: Limb, u: seq<Limb>, high: Limb, x: Limb)
    requires 1 <= shift < LIMB_BITS && |w| == |u|
    requires Shifted(w, shift, l, u, high)
    ensures Shifted([ShiftedWord(x, l, shift)] + w, shift, x, [x] + u, high)
  {
    hide Val, BPow, Pow2;
    var s, t, y := Pow2(shift), Pow2(LIMB_BITS - shift), ShiftedWord(x, l, shift);
    ShiftFits(x, shift, l % s);
    ValCons(y, w);
    ValCons(x, u);
    BPowStep(|u|);
    var e := (high % s) * BPow(|u|);
    ShiftWord(s, x, l % s, B, t, Val(w), Val([y] + w), Val(u), Val([x] + u), e);
    assert B * e == (high % s) * (B * BPow(|u|));
  }

  lemma {:induction false} ShiftedNone(shift: nat, l: Limb)
    ensures Shifted([], shift, l, [], l)
  {
  }

  /** (tab + high * B^n) >> shift, returning the bits shifted out; only the low bits of `high` enter. */
  method ShiftRight(res: array<Limb>, ro: nat, a: array<Limb>, ao: nat, n: nat, shift: nat, high: Limb)
    returns (l: Limb)
    requires ro + n <= res.Length && ao + n <= a.Length
    requires res != a || ao <= ro || ro + n <= ao
    requires 1 <= shift < LIMB_BITS
    modifies res
    ensures l < Pow2(shift) && OnlyWindow(res, ro, ro + n)
    ensures Pow2(shift) * Val(res[ro..ro + n]) + l
         == old(Val(a[ao..ao + n])) + (high % Pow2(shift)) * BPow(n)
  {
    hide Val, BPow, Shifted, Pow2, ShiftedWord;
    ghost var u := a[ao..ao + n];
    ShiftedNone(shift, high);
    assert res[ro + n..ro + n] == [] && u[n..] == [];
    l := high;
    var i := n;
    while i > 0
      invariant 0 <= i <= n
      invariant OnlyWindow(res, ro + i, ro + n)
      invariant Shifted(res[ro + i..ro + n], shift, l, u[i..], high)
    {
      i := i - 1;
      ghost var w := res[ro + i + 1..ro + n];
      var x := a[ao + i];
      assert x == u[i];
      var y := ShiftedWord(x, l, shift);
      res[ro + i] := y;
      assert res[ro + i..ro + n] == [y] + w;
      assert u[i..] == [x] + u[i + 1..];
      ShiftStep(w, shift, l, u[i + 1..], high, x);
      l := x;
    }
    assert u[0..] == u;
    ShiftedMeans(res[ro..ro + n], shift, l, u, high);
    ModBelow(l, Pow2(shift));
    l := l % Pow2(shift);
  }

  lemma {:induction false} ShiftedMeans(w: seq<Limb>, shift: nat, l: Limb, u: seq<Limb>, high: Limb)
    requires Shifted(w, shift, l, u, high)
    ensures Pow2(shift) * Val(w) + l % Pow2(shift) == Val(u) + (high % Pow2(shift)) * BPow(|u|)
  {
  }

  /** -1, 0 or 1 as a is below, equal to or above b. */
  method Cmp(a: array<Limb>, ao: nat, b: array<Limb>, bo: nat, n: nat) returns (c: int)
    requires ao + n <= a.Length && bo + n <= b.Length
    ensures c == -1 || c == 0 || c == 1
    ensures c < 0 <==> Val(a[ao..ao + n]) < Val(b[bo..bo + n])
    ensures c == 0 <==> a[ao..ao + n] == b[bo..bo + n]
  {
    hide Val, BPow;
    ghost var u, v := a[ao..ao + n], b[bo..bo + n];
    var i := n;
    while i > 0
      invariant 0 <= i <= n
      invariant u[i..] == v[i..]
    {
      i := i - 1;
      assert a[ao + i] == u[i] && b[bo + i] == v[i];
      if a[ao + i] != b[bo + i] {
        if a[ao + i] < b[bo + i] {
          TopLimbDecides(u, v, i);
          return -1;
        } else {
          TopLimbDecides(v, u, i);
          return 1;
        }
      }
    }
    return 0;
  }

  /** Above a shared tail, the highest limb that differs orders the numbers. */
  lemma {:induction false} TopLimbDecides(u: seq<Limb>, v: seq<Limb>, i: nat)
    requires i < |u| == |v| && u[i + 1..] == v[i + 1..] && u[i] < v[i]
    ensures Val(u) < Val(v)
  {
    hide Val, BPow;
    ValSplit(u, i + 1);
    ValSplit(v, i + 1);
    ValTake(u, i);
    ValTake(v, i);
    ValBound(u[..i]);
    MulMono(u[i] + 1, v[i], BPow(i));
    MulDist(BPow(i), u[i], 1);
  }

  method CopyLimbs(res: array<Limb>, ro: nat, a: array<Limb>, ao: nat, n: nat)
    requires ro + n <= res.Length && ao + n <= a.Length && res != a
    modifies res
    ensures OnlyWindow(res, ro, ro + n) && res[ro..ro + n] == a[ao..ao + n]
  {
    var i := 0;
    while i < n
      invariant 0 <= i <= n
      invariant OnlyWindow(res, ro, ro + i)
      invariant res[ro..ro + i] == a[ao..ao + i]
    {
      res[ro + i] := a[ao + i];
      i := i + 1;
    }
  }
}
