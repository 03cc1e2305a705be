/**
 One stage of the Stockham transform: columns of the working array, the butterfly blocks
 that halve them, and the invariant that ties every column to the transform of the input.
 */
module NttStage {
  import opened Arith
  import opened Limbs
  import opened LimbOps
  import opened Congruence
  import opened Polynomial
  import opened FastMod

  /** Position of row i of column j in an array of rows of f entries. */
  function At(i: nat, f: nat, j: nat): nat {
    i * f + j
  }

  function Entry(y: seq<int>, i: nat): int {
    if i < |y| then y[i] else 0
  }

  ghost function Column(y: seq<int>, f: nat, len: nat, j: nat): (c: seq<int>)
    ensures |c| == len
  {
    seq(len, i requires 0 <= i < len => Entry(y, At(i, f, j)))
  }

  /** Output q * f + j of the transform of x is output q of the transform of column j. */
  ghost predicate Tracks(x: seq<int>, y: seq<int>, f: nat, len: nat, w: int, m: int, j: nat, q: nat) {
    Cong(Eval(x, Pow(w, At(q, f, j))), Eval(Column(y, f, len, j), Pow(Pow(w, f), q)), m)
  }

  ghost predicate AllTrack(x: seq<int>, y: seq<int>, f: nat, len: nat, w: int, m: int) {
    forall j: nat, q: nat | j < f && q < len :: Tracks(x, y, f, len, w, m, j, q)
  }

  // ----- blocks -----

  ghost predicate BlockEntry(lo: seq<Limb>, hi: seq<Limb>, o: seq<Limb>, c: int, m: int, j: nat)
    requires |lo| == |hi| && |o| == 2 * |lo| && j < |lo|
  {
    && Cong(o[j], lo[j] as int + hi[j], m)
    && Cong(o[|lo| + j], (lo[j] as int - hi[j]) * c, m)
    && o[j] < 2 * m && o[|lo| + j] < 2 * m
  }

  ghost predicate BlockUpTo(lo: seq<Limb>, hi: seq<Limb>, o: seq<Limb>, c: int, m: int, t: nat) {
    |lo| == |hi| && |o| == 2 * |lo| && t <= |lo| && forall j: nat | j < t :: BlockEntry(lo, hi, o, c, m, j)
  }

  lemma BlockSame(lo: seq<Limb>, hi: seq<Limb>, o: seq<Limb>, o': seq<Limb>, c: int, m: int, t: nat)
    requires BlockUpTo(lo, hi, o, c, m, t) && |o'| == |o| && t < |lo|
    requires forall j: nat | j < |o| && j != t && j != |lo| + t :: o'[j] == o[j]
    ensures BlockUpTo(lo, hi, o', c, m, t)
  {
    hide Cong;
    forall j: nat | j < t
      ensures BlockEntry(lo, hi, o', c, m, j)
    {
      assert BlockEntry(lo, hi, o, c, m, j);
      var j' := |lo| + j;
      assert o'[j] == o[j] && o'[j'] == o[j'];
    }
  }

  lemma BlockStep(lo: seq<Limb>, hi: seq<Limb>, o: seq<Limb>, c: int, m: int, t: nat)
    requires BlockUpTo(lo, hi, o, c, m, t) && t < |lo| && BlockEntry(lo, hi, o, c, m, t)
    ensures BlockUpTo(lo, hi, o, c, m, t + 1)
  {
    hide BlockEntry;
  }

  lemma SumValue(x: int, b: int, m: int)
    requires m > 0 && b == x % (2 * m)
    ensures Cong(b, x, m) && b < 2 * m
  {
    hide Cong;
    CongMod(x, 2 * m);
    var k := CongWitness(b, x, 2 * m);
    assert k * (2 * m) == 2 * k * m;
    CongBy(b, x, m, 2 * k);
  }

  lemma DifferenceValue(e: int, c: int, b: int, m: int)
    requires m > 0 && var d := (e + 2 * m) * c % m; b == d || b == d + m
    ensures Cong(b, e * c, m) && b < 2 * m
  {
    hide Cong;
    var x := (e + 2 * m) * c;
    assert x - e * c == 2 * c * m;
    CongBy(x, e * c, m, 2 * c);
    CongMod(x, m);
    var d := x % m;
    CongTrans(d, x, e * c, m);
    CongBy(b, d, m, if b == d then 0 else 1);
    CongTrans(b, d, e * c, m);
  }

  /** One butterfly: sum and twisted difference, both again below 2m. */
  method Butterfly(a0: Limb, a1: Limb, c: Limb, cInv: Limb, m: Limb) returns (b0: Limb, b1: Limb)
    requires 0 < m && c < m && 4 * m < B && cInv == InitMulModFast2(c, m) && a0 < 2 * m && a1 < 2 * m
    ensures Cong(b0, a0 as int + a1, m) && Cong(b1, (a0 as int - a1) * c, m) && b0 < 2 * m && b1 < 2 * m
  {
    hide Cong;
    b0 := AddMod(a0, a1, 2 * m);
    b1 := WAdd(WSub(a0, a1), 2 * m);
    assert b1 == a0 as int - a1 + 2 * m;
    b1 := MulModFast3(b1, c, m, cInv);
    SumValue(a0 + a1, b0, m);
    DifferenceValue(a0 as int - a1, c, b1, m);
  }

  /** The inner loop of a stage. */
  method ButterflyBlock(tin: array<Limb>, tout: array<Limb>, k: nat, p: nat, f: nat, half: nat, c: Limb, cInv: Limb,
      m: Limb)
    requires tin != tout && half + k + f <= tin.Length && p + 2 * f <= tout.Length
    requires 0 < m && c < m && 4 * m < B && cInv == InitMulModFast2(c, m)
    requires forall i | 0 <= i < half + k + f :: tin[i] < 2 * m
    modifies tout
    ensures OnlyWindow(tout, p, p + 2 * f) && forall z | p <= z < p + 2 * f :: tout[z] < 2 * m
    ensures BlockUpTo(tin[k..k + f], tin[half + k..half + k + f], tout[p..p + 2 * f], c, m, f)
  {
    hide BlockUpTo, Cong, InitMulModFast2;
    ghost var lo, hi := tin[k..k + f], tin[half + k..half + k + f];
    BlockStart(lo, hi, tout[p..p + 2 * f], c, m);
    var j := 0;
    while j < f
      invariant 0 <= j <= f
      invariant OnlyWindow(tout, p, p + 2 * f)
      invariant forall z | p <= z < p + j || p + f <= z < p + f + j :: tout[z] < 2 * m
      invariant BlockUpTo(lo, hi, tout[p..p + 2 * f], c, m, j)
    {
      ghost var o := tout[p..p + 2 * f];
      var a0, a1 := tin[k + j], tin[k + j + half];
      assert lo[j] == a0 && hi[j] == a1;
      var b0, b1 := Butterfly(a0, a1, c, cInv, m);
      tout[p + j] := b0;
      tout[p + j + f] := b1;
      ghost var o' := tout[p..p + 2 * f];
      assert o'[j] == b0 && o'[f + j] == b1;
      BlockSame(lo, hi, o, o', c, m, j);
      BlockStep(lo, hi, o', c, m, j);
      j := j + 1;
    }
  }

  lemma BlockStart(lo: seq<Limb>, hi: seq<Limb>, o: seq<Limb>, c: int, m: int)
    requires |lo| == |hi| && |o| == 2 * |lo|
    ensures BlockUpTo(lo, hi, o, c, m, 0)
  {
  }

  // ----- stages -----

  /** Block i of a stage that reads rows i and h + i and writes row i, twice as long. */
  ghost predicate BlockAt(inp: seq<Limb>, out: seq<Limb>, f: nat, h: nat, w: int, m: int, i: nat) {
    && (h + i) * f + f <= |inp| && i * (2 * f) + 2 * f <= |out|
    && BlockUpTo(inp[i * f..i * f + f], inp[(h + i) * f..(h + i) * f + f], out[i * (2 * f)..i * (2 * f) + 2 * f],
         Pow(w, i), m, f)
  }

  ghost predicate StageUpTo(inp: seq<Limb>, out: seq<Limb>, f: nat, h: nat, w: int, m: int, t: nat) {
    forall i: nat | i < t :: BlockAt(inp, out, f, h, w, m, i)
  }

  lemma {:induction false} BlockValues(inp: seq<Limb>, out: seq<Limb>, f: nat, a: nat, b: nat, p: nat, c: int, m: int,
      j: nat)
    requires a + f <= |inp| && b + f <= |inp| && p + 2 * f <= |out| && j < f
    requires BlockUpTo(inp[a..a + f], inp[b..b + f], out[p..p + 2 * f], c, m, f)
    ensures Cong(out[p + j], inp[a + j] as int + inp[b + j], m)
    ensures Cong(out[p + (f + j)], (inp[a + j] as int - inp[b + j]) * c, m)
    ensures out[p + j] < 2 * m && out[p + (f + j)] < 2 * m
  {
    hide Cong;
    var lo, hi, o := inp[a..a + f], inp[b..b + f], out[p..p + 2 * f];
    assert BlockEntry(lo, hi, o, c, m, j);
    assert o[j] == out[p + j] && o[f + j] == out[p + (f + j)];
  }

  lemma EntryIs(y: seq<int>, i: nat, f: nat, j: nat, a: int)
    requires a == i * f && a + j < |y|
    ensures a + j >= 0 && Entry(y, At(i, f, j)) == y[a + j]
  {
  }

  /** What block i says about row i of columns j and f + j. */
  lemma {:induction false} BlockColumns(inp: seq<Limb>, out: seq<Limb>, f: nat, h: nat, w: int, m: int, i: nat, j: nat)
    requires BlockAt(inp, out, f, h, w, m, i) && i < h && j < f
    ensures Cong(Entry(out, At(i, 2 * f, j)), Entry(inp, At(i, f, j)) + Entry(inp, At(h + i, f, j)), m)
    ensures Cong(Entry(out, At(i, 2 * f, f + j)), (Entry(inp, At(i, f, j)) - Entry(inp, At(h + i, f, j))) * Pow(w, i),
        m)
    ensures Entry(out, At(i, 2 * f, j)) < 2 * m && Entry(out, At(i, 2 * f, f + j)) < 2 * m
  {
    hide Cong, Pow, BlockUpTo, Entry, At;
    var a, b, p := i * f, (h + i) * f, i * (2 * f);
    MulMono(i, h + i, f);
    BlockValues(inp, out, f, a, b, p, Pow(w, i), m, j);
    EntryIs(inp, i, f, j, a);
    EntryIs(inp, h + i, f, j, b);
    EntryIs(out, i, 2 * f, j, p);
    EntryIs(out, i, 2 * f, f + j, p);
  }

  /** The sums form column j of the next stage. */
  lemma {:induction false} SumColumn(inp: seq<Limb>, out: seq<Limb>, f: nat, h: nat, w: int, m: int, j: nat)
    requires StageUpTo(inp, out, f, h, w, m, h) && j < f
    ensures var c := Column(inp, f, 2 * h, j); Combination(Column(out, 2 * f, h, j), c[..h], 1, c[h..], m)
  {
    hide Cong, Pow, BlockAt;
    var c := Column(inp, f, 2 * h, j);
    forall i | 0 <= i < h
      ensures Cong(Column(out, 2 * f, h, j)[i], c[..h][i] + 1 * c[h..][i], m)
    {
      BlockColumns(inp, out, f, h, w, m, i, j);
    }
  }

  ghost function Difference(lo: seq<int>, hi: seq<int>): (d: seq<int>)
    requires |lo| == |hi|
    ensures |d| == |lo|
  {
    seq(|lo|, i requires 0 <= i < |lo| => lo[i] - hi[i])
  }

  lemma {:induction false} DifferenceCombines(lo: seq<int>, hi: seq<int>, m: int)
    requires |lo| == |hi| && m > 0
    ensures Combination(Difference(lo, hi), lo, -1, hi, m)
  {
    hide Cong;
    forall i | 0 <= i < |lo|
      ensures Cong(Difference(lo, hi)[i], lo[i] + -1 * hi[i], m)
    {
      CongEqual(lo[i] - hi[i], lo[i] + -1 * hi[i], m);
    }
  }

  /** The twisted differences form column f + j. */
  lemma {:induction false} DifferenceColumn(inp: seq<Limb>, out: seq<Limb>, f: nat, h: nat, w: int, m: int, j: nat)
    requires StageUpTo(inp, out, f, h, w, m, h) && j < f
    ensures var c := Column(inp, f, 2 * h, j);
        Twisted(Column(out, 2 * f, h, f + j), Difference(c[..h], c[h..]), 1, w, m)
  {
    hide Cong, Pow, BlockAt;
    var c := Column(inp, f, 2 * h, j);
    var d := Difference(c[..h], c[h..]);
    forall i | 0 <= i < h
      ensures Cong(Column(out, 2 * f, h, f + j)[i], 1 * (d[i] * Pow(w, i)), m)
    {
      BlockColumns(inp, out, f, h, w, m, i, j);
    }
  }

  /** A stage halves every column and keeps the invariant. */
  lemma {:induction false} StageTracks(x: seq<int>, inp: seq<Limb>, out: seq<Limb>, f: nat, h: nat, w: int, m: int,
      j: nat, q: nat)
    requires AllTrack(x, inp, f, 2 * h, w, m) && StageUpTo(inp, out, f, h, Pow(w, f), m, h)
    requires m > 0 && RootOfUnity(Pow(w, f), h, m) && j < 2 * f && q < h
    ensures Tracks(x, out, 2 * f, h, w, m, j, q)
  {
    hide Cong, Pow, Eval, StageUpTo, RootOfUnity, Combination, Twisted, Column, Difference;
    var u := Pow(w, f);
    var j0 := if j < f then j else j - f;
    var c := Column(inp, f, 2 * h, j0);
    assert c == c[..h] + c[h..];
    PowAdd(w, f, f);
    if j < f {
      assert Tracks(x, inp, f, 2 * h, w, m, j0, 2 * q);
      SumColumn(inp, out, f, h, u, m, j);
      EvenOutput(c[..h], c[h..], Column(out, 2 * f, h, j), u, h, q, m);
      assert At(q, 2 * f, j) == At(2 * q, f, j0);
    } else {
      assert Tracks(x, inp, f, 2 * h, w, m, j0, 2 * q + 1);
      DifferenceColumn(inp, out, f, h, u, m, j0);
      DifferenceCombines(c[..h], c[h..], m);
      OddOutput(c[..h], c[h..], Difference(c[..h], c[h..]), Column(out, 2 * f, h, j), u, h, q, m);
      assert At(q, 2 * f, j) == At(2 * q + 1, f, j0);
    }
    var e := if j < f then 2 * q else 2 * q + 1;
    CongTrans(Eval(x, Pow(w, At(q, 2 * f, j))), Eval(c, Pow(u, e)), Eval(Column(out, 2 * f, h, j), Pow(u * u, q)), m);
  }

  lemma {:induction false} StageInvariant(x: seq<int>, inp: seq<Limb>, out: seq<Limb>, f: nat, h: nat, w: int, m: int)
    requires AllTrack(x, inp, f, 2 * h, w, m) && StageUpTo(inp, out, f, h, Pow(w, f), m, h)
    requires m > 0 && RootOfUnity(Pow(w, f), h, m)
    ensures AllTrack(x, out, 2 * f, h, w, m)
  {
    hide Tracks, Cong, Pow, StageUpTo, RootOfUnity;
    forall j: nat, q: nat | j < 2 * f && q < h
      ensures Tracks(x, out, 2 * f, h, w, m, j, q)
    {
      hide AllTrack;
      StageTracks(x, inp, out, f, h, w, m, j, q);
    }
  }

  // ----- tables of powers, and the loop over the blocks -----

  /** Pair i of a table: the i-th power of w and its multiplication constant. */
  ghost predicate TrigPair(tab: seq<Limb>, w: int, m: Limb, i: nat) {
    2 * i + 1 < |tab| && tab[2 * i] < m && Cong(tab[2 * i], Pow(w, i), m)
        && tab[2 * i + 1] == InitMulModFast2(tab[2 * i], m)
  }

  ghost predicate IsTrig(tab: seq<Limb>, w: int, h: nat, m: Limb) {
    |tab| == 2 * h && forall i: nat | i < h :: TrigPair(tab, w, m, i)
  }

  lemma {:induction false} BlockFactor(lo: seq<Limb>, hi: seq<Limb>, o: seq<Limb>, c: int, c': int, m: int, t: nat)
    requires BlockUpTo(lo, hi, o, c, m, t) && Cong(c, c', m)
    ensures BlockUpTo(lo, hi, o, c', m, t)
  {
    hide Cong;
    CongPositive(c, c', m);
    forall j: nat | j < t
      ensures BlockEntry(lo, hi, o, c', m, j)
    {
      assert BlockEntry(lo, hi, o, c, m, j);
      var e := lo[j] as int - hi[j];
      CongEqual(e, e, m);
      CongMul(e, e, c, c', m);
      CongTrans(o[|lo| + j], e * c, e * c', m);
    }
  }

  /** A finished block written at row i. */
  lemma {:induction false} BlockPlaced(inp: seq<Limb>, out: seq<Limb>, f: nat, h: nat, w: int, m: int, i: nat, a: nat,
      b: nat, p: nat, c: int)
    requires a == i * f && b == (h + i) * f && p == i * (2 * f) && b + f <= |inp| && a + f <= |inp|
    requires p + 2 * f <= |out|
    requires BlockUpTo(inp[a..a + f], inp[b..b + f], out[p..p + 2 * f], c, m, f) && Cong(c, Pow(w, i), m)
    ensures BlockAt(inp, out, f, h, w, m, i)
  {
    hide Cong, Pow, BlockUpTo;
    BlockFactor(inp[a..a + f], inp[b..b + f], out[p..p + 2 * f], c, Pow(w, i), m, f);
  }

  lemma PrefixSlice(s: seq<Limb>, p: nat, a: nat, b: nat)
    requires a <= b <= p <= |s|
    ensures s[a..b] == s[..p][a..b]
  {
  }

  lemma {:induction false} BlockAtSame(inp: seq<Limb>, out: seq<Limb>, out': seq<Limb>, f: nat, h: nat, w: int,
      m: int, i: nat, t: nat, p: nat)
    requires BlockAt(inp, out, f, h, w, m, i) && i < t && p == t * (2 * f) && p <= |out| && p <= |out'|
    requires out'[..p] == out[..p]
    ensures BlockAt(inp, out', f, h, w, m, i)
  {
    hide Pow, BlockUpTo;
    MulMono(i + 1, t, 2 * f);
    var k := i * (2 * f);
    assert (i + 1) * (2 * f) == k + 2 * f;
    PrefixSlice(out, p, k, k + 2 * f);
    PrefixSlice(out', p, k, k + 2 * f);
  }

  lemma {:induction false} StageStep(inp: seq<Limb>, out: seq<Limb>, out': seq<Limb>, f: nat, h: nat, w: int, m: int,
      t: nat, p: nat)
    requires StageUpTo(inp, out, f, h, w, m, t) && BlockAt(inp, out', f, h, w, m, t)
    requires p == t * (2 * f) && p <= |out| && p <= |out'| && out'[..p] == out[..p]
    ensures StageUpTo(inp, out', f, h, w, m, t + 1)
  {
    hide BlockAt;
    forall i: nat | i < t
      ensures BlockAt(inp, out', f, h, w, m, i)
    {
      BlockAtSame(inp, out, out', f, h, w, m, i, t, p);
    }
  }

  /** Block i of a stage. */
  method StageBlock(tin: array<Limb>, tout: array<Limb>, n: nat, f: nat, h: nat, c: Limb, cInv: Limb, m: Limb,
      ghost w: int, ghost i: nat, k: nat, p: nat)
    requires tin != tout && n <= tin.Length && n <= tout.Length && i < h && k == i * f && p == i * (2 * f)
    requires n / 2 + k == (h + i) * f && k <= n / 2 && n / 2 + k + f <= n && p + 2 * f <= n
    requires 0 < m && 4 * m < B && c < m && cInv == InitMulModFast2(c, m) && Cong(c, Pow(w, i), m)
    requires forall z | 0 <= z < n :: tin[z] < 2 * m
    requires StageUpTo(tin[..n], tout[..n], f, h, w, m, i)
    modifies tout
    ensures OnlyWindow(tout, p, p + 2 * f) && forall z | p <= z < p + 2 * f :: tout[z] < 2 * m
    ensures StageUpTo(tin[..n], tout[..n], f, h, w, m, i + 1)
  {
    hide StageUpTo, BlockAt, BlockUpTo, Cong, Pow, InitMulModFast2;
    ghost var inp, out := tin[..n], tout[..n];
    ButterflyBlock(tin, tout, k, p, f, n / 2, c, cInv, m);
    ghost var out' := tout[..n];
    assert inp[k..k + f] == tin[k..k + f] && inp[n / 2 + k..n / 2 + k + f] == tin[n / 2 + k..n / 2 + k + f];
    assert out'[p..p + 2 * f] == tout[p..p + 2 * f];
    BlockPlaced(inp, out', f, h, w, m, i, k, n / 2 + k, p, c);
    assert out'[..p] == out[..p];
    StageStep(inp, out, out', f, h, w, m, i, p);
  }

  /** One stage: h blocks of f butterflies. */
  method Stage(tin: array<Limb>, tout: array<Limb>, n: nat, f: nat, h: nat, trig: seq<Limb>, m: Limb, ghost w: int)
    requires tin != tout && n <= tin.Length && n <= tout.Length && n == 2 * (h * f)
    requires 0 < m && 4 * m < B && IsTrig(trig, w, h, m)
    requires forall i | 0 <= i < n :: tin[i] < 2 * m
    modifies tout
    ensures OnlyWindow(tout, 0, n) && forall i | 0 <= i < n :: tout[i] < 2 * m
    ensures StageUpTo(tin[..n], tout[..n], f, h, w, m, h)
  {
    hide StageUpTo, Cong, Pow, InitMulModFast2;
    var i, k, p := 0, 0, 0;
    StageStart(tin[..n], tout[..n], f, h, w, m);
    while i < h
      invariant 0 <= i <= h && k == i * f && p == i * (2 * f) && p <= n
      invariant OnlyWindow(tout, 0, n) && forall z | 0 <= z < p :: tout[z] < 2 * m
      invariant StageUpTo(tin[..n], tout[..n], f, h, w, m, i)
    {
      StagePosition(i, h, f, n, k, p);
      assert TrigPair(trig, w, m, i);
      StageBlock(tin, tout, n, f, h, trig[2 * i], trig[2 * i + 1], m, w, i, k, p);
      i, k, p := i + 1, k + f, p + 2 * f;
    }
  }

  lemma StagePosition(i: int, h: int, f: int, n: int, k: int, p: int)
    requires 0 <= i < h && 0 <= f && n == 2 * (h * f) && k == i * f && p == i * (2 * f)
    ensures n / 2 + k == (h + i) * f && k <= n / 2 && n / 2 + k + f <= n && p + 2 * f <= n && k + f == (i + 1) * f
    ensures p + 2 * f == (i + 1) * (2 * f)
  {
    MulMono(i + 1, h, f);
    assert (i + 1) * f == i * f + f && (h + i) * f == h * f + i * f;
    assert (i + 1) * (2 * f) == 2 * ((i + 1) * f) && i * (2 * f) == 2 * (i * f);
  }

  lemma StageStart(inp: seq<Limb>, out: seq<Limb>, f: nat, h: nat, w: int, m: int)
    ensures StageUpTo(inp, out, f, h, w, m, 0)
  {
  }
}
