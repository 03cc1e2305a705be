/** Congruence modulo m, and powers. */
module Congruence {
  import opened Arith

  ghost predicate Cong(x: int, y: int, m: int) {
    m > 0 && (x - y) % m == 0
  }

  lemma CongBy(x: int, y: int, m: int, k: int)
    requires m > 0 && x - y == k * m
    ensures Cong(x, y, m)
  {
    DivModUnique(x - y, m, k, 0);
  }

  lemma CongWitness(x: int, y: int, m: int) returns (k: int)
    requires Cong(x, y, m)
    ensures x - y == k * m
  {
    k := (x - y) / m;
  }

  lemma CongEqual(x: int, y: int, m: int)
    requires x == y && m > 0
    ensures Cong(x, y, m)
  {
    CongBy(x, y, m, 0);
  }

  lemma CongSym(x: int, y: int, m: int)
    requires Cong(x, y, m)
    ensures Cong(y, x, m)
  {
    hide Cong;
    var k := CongWitness(x, y, m);
    assert y - x == (-k) * m;
    CongPositive(x, y, m);
    CongBy(y, x, m, -k);
  }

  lemma CongPositive(x: int, y: int, m: int)
    requires Cong(x, y, m)
    ensures m > 0
  {
  }

  lemma CongTrans(x: int, y: int, z: int, m: int)
    requires Cong(x, y, m) && Cong(y, z, m)
    ensures Cong(x, z, m)
  {
    hide Cong;
    CongPositive(x, y, m);
    var k := CongWitness(x, y, m);
    var k2 := CongWitness(y, z, m);
    assert x - z == (k + k2) * m;
    CongBy(x, z, m, k + k2);
  }

  /** x + s * u and y + s * v. */
  lemma CongLinear(x: int, y: int, s: int, u: int, v: int, m: int)
    requires Cong(x, y, m) && Cong(u, v, m)
    ensures Cong(x + s * u, y + s * v, m)
  {
    hide Cong;
    CongPositive(x, y, m);
    var k := CongWitness(x, y, m);
    var k2 := CongWitness(u, v, m);
    assert x + s * u - (y + s * v) == (k + s * k2) * m by {
      LinearShuffle(x, y, s, u, v, k, k2, m);
    }
    CongBy(x + s * u, y + s * v, m, k + s * k2);
  }

  lemma LinearShuffle(x: int, y: int, s: int, u: int, v: int, k: int, k2: int, m: int)
    requires x - y == k * m && u - v == k2 * m
    ensures x + s * u - (y + s * v) == (k + s * k2) * m
  {
    assert s * u - s * v == s * (u - v);
    MulEqual(u - v, k2 * m, s);
    assert (k + s * k2) * m == k * m + s * k2 * m;
  }

  lemma CongMul(x: int, y: int, u: int, v: int, m: int)
    requires Cong(x, y, m) && Cong(u, v, m)
    ensures Cong(x * u, y * v, m)
  {
    hide Cong;
    CongPositive(x, y, m);
    CongEqual(0, 0, m);
    CongLinear(0, 0, x, u, v, m);
    CongLinear(0, 0, v, x, y, m);
    MulComm(v, x);
    MulComm(v, y);
    CongTrans(x * u, x * v, y * v, m);
  }

  lemma CongMod(x: int, m: int)
    requires m > 0
    ensures Cong(x % m, x, m) && 0 <= x % m < m
  {
    hide Cong;
    var q, r := x / m, x % m;
    assert x == m * q + r;
    assert r - x == (-q) * m;
    CongBy(r, x, m, -q);
  }

  lemma CongUnique(x: int, y: int, m: int)
    requires Cong(x, y, m) && 0 <= x < m && 0 <= y < m
    ensures x == y
  {
    hide Cong;
    var k := CongWitness(x, y, m);
    if k >= 1 {
      MulMono(1, k, m);
    } else if k <= -1 {
      MulMono(k, -1, m);
    }
  }

  /** Congruent numbers have the same remainder, and conversely. */
  lemma CongIffMod(x: int, y: int, m: int)
    requires m > 0
    ensures Cong(x, y, m) <==> x % m == y % m
  {
    hide Cong;
    CongMod(x, m);
    CongMod(y, m);
    CongSym(x % m, x, m);
    if Cong(x, y, m) {
      CongTrans(x % m, x, y, m);
      CongSym(y % m, y, m);
      CongTrans(x % m, y, y % m, m);
      CongUnique(x % m, y % m, m);
    }
    if x % m == y % m {
      CongTrans(x, x % m, y, m);
    }
  }

  // ----- powers -----

  function Pow(z: int, e: nat): int {
    if e == 0 then 1 else z * Pow(z, e - 1)
  }

  lemma {:induction false} PowStep(z: int, e: nat)
    ensures Pow(z, 0) == 1 && Pow(z, 1) == z && Pow(z, e + 1) == z * Pow(z, e)
  {
    assert Pow(z, 1) == z * Pow(z, 0);
  }

  lemma {:induction false} PowAdd(z: int, a: nat, b: nat)
    ensures Pow(z, a + b) == Pow(z, a) * Pow(z, b)
    decreases a
  {
    if a > 0 {
      PowAdd(z, a - 1, b);
      assert Pow(z, a + b) == z * Pow(z, a + b - 1);
      MulAssoc(z, Pow(z, a - 1), Pow(z, b));
    }
  }

  lemma {:induction false} PowMul(z: int, a: nat, b: nat)
    ensures 0 <= a * b && Pow(Pow(z, a), b) == Pow(z, a * b)
    decreases b
  {
    if b > 0 {
      PowMul(z, a, b - 1);
      assert a * b == a + a * (b - 1);
      PowAdd(z, a, a * (b - 1));
      assert Pow(Pow(z, a), b) == Pow(z, a) * Pow(Pow(z, a), b - 1);
    }
  }

  lemma {:induction false} PowProduct(x: int, y: int, e: nat)
    ensures Pow(x * y, e) == Pow(x, e) * Pow(y, e)
  {
    if e > 0 {
      PowProduct(x, y, e - 1);
      ProductShuffle(x, y, Pow(x, e - 1), Pow(y, e - 1));
    }
  }

  lemma ProductShuffle(x: int, y: int, p: int, q: int)
    ensures (x * y) * (p * q) == (x * p) * (y * q)
  {
  }

  lemma {:induction false} CongPow(x: int, y: int, e: nat, m: int)
    requires Cong(x, y, m)
    ensures Cong(Pow(x, e), Pow(y, e), m)
  {
    hide Cong;
    CongPositive(x, y, m);
    if e == 0 {
      CongEqual(1, 1, m);
    } else {
      CongPow(x, y, e - 1, m);
      CongMul(x, y, Pow(x, e - 1), Pow(y, e - 1), m);
    }
  }

  lemma {:induction false} PowOne(e: nat)
    ensures Pow(1, e) == 1 && Pow(-1, 2 * e) == 1 && Pow(-1, 2 * e + 1) == -1
  {
    if e > 0 {
      PowOne(e - 1);
      assert Pow(-1, 2 * e) == -1 * Pow(-1, 2 * (e - 1) + 1);
      assert Pow(-1, 2 * e + 1) == -1 * Pow(-1, 2 * e);
    }
  }
}
