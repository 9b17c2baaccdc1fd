/** Word sizes, simple functions on numbers, and division facts that the solver needs spelled out. */
module Arith {

  const TWO_32: nat := 0x1_0000_0000
  const TWO_64: nat := 0x1_0000_0000_0000_0000

  function Min(a: int, b: int): int {
    if a < b then a else b
  }

  function Max(a: int, b: int): int {
    if a > b then a else b
  }

  function Pow(b: nat, n: nat): nat {
    if n == 0 then 1 else b * Pow(b, n - 1)
  }

  lemma {:induction false} PowAdd(b: nat, m: nat, n: nat)
    ensures Pow(b, m + n) == Pow(b, m) * Pow(b, n)
  {
    if m > 0 {
      PowAdd(b, m - 1, n);
      Reassociate(b, Pow(b, m - 1), Pow(b, n));
    }
  }

  lemma AtLeast(k: nat, d: nat)
    requires k > 0
    ensures k * d >= d
  {
  }

  lemma DivModUnique(a: nat, d: nat, q: nat, r: nat)
    requires d > 0 && a == q * d + r && r < d
    ensures a / d == q && a % d == r
  {
    var q', r' := a / d, a % d;
    assert (q' - q) * d == r - r';
    if q' > q {
      AtLeast(q' - q, d);
    } else if q > q' {
      AtLeast(q - q', d);
    }
  }

  lemma RemainderUnique(a: int, m: nat, q: int, r: nat)
    requires m > 0 && a == q * m + r && r < m
    ensures a % m == r
  {
    var p, s := a / m, a % m;
    assert (p - q) * m == r - s;
    if p > q {
      AtLeast(p - q, m);
    } else if q > p {
      AtLeast(q - p, m);
    }
  }

  /** A remainder is the number below m that differs by a multiple of m. */
  lemma ModIs(v: int, w: nat, m: nat)
    requires m > 0
    ensures 0 <= v < m && (v - w) % m == 0 <==> w % m == v
  {
    if w % m == v {
      var q := w / m;
      assert v - w == (-q) * m + 0;
      RemainderUnique(v - w, m, -q, 0);
    } else if 0 <= v < m && (v - w) % m == 0 {
      var t := (v - w) / m;
      assert v - w == t * m;
      assert w == (-t) * m + v;
      RemainderUnique(w, m, -t, v);
    }
  }

  /** An aligned number plus a small one. */
  lemma AddLow(a: nat, d: nat, r: nat)
    requires d > 0 && a % d == 0 && r < d
    ensures (a + r) / d == a / d && (a + r) % d == r
  {
    DivModUnique(a + r, d, a / d, r);
  }

  lemma SumAligned(a: nat, b: nat, d: nat)
    requires d > 0 && a % d == 0 && b % d == 0
    ensures (a + b) % d == 0
  {
    var p, q := a / d, b / d;
    assert a == p * d && b == q * d;
    assert a + b == (p + q) * d;
    DivModUnique(a + b, d, p + q, 0);
  }

  lemma WholeMultiple(a: nat, d: nat)
    requires d > 0 && a % d == 0
    ensures a / d * d == a
  {
  }

  lemma Coarser(a: nat, d: nat, k: nat)
    requires d > 0 && k > 0
    ensures k * d > 0
    ensures a % (k * d) == 0 ==> a % d == 0
  {
    if a % (k * d) == 0 {
      var q := a / (k * d);
      assert a == q * (k * d) == (q * k) * d;
      DivModUnique(a, d, q * k, 0);
    }
  }

  lemma Regroup(a: nat, x: nat, y: nat, q: nat, r2: nat, r1: nat)
    requires a == (q * y + r2) * x + r1 && r2 < y && r1 < x
    ensures a == q * (x * y) + (r2 * x + r1) && r2 * x + r1 < x * y
  {
    AtLeast(y - r2, x);
    assert (y - r2) * x == y * x - r2 * x;
    assert (q * y + r2) * x == q * y * x + r2 * x;
  }

  lemma DivDiv(a: nat, x: nat, y: nat)
    requires x > 0 && y > 0
    ensures x * y > 0 && a / x / y == a / (x * y)
  {
    var b, r1 := Divided(a, x);
    var q, r2 := Divided(b, y);
    AtLeast(x, y);
    Regroup(a, x, y, q, r2, r1);
    DivModUnique(a, x * y, q, r2 * x + r1);
  }

  lemma Divided(a: nat, d: nat) returns (q: nat, r: nat)
    requires d > 0
    ensures q == a / d && r == a % d && a == q * d + r && r < d
  {
    q, r := a / d, a % d;
  }

  lemma Reassociate(a: int, b: int, c: int)
    ensures a * b * c == a * (b * c)
  {
  }
}
