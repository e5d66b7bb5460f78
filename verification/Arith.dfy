/** Powers and modular arithmetic shared by the other modules. */
module Arith {

  function Pow(b: nat, e: nat): (p: nat)
    ensures b > 0 ==> p > 0
    decreases e
  {
    if e == 0 then 1 else b * Pow(b, e - 1)
  }

  function Pow2(e: nat): (p: nat)
    ensures p > 0
  {
    Pow(2, e)
  }

  lemma {:induction false} PowAdd(b: nat, m: nat, n: nat)
    ensures Pow(b, m + n) == Pow(b, m) * Pow(b, n)
  {
    if m > 0 {
      PowAdd(b, m - 1, n);
      Assoc(b, Pow(b, m - 1), Pow(b, n));
    }
  }

  lemma {:induction false} PowOfProduct(a: nat, b: nat, e: nat)
    ensures Pow(a * b, e) == Pow(a, e) * Pow(b, e)
  {
    if e > 0 {
      PowOfProduct(a, b, e - 1);
      var p, q := Pow(a, e - 1), Pow(b, e - 1);
      assert (a * b) * (p * q) == (a * p) * (b * q) by { Interchange(a, b, p, q); }
    }
  }

  lemma {:induction false} Pow2Monotone(m: nat, n: nat)
    requires m <= n
    ensures Pow2(m) <= Pow2(n)
  {
    if m < n {
      Pow2Monotone(m, n - 1);
    }
  }

  lemma Assoc(a: int, b: int, c: int)
    ensures a * (b * c) == (a * b) * c
  {
  }

  lemma Distribute(a: int, b: int, c: int)
    ensures a * (b + c) == a * b + a * c
  {
  }

  lemma Interchange(a: int, b: int, p: int, q: int)
    ensures (a * b) * (p * q) == (a * p) * (b * q)
  {
    Assoc(a * b, p, q);
    Assoc(a, b, p);
    Assoc(a, p, b);
    Assoc(a * p, b, q);
  }

  /** Quotient and remainder are determined by n * q + r with r in range. */
  lemma DivModUnique(x: int, n: int, q: int, r: int)
    requires n > 0 && x == n * q + r && 0 <= r < n
    ensures x / n == q && x % n == r
  {
    var d := x / n - q;
    assert n * d == r - x % n;
    MulSign(n, d);
  }

  lemma MulSign(n: int, d: int)
    requires n > 0
    ensures d >= 1 ==> n * d >= n
    ensures d <= -1 ==> n * d <= -n
  {
  }

  lemma ModAddMultiple(x: int, k: int, n: int)
    requires n > 0
    ensures (x + n * k) % n == x % n
    ensures (x + n * k) / n == x / n + k
  {
    assert x + n * k == n * (x / n + k) + x % n;
    DivModUnique(x + n * k, n, x / n + k, x % n);
  }

  lemma ModMulLeft(x: int, y: int, n: int)
    requires n > 0
    ensures ((x % n) * y) % n == (x * y) % n
  {
    var q, r := x / n, x % n;
    assert x * y == r * y + n * (q * y) by {
      assert x == n * q + r;
      assert (n * q + r) * y == (n * q) * y + r * y;
      Assoc(n, q, y);
    }
    ModAddMultiple(r * y, q * y, n);
  }

  lemma ModMul(x: int, y: int, n: int)
    requires n > 0
    ensures ((x % n) * (y % n)) % n == (x * y) % n
  {
    ModMulLeft(x, y % n, n);
    ModMulLeft(y, x, n);
  }

  lemma {:induction false} ModPow(x: nat, e: nat, n: nat)
    requires n > 0
    ensures Pow(x % n, e) % n == Pow(x, e) % n
  {
    if e > 0 {
      var p, q := Pow(x % n, e - 1), Pow(x, e - 1);
      ModPow(x, e - 1, n);
      ModMulLeft(x, p, n);
      ModMulLeft(p, x, n);
      ModMulLeft(q, x, n);
      assert x * p == p * x && x * q == q * x;
    }
  }

  /** Taking a remainder modulo a multiple of n first changes nothing modulo n. */
  lemma ModOfMod(x: int, n: int, k: int)
    requires n > 0 && k > 0
    ensures n * k > 0
    ensures (x % (n * k)) % n == x % n
  {
    var m := n * k;
    var q := x / m;
    assert x == m * q + x % m;
    assert m * q == n * (k * q) by { Assoc(n, k, q); }
    ModAddMultiple(x % m, k * q, n);
  }

  lemma ScaledRemainder(a: nat, b: nat, hi: nat, lo: nat)
    requires hi < b && lo < a
    ensures 0 <= a * hi + lo < a * b
  {
    var gap := b - 1 - hi;
    assert a * b == a * hi + a * gap + a;
    assert a * gap >= 0;
  }

  lemma DivDiv(x: nat, a: nat, b: nat)
    requires a > 0 && b > 0
    ensures a * b > 0
    ensures x / (a * b) == (x / a) / b
  {
    var q, r := x / a, x % a;
    var q', r' := q / b, q % b;
    assert x == (a * b) * q' + (a * r' + r) by {
      assert x == a * q + r;
      Distribute(a, b * q', r');
      Assoc(a, b, q');
    }
    assert 0 <= a * r' + r < a * b by { ScaledRemainder(a, b, r', r); }
    DivModUnique(x, a * b, q', a * r' + r);
  }

  /** Cutting to p * g and dropping p is dropping p and cutting to g. */
  lemma DivOfMod(x: nat, p: nat, g: nat)
    requires p > 0 && g > 0
    ensures p * g > 0
    ensures (x % (p * g)) / p == (x / p) % g
  {
    var m := p * g;
    WholeAndRest(x, p, g, m, x / m, x % m);
  }

  lemma WholeAndRest(x: nat, p: nat, g: nat, m: nat, q: nat, r: nat)
    requires p > 0 && g > 0 && m == p * g && x == m * q + r && r < m
    ensures r / p == (x / p) % g
  {
    var s := g * q;
    Assoc(p, g, q);
    assert x == r + p * s;
    QuotientAndBound(x, r, p, s, g);
    RestOfSum(r / p, g, q);
  }

  lemma RestOfSum(y: nat, g: nat, q: nat)
    requires y < g
    ensures (y + g * q) % g == y
  {
    ModAddMultiple(y, q, g);
    DivModUnique(y, g, 0, y);
  }

  lemma QuotientAndBound(x: nat, r: nat, p: nat, s: nat, g: nat)
    requires p > 0 && x == r + p * s && r < p * g
    ensures x / p == r / p + s && r / p < g
  {
    ModAddMultiple(r, s, p);
    QuotientBound(r, p, g);
  }

  lemma QuotientBound(r: nat, p: nat, g: nat)
    requires p > 0 && r < p * g
    ensures r / p < g
  {
    if r / p >= g {
      MulMonotone(p, g, r / p);
    }
  }

  lemma MulMonotone(a: nat, lo: int, hi: int)
    requires lo <= hi
    ensures a * lo <= a * hi
  {
  }

  /** What stands from bit w up does not show in the bits below. */
  lemma LowDigitBit(d: nat, rest: nat, w: nat, m: nat)
    requires m < w
    ensures ((d + Pow2(w) * rest) / Pow2(m)) % 2 == (d / Pow2(m)) % 2
  {
    var half := Pow2(w - m - 1) * rest;
    assert Pow2(w) * rest == Pow2(m) * (2 * half) by {
      PowAdd(2, m, w - m);
      Assoc(Pow2(m), Pow2(w - m), rest);
      Assoc(2, Pow2(w - m - 1), rest);
    }
    ModAddMultiple(d, 2 * half, Pow2(m));
    ModAddMultiple(d / Pow2(m), half, 2);
  }
}
