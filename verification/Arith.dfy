/** Small facts of nonlinear arithmetic, one step each. */
module Arith {

  lemma AtLeast(k: int, d: nat)
    requires k >= 1
    ensures k * d >= d
  {
  }

  lemma MulLe(x: int, y: int, d: nat)
    requires x <= y
    ensures x * d <= y * d
  {
    Dist(y, x, d);
    var n := y - x;
    assert n * d >= 0;
  }

  lemma MulBound(a: nat, b: nat, m: nat, n: nat)
    requires a <= m && b <= n
    ensures a * b <= m * n
  {
    MulLe(a, m, b);
    MulLe(b, n, m);
  }

  lemma DivMod(a: int, p: nat)
    requires p >= 1
    ensures (a / p) * p + a % p == a && 0 <= a % p < p
  {
  }

  lemma DivBounds(a: nat, p: nat)
    requires p >= 1
    ensures 0 <= a / p <= a
    ensures a < p ==> a / p == 0 && a % p == a
  {
    DivMod(a, p);
    var q := a / p;
    if q < 0 { MulLe(1, 0 - q, p); NegMul(q, p); }
    if q >= 1 { AtLeast(q, p); FactorBelow(q, p); }
  }

  lemma NegMul(q: int, p: int)
    ensures (0 - q) * p == 0 - q * p
  {
  }

  lemma FactorBelow(q: nat, p: nat)
    requires p >= 1
    ensures q <= q * p
  {
  }

  lemma ModIs(n: int, q: int, r: int, d: nat)
    requires d > 0 && n == q * d + r && 0 <= r < d
    ensures n % d == r && n / d == q
  {
    var q', r' := n / d, n % d;
    DivMod(n, d);
    Dist(q, q', d);
    if q > q' { AtLeast(q - q', d); }
    if q < q' { AtLeast(q' - q, d); }
  }

  lemma Dist(q: int, q': int, d: nat)
    ensures (q - q') * d == q * d - q' * d
    ensures (q' - q) * d == q' * d - q * d
  {
  }

  lemma Assoc(x: int, y: int, z: int)
    ensures (x * y) * z == x * (y * z)
  {
  }

  lemma AddMul(x: int, y: int, z: int)
    ensures (x + y) * z == x * z + y * z
  {
  }

  /** (q*p + r) * n, regrouped. */
  lemma ScaleDivision(q: int, p: int, r: int, n: int)
    ensures (q * p + r) * n == q * (p * n) + r * n
  {
    AddMul(q * p, r, n);
    Assoc(q, p, n);
  }

  /** A remainder stays a remainder when scaled. */
  lemma ScaledRemainder(r: nat, p: nat, n: nat)
    requires r < p && n >= 1
    ensures r * n + n <= p * n
    ensures r > 0 ==> r * n > 0
    ensures r * n >= 0
  {
    MulLe(r + 1, p, n);
    AddMul(r, 1, n);
    if r > 0 { AtLeast(r, n); }
  }

  lemma QuotientBelow(a: nat, p: nat, n: nat)
    requires p >= 1 && a < p * n
    ensures a / p < n
  {
    DivMod(a, p);
    if a / p >= n { MulLe(n, a / p, p); }
  }
}
