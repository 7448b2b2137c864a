/** Powers of two, as naturals and as reals with a signed exponent, and the
    word sizes the simulator computes with. */
module Powers {

  const W32: nat := 0x1_0000_0000
  const W64: nat := 0x1_0000_0000_0000_0000
  const W128: nat := 0x1_0000_0000_0000_0000_0000_0000_0000_0000

  type u32 = x: int | 0 <= x < 0x1_0000_0000
  type u64 = x: int | 0 <= x < 0x1_0000_0000_0000_0000

  function Pow2(n: nat): (r: nat)
    ensures r >= 1
  {
    if n == 0 then 1 else 2 * Pow2(n - 1)
  }

  /** a << n */
  function Shl(a: nat, n: nat): nat { a * Pow2(n) }

  lemma {:induction false} Pow2Add(m: nat, n: nat)
    ensures Pow2(m + n) == Pow2(m) * Pow2(n)
  {
    if m == 0 {
    } else {
      Pow2Add(m - 1, n);
      assert Pow2(m + n) == 2 * Pow2(m - 1 + n);
    }
  }

  lemma {:induction false} Pow2Mono(m: nat, n: nat)
    requires m <= n
    ensures Pow2(m) <= Pow2(n)
    ensures m < n ==> 2 * Pow2(m) <= Pow2(n)
  {
    if m < n {
      Pow2Mono(m, n - 1);
    }
  }

  lemma Pow2Small()
    ensures Pow2(8) == 0x100 && Pow2(9) == 0x200 && Pow2(10) == 0x400 && Pow2(11) == 0x800
    ensures Pow2(13) == 0x2000 && Pow2(16) == 0x1_0000
  {
  }

  lemma Pow2Values()
    ensures Pow2(20) == 0x10_0000 && Pow2(32) == W32
    ensures Pow2(52) == 0x10_0000_0000_0000 && Pow2(53) == 0x20_0000_0000_0000
    ensures Pow2(61) == 0x2000_0000_0000_0000 && Pow2(62) == 0x4000_0000_0000_0000
    ensures Pow2(63) == 0x8000_0000_0000_0000
    ensures Pow2(64) == W64 && Pow2(128) == W128
  {
    assert Pow2(4) == 16 && Pow2(1) == 2;
    hide Pow2;
    Pow2Small();
    Pow2Add(16, 4);
    Pow2Add(16, 16);
    Pow2Add(20, 32);
    Pow2Add(52, 1);
    Pow2Add(52, 9);
    Pow2Add(61, 1);
    Pow2Add(62, 1);
    Pow2Add(32, 32);
    Pow2Add(64, 64);
  }

  /** 2^e for a signed exponent. */
  ghost function P2(e: int): (r: real)
    ensures r > 0.0
  {
    if e >= 0 then Pow2(e) as real else 1.0 / Pow2(-e) as real
  }

  lemma P2Succ(e: int)
    ensures P2(e + 1) == 2.0 * P2(e)
  {
    if e < -1 {
      assert Pow2(-e) == 2 * Pow2(-e - 1);
      Reciprocal(Pow2(-e - 1) as real);
    }
  }

  lemma Reciprocal(p: real)
    requires p > 0.0
    ensures 2.0 * (1.0 / (2.0 * p)) == 1.0 / p
  {
  }

  // ---- x * 2^e, kept closed in proofs

  ghost function Scale(x: real, e: int): real { x * P2(e) }

  lemma {:induction false} ScaleUp(x: real, e: int, n: nat, y: real)
    requires y == x * Pow2(n) as real
    ensures Scale(y, e) == Scale(x, e + n)
    decreases n
  {
    hide *;
    if n == 0 {
      PowZero(x);
    } else {
      PowSucc(x, n - 1);
      var h := x * Pow2(n - 1) as real;
      ScaleUp(x, e, n - 1, h);
      ScaleTwice(x, e + n - 1);
      assert y == 2.0 * h;
      ScaleDouble(h, e);
    }
  }

  lemma PowZero(x: real)
    ensures x * Pow2(0) as real == x
  {
  }

  lemma PowSucc(x: real, n: nat)
    ensures x * Pow2(n + 1) as real == 2.0 * (x * Pow2(n) as real)
  {
    assert Pow2(n + 1) == 2 * Pow2(n);
    hide Pow2;
    Twice(x, Pow2(n) as real);
  }

  lemma Twice(x: real, p: real)
    ensures x * (2.0 * p) == 2.0 * (x * p)
    ensures (2.0 * x) * p == 2.0 * (x * p)
  {
  }

  lemma ScaleTwice(x: real, e: int)
    ensures Scale(x, e + 1) == 2.0 * Scale(x, e)
  {
    P2Succ(e);
    hide P2;
    Twice(x, P2(e));
  }

  lemma ScaleDouble(x: real, e: int)
    ensures Scale(2.0 * x, e) == 2.0 * Scale(x, e)
  {
    hide P2;
    Twice(x, P2(e));
  }

  lemma ScaleOrder(x: real, y: real, e: int)
    ensures x < y <==> Scale(x, e) < Scale(y, e)
    ensures x == y <==> Scale(x, e) == Scale(y, e)
  {
    hide P2;
    if x < y { RealMulLess(x, y, P2(e)); } else if y < x { RealMulLess(y, x, P2(e)); }
  }

  lemma RealMulLess(x: real, y: real, u: real)
    requires u > 0.0 && x < y
    ensures x * u < y * u
  {
  }

  lemma RealMulMono(x: real, y: real, u: real)
    requires u > 0.0 && x <= y
    ensures x * u <= y * u
  {
  }

  lemma ScaleZero(e: int)
    ensures Scale(0.0, e) == 0.0
  {
  }

  lemma ScaleSign(x: real, e: int)
    ensures x > 0.0 <==> Scale(x, e) > 0.0
    ensures x == 0.0 <==> Scale(x, e) == 0.0
  {
    ScaleZero(e);
    ScaleOrder(0.0, x, e);
  }

  lemma ScaleSum(x: real, y: real, e: int)
    ensures Scale(x + y, e) == Scale(x, e) + Scale(y, e)
    ensures Scale(x - y, e) == Scale(x, e) - Scale(y, e)
    ensures Scale(-y, e) == -Scale(y, e)
  {
  }

  lemma RealAssoc(x: real, y: real, z: real)
    ensures (x * y) * z == x * (y * z)
  {
  }

  lemma {:induction false} P2AddNat(a: int, n: nat)
    ensures P2(a + n) == P2(a) * P2(n)
    decreases n
  {
    P2Zero();
    hide *;
    if n != 0 {
      P2AddNat(a, n - 1);
      P2Succ(a + n - 1);
      P2Succ(n - 1);
      Twice(P2(a), P2(n - 1));
    }
  }

  lemma P2Zero()
    ensures P2(0) == 1.0
  {
  }

  lemma P2Inverse(n: nat)
    ensures P2(0 - n) * P2(n) == 1.0
  {
    P2AddNat(0 - n, n);
    P2Zero();
    hide P2;
  }

  lemma P2Add(a: int, b: int)
    ensures P2(a + b) == P2(a) * P2(b)
  {
    hide P2;
    if b >= 0 {
      P2AddNat(a, b);
    } else {
      P2AddNat(a + b, -b);
      P2Inverse(-b);
      RealAssoc(P2(a + b), P2(-b), P2(b));
    }
  }

  lemma ScaleProduct(x: real, y: real, a: int, b: int, p: real)
    requires p == x * y
    ensures Scale(x, a) * Scale(y, b) == Scale(p, a + b)
  {
    P2Add(a, b);
    hide P2;
    Interchange(x, P2(a), y, P2(b));
  }

  lemma Interchange(x: real, p: real, y: real, q: real)
    ensures (x * p) * (y * q) == (x * y) * (p * q)
  {
    RealAssoc(x, p, y * q);
    RealAssoc(p, y, q);
    RealAssoc(y, p, q);
    RealAssoc(x, y, p * q);
  }

  /** 1 scaled by larger exponents is larger. */
  lemma {:induction false} ScaleMono(x: real, a: int, b: int)
    requires x > 0.0 && a <= b
    ensures 0.0 < Scale(x, a) <= Scale(x, b)
    ensures a < b ==> 2.0 * Scale(x, a) <= Scale(x, b)
    decreases b - a
  {
    hide *;
    ScaleSign(x, a);
    if a < b {
      ScaleMono(x, a + 1, b);
      ScaleTwice(x, a);
    }
  }
}
