/** Bitwise and/or on naturals.  x << n, x >> n and x & (2^n - 1) are written
    as multiplication, division and remainder by Pow2(n). */
module Bits {
  import opened Arith
  import opened Powers

  function And(a: nat, b: nat): (r: nat)
    ensures r <= a && r <= b
  {
    if a == 0 || b == 0 then 0 else 2 * And(a / 2, b / 2) + (if a % 2 == 1 && b % 2 == 1 then 1 else 0)
  }

  function Or(a: nat, b: nat): (r: nat)
    ensures r >= a && r >= b && r <= a + b
  {
    if a == 0 then b
    else if b == 0 then a
    else 2 * Or(a / 2, b / 2) + (if a % 2 == 1 || b % 2 == 1 then 1 else 0)
  }

  lemma HalfScaled(a: nat, k: nat)
    requires k > 0
    ensures (a * Pow2(k)) / 2 == a * Pow2(k - 1) && (a * Pow2(k)) % 2 == 0
  {
    assert a * Pow2(k) == 2 * (a * Pow2(k - 1));
  }

  /** Or of bit fields that do not overlap is their sum. */
  lemma {:induction false} OrDisjoint(a: nat, b: nat, k: nat)
    requires b < Pow2(k)
    ensures Or(a * Pow2(k), b) == a * Pow2(k) + b
  {
    if k > 0 {
      HalfScaled(a, k);
      OrDisjoint(a, b / 2, k - 1);
      assert Or(a * Pow2(k), b) == 2 * Or((a * Pow2(k)) / 2, b / 2) + b % 2;
    }
  }

  lemma {:induction false} AndLowMask(a: nat, k: nat)
    ensures And(a, Pow2(k) - 1) == a % Pow2(k)
  {
    if k == 0 {
      AndZero(a);
    } else {
      HalfPower(k);
      hide Pow2, And;
      AndLowMask(a / 2, k - 1);
      AndStep(a, Pow2(k - 1), Pow2(k));
      ModDouble(a, k);
    }
  }

  lemma AndZero(a: nat)
    ensures And(a, Pow2(0) - 1) == a % Pow2(0)
  {
    assert Pow2(0) == 1;
  }

  lemma HalfPower(k: nat)
    requires k > 0
    ensures Pow2(k) == 2 * Pow2(k - 1)
  {
  }

  lemma AndStep(a: nat, h: nat, p: nat)
    requires h >= 1 && p == 2 * h
    ensures And(a, p - 1) == 2 * And(a / 2, h - 1) + a % 2
  {
    assert (p - 1) / 2 == h - 1 && (p - 1) % 2 == 1;
  }

  lemma ModDouble(a: nat, k: nat)
    requires k > 0
    ensures a % Pow2(k) == 2 * ((a / 2) % Pow2(k - 1)) + a % 2
  {
    var p := Pow2(k - 1);
    var h := a / 2;
    assert h == (h / p) * p + h % p;
    assert a == (h / p) * (2 * p) + (2 * (h % p) + a % 2);
    ModIs(a, h / p, 2 * (h % p) + a % 2, 2 * p);
  }

  // ---- single bits

  /** (a >> k) & 1 */
  predicate Bit(a: nat, k: nat) {
    if k == 0 then a % 2 == 1 else Bit(a / 2, k - 1)
  }

  lemma {:induction false} BitAnd(a: nat, b: nat, k: nat)
    ensures Bit(And(a, b), k) <==> Bit(a, k) && Bit(b, k)
  {
    if a == 0 { BitZero(k); }
    if b == 0 { BitZero(k); }
    if k > 0 { BitAnd(a / 2, b / 2, k - 1); }
  }

  lemma {:induction false} BitOr(a: nat, b: nat, k: nat)
    ensures Bit(Or(a, b), k) <==> Bit(a, k) || Bit(b, k)
  {
    if a == 0 || b == 0 { BitZero(k); }
    if k > 0 { BitOr(a / 2, b / 2, k - 1); }
  }

  lemma {:induction false} BitZero(k: nat)
    ensures !Bit(0, k)
  {
    if k > 0 { BitZero(k - 1); }
  }

  lemma {:induction false} AndPower(a: nat, k: nat)
    ensures And(a, Pow2(k)) == if Bit(a, k) then Pow2(k) else 0
  {
    if a == 0 {
      BitZero(k);
    } else if k > 0 {
      HalfScaled(1, k);
      AndPower(a / 2, k - 1);
    } else {
      assert And(a / 2, 0) == 0 && Pow2(0) == 1;
    }
  }

  /** A test for two bits, one of them bit 0. */
  lemma AndPowerAndOne(a: nat, k: nat)
    requires k > 0
    ensures And(a, Pow2(k) + 1) == Pow2(k) + 1 <==> Bit(a, k) && Bit(a, 0)
  {
    AndPower(a / 2, k - 1);
    assert Pow2(k) == 2 * Pow2(k - 1);
    assert (Pow2(k) + 1) / 2 == Pow2(k - 1);
  }

  lemma {:induction false} OrBelow(a: nat, b: nat, k: nat)
    requires a < Pow2(k) && b < Pow2(k)
    ensures Or(a, b) < Pow2(k)
  {
    if k > 0 { OrBelow(a / 2, b / 2, k - 1); }
  }

  lemma OrFits(a: u64, b: u64)
    ensures Or(a, b) < W64
  {
    Pow2Values();
    hide Pow2;
    OrBelow(a, b, 64);
  }

  lemma OrZero(a: nat)
    ensures Or(a, 0) == a && Or(0, a) == a
  {
  }

  lemma {:induction false} BitOfScaled(a: nat, n: nat, k: nat)
    requires k < n
    ensures !Bit(a * Pow2(n), k)
  {
    HalfScaled(a, n);
    if k > 0 { BitOfScaled(a, n - 1, k - 1); }
  }
}
