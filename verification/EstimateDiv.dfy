/** The approximate 128-by-64 division (softfloat/s_estimateDiv128To64.c). */
module EstimateDiv {
  import opened Arith
  import opened Powers
  import opened MultiWord

  const HALF: nat := 0x8000_0000_0000_0000
  const W96: nat := 0x1_0000_0000_0000_0000_0000_0000

  function Quotient(a64: u64, a0: u64, b: u64): nat
    requires b > 0
  {
    (a64 * W64 + a0) / b
  }

  /** The documented promise: the estimate lies within two above the quotient. */
  method EstimateDiv128To64(a64: u64, a0: u64, b: u64) returns (z: u64)
    requires b >= HALF
    ensures a64 >= b ==> z == W64 - 1
    ensures a64 < b ==> Quotient(a64, a0, b) <= z <= Quotient(a64, a0, b) + 2
  {
    if b <= a64 { return W64 - 1; }
    ghost var n := U128(a64, a0).Val();
    var b32 := b / W32;
    var zh := Digit(a64, b32);
    HighDigit(a64, a0, b, zh);
    hide Times, Partial, Digit, U128.Val, Quotient;
    z := zh * W32;
    var term := Mul64To128(b, z);
    var rem := Sub128(a64, a0, term.v64, term.v0);
    InitialRem(rem, n, b, z, a64, a0, term);
    while rem.v64 >= HALF
      invariant Partial(n, b, z, rem)
      decreases z
    {
      ghost var rem0 := rem;
      rem := Add128(rem.v64, rem.v0, b32, (b * W32) % W64);
      StepBack(n, b, z, rem0, rem);
      z := z - W32;
    }
    var rem32 := (rem.v64 * W32) % W64 + rem.v0 / W32;
    LastRem(n, b, z, rem, rem32);
    var zl := Digit(rem32, b32);
    Combine(a64, a0, b, z, rem32, zl);
    z := z + zl;
  }

  /** z is a multiple of 2^32 and rem the two's complement of the remainder
      n - b*z, which is below one further step of the high digit. */
  ghost predicate Partial(n: nat, b: u64, z: u64, rem: U128) {
    z % W32 == 0 && 0 - W96 < n - Times(b, z) < b * W32 && rem.Val() == (n - Times(b, z)) % W128
  }

  lemma InitialRem(rem: U128, n: nat, b: u64, z: u64, a64: u64, a0: u64, term: U128)
    requires n == a64 * W64 + a0 && term.Val() == Times(b, z)
    requires z % W32 == 0 && 0 - W96 < n - Times(b, z) < b * W32
    requires rem.Val() == (a64 * W64 + a0 - (term.v64 * W64 + term.v0)) % W128
    ensures Partial(n, b, z, rem)
  {
  }

  lemma StepBack(n: nat, b: u64, z: u64, rem: U128, rem': U128)
    requires Partial(n, b, z, rem) && rem.v64 >= HALF
    requires rem'.Val() == (rem.v64 * W64 + rem.v0 + ((b / W32) * W64 + (b * W32) % W64)) % W128
    ensures z >= W32 && Partial(n, b, z - W32, rem')
  {
    hide Times, U128.Val;
    var r := n - Times(b, z);
    RemIsNegative(rem, r, b);
    TimesStep(b, z);
    AddBack(rem, r, b, rem');
    StepRange(n, Times(b, z), b * W32, Times(b, z - W32), rem'.Val());
    LessTimes(z);
  }

  lemma StepRange(n: nat, p: nat, s: nat, p': nat, v: nat)
    requires n < p && p < n + W96 && p' == p - s && v == (n - p + s) % W128
    ensures 0 - W96 < n - p' < s && v == (n - p') % W128
  {
    assert n - p' == n - p + s;
  }

  lemma LessTimes(z: u64)
    requires z % W32 == 0 && z >= W32
    ensures (z - W32) % W32 == 0
  {
  }

  lemma TimesStep(b: u64, z: u64)
    requires z % W32 == 0 && Times(b, z) > 0
    ensures z >= W32 && Times(b, z - W32) == Times(b, z) - b * W32
  {
    assert z != 0;
    Dist(z, W32, b);
  }

  lemma RemIsNegative(rem: U128, r: int, b: u64)
    requires rem.Val() == r % W128 && rem.v64 >= HALF && 0 - W96 < r < b * W32
    ensures r < 0
  {
  }

  lemma AddBack(rem: U128, r: int, b: u64, rem': U128)
    requires rem.Val() == r % W128
    requires rem'.Val() == (rem.v64 * W64 + rem.v0 + ((b / W32) * W64 + (b * W32) % W64)) % W128
    ensures rem'.Val() == (r + b * W32) % W128
  {
    hide U128.Val;
    ShiftedWord(b);
    ModAbsorbs(r, b * W32);
    ValIs(rem);
  }

  lemma ShiftedWord(b: u64)
    ensures (b / W32) * W64 + (b * W32) % W64 == b * W32
  {
  }

  lemma ModAbsorbs(r: int, x: int)
    ensures (r % W128 + x) % W128 == (r + x) % W128
  {
  }

  /** One quotient digit guessed from the leading words; 0xFFFFFFFF when the
      guess would need more than 32 bits. */
  function Digit(a: u64, b32: nat): nat
    requires 0 < b32
  {
    if b32 * W32 <= a then 0xFFFF_FFFF else a / b32
  }

  lemma DigitFits(a: u64, b32: nat)
    requires 0 < b32 && a < b32 * W32
    ensures a / b32 < W32
    ensures (a / b32) * b32 <= a < (a / b32 + 1) * b32
  {
    var d := a / b32;
    assert a == d * b32 + a % b32;
    if d >= W32 { MulLe(W32, d, b32); }
  }

  /** The guessed digit never falls below the true one, and overshoots the
      dividend by less than 2^64. */
  lemma DigitRange(a: u64, lo: nat, b: u64, d: nat)
    requires b >= HALF && lo < W32 && d == Digit(a, b / W32) && a * W32 + lo < b * W32
    ensures d < W32
    ensures a * W32 + lo < Times(d + 1, b)
    ensures Times(d, b) < a * W32 + lo + W64
  {
    var b32, b0 := b / W32, b % W32;
    if b32 * W32 <= a {
      assert Times(d + 1, b) == b * W32 && Times(d, b) == b * W32 - b;
    } else {
      DigitFits(a, b32);
      MulBound(d, b0, W32 - 1, W32 - 1);
      SplitFactor(d, b32, b0);
      SplitFactor(d + 1, b32, b0);
      hide Times;
    }
  }

  lemma SplitFactor(d: nat, b32: nat, b0: nat)
    ensures Times(d, b32 * W32 + b0) == (d * b32) * W32 + d * b0
    ensures d * b0 >= 0
  {
  }

  lemma HighDigit(a64: u64, a0: u64, b: u64, zh: nat)
    requires b >= HALF && a64 < b && zh == Digit(a64, b / W32)
    ensures zh < W32
    ensures 0 - W96 < a64 * W64 + a0 - Times(b, zh * W32) < b * W32
  {
    var lo := a0 / W32;
    assert a64 * W64 + a0 == (a64 * W32 + lo) * W32 + a0 % W32;
    DigitRange(a64, lo, b, zh);
    assert Times(zh + 1, b) == Times(zh, b) + b;
    assert Times(b, zh * W32) == Times(zh, b) * W32 by { assert b * (zh * W32) == (zh * b) * W32; }
    hide Times;
  }

  lemma LastRem(n: nat, b: u64, z: u64, rem: U128, rem32: nat)
    requires Partial(n, b, z, rem) && rem.v64 < HALF
    requires rem32 == (rem.v64 * W32) % W64 + rem.v0 / W32
    ensures z % W32 == 0 && 0 <= n - Times(b, z) < b * W32
    ensures rem32 == (n - Times(b, z)) / W32 < b
  {
    hide Times;
  }

  lemma Combine(a64: u64, a0: u64, b: u64, z: u64, rem32: u64, zl: nat)
    requires b >= HALF && z % W32 == 0 && zl == Digit(rem32, b / W32)
    requires 0 <= U128(a64, a0).Val() - Times(b, z) < b * W32
    requires rem32 == (U128(a64, a0).Val() - Times(b, z)) / W32
    ensures z + zl < W64 && Quotient(a64, a0, b) <= z + zl <= Quotient(a64, a0, b) + 2
  {
    hide Digit, Times, Quotient;
    var n := a64 * W64 + a0;
    var r := n - Times(b, z);
    DivMod(r, W32);
    DigitRange(rem32, r % W32, b, zl);
    TimesSum(b, z, zl);
    BelowWord(z, zl);
    EstimateRange(a64, a0, b, z + zl);
  }

  lemma BelowWord(z: u64, zl: nat)
    requires z % W32 == 0 && zl < W32
    ensures z + zl < W64
  {
    DivMod(z, W32);
    assert z / W32 <= W32 - 1;
  }

  lemma EstimateRange(a64: u64, a0: u64, b: u64, y: nat)
    requires b > 0 && a64 * W64 + a0 < y * b + b && y * b <= a64 * W64 + a0 + 2 * b
    ensures Quotient(a64, a0, b) <= y <= Quotient(a64, a0, b) + 2
  {
    QuotientBounds(a64 * W64 + a0, b, y);
  }

  lemma TimesSum(b: nat, z: nat, zl: nat)
    ensures (z + zl) * b == Times(b, z) + Times(zl, b)
    ensures Times(zl + 1, b) == Times(zl, b) + b
  {
    AddMul(z, zl, b);
    AddMul(zl, 1, b);
  }

  lemma QuotientBounds(n: nat, b: u64, y: nat)
    requires b > 0 && n < y * b + b && y * b <= n + 2 * b
    ensures n / b <= y <= n / b + 2
  {
    var q := n / b;
    assert n == q * b + n % b;
    assert (y + 1) * b == y * b + b && (q + 3) * b == q * b + 3 * b;
    if q > y { MulLe(y + 1, q, b); }
    if y > q + 2 { MulLe(q + 3, y, b); }
  }
}
