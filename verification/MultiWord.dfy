/** Products, sums and quotient estimates over 64-bit words. */
module MultiWord {
  import opened Arith
  import opened Powers

  datatype U128 = U128(v64: u64, v0: u64) {
    function Val(): (v: nat)
      ensures v < W128
    {
      v64 * W64 + v0
    }
  }

  datatype U192 = U192(v128: u64, v64: u64, v0: u64) {
    function Val(): nat { (v128 * W64 + v64) * W64 + v0 }
  }

  datatype U256 = U256(v192: u64, v128: u64, v64: u64, v0: u64) {
    function Val(): nat { ((v192 * W64 + v128) * W64 + v64) * W64 + v0 }
  }

  function B2N(b: bool): nat { if b then 1 else 0 }

  // ---- s_add128.c, s_sub128.c

  method Add128(a64: u64, a0: u64, b64: u64, b0: u64) returns (z: U128)
    ensures z.Val() == (a64 * W64 + a0 + (b64 * W64 + b0)) % W128
  {
    var v0 := (a0 + b0) % W64;
    var v64 := (a64 + b64) % W64;
    v64 := (v64 + B2N(v0 < a0)) % W64;
    z := U128(v64, v0);
    TwoTerms(a0, b0, v0);
    hide B2N;
    AddMod(a64 + b64, B2N(v0 < a0));
    WrapHigh(a64 + b64 + B2N(v0 < a0), v0);
  }

  method Sub128(a64: u64, a0: u64, b64: u64, b0: u64) returns (z: U128)
    ensures z.Val() == (a64 * W64 + a0 - (b64 * W64 + b0)) % W128
  {
    var v0 := (a0 - b0) % W64;
    var v64 := (a64 - b64) % W64;
    v64 := (v64 - B2N(a0 < b0)) % W64;
    z := U128(v64, v0);
    Borrow(a0, b0, v0);
    hide B2N;
    SubMod(a64 - b64, B2N(a0 < b0));
    WrapHigh(a64 - b64 - B2N(a0 < b0), v0);
  }

  lemma Borrow(x: u64, y: u64, s: u64)
    requires s == (x - y) % W64
    ensures x - y == s - B2N(x < y) * W64 && B2N(x < y) <= 1
  {
  }

  lemma SubMod(x: int, y: nat)
    ensures (x % W64 - y) % W64 == (x - y) % W64
  {
  }

  lemma WrapHigh(h: int, l: u64)
    ensures (h * W64 + l) % W128 == (h % W64) * W64 + l
  {
    var q := h / W64;
    assert h * W64 + l == q * W128 + ((h % W64) * W64 + l);
    ModIs((h * W64 + l), q, (h % W64) * W64 + l, W128);
  }

  // ---- s_mul64To128.c

  /** A product the solver is not to expand. */
  function Times(a: nat, b: nat): nat { a * b }

  method Mul64To128(a: u64, b: u64) returns (z: U128)
    ensures z.Val() == Times(a, b)
  {
    hide Times;
    var a32, a0 := a / W32, a % W32;
    var b32, b0 := b / W32, b % W32;
    LimbBounds(a32, a0, b32, b0);
    Distribute(a32, a0, b32, b0);
    ProductFits(a, b);
    ghost var p := Times(a, b);
    var v0 := Times(a0, b0);
    var mid1 := Times(a32, b0);
    var mid2 := Times(a0, b32);
    var v64 := Times(a32, b32);
    ghost var hh, ll := v64, v0;
    var mid := (mid1 + mid2) % W64;
    var carry := B2N(mid < mid1);
    v64 := (v64 + (carry * W32 + mid / W32)) % W64;
    var low := (mid * W32) % W64;
    v0 := (v0 + low) % W64;
    v64 := (v64 + B2N(v0 < low)) % W64;
    CarryOfMid(mid1, mid2, mid, carry);
    Reassemble(hh, carry, mid / W32, low, ll, v0, v64, p);
    z := U128(v64, v0);
    ValIs(z);
  }

  lemma ValIs(z: U128)
    ensures z.Val() == z.v64 * W64 + z.v0
  {
  }

  lemma ProductFits(a: u64, b: u64)
    ensures Times(a, b) < W128
  {
    MulBound(a, b, W64 - 1, W64 - 1);
  }

  lemma CarryOfMid(mid1: nat, mid2: nat, mid: u64, carry: nat)
    requires mid1 < W64 && mid2 < W64 && mid == (mid1 + mid2) % W64 && carry == B2N(mid < mid1)
    ensures (mid1 + mid2) * W32 == (carry * W32 + mid / W32) * W64 + (mid * W32) % W64
    ensures mid / W32 < W32 && carry <= 1
  {
  }

  lemma LimbBounds(a32: nat, a0: nat, b32: nat, b0: nat)
    requires a32 < W32 && a0 < W32 && b32 < W32 && b0 < W32
    ensures Times(a0, b0) <= (W32 - 1) * (W32 - 1)
    ensures Times(a32, b0) <= (W32 - 1) * (W32 - 1)
    ensures Times(a0, b32) <= (W32 - 1) * (W32 - 1)
    ensures Times(a32, b32) <= (W32 - 1) * (W32 - 1)
  {
    MulBound(a0, b0, W32 - 1, W32 - 1);
    MulBound(a32, b0, W32 - 1, W32 - 1);
    MulBound(a0, b32, W32 - 1, W32 - 1);
    MulBound(a32, b32, W32 - 1, W32 - 1);
  }

  lemma Distribute(a32: nat, a0: nat, b32: nat, b0: nat)
    ensures Times(a32 * W32 + a0, b32 * W32 + b0)
         == Times(a32, b32) * W64 + (Times(a32, b0) + Times(a0, b32)) * W32 + Times(a0, b0)
  {
    assert (a32 * W32 + a0) * (b32 * W32 + b0) == a32 * W32 * (b32 * W32 + b0) + a0 * (b32 * W32 + b0);
    assert a32 * W32 * (b32 * W32 + b0) == (a32 * b32) * W64 + (a32 * b0) * W32;
    assert a0 * (b32 * W32 + b0) == (a0 * b32) * W32 + a0 * b0;
  }

  /** The high word never wraps: the exact product leaves it room. */
  lemma Reassemble(hh: nat, carry: nat, top: nat, mid: nat, ll: nat, v0: nat, v64: nat, p: nat)
    requires p < W128 && ll < W64 && mid < W64 && carry <= 1 && top < W32
    requires v0 == (ll + mid) % W64
    requires v64 == ((hh + (carry * W32 + top)) % W64 + B2N(v0 < mid)) % W64
    requires p == hh * W64 + (carry * W32 + top) * W64 + mid + ll
    ensures v64 < W64 && v0 < W64 && v64 * W64 + v0 == p
  {
    assert ll + mid == B2N(v0 < mid) * W64 + v0;
    var h := hh + carry * W32 + top + B2N(v0 < mid);
    assert p == h * W64 + v0;
    assert h < W64;
  }

  // ---- s_mul128By64To192.c, s_mul128To256.c

  method Mul128By64To192(a64: u64, a0: u64, b: u64) returns (z: U192)
    ensures z.Val() == Times(a64 * W64 + a0, b)
  {
    hide Times;
    var p0 := Mul64To128(a0, b);
    var p64 := Mul64To128(a64, b);
    var v64 := (p64.v0 + p0.v64) % W64;
    var v128 := (p64.v64 + B2N(v64 < p64.v0)) % W64;
    z := U192(v128, v64, p0.v0);
    TwoProducts(a64, a0, b, p0, p64);
    TwoTerms(p64.v0, p0.v64, v64);
  }

  lemma TwoProducts(a64: u64, a0: u64, b: u64, p0: U128, p64: U128)
    requires p0.Val() == Times(a0, b) && p64.Val() == Times(a64, b)
    ensures p64.v64 <= W64 - 2
    ensures Times(a64 * W64 + a0, b) == (p64.v64 * W64 + p64.v0 + p0.v64) * W64 + p0.v0
  {
    HighBound(a64, b, p64);
    assert (a64 * W64 + a0) * b == (a64 * b) * W64 + a0 * b;
  }

  method Mul128To256(a64: u64, a0: u64, b64: u64, b0: u64) returns (z: U256)
    ensures z.Val() == Times(a64 * W64 + a0, b64 * W64 + b0)
  {
    hide Times, B2N, U128.Val;
    var p0 := Mul64To128(a0, b0);
    var v0 := p0.v0;
    var p64 := Mul64To128(a64, b0);
    var v64 := (p64.v0 + p0.v64) % W64;
    var v128 := (p64.v64 + B2N(v64 < p64.v0)) % W64;
    ghost var v64', v128' := v64, v128;
    var p128 := Mul64To128(a64, b64);
    v128 := (v128 + p128.v0) % W64;
    ghost var v128'' := v128;
    var v192 := (p128.v64 + B2N(v128 < p128.v0)) % W64;
    var q64 := Mul64To128(a0, b64);
    v64 := (v64 + q64.v0) % W64;
    var q64hi := (q64.v64 + B2N(v64 < q64.v0)) % W64;
    v128 := (v128 + q64hi) % W64;
    v192 := (v192 + B2N(v128 < q64hi)) % W64;
    AddMod(p128.v64 + B2N(v128'' < p128.v0), B2N(v128 < q64hi));
    FourProducts(a64, a0, b64, b0, p0, p64, p128, q64);
    CarriesAreExact(p0, p64, p128, q64, v64', v64, v128', v128'', v128, q64hi, v192,
                    Times(a64 * W64 + a0, b64 * W64 + b0));
    z := U256(v192, v128, v64, v0);
  }

  lemma AddMod(x: int, y: nat)
    ensures (x % W64 + y) % W64 == (x + y) % W64
  {
  }

  lemma CarriesAreExact(p0: U128, p64: U128, p128: U128, q64: U128, v64': u64, v64: u64, v128': u64,
                        v128'': u64, v128: u64, q64hi: u64, v192: u64, exact: nat)
    requires p64.v64 <= W64 - 2 && p128.v64 <= W64 - 2 && q64.v64 <= W64 - 2 && exact < W128 * W128
    requires exact == p128.v64 * (W64 * W128) + (p128.v0 + p64.v64 + q64.v64) * W128
                    + (p64.v0 + q64.v0 + p0.v64) * W64 + p0.v0
    requires v64' == (p64.v0 + p0.v64) % W64 && v64 == (v64' + q64.v0) % W64
    requires v128' == (p64.v64 + B2N(v64' < p64.v0)) % W64
    requires v128'' == (v128' + p128.v0) % W64 && v128 == (v128'' + q64hi) % W64
    requires q64hi == (q64.v64 + B2N(v64 < q64.v0)) % W64
    requires v192 == (p128.v64 + B2N(v128'' < p128.v0) + B2N(v128 < q64hi)) % W64
    ensures U256(v192, v128, v64, p0.v0).Val() == exact
  {
    TwoTerms(p64.v0, p0.v64, v64');
    TwoTerms(p128.v0, v128', v128'');
    TwoTerms(q64.v0, v64', v64);
    TwoTerms(q64hi, v128'', v128);
    hide B2N;
    var c1, c2, c3, c4 := B2N(v64' < p64.v0), B2N(v128'' < p128.v0), B2N(v64 < q64.v0), B2N(v128 < q64hi);
    assert v128' == p64.v64 + c1 && q64hi == q64.v64 + c3;
    TopLimb(p128.v64 + c2 + c4, v128, v64, p0.v0, v192, exact);
  }

  /** The exact product fits in four words, so its top limb never wraps. */
  lemma TopLimb(t: nat, v128: u64, v64: u64, v0: u64, v192: u64, exact: nat)
    requires exact == t * (W64 * W128) + v128 * W128 + v64 * W64 + v0
    requires exact < W128 * W128 && v192 == t % W64
    ensures U256(v192, v128, v64, v0).Val() == exact
  {
    assert t < W64;
  }

  /** Two words added modulo 2^64 carry exactly when the sum is below either. */
  lemma TwoTerms(x: u64, y: u64, s: u64)
    requires s == (y + x) % W64
    ensures x + y == B2N(s < x) * W64 + s
    ensures B2N(s < x) <= 1
  {
  }

  lemma FourProducts(a64: u64, a0: u64, b64: u64, b0: u64, p0: U128, p64: U128, p128: U128, q64: U128)
    requires p0.Val() == Times(a0, b0) && p64.Val() == Times(a64, b0)
    requires p128.Val() == Times(a64, b64) && q64.Val() == Times(a0, b64)
    ensures p64.v64 <= W64 - 2 && p128.v64 <= W64 - 2 && q64.v64 <= W64 - 2
    ensures Times(a64 * W64 + a0, b64 * W64 + b0)
         == p128.v64 * (W64 * W128) + (p128.v0 + p64.v64 + q64.v64) * W128
            + (p64.v0 + q64.v0 + p0.v64) * W64 + p0.v0
    ensures Times(a64 * W64 + a0, b64 * W64 + b0) < W128 * W128
  {
    HighBound(a64, b0, p64);
    HighBound(a64, b64, p128);
    HighBound(a0, b64, q64);
    MulBound(a64 * W64 + a0, b64 * W64 + b0, W128 - 1, W128 - 1);
    FirstLimbs(a64, a0, b64 * W64 + b0);
    SecondLimbs(a64, b64, b0);
    SecondLimbs(a0, b64, b0);
    hide Times;
  }

  lemma FirstLimbs(a64: nat, a0: nat, b: nat)
    ensures Times(a64 * W64 + a0, b) == Times(a64, b) * W64 + Times(a0, b)
  {
    AddMul(a64 * W64, a0, b);
    Assoc(W64, a64, b);
  }

  lemma SecondLimbs(a: nat, b64: nat, b0: nat)
    ensures Times(a, b64 * W64 + b0) == Times(a, b64) * W64 + Times(a, b0)
  {
    FirstLimbs(b64, b0, a);
    Commutes(a, b64 * W64 + b0);
    Commutes(a, b64);
    Commutes(a, b0);
    hide Times;
  }

  lemma HighBound(a: u64, b: u64, p: U128)
    requires p.Val() == Times(a, b)
    ensures p.v64 <= W64 - 2
  {
    MulBound(a, b, W64 - 1, W64 - 1);
  }

  // ---- riscv/mulhi.h

  method Mulhu(a: u64, b: u64) returns (z: u64)
    ensures z == Times(a, b) / W64
  {
    hide Times;
    var a0, a1 := a % W32, a / W32;
    var b0, b1 := b % W32, b / W32;
    LimbBounds(a1, a0, b1, b0);
    var ll := Times(a0, b0);
    var t := Times(a1, b0) + ll / W32;
    ghost var t1 := t;
    var y1 := t % W32;
    var y2 := t / W32;
    t := Times(a0, b1) + y1;
    ghost var t2 := t;
    y1 := t % W32;
    t := Times(a1, b1) + y2 + t / W32;
    y2 := t % W32;
    var y3 := (t / W32) % W32;
    Distribute(a1, a0, b1, b0);
    ProductFits(a, b);
    CarriedSum(Times(a1, b1), Times(a1, b0), Times(a0, b1), ll, t1, t2, t);
    WordOfCarries(Times(a, b), t, y1, ll % W32);
    z := y3 * W32 + y2;
  }

  /** The three columns of a school-book product, each with its carry. */
  lemma CarriedSum(hh: nat, hl: nat, lh: nat, ll: nat, t1: nat, t2: nat, t3: nat)
    requires t1 == hl + ll / W32 && t2 == lh + t1 % W32 && t3 == hh + t1 / W32 + t2 / W32
    ensures hh * W64 + (hl + lh) * W32 + ll == t3 * W64 + (t2 % W32 * W32 + ll % W32)
  {
  }

  lemma WordOfCarries(p: nat, t: nat, y1: nat, y0: nat)
    requires p == t * W64 + (y1 * W32 + y0) && p < W128 && y1 < W32 && y0 < W32
    ensures t < W64 && p / W64 == t && t == t / W32 % W32 * W32 + t % W32
  {
    ModIs(p, t, y1 * W32 + y0, W64);
  }

  /** The signed reading of a word. */
  function Signed(x: u64): int { if x < W64 / 2 then x else x - W64 }

  function Negated(x: u64): u64 { (0 - x) % W64 }

  /** The high word of a product, as the floor of a possibly negative quotient. */
  lemma NegatedHigh(n: nat, hi: u64)
    requires n < W128 && hi == n / W64
    ensures ((0 - n) / W64) % W64 == (W64 - 1 - hi + B2N(n % W64 == 0)) % W64
  {
    var lo := n % W64;
    DivMod(n, W64);
    if lo == 0 {
      ModIs(0 - n, 0 - hi, 0, W64);
    } else {
      ModIs(0 - n, 0 - hi - 1, W64 - lo, W64);
    }
  }

  lemma SignedHigh(p: int, n: nat, hi: u64, negative: bool)
    requires n < W128 && hi == n / W64 && p == if negative then 0 - n else n
    ensures (p / W64) % W64 == if negative then (W64 - 1 - hi + B2N(n % W64 == 0)) % W64 else hi
  {
    hide B2N;
    if negative { NegatedHigh(n, hi); }
  }

  /** Signed operands are the words that encode them; a * b is the wrapping
      product and -a the wrapping negation. */
  method Mulh(a: u64, b: u64) returns (z: u64)
    ensures z == ((Signed(a) * Signed(b)) / W64) % W64
  {
    var negA, negB := Signed(a) < 0, Signed(b) < 0;
    var x := if negA then Negated(a) else a;
    var y := if negB then Negated(b) else b;
    var res := Mulhu(x, y);
    SignedProduct(a, b, x, y);
    ProductFits(x, y);
    hide Times, Signed, Negated, B2N;
    SignedHigh(Signed(a) * Signed(b), Times(x, y), res, negA != negB);
    z := if negA != negB then (W64 - 1 - res + B2N(Times(a, b) % W64 == 0)) % W64 else res;
  }

  method Mulhsu(a: u64, b: u64) returns (z: u64)
    ensures z == ((Signed(a) * b) / W64) % W64
  {
    var negA := Signed(a) < 0;
    var x := if negA then Negated(a) else a;
    var res := Mulhu(x, b);
    SignedFactor(a, b, x);
    ProductFits(x, b);
    hide Times, Signed, Negated, B2N;
    SignedHigh(Signed(a) * b, Times(x, b), res, negA);
    z := if negA then (W64 - 1 - res + B2N(Times(a, b) % W64 == 0)) % W64 else res;
  }

  lemma SignedFactor(a: u64, b: u64, x: u64)
    requires x == (if Signed(a) < 0 then Negated(a) else a)
    ensures Signed(a) * b == if Signed(a) < 0 then 0 - Times(x, b) else Times(x, b)
    ensures Signed(a) < 0 ==> Times(a, b) == b * W64 - Times(x, b)
    ensures (Times(a, b) % W64 == 0) == (Times(x, b) % W64 == 0)
  {
    if Signed(a) < 0 {
      NegatedIs(a, x);
      hide Signed, Negated;
      NegMul(x, b);
      Dist(W64, x, b);
      assert a * b == W64 * b - x * b;
      NegatedDivides(Times(x, b), b, Times(a, b));
    }
  }

  lemma NegatedIs(a: u64, x: u64)
    requires Signed(a) < 0 && x == Negated(a)
    ensures x == W64 - a && Signed(a) == 0 - x
  {
  }

  lemma NegatedDivides(n: int, k: int, m: int)
    requires m == k * W64 - n
    ensures (m % W64 == 0) == (n % W64 == 0)
  {
  }

  lemma SignedProduct(a: u64, b: u64, x: u64, y: u64)
    requires x == (if Signed(a) < 0 then Negated(a) else a)
    requires y == (if Signed(b) < 0 then Negated(b) else b)
    ensures Signed(a) * Signed(b) == if (Signed(a) < 0) != (Signed(b) < 0) then 0 - Times(x, y) else Times(x, y)
    ensures (Times(a, b) % W64 == 0) == (Times(x, y) % W64 == 0)
  {
    SignedFactor(a, b, x);
    SignedFactor(b, x, y);
    Commutes(x, b);
    Commutes(x, y);
    NegateFactor(a, b, x);
    hide Times, Negated;
  }

  lemma NegateFactor(a: u64, b: u64, x: u64)
    requires x == (if Signed(a) < 0 then Negated(a) else a)
    ensures Signed(a) * Signed(b) == if Signed(a) < 0 then 0 - Signed(b) * x else Signed(b) * x
  {
    if Signed(a) < 0 {
      NegatedIs(a, x);
      hide Signed, Negated;
      NegMul(x, Signed(b));
    }
  }

  lemma Commutes(a: nat, b: nat)
    ensures Times(a, b) == Times(b, a)
  {
  }
}
