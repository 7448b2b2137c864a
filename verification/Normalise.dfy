/** Counting leading zeros and normalising significands. */
module Normalise {
  import opened Arith
  import opened Powers
  import opened MultiWord
  import opened Binary64
  import opened Jam
  import opened Cells
  import opened RoundPack

  /** Bit k is the leading one of a. */
  predicate LeadingBit(a: nat, k: nat) { Pow2(k) <= a < Pow2(k + 1) }

  /** The 256-entry table of s_countLeadingZeros8.c, by ranges. */
  function CountLeadingZeros8(x: nat): (n: nat)
    requires x < 0x100
    ensures n <= 8 && (n == 8 <==> x == 0)
    ensures x > 0 ==> LeadingBit(x, 7 - n)
  {
    BytePowers();
    if x >= 0x80 then 0 else if x >= 0x40 then 1 else if x >= 0x20 then 2 else if x >= 0x10 then 3
    else if x >= 8 then 4 else if x >= 4 then 5 else if x >= 2 then 6 else if x == 1 then 7 else 8
  }

  lemma BytePowers()
    ensures Pow2(0) == 1 && Pow2(1) == 2 && Pow2(2) == 4 && Pow2(3) == 8 && Pow2(4) == 0x10
    ensures Pow2(5) == 0x20 && Pow2(6) == 0x40 && Pow2(7) == 0x80 && Pow2(8) == 0x100
  {
  }

  method CountLeadingZeros64(a: u64) returns (count: nat)
    ensures a == 0 ==> count == 64
    ensures a != 0 ==> count <= 63 && LeadingBit(a, 63 - count)
  {
    hide Pow2, LeadingBit, Shl, CountLeadingZeros8;
    count := 32;
    var a32: u32 := a % W32;
    if W32 <= a {
      count := 0;
      a32 := a / W32;
    }
    ghost var top, j := a32, 0;
    ShiftSteps(top);
    if a32 < 0x1_0000 {
      count := count + 16;
      a32 := (a32 * 0x1_0000) % W32;
      j := 16;
    }
    if a32 < 0x100_0000 {
      count := count + 8;
      a32 := (a32 * 0x100) % W32;
      j := j + 8;
    }
    ghost var n := CountLeadingZeros8(a32 / 0x100_0000);
    count := count + CountLeadingZeros8(a32 / 0x100_0000);
    if a != 0 {
      LeadingOf32(top, j, a32);
      if W32 <= a { LeadingOfHigh(a, top, 31 - n - j); }
    }
  }

  lemma ShiftSteps(a: nat)
    ensures Shl(a, 0) == a && Shl(a, 8) == a * 0x100
    ensures Shl(a, 16) == a * 0x1_0000 && Shl(a, 24) == a * 0x1_0000 * 0x100
  {
    Pow2Small();
    Pow2Add(16, 8);
  }

  lemma LeadingShl(a: nat, j: nat, k: nat)
    requires LeadingBit(Shl(a, j), k + j)
    ensures LeadingBit(a, k)
  {
    Pow2Add(k, j);
    Pow2Add(k + 1, j);
    hide Pow2;
    if a < Pow2(k) { LessMul(a, Pow2(k), Pow2(j)); }
    if a >= Pow2(k + 1) { MulLe(Pow2(k + 1), a, Pow2(j)); }
  }

  lemma LessMul(a: nat, b: nat, d: nat)
    requires a < b && d >= 1
    ensures a * d < b * d
  {
  }

  lemma LeadingShr(a: nat, j: nat, k: nat)
    requires LeadingBit(Shr(a, j), k)
    ensures LeadingBit(a, k + j)
  {
    Pow2Add(k, j);
    Pow2Add(k + 1, j);
    ShrLo(a, j);
    hide Pow2, Shr, Lo;
    MulLe(Pow2(k), Shr(a, j), Pow2(j));
    MulLe(Shr(a, j) + 1, Pow2(k + 1), Pow2(j));
    AddMul(Shr(a, j), 1, Pow2(j));
  }

  /** After the shifts by halves the leading one is in the top byte. */
  lemma LeadingOf32(top: u32, j: nat, a32: u32)
    requires a32 == Shl(top, j) && j <= 24 && a32 >= 0x100_0000
    ensures 0 < a32 / 0x100_0000 < 0x100
    ensures CountLeadingZeros8(a32 / 0x100_0000) <= 7
    ensures LeadingBit(top, 31 - CountLeadingZeros8(a32 / 0x100_0000) - j)
  {
    hide Pow2, LeadingBit, Shl, CountLeadingZeros8;
    var x := a32 / 0x100_0000;
    var n := CountLeadingZeros8(x);
    TopByte(a32);
    LeadingShr(a32, 24, 7 - n);
    LeadingShl(top, j, 31 - n - j);
  }

  lemma TopByte(a: nat)
    ensures Shr(a, 24) == a / 0x100_0000
  {
    Pow2Small();
    Pow2Add(16, 8);
  }

  lemma LeadingOfHigh(a: u64, top: nat, k: nat)
    requires top == a / W32 && LeadingBit(top, k)
    ensures LeadingBit(a, k + 32)
  {
    Pow2Values();
    hide Pow2, LeadingBit;
    LeadingShr(a, 32, k);
  }

  /** A left shift that puts bit k on bit k + n. */
  lemma LeadingMoves(a: nat, k: nat, n: nat)
    requires LeadingBit(a, k)
    ensures LeadingBit(Shl(a, n), k + n)
  {
    Pow2Add(k, n);
    Pow2Add(k + 1, n);
    hide Pow2;
    MulLe(Pow2(k), a, Pow2(n));
    LessMul(a, Pow2(k + 1), Pow2(n));
  }

  lemma LeadingBounds(a: nat, k: nat)
    requires LeadingBit(a, k)
    ensures k == 52 <==> FRAC <= a < 2 * FRAC
    ensures k == 62 ==> TOP <= a < SIGN
    ensures k <= 51 <==> a < FRAC
    ensures k <= 54 ==> a < 0x80_0000_0000_0000
    ensures k <= 62 <==> a < SIGN
  {
    hide Pow2;
    Pow2Values();
    Pow2At55();
    if k < 52 { Pow2Mono(k + 1, 52); }
    if k > 52 { Pow2Mono(53, k); }
    if k <= 54 { Pow2Mono(k + 1, 55); }
    if k <= 62 { Pow2Mono(k + 1, 63); } else { Pow2Mono(63, k); }
  }

  lemma Pow2At55()
    ensures Pow2(55) == 0x80_0000_0000_0000
  {
    Pow2Values();
    Pow2Add(53, 2);
    assert Pow2(2) == 4;
  }

  // ---- s_normSubnormalF64Sig.c

  datatype ExpSig = ExpSig(exp: int, sig: u64)

  method NormSubnormalF64Sig(sig: u64) returns (z: ExpSig)
    requires 0 < sig < FRAC
    ensures -51 <= z.exp <= 0 && FRAC <= z.sig < 2 * FRAC
    ensures z.sig == Shl(sig, 1 - z.exp)
    ensures Scale(z.sig as real, z.exp - 1075) == Scale(sig as real, 1 - 1075)
  {
    hide Pow2, LeadingBit, Shl, Scale;
    var zeros := CountLeadingZeros64(sig);
    var shiftCount: int := zeros;
    LeadingBounds(sig, 63 - shiftCount);
    LeadingMoves(sig, 63 - shiftCount, shiftCount - 11);
    LeadingBounds(Shl(sig, shiftCount - 11), 52);
    ScaleShl(sig, shiftCount - 11, -1063 - shiftCount);
    z := ExpSig(1 - (shiftCount - 11), Shl64(sig, shiftCount - 11));
  }

  lemma ScaleShl(a: nat, n: nat, e: int)
    ensures Scale(Shl(a, n) as real, e) == Scale(a as real, e + n)
  {
    hide Scale, Pow2;
    ScaleUp(a as real, e, n, Shl(a, n) as real);
  }

  // ---- s_normRoundPackToF64.c

  /** sig is exact, or jammed and large enough that a left shift by fewer than
      eight places normalises it. */
  ghost predicate CanNormalise(x: real, sig: int) {
    x == sig as real || (sig >= 0x80_0000_0000_0000 && SameCell(x, sig, 2))
  }

  method NormRoundPackToF64(env: FpEnv, sign: bool, exp: int, sig: u64, ghost exact: real) returns (z: u64)
    requires -0x7F00 <= exp < 0x800 && sig < SIGN
    requires CanNormalise(exact, sig)
    modifies env`exceptionFlags
    ensures Scale(exact, exp - 1084) >= 0.0
    ensures Outcome(z, env.exceptionFlags)
         == Accrued(old(env.exceptionFlags), Round(env.roundingMode, sign, Scale(exact, exp - 1084)))
  {
    hide Pow2, LeadingBit, Shl, Scale, Round, Pack, SameCell;
    var zeros := CountLeadingZeros64(sig);
    if sig != 0 { LeadingBounds(sig, 63 - zeros); }
    var shiftCount := zeros - 1;
    ghost var y := NormalisedCell(sig, shiftCount, exp, exact);
    var e := exp - shiftCount;
    if 10 <= shiftCount && e % 0x10000 < 0x7FD {
      ExactPack(env.roundingMode, sign, e, sig, shiftCount);
      z := Pack(sign, if sig != 0 then e else 0, Shl64(sig, shiftCount - 10));
    } else {
      z := RoundPackToF64(env, sign, e, Shl64(sig, shiftCount), y);
    }
  }

  predicate Normalises(sig: nat, n: nat) {
    if sig == 0 then n == 63 else n <= 62 && LeadingBit(sig, 62 - n)
  }

  lemma NormalisedCell(sig: u64, n: nat, exp: int, x: real) returns (y: real)
    requires Normalises(sig, n)
    requires CanNormalise(x, sig)
    ensures Scale(y, exp - n - 1084) == Scale(x, exp - 1084)
    ensures Shl64(sig, n) == Shl(sig, n) < SIGN && (sig != 0 ==> Shl(sig, n) >= TOP)
    ensures SameCell(y, Shl64(sig, n), 0x200)
    ensures x != sig as real ==> n < 10
  {
    hide Pow2, LeadingBit, Shl, Scale, SameCell;
    y := x * Pow2(n) as real;
    ScaleUp(x, exp - n - 1084, n, y);
    ShlOfNormal(sig, n);
    if x == sig as real {
      RealOfShl(sig, n);
      EqualCell(y, Shl(sig, n), 0x200);
    } else {
      CellIsNear(x, sig);
      LeadingBounds(sig, 62 - n);
      CellShl(x, sig, n, y);
    }
  }

  lemma RealOfShl(a: nat, n: nat)
    ensures a as real * Pow2(n) as real == Shl(a, n) as real
  {
    hide Pow2;
    RealOfProduct(a, Pow2(n));
  }

  lemma CellIsNear(x: real, s: nat)
    requires SameCell(x, s, 2)
    ensures s as real - 1.0 < x < s as real + 1.0
  {
  }

  lemma ShlOfNormal(sig: u64, n: nat)
    requires Normalises(sig, n)
    ensures Shl64(sig, n) == Shl(sig, n) < SIGN && (sig != 0 ==> Shl(sig, n) >= TOP)
  {
    hide Pow2, LeadingBit;
    if sig != 0 {
      LeadingMoves(sig, 62 - n, n);
      LeadingBounds(Shl(sig, n), 62);
    }
  }

  /** Shifting left by up to seven widens the grid to at most 2^8. */
  lemma {:induction false} CellShl(x: real, s: nat, n: nat, y: real)
    requires SameCell(x, s, 2) && n <= 7 && y == x * Pow2(n) as real
    ensures SameCell(y, Shl(s, n), 0x200)
  {
    CellShlExact(x, s, n, y);
    hide Pow2, SameCell;
    Pow2Add(n + 1, 8 - n);
    Pow2Small();
    CellCoarsen(y, Shl(s, n), Pow2(n + 1), Pow2(8 - n));
  }

  lemma {:induction false} CellShlExact(x: real, s: nat, n: nat, y: real)
    requires SameCell(x, s, 2) && y == x * Pow2(n) as real
    ensures SameCell(y, Shl(s, n), Pow2(n + 1))
  {
    hide SameCell;
    if n == 0 {
      ShlStart(s);
      PowZero(x);
    } else {
      var h := x * Pow2(n - 1) as real;
      CellShlExact(x, s, n - 1, h);
      ShlNext(s, n - 1);
      PowSucc(x, n - 1);
      CellDouble(h, Shl(s, n - 1), Pow2(n));
      assert y == 2.0 * h;
    }
  }

  lemma ShlStart(s: nat)
    ensures Shl(s, 0) == s && Pow2(1) == 2
  {
  }

  lemma ShlNext(s: nat, n: nat)
    ensures Shl(s, n + 1) == 2 * Shl(s, n) && Pow2(n + 2) == 2 * Pow2(n + 1)
  {
  }

  lemma ExactPack(mode: RoundingMode, sign: bool, e: nat, sig: u64, n: nat)
    requires Normalises(sig, n) && n >= 10 && e < 0x7FD
    ensures Scale(sig as real, e + n - 1084) >= 0.0
    ensures Round(mode, sign, Scale(sig as real, e + n - 1084))
         == Outcome(Pack(sign, if sig != 0 then e else 0, Shl64(sig, n - 10)), {})
  {
    hide Pow2, LeadingBit, Shl, Scale, Round, MagValue;
    var m := Shl(sig, n - 10);
    ScaleShl(sig, n - 10, e - 1074);
    if sig == 0 {
      ZeroValue(n - 10);
      ScaleZero(e + n - 1084);
      RoundExact(mode, sign, 0);
    } else {
      LeadingMoves(sig, 62 - n, n - 10);
      LeadingBounds(m, 52);
      Neighbours(e, m);
      TenBits(m, e - 1084);
      RoundExact(mode, sign, e * FRAC + m);
      PackIs(sign, e, m);
    }
  }

  lemma ZeroValue(n: nat)
    ensures Shl(0, n) == 0 && MagValue(0) == 0.0
  {
  }

  /** After the step "if sig < 2^62, shift it left by one and lower the
      exponent", y is an exact significand for the value v. */
  ghost predicate Ready(y: real, sig: nat, e: int, v: real) {
    if sig < TOP then SameCell(y, 2 * sig, 0x200) && Scale(y, e - 1 - 1084) == v
    else SameCell(y, sig, 0x200) && Scale(y, e - 1084) == v
  }

  lemma NormalisedOnce(x: real, sig: nat, e: int) returns (y: real)
    requires SameCell(x, sig, 2)
    ensures Ready(y, sig, e, Scale(x, e - 1084))
  {
    hide Scale, SameCell;
    y := x;
    if sig < TOP {
      y := 2.0 * x;
      CellDouble(x, sig, 2);
      ScaleDouble(x, e - 1085);
      ScaleTwice(x, e - 1085);
      CellCoarsen(y, 2 * sig, 4, 0x80);
    } else {
      CellCoarsen(x, sig, 2, 0x100);
    }
  }

  // ---- operands and products

  /** sig | 2^52 for a significand below 2^53. */
  function WithHidden(sig: nat): nat { if sig < FRAC then sig + FRAC else sig }

  /** "if ( ! exp ) normalise": what the multiplicative routines do to a finite
      nonzero operand. */
  method UnpackNormal(exp: int, frac: int) returns (z: ExpSig)
    requires 0 <= exp < 0x7FF && 0 <= frac < FRAC && (exp != 0 || frac != 0)
    ensures -51 <= z.exp < 0x7FF && (exp != 0 ==> z.exp == exp) && (exp == 0 ==> z.exp <= 0)
    ensures FRAC <= WithHidden(z.sig) < 2 * FRAC
    ensures exp == 0 ==> WithHidden(z.sig) == Shl(frac, 1 - z.exp)
    ensures Scale(WithHidden(z.sig) as real, z.exp - 1075)
         == Scale((if exp == 0 then frac else FRAC + frac) as real, (if exp == 0 then 1 else exp) - 1075)
  {
    hide Scale, Shl;
    if exp == 0 {
      z := NormSubnormalF64Sig(frac);
    } else {
      z := ExpSig(exp, frac);
    }
  }

  lemma FieldValue(ui: u64)
    requires IsFinite(ui)
    ensures var e, f := ExpField(ui), FracField(ui);
            MagValue(Mag(ui)) == Scale((if e == 0 then f else FRAC + f) as real, (if e == 0 then 1 else e) - 1075)
  {
    hide Scale;
    Fields(ui);
    if ExpField(ui) != 0 { ModIs(Mag(ui), ExpField(ui), FracField(ui), FRAC); }
  }

  /** Moving an exact value and the word in its cell c places right. */
  lemma JamDown(v: real, w: nat, g: nat, m: nat, c: nat, e: int) returns (x: real)
    requires g > 0 && SameCell(v, w, g) && Pow2(c) == m * g
    ensures Scale(x, e) == Scale(v, e - c)
    ensures SameCell(x, JamShift(w, c), 2)
  {
    hide Scale, SameCell, Pow2, JamShift;
    x := v / Pow2(c) as real;
    ScaleUp(x, e - c, c, v);
    CellJam(v, w, g, m, c, x);
  }

  /** v64 | (v0 != 0) is the 128-bit word jammed 64 places right. */
  lemma HighWord(v64: u64, v0: u64)
    ensures Sticky(v64, v0 != 0) == JamShift(v64 * W64 + v0, 64)
  {
    Pow2Values();
    hide Pow2;
    ModIs(v64 * W64 + v0, v64, v0, W64);
  }

  lemma HighWordOf(z: U128, e: int) returns (x: real)
    ensures Scale(x, e) == Scale(z.Val() as real, e - 64)
    ensures SameCell(x, Sticky(z.v64, z.v0 != 0), 2)
  {
    hide Scale, SameCell, Pow2, JamShift;
    var w := z.Val();
    EqualCell(w as real, w, 1);
    x := JamDown(w as real, w, 1, Pow2(64), 64, e);
    HighWord(z.v64, z.v0);
  }

  // ---- which values binary64 holds

  lemma {:induction false} FindLeading(n: nat) returns (k: nat)
    requires n > 0
    ensures LeadingBit(n, k)
  {
    if n == 1 {
      k := 0;
    } else {
      k := FindLeading(n / 2);
      k := k + 1;
    }
  }

  lemma BelowHidden(n: nat, k: nat)
    requires LeadingBit(n, k) && n < 2 * FRAC
    ensures k <= 52
  {
    Pow2Values();
    hide Pow2;
    if k > 52 { Pow2Mono(53, k); }
  }

  /** Every multiple of a power of two from 2^-1074 to 2^971 with fewer than 54
      significant bits is a binary64 value. */
  lemma Representable(t: nat, e: int) returns (m: nat)
    requires t < 2 * FRAC && -1074 <= e <= 971
    ensures m < INF && MagValue(m) == Scale(t as real, e)
  {
    hide Scale, MagValue, Pow2, LeadingBit, Shl;
    if t == 0 {
      m := 0;
      ZeroValue(0);
      ScaleZero(e);
    } else {
      var k: int := FindLeading(t);
      BelowHidden(t, k);
      var n := if 52 - k <= e + 1074 then 52 - k else e + 1074;
      LeadingMoves(t, k, n);
      LeadingBounds(Shl(t, n), k + n);
      var exp, s := e + 1074 - n, Shl(t, n);
      m := exp * FRAC + s;
      Neighbours(exp, s);
      TenBits(s, exp - 1084);
      ScaleShl(t, n, exp - 1074);
    }
  }
}
