/** Conversions between binary64 and signed 64-bit integers
    (softfloat/f64_to_i64.c, s_roundPackToI64.c, i64_to_f64.c). */
module Convert {
  import opened Arith
  import opened Powers
  import opened MultiWord
  import opened Binary64
  import opened Jam
  import opened RoundPack
  import opened Normalise
  import opened Ieee
  import opened MulDiv

  const I64_MAX: int := 0x7FFF_FFFF_FFFF_FFFF
  const I64_MIN: int := -0x8000_0000_0000_0000

  // ---- section 5.8: conversion to an integer

  /** The integer magnitude x >= 0 rounds to. */
  ghost function IntMag(mode: RoundingMode, sign: bool, x: real): int
    requires x >= 0.0
  {
    var n := x.Floor;
    var f := x - n as real;
    var up := match mode
      case NearEven => f > 0.5 || (f == 0.5 && n % 2 == 1)
      case NearMaxMag => f >= 0.5
      case MinMag => false
      case Min => sign && f > 0.0
      case Max => !sign && f > 0.0;
    if up then n + 1 else n
  }

  datatype IntOutcome = IntOutcome(value: int, flags: set<Flag>)

  ghost function ToI64Spec(mode: RoundingMode, a: u64, exact: bool): IntOutcome {
    if IsNaN(a) then IntOutcome(I64_MAX, {Invalid})
    else if IsInf(a) then IntOutcome(if SignBit(a) then I64_MIN else I64_MAX, {Invalid})
    else
      MagNonNegative(a);
      FitOrSaturate(mode, SignBit(a), MagValue(Mag(a)), exact)
  }

  ghost function FitOrSaturate(mode: RoundingMode, sign: bool, x: real, exact: bool): IntOutcome
    requires x >= 0.0
  {
    var n := IntMag(mode, sign, x);
    var v := if sign then -n else n;
    if I64_MIN <= v <= I64_MAX then
      IntOutcome(v, if exact && x != n as real then {Inexact} else {})
    else
      IntOutcome(if sign then I64_MIN else I64_MAX, {Invalid})
  }

  lemma MagNonNegative(a: u64)
    ensures MagValue(Mag(a)) >= 0.0
  {
    MagMono(Mag(a), Mag(a));
  }

  /** In round to nearest even the signed result is the integer nearest the
      signed value. */
  lemma NearestIsNearest(sign: bool, x: real)
    requires x >= 0.0
    ensures var n := IntMag(NearEven, sign, x);
            NearestEvenInt(if sign then -x else x) == if sign then -n else n
  {
    var n := x.Floor;
    if sign && x == n as real {
      assert (-x).Floor == -n;
    } else if sign {
      assert (-x).Floor == -n - 1;
    }
  }

  // ---- s_roundPackToI64.c

  /** x has integer part sig64, and sig0 places its fraction against 0 and 1/2. */
  ghost predicate FixedPoint(x: real, sig64: nat, sig0: u64) {
    && sig64 as real <= x < (sig64 + 1) as real
    && (x == sig64 as real <==> sig0 == 0)
    && (x > sig64 as real + 0.5 <==> sig0 > SIGN)
    && (x == sig64 as real + 0.5 <==> sig0 == SIGN)
  }

  method RoundPackToI64(env: FpEnv, sign: bool, sig64: u64, sig0: u64, mode: RoundingMode, exact: bool, ghost x: real)
    returns (z: int)
    requires FixedPoint(x, sig64, sig0)
    modifies env`exceptionFlags
    ensures var spec := FitOrSaturate(mode, sign, x, exact);
            z == spec.value && env.exceptionFlags == old(env.exceptionFlags) + spec.flags
  {
    var nearEven := mode == NearEven;
    var increment := SIGN <= sig0;
    if !nearEven && mode != NearMaxMag {
      increment := mode != MinMag && mode == (if sign then Min else Max) && sig0 != 0;
    }
    hide FixedPoint, IntMag, FitOrSaturate, Signed;
    IntPart(mode, sign, x, sig64, sig0);
    FitIs(mode, sign, x, exact);
    var s: nat := sig64;
    if increment {
      s := (s + 1) % W64;
      if s == 0 {
        env.RaiseFlags({Invalid});
        return if sign then I64_MIN else I64_MAX;
      }
      if sig0 % SIGN == 0 && nearEven { s := s - s % 2; }
    }
    assert s == IntMag(mode, sign, x);
    var ui: u64 := if sign then (W64 - s) % W64 else s;
    z := Signed(ui);
    TwosComplement(sign, s);
    if z != 0 && (z < 0) != sign {
      env.RaiseFlags({Invalid});
      return if sign then I64_MIN else I64_MAX;
    }
    if exact && sig0 != 0 { env.exceptionFlags := env.exceptionFlags + {Inexact}; }
  }

  lemma FitIs(mode: RoundingMode, sign: bool, x: real, exact: bool)
    requires x >= 0.0
    ensures var n := IntMag(mode, sign, x);
            FitOrSaturate(mode, sign, x, exact)
            == if (if sign then n <= SIGN else n < SIGN) then
                 IntOutcome(if sign then -n else n, if exact && x != n as real then {Inexact} else {})
               else
                 IntOutcome(if sign then I64_MIN else I64_MAX, {Invalid})
  {
    IntNonNegative(mode, sign, x);
    hide IntMag;
  }

  lemma IntNonNegative(mode: RoundingMode, sign: bool, x: real)
    requires x >= 0.0
    ensures IntMag(mode, sign, x) >= 0
  {
  }

  /** A magnitude read back through its two's complement word has the right
      sign, or is zero, exactly when it fits. */
  lemma TwosComplement(sign: bool, s: u64)
    ensures var z := Signed(if sign then (W64 - s) % W64 else s);
            if (if sign then s <= SIGN else s < SIGN) then
              z == (if sign then 0 - (s as int) else s) && (z == 0 || (z < 0) == sign)
            else z != 0 && (z < 0) != sign
  {
  }

  lemma IntPart(mode: RoundingMode, sign: bool, x: real, sig64: nat, sig0: u64)
    requires FixedPoint(x, sig64, sig0)
    ensures x >= 0.0
    ensures var up := match mode
              case NearEven => sig0 > SIGN || (sig0 == SIGN && sig64 % 2 == 1)
              case NearMaxMag => sig0 >= SIGN
              case MinMag => false
              case Min => sign && sig0 != 0
              case Max => !sign && sig0 != 0;
            IntMag(mode, sign, x) == if up then sig64 + 1 else sig64
    ensures x == IntMag(mode, sign, x) as real <==> sig0 == 0
  {
    assert x.Floor == sig64;
  }

  // ---- f64_to_i64.c

  method F64ToI64(env: FpEnv, a: u64, mode: RoundingMode, exact: bool) returns (z: int)
    modifies env`exceptionFlags
    ensures var spec := ToI64Spec(mode, a, exact);
            z == spec.value && env.exceptionFlags == old(env.exceptionFlags) + spec.flags
  {
    Fields(a);
    SpecialToI64(mode, a, exact);
    hide ToI64Spec, FitOrSaturate, Mag, ExpField, FracField, MagValue, FixedPoint, Scale, Shl;
    var sign, exp := SignBit(a), ExpField(a);
    var sig: u64 := FracField(a);
    if exp != 0 { sig := sig + FRAC; }
    var shiftCount := 0x433 - exp;
    if shiftCount <= 0 {
      if 0x43E < exp {
        env.RaiseFlags({Invalid});
        return if !sign || (exp == 0x7FF && FracField(a) != 0) then I64_MAX else I64_MIN;
      }
      LeftAligned(a, sig);
      z := RoundPackToI64(env, sign, Shl64(sig, -shiftCount), 0, mode, exact, MagValue(Mag(a)));
    } else {
      var e := Shift64ExtraRightJam(sig, 0, shiftCount);
      RightAligned(a, sig, e);
      z := RoundPackToI64(env, sign, e.v, e.extra, mode, exact, MagValue(Mag(a)));
    }
  }

  lemma SpecialToI64(mode: RoundingMode, a: u64, exact: bool)
    ensures MagValue(Mag(a)) >= 0.0
    ensures IsFinite(a) ==> ToI64Spec(mode, a, exact) == FitOrSaturate(mode, SignBit(a), MagValue(Mag(a)), exact)
    ensures ExpField(a) > 0x43E ==>
              ToI64Spec(mode, a, exact)
              == IntOutcome(if !SignBit(a) || (ExpField(a) == 0x7FF && FracField(a) != 0) then I64_MAX else I64_MIN,
                            {Invalid})
  {
    MagNonNegative(a);
    Fields(a);
    if IsFinite(a) && ExpField(a) > 0x43E {
      TooLarge(a);
      TooLargeSaturates(mode, SignBit(a), MagValue(Mag(a)), exact);
    }
    hide FitOrSaturate, MagValue;
  }

  lemma TooLarge(a: u64)
    requires IsFinite(a) && ExpField(a) > 0x43E
    ensures MagValue(Mag(a)) >= W64 as real
  {
    hide Scale, MagValue;
    Fields(a);
    FieldValue(a);
    var e := ExpField(a);
    ScaleOrder(FRAC as real, (FRAC + FracField(a)) as real, e - 1075);
    ScaleMono(FRAC as real, 12, e - 1075);
    Pow2Values();
    Pow2Small();
    FracScaled();
  }

  lemma FracScaled()
    ensures Scale(FRAC as real, 12) == W64 as real
  {
    assert Pow2(12) == 0x1000;
    hide Scale, Pow2;
    ScaleUp(FRAC as real, 0, 12, W64 as real);
    ScaleByOne(W64 as real);
  }

  lemma ScaleByOne(x: real)
    ensures Scale(x, 0) == x
  {
  }

  lemma TooLargeSaturates(mode: RoundingMode, sign: bool, x: real, exact: bool)
    requires x >= W64 as real
    ensures FitOrSaturate(mode, sign, x, exact) == IntOutcome(if sign then I64_MIN else I64_MAX, {Invalid})
  {
    assert x.Floor >= W64;
    assert IntMag(mode, sign, x) >= W64;
    hide IntMag;
  }

  lemma LeftAligned(a: u64, sig: u64)
    requires 0x433 <= ExpField(a) <= 0x43E && sig == FRAC + FracField(a)
    ensures FixedPoint(MagValue(Mag(a)), Shl64(sig, ExpField(a) - 0x433), 0)
  {
    hide Scale, MagValue, Pow2, LeadingBit, Shl, ExpField, FracField;
    var d := ExpField(a) - 0x433;
    Fields(a);
    FieldValue(a);
    ScaleShl(sig, d, 0);
    ScaleByOne(Shl(sig, d) as real);
    HiddenLeads(sig);
    LeadingMoves(sig, 52, d);
    BelowWord(Shl(sig, d), 52 + d);
  }

  lemma RightAligned(a: u64, sig: u64, e: U64Extra)
    requires ExpField(a) < 0x433 && sig == FracField(a) + if ExpField(a) != 0 then FRAC else 0
    requires var c := 0x433 - ExpField(a);
             && e.v == Shr(sig, c)
             && (c <= 64 ==> e.extra == Shl(Lo(sig, c), 64 - c))
             && (c > 64 ==> e.extra == if sig != 0 then 1 else 0)
    ensures FixedPoint(MagValue(Mag(a)), e.v, e.extra)
  {
    hide Scale, MagValue, Pow2, Shr, Lo, Shl, ExpField, FracField;
    Fields(a);
    FieldValue(a);
    var c := 0x433 - ExpField(a);
    if c <= 64 {
      var x := Ratio(sig, Pow2(c));
      ScaleUp(x, 0 - c, c, sig as real);
      ScaleByOne(x);
      NearFraction(x, sig, c);
    } else {
      var d := if ExpField(a) == 0 then 1074 else c;
      var x := Ratio(sig, Pow2(d));
      ScaleUp(x, 0 - d, d, sig as real);
      ScaleByOne(x);
      FarFraction(x, sig, d);
      Pow2Values();
      TooFar(sig, 64, c);
    }
  }

  // ---- i64_to_f64.c

  method I64ToF64(env: FpEnv, a: int) returns (z: u64)
    requires I64_MIN <= a <= I64_MAX
    modifies env`exceptionFlags
    ensures Outcome(z, env.exceptionFlags)
         == Accrued(old(env.exceptionFlags), RoundSigned(env.roundingMode, a as real, false))
  {
    hide RoundSigned, Round, Pack, Scale;
    var sign := a < 0;
    if a == 0 || a == I64_MIN {
      SpecialIntegers(env.roundingMode);
      z := if sign then Pack(true, 0x43E, 0) else 0;
      return;
    }
    var sig: u64 := if sign then -a else a;
    z := NormRoundPackToF64(env, sign, 0x43C, sig, sig as real);
    ScaleByOne(sig as real);
    SignedRound(env.roundingMode, sign, sig as real, a as real, false);
  }

  lemma SpecialIntegers(mode: RoundingMode)
    ensures RoundSigned(mode, 0.0, false) == Outcome(0, {})
    ensures RoundSigned(mode, I64_MIN as real, false) == Outcome(Pack(true, 0x43E, 0), {})
  {
    hide Round, Scale;
    RoundZero(mode, false);
    SignedRound(mode, false, 0.0, 0.0, false);
    MinMagnitude();
    hide MagValue;
    RoundExact(mode, true, 0x43E * FRAC);
    SignedRound(mode, true, SIGN as real, I64_MIN as real, false);
    PackIs(true, 0x43D, FRAC);
  }

  // ---- the round trip

  /** Every integer up to 2^53 in magnitude is a binary64 value. */
  lemma IntegerMag(n: nat) returns (m: nat)
    requires n <= 0x20_0000_0000_0000
    ensures m < INF && MagValue(m) == n as real
  {
    hide Scale, MagValue;
    if n < 2 * FRAC {
      m := Representable(n, 0);
      ScaleByOne(n as real);
    } else {
      m := Representable(FRAC, 1);
      ScaleTwice(FRAC as real, 0);
      ScaleByOne(FRAC as real);
    }
  }

  /** Integers up to 2^53 survive conversion to binary64 and back, in any
      rounding modes and without a flag. */
  lemma RoundTrip(mode: RoundingMode, back: RoundingMode, a: int, exact: bool)
    requires -0x20_0000_0000_0000 <= a <= 0x20_0000_0000_0000
    ensures RoundSigned(mode, a as real, false).flags == {}
    ensures ToI64Spec(back, RoundSigned(mode, a as real, false).bits, exact) == IntOutcome(a, {})
  {
    hide Round, RoundSigned, FitOrSaturate, Mag;
    var sign := a < 0;
    var n := if sign then -a else a;
    var m := IntegerMag(n);
    hide MagValue;
    RoundExact(mode, sign, m);
    SignedRound(mode, sign, n as real, a as real, false);
    Unpacked(sign, m);
    WholeFits(back, sign, n, exact);
  }

  lemma Unpacked(sign: bool, m: nat)
    requires m < INF
    ensures Mag(PackMag(sign, m)) == m && SignBit(PackMag(sign, m)) == sign
    ensures IsFinite(PackMag(sign, m))
  {
  }

  lemma WholeFits(mode: RoundingMode, sign: bool, n: nat, exact: bool)
    requires n <= 0x20_0000_0000_0000
    ensures FitOrSaturate(mode, sign, n as real, exact) == IntOutcome(if sign then 0 - (n as int) else n, {})
  {
    assert (n as real).Floor == n;
  }

  lemma MinMagnitude()
    ensures MagValue(0x43E * FRAC) == SIGN as real
  {
    assert Sig(0x43E * FRAC) == FRAC && Ex(0x43E * FRAC) == 0x43E;
    hide Scale, Pow2;
    Pow2Small();
    ScaleUp(FRAC as real, 0, 11, SIGN as real);
    ScaleByOne(SIGN as real);
  }

  lemma HiddenLeads(sig: u64)
    requires FRAC <= sig < 2 * FRAC
    ensures LeadingBit(sig, 52)
  {
    Pow2Values();
  }

  lemma BelowWord(n: nat, k: nat)
    requires LeadingBit(n, k) && k <= 63
    ensures n < W64
  {
    Pow2Values();
    hide Pow2;
    Pow2Mono(k + 1, 64);
  }

  lemma NearFraction(x: real, sig: u64, c: nat)
    requires 1 <= c <= 64 && x * Pow2(c) as real == sig as real && Shl(Lo(sig, c), 64 - c) < W64
    ensures FixedPoint(x, Shr(sig, c), Shl(Lo(sig, c), 64 - c))
  {
    hide Pow2, Shr, Lo, FixedPoint;
    ShrLo(sig, c);
    SplitWord(c);
    FractionPlaced(x, sig, Shr(sig, c), Lo(sig, c), Pow2(c), Pow2(64 - c), Shl(Lo(sig, c), 64 - c));
  }

  lemma FractionPlaced(x: real, sig: nat, q: nat, r: nat, p: nat, n: nat, f: u64)
    requires p > 0 && n > 0 && p * n == W64 && sig == q * p + r && r < p && f == r * n
    requires x * p as real == sig as real
    ensures FixedPoint(x, q, f)
  {
    AddMul(q, 1, p);
    RatioOrder(x, p, sig, q);
    RatioOrder(x, p, sig, q + 1);
    AddMul(2 * q, 1, p);
    Assoc(2, q, p);
    Twice(x, p as real);
    RatioOrder(2.0 * x, p, 2 * sig, 2 * q + 1);
    ScaledCompare(r, p, n);
  }

  /** A remainder compares with half the divisor as its image with 2^63. */
  lemma ScaledCompare(r: nat, p: nat, n: nat)
    requires p > 0 && n > 0 && p * n == W64
    ensures r * n == 0 <==> r == 0
    ensures r * n > SIGN <==> 2 * r > p
    ensures r * n == SIGN <==> 2 * r == p
  {
    Assoc(2, r, n);
    if 2 * r < p { LessMul(2 * r, p, n); }
    if 2 * r > p { LessMul(p, 2 * r, n); }
  }

  lemma FarFraction(x: real, sig: u64, d: nat)
    requires d >= 65 && sig < 2 * FRAC && x * Pow2(d) as real == sig as real
    ensures FixedPoint(x, 0, if sig != 0 then 1 else 0)
  {
    Pow2Mono(64, d);
    Pow2Values();
    hide Pow2;
    var p := Pow2(d);
    RatioOrder(x, p, sig, 0);
    Twice(x, p as real);
    RatioOrder(2.0 * x, p, 2 * sig, 1);
  }
}
