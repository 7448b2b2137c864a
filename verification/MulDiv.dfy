/** Binary64 multiplication and division (softfloat/f64_mul.c, f64_div.c). */
module MulDiv {
  import opened Arith
  import opened Powers
  import opened MultiWord
  import opened EstimateDiv
  import opened Binary64
  import opened Jam
  import opened Cells
  import opened RoundPack
  import opened Normalise
  import opened Ieee
  import AddSub

  method F64Mul(env: FpEnv, a: u64, b: u64) returns (z: u64)
    modifies env`exceptionFlags
    ensures Outcome(z, env.exceptionFlags)
         == Accrued(old(env.exceptionFlags), MulSpec(env.roundingMode, a, b))
  {
    hide MulSpec, Mag, Scale, SameCell, Round, MagValue, Times, MagProduct;
    hide ExpField, FracField, Pack, IsSigNaN, Sticky, WithHidden;
    ghost var mode := env.roundingMode;
    Fields(a);
    Fields(b);
    SpecialProducts(mode, a, b);
    var expA, sigA := ExpField(a), FracField(a);
    var expB, sigB := ExpField(b), FracField(b);
    var signZ := SignBit(a) != SignBit(b);
    if expA == 0x7FF || expB == 0x7FF {
      if (expA == 0x7FF && sigA != 0) || (expB == 0x7FF && sigB != 0) {
        z := AddSub.PropagateNaNF64UI(env, a, b);
        return;
      }
      var magZero := if expA == 0x7FF then expB == 0 && sigB == 0 else expA == 0 && sigA == 0;
      if magZero {
        env.RaiseFlags({Invalid});
        z := DEFAULT_NAN;
      } else {
        z := Pack(signZ, 0x7FF, 0);
      }
      return;
    }
    if (expA == 0 && sigA == 0) || (expB == 0 && sigB == 0) {
      z := Pack(signZ, 0, 0);
      return;
    }
    FieldValue(a);
    FieldValue(b);
    var na := UnpackNormal(expA, sigA);
    var nb := UnpackNormal(expB, sigB);
    var expZ := na.exp + nb.exp - 0x3FF;
    var sa, sb := WithHidden(na.sig), WithHidden(nb.sig);
    var sigZ128 := Mul64To128(sa * 0x400, sb * 0x800);
    MagProductIs(a, b, sa, sb, na.exp, nb.exp);
    ghost var x := ProductCell(sa, sb, na.exp, nb.exp, sigZ128);
    var sigZ := Sticky(sigZ128.v64, sigZ128.v0 != 0);
    if sigZ < TOP {
      expZ := expZ - 1;
      sigZ := sigZ * 2;
    }
    z := RoundPackToF64(env, signZ, expZ, sigZ, x);
  }

  ghost function MagProduct(a: u64, b: u64): (p: real)
    ensures p >= 0.0
  {
    ProductSign(a, b);
    MagValue(Mag(a)) * MagValue(Mag(b))
  }

  lemma MagProductIs(a: u64, b: u64, sa: nat, sb: nat, ea: int, eb: int)
    requires MagValue(Mag(a)) == Scale(sa as real, ea - 1075) && MagValue(Mag(b)) == Scale(sb as real, eb - 1075)
    ensures MagProduct(a, b) == Scale(Times(sa, sb) as real, ea + eb - 2150)
  {
    hide Scale, MagValue;
    ScaleProductNat(sa, sb, ea - 1075, eb - 1075);
  }

  lemma SpecialProducts(mode: RoundingMode, a: u64, b: u64)
    ensures var spec, sign := MulSpec(mode, a, b), SignBit(a) != SignBit(b);
            && (IsNaN(a) || IsNaN(b) ==> spec == NaNResult(IsSigNaN(a) || IsSigNaN(b)))
            && (IsInf(a) && IsZero(b) ==> spec == NaNResult(true))
            && (IsZero(a) && IsInf(b) ==> spec == NaNResult(true))
            && (IsInf(a) && !IsNaN(b) && !IsZero(b) ==> spec == Outcome(Pack(sign, 0x7FF, 0), {}))
            && (!IsZero(a) && !IsNaN(a) && IsInf(b) ==> spec == Outcome(Pack(sign, 0x7FF, 0), {}))
            && (IsFinite(a) && IsFinite(b) && (IsZero(a) || IsZero(b)) ==> spec == Outcome(Pack(sign, 0, 0), {}))
            && (IsFinite(a) && IsFinite(b) ==> spec == Round(mode, sign, MagProduct(a, b)))
  {
    hide Round, MagValue, MagProduct;
    var sign, p := SignBit(a) != SignBit(b), MagProduct(a, b);
    ValueProduct(a, b);
    if IsFinite(a) && IsFinite(b) {
      SignedRound(mode, sign, p, Value(a) * Value(b), sign);
      if IsZero(a) || IsZero(b) {
        RoundZero(mode, sign);
      }
    }
    hide RoundSigned, Value;
  }

  lemma ValueProduct(a: u64, b: u64)
    ensures Value(a) * Value(b) == if SignBit(a) != SignBit(b) then -MagProduct(a, b) else MagProduct(a, b)
    ensures IsZero(a) || IsZero(b) ==> MagProduct(a, b) == 0.0
  {
    hide MagValue;
    ProductSign(a, b);
  }

  lemma ProductSign(a: u64, b: u64)
    ensures var p := MagValue(Mag(a)) * MagValue(Mag(b));
            && p >= 0.0
            && Value(a) * Value(b) == (if SignBit(a) != SignBit(b) then -p else p)
            && (IsZero(a) || IsZero(b) ==> p == 0.0)
  {
    hide Scale, Sig, Ex;
    ZeroOnly(a);
    ZeroOnly(b);
    hide MagValue;
    MagMono(Mag(a), Mag(a));
    MagMono(Mag(b), Mag(b));
    RealProductSigns(MagValue(Mag(a)), MagValue(Mag(b)));
  }

  lemma RealProductSigns(p: real, q: real)
    requires p >= 0.0 && q >= 0.0
    ensures p * q >= 0.0 && (-p) * q == -(p * q) && p * (-q) == -(p * q) && (-p) * (-q) == p * q
    ensures p == 0.0 || q == 0.0 ==> p * q == 0.0
  {
  }

  lemma ProductCell(sa: nat, sb: nat, ea: int, eb: int, z: U128) returns (x: real)
    requires FRAC <= sa < 2 * FRAC && FRAC <= sb < 2 * FRAC && z.Val() == Times(sa * 0x400, sb * 0x800)
    ensures 0x2000_0000_0000_0000 <= Sticky(z.v64, z.v0 != 0) < SIGN
    ensures Ready(x, Sticky(z.v64, z.v0 != 0), ea + eb - 0x3FF, Scale(Times(sa, sb) as real, ea + eb - 2150))
  {
    hide Scale, SameCell, Ready;
    var w := z.Val();
    ScaledFactors(sa, sb);
    hide Times;
    var e := ea + eb - 0x3FF;
    var x0 := HighWordOf(z, e - 1084);
    x := NormalisedOnce(x0, Sticky(z.v64, z.v0 != 0), e);
    TwentyOne(Times(sa, sb), e - 1148);
  }

  lemma ScaledFactors(sa: nat, sb: nat)
    requires FRAC <= sa < 2 * FRAC && FRAC <= sb < 2 * FRAC
    ensures Times(sa * 0x400, sb * 0x800) == Times(sa, sb) * 0x20_0000
    ensures FRAC * FRAC <= Times(sa, sb) < 4 * FRAC * FRAC
  {
    MulBound(FRAC, FRAC, sa, sb);
    MulBound(sa, sb, 2 * FRAC - 1, 2 * FRAC - 1);
  }

  lemma ScaleProductNat(a: nat, b: nat, e: int, f: int)
    ensures Scale(a as real, e) * Scale(b as real, f) == Scale(Times(a, b) as real, e + f)
  {
    hide Scale;
    RealOfProduct(a, b);
    ScaleProduct(a as real, b as real, e, f, Times(a, b) as real);
  }

  lemma TwentyOne(n: nat, e: int)
    ensures Scale((n * 0x20_0000) as real, e) == Scale(n as real, e + 21)
  {
    Pow2Add(10, 11);
    Pow2Small();
    hide Scale, Pow2;
    ScaleUp(n as real, e, 21, (n * 0x20_0000) as real);
  }

  // ---- f64_div.c

  /** The significand and exponent of the quotient. */
  method FiniteQuotient(a: u64, b: u64) returns (expZ: int, sigZ: u64, ghost x: real)
    requires IsFinite(a) && IsFinite(b) && !IsZero(a) && !IsZero(b)
    ensures TOP <= sigZ < SIGN && SameCell(x, sigZ, 0x200) && -0x1000 < expZ < 0x1000
    ensures Scale(x, expZ - 1084) == MagQuotient(a, b)
  {
    hide Mag, Scale, SameCell, MagValue, Times, MagQuotient, ExpField, FracField, Sticky, WithHidden;
    Fields(a);
    Fields(b);
    FieldValue(a);
    FieldValue(b);
    var nb := UnpackNormal(ExpField(b), FracField(b));
    var na := UnpackNormal(ExpField(a), FracField(a));
    expZ := na.exp - nb.exp + 0x3FD;
    var sa: u64 := WithHidden(na.sig) * 0x400;
    var sb: u64 := WithHidden(nb.sig) * 0x800;
    if sb <= sa + sa {
      expZ := expZ + 1;
      sa := sa / 2;
      assert sa == WithHidden(na.sig) * 0x200;
    }
    x := MagQuotientIs(a, b, WithHidden(na.sig), WithHidden(nb.sig), na.exp, nb.exp, sa, expZ);
    sigZ := QuotientDigits(sa, sb, x);
  }

  method F64Div(env: FpEnv, a: u64, b: u64) returns (z: u64)
    modifies env`exceptionFlags
    ensures Outcome(z, env.exceptionFlags)
         == Accrued(old(env.exceptionFlags), DivSpec(env.roundingMode, a, b))
  {
    hide DivSpec, Mag, Scale, SameCell, Round, MagValue, Times, MagQuotient;
    hide ExpField, FracField, Pack, IsSigNaN, Sticky, WithHidden;
    ghost var mode := env.roundingMode;
    Fields(a);
    Fields(b);
    SpecialQuotients(mode, a, b);
    var expA, sigA := ExpField(a), FracField(a);
    var expB, sigB := ExpField(b), FracField(b);
    var signZ := SignBit(a) != SignBit(b);
    if expA == 0x7FF {
      if sigA != 0 || (expB == 0x7FF && sigB != 0) {
        z := AddSub.PropagateNaNF64UI(env, a, b);
      } else if expB == 0x7FF {
        env.RaiseFlags({Invalid});
        z := DEFAULT_NAN;
      } else {
        z := Pack(signZ, 0x7FF, 0);
      }
      return;
    }
    if expB == 0x7FF {
      if sigB != 0 {
        z := AddSub.PropagateNaNF64UI(env, a, b);
      } else {
        z := Pack(signZ, 0, 0);
      }
      return;
    }
    if expB == 0 && sigB == 0 {
      if expA == 0 && sigA == 0 {
        env.RaiseFlags({Invalid});
        z := DEFAULT_NAN;
      } else {
        env.RaiseFlags({Infinity});
        z := Pack(signZ, 0x7FF, 0);
      }
      return;
    }
    if expA == 0 && sigA == 0 {
      z := Pack(signZ, 0, 0);
      return;
    }
    ghost var x: real;
    var expZ, sigZ;
    expZ, sigZ, x := FiniteQuotient(a, b);
    z := RoundPackToF64(env, signZ, expZ, sigZ, x);
  }

  /** The estimate, corrected to the exact floor with a sticky bit whenever its
      low nine bits leave the rounding in doubt. */
  method QuotientDigits(sigA: u64, sigB: u64, ghost x: real) returns (sigZ: u64)
    requires sigB >= HALF && sigA < sigB && x * sigB as real == (sigA * W64) as real
    requires TOP as real <= x <= (SIGN - 0x400) as real
    ensures TOP <= sigZ < SIGN && SameCell(x, sigZ, 0x200)
  {
    hide Times, Quotient, SameCell, Behind, U128.Val;
    ghost var q, r := FloorOf(sigA, sigB, x);
    QuotientRange(x, q);
    sigZ := EstimateDiv128To64(sigA, 0, sigB);
    if sigZ % 0x200 <= 2 {
      var term := Mul64To128(sigB, sigZ);
      var rem := Sub128(sigA, 0, term.v64, term.v0);
      StartBehind(sigA, sigB, sigZ, q, r, term, rem);
      while rem.v64 >= HALF
        invariant q <= sigZ <= q + 2 && Behind(rem, r, sigB, sigZ - q)
        decreases sigZ
      {
        ghost var rem0 := rem;
        rem := Add128(rem.v64, rem.v0, 0, sigB);
        CatchUp(rem0, r, sigB, sigZ - q, rem);
        sigZ := sigZ - 1;
      }
      CaughtUp(rem, r, sigB, sigZ - q);
      CellOfFloor(x, q, r != 0);
      sigZ := Sticky(sigZ, rem.v0 != 0);
    } else {
      EstimateSuffices(x, q, sigZ);
    }
  }

  lemma FloorOf(sigA: u64, sigB: u64, x: real) returns (q: nat, r: nat)
    requires sigB > 0 && x * sigB as real == (sigA * W64) as real
    ensures q == Quotient(sigA, 0, sigB) && r < sigB && sigA * W64 == Times(q, sigB) + r
    ensures q as real <= x < (q + 1) as real
    ensures x == q as real <==> r == 0
  {
    var n := sigA * W64;
    q, r := n / sigB, n % sigB;
    DivMod(n, sigB);
    AddMul(q, 1, sigB);
    FloorOfRatio(x, q, sigB, n);
  }

  lemma FloorOfRatio(x: real, q: nat, d: nat, n: nat)
    requires d > 0 && x * d as real == n as real && q * d <= n < (q + 1) * d
    ensures q as real <= x < (q + 1) as real
    ensures x == q as real <==> n == q * d
  {
    RatioOrder(x, d, n, q);
    RatioOrder(x, d, n, q + 1);
  }

  /** Comparing n/d with a whole number is comparing n with its multiple. */
  lemma RatioOrder(x: real, d: nat, n: nat, c: nat)
    requires d > 0 && x * d as real == n as real
    ensures x < c as real <==> n < c * d
    ensures x == c as real <==> n == c * d
  {
    RealOfProduct(c, d);
    if x < c as real {
      RealMulLess(x, c as real, d as real);
    } else if x > c as real {
      RealMulLess(c as real, x, d as real);
    }
  }

  lemma QuotientRange(x: real, q: nat)
    requires q as real <= x < (q + 1) as real && TOP as real <= x <= (SIGN - 0x400) as real
    ensures TOP <= q <= SIGN - 0x400
  {
  }

  /** Low bits above 2: the true quotient shares the estimate's rounding cell. */
  lemma EstimateSuffices(x: real, q: nat, z: nat)
    requires q as real <= x < (q + 1) as real && q <= z <= q + 2 && z % 0x200 > 2
    ensures SameCell(x, z, 0x200)
  {
    assert z / 0x200 * 0x200 <= q && q + 1 <= z / 0x200 * 0x200 + 0x200;
    MakeCell(x, z, 0x200, z / 0x200);
  }

  lemma CellOfFloor(x: real, q: nat, inexact: bool)
    requires q as real <= x < (q + 1) as real && (x == q as real <==> !inexact)
    ensures SameCell(x, Sticky(q, inexact), 0x200)
  {
    hide SameCell, Sticky;
    if inexact { MakeOddCell(x, q); } else { EqualCell(x, q, 2); }
    CellCoarsen(x, Sticky(q, inexact), 2, 0x100);
  }

  /** rem is r - k*b in two's complement: the trial quotient is k too large. */
  ghost predicate Behind(rem: U128, r: nat, b: u64, k: int) {
    0 <= k <= 2 && r < b && rem.Val() == (if k == 0 then r else if k == 1 then r - b else r - b - b) % W128
  }

  lemma StartBehind(sigA: u64, b: u64, z: u64, q: nat, r: nat, term: U128, rem: U128)
    requires q <= z <= q + 2 && term.Val() == Times(b, z) && r < b && sigA * W64 == Times(q, b) + r
    requires rem.Val() == (sigA * W64 + 0 - (term.v64 * W64 + term.v0)) % W128
    ensures Behind(rem, r, b, z - q)
  {
    hide Times;
    TrialTimes(b, q, z - q);
    ValIs(term);
  }

  lemma TrialTimes(b: nat, q: nat, k: int)
    requires 0 <= k <= 2
    ensures Times(b, q + k) == Times(q, b) + if k == 0 then 0 else if k == 1 then b else b + b
  {
    AddMul(q, k, b);
    TrialProduct(b, k);
  }

  lemma TrialProduct(b: nat, k: int)
    requires 0 <= k <= 2
    ensures k * b == if k == 0 then 0 else if k == 1 then b else b + b
  {
  }

  lemma CatchUp(rem: U128, r: nat, b: u64, k: int, rem': U128)
    requires Behind(rem, r, b, k) && rem.v64 >= HALF
    requires rem'.Val() == (rem.v64 * W64 + rem.v0 + (0 * W64 + b)) % W128
    ensures k >= 1 && Behind(rem', r, b, k - 1)
  {
    var v := if k == 0 then r else if k == 1 then r - b else r - b - b;
    ModAbsorbs(v, b);
    ValIs(rem);
    BehindSign(rem, r, b, k);
  }

  lemma BehindSign(rem: U128, r: nat, b: u64, k: int)
    requires Behind(rem, r, b, k)
    ensures rem.v64 >= HALF <==> k >= 1
  {
  }

  lemma CaughtUp(rem: U128, r: nat, b: u64, k: int)
    requires Behind(rem, r, b, k) && rem.v64 < HALF
    ensures k == 0 && rem.v0 == r
  {
  }

  lemma SpecialQuotients(mode: RoundingMode, a: u64, b: u64)
    ensures var spec, sign := DivSpec(mode, a, b), SignBit(a) != SignBit(b);
            && (IsNaN(a) || IsNaN(b) ==> spec == NaNResult(IsSigNaN(a) || IsSigNaN(b)))
            && (IsInf(a) && IsInf(b) ==> spec == NaNResult(true))
            && (IsZero(a) && IsZero(b) ==> spec == NaNResult(true))
            && (IsInf(a) && IsFinite(b) ==> spec == Outcome(Pack(sign, 0x7FF, 0), {}))
            && (IsFinite(a) && IsInf(b) ==> spec == Outcome(Pack(sign, 0, 0), {}))
            && (IsFinite(a) && !IsZero(a) && IsZero(b) ==> spec == Outcome(Pack(sign, 0x7FF, 0), {Infinity}))
            && (IsZero(a) && IsFinite(b) && !IsZero(b) ==> spec == Outcome(Pack(sign, 0, 0), {}))
            && (IsFinite(a) && IsFinite(b) && !IsZero(b) ==> spec == Round(mode, sign, MagQuotient(a, b)))
  {
    hide Round, MagValue, MagQuotient;
    var sign := SignBit(a) != SignBit(b);
    ZeroOnly(b);
    if IsFinite(a) && IsFinite(b) && !IsZero(b) {
      ValueQuotient(a, b);
      SignedRound(mode, sign, MagQuotient(a, b), Value(a) / Value(b), sign);
      if IsZero(a) { RoundZero(mode, sign); }
    }
    hide RoundSigned, Value;
  }

  ghost function MagQuotient(a: u64, b: u64): (p: real)
    requires !IsZero(b)
    ensures p >= 0.0
  {
    ZeroOnly(a); ZeroOnly(b);
    MagMono(Mag(a), Mag(a));
    RealQuotientSigns(MagValue(Mag(a)), MagValue(Mag(b)));
    MagValue(Mag(a)) / MagValue(Mag(b))
  }

  lemma RealQuotientSigns(p: real, q: real)
    requires p >= 0.0 && q > 0.0
    ensures p / q >= 0.0 && (-p) / q == -(p / q) && p / (-q) == -(p / q) && (-p) / (-q) == p / q
    ensures p == 0.0 ==> p / q == 0.0
  {
  }

  lemma ValueQuotient(a: u64, b: u64)
    requires !IsZero(b)
    ensures Value(b) != 0.0
    ensures Value(a) / Value(b) == if SignBit(a) != SignBit(b) then -MagQuotient(a, b) else MagQuotient(a, b)
    ensures IsZero(a) ==> MagQuotient(a, b) == 0.0
  {
    hide Scale, Sig, Ex;
    ZeroOnly(a);
    ZeroOnly(b);
    hide MagValue;
    MagMono(Mag(a), Mag(a));
    RealQuotientSigns(MagValue(Mag(a)), MagValue(Mag(b)));
  }

  /** The exact quotient as a significand: sigA * 2^64 / sigB. */
  lemma MagQuotientIs(a: u64, b: u64, sa: nat, sb: nat, ea: int, eb: int, sigA: u64, e: int) returns (x: real)
    requires !IsZero(b) && FRAC <= sa < 2 * FRAC && FRAC <= sb < 2 * FRAC
    requires MagValue(Mag(a)) == Scale(sa as real, ea - 1075) && MagValue(Mag(b)) == Scale(sb as real, eb - 1075)
    requires if sb * 0x800 <= 2 * (sa * 0x400) then sigA == sa * 0x200 && e == ea - eb + 0x3FE
             else sigA == sa * 0x400 && e == ea - eb + 0x3FD
    ensures sigA < sb * 0x800 && x * (sb * 0x800) as real == (sigA * W64) as real
    ensures TOP as real <= x <= (SIGN - 0x400) as real
    ensures MagQuotient(a, b) == Scale(x, e - 1084)
  {
    hide Scale, MagValue, MagQuotient;
    x := Ratio(sigA * W64, sb * 0x800);
    QuotientRange64(x, sa, sb, sigA);
    RatioScaled(x, sa, sb, sigA, ea, eb, e);
    QuotientOfMags(a, b, Scale(x, e - 1084));
  }

  lemma QuotientOfMags(a: u64, b: u64, r: real)
    requires !IsZero(b) && r * MagValue(Mag(b)) == MagValue(Mag(a))
    ensures MagQuotient(a, b) == r
  {
    ZeroOnly(b);
    assert MagQuotient(a, b) == MagValue(Mag(a)) / MagValue(Mag(b));
    hide MagValue;
    DivideScaled(MagValue(Mag(a)), MagValue(Mag(b)), r);
  }

  lemma QuotientRange64(x: real, sa: nat, sb: nat, sigA: u64)
    requires FRAC <= sa < 2 * FRAC && FRAC <= sb < 2 * FRAC
    requires sigA == if sb * 0x800 <= 2 * (sa * 0x400) then sa * 0x200 else sa * 0x400
    requires x * (sb * 0x800) as real == (sigA * W64) as real
    ensures sigA < sb * 0x800 && TOP as real <= x <= (SIGN - 0x400) as real
  {
    QuotientBounds(sa, sb, sigA);
    RatioOrder(x, sb * 0x800, sigA * W64, TOP);
    RatioOrder(x, sb * 0x800, sigA * W64, SIGN - 0x400);
  }

  lemma Ratio(n: nat, d: nat) returns (x: real)
    requires d > 0
    ensures x * d as real == n as real
  {
    x := n as real / d as real;
  }

  lemma DivideScaled(p: real, q: real, r: real)
    requires q > 0.0 && r * q == p
    ensures p / q == r
  {
  }

  lemma QuotientBounds(sa: nat, sb: nat, sigA: u64)
    requires FRAC <= sa < 2 * FRAC && FRAC <= sb < 2 * FRAC
    requires sigA == if sb * 0x800 <= 2 * (sa * 0x400) then sa * 0x200 else sa * 0x400
    ensures sigA < sb * 0x800
    ensures TOP * (sb * 0x800) <= sigA * W64 <= (SIGN - 0x400) * (sb * 0x800)
  {
  }

  lemma RatioScaled(x: real, sa: nat, sb: nat, sigA: u64, ea: int, eb: int, e: int)
    requires sa > 0 && x * (sb * 0x800) as real == (sigA * W64) as real
    requires (sigA == sa * 0x200 && e == ea - eb + 0x3FE) || (sigA == sa * 0x400 && e == ea - eb + 0x3FD)
    ensures Scale(x, e - 1084) * Scale(sb as real, eb - 1075) == Scale(sa as real, ea - 1075)
  {
    hide Scale;
    var y := x * sb as real;
    ScaleProduct(x, sb as real, e - 1084, eb - 1075, y);
    var base := e - 1084 + (eb - 1075) - 11;
    assert (sb * 0x800) as real == sb as real * 2048.0;
    Regroup(x, sb as real, (sigA * W64) as real);
    Pow2Small();
    ScaleUp(y, base, 11, (sigA * W64) as real);
    if sigA == sa * 0x200 {
      TwoPowers(9);
      ScaleUp(sa as real, base, 73, (sigA * W64) as real);
    } else {
      TwoPowers(10);
      ScaleUp(sa as real, base, 74, (sigA * W64) as real);
    }
  }

  lemma Regroup(x: real, s: real, n: real)
    requires x * (s * 2048.0) == n
    ensures (x * s) * 2048.0 == n
  {
  }

  lemma TwoPowers(j: nat)
    ensures Pow2(j + 64) == Pow2(j) * W64
  {
    Pow2Add(j, 64);
    Pow2Values();
  }
}
