/** Binary64 addition and subtraction (softfloat/f64_add.c, f64_sub.c,
    s_addMagsF64.c and s_subMagsF64.c). */
module AddSub {
  import opened Arith
  import opened Powers
  import opened Binary64
  import opened Jam
  import opened Cells
  import opened RoundPack
  import opened Normalise
  import opened Ieee

  method F64Add(env: FpEnv, a: u64, b: u64) returns (z: u64)
    modifies env`exceptionFlags
    ensures Outcome(z, env.exceptionFlags)
         == Accrued(old(env.exceptionFlags), AddSpec(env.roundingMode, a, b))
  {
    hide AddSpec, Mag;
    Resigned(b);
    if SignBit(a) == SignBit(b) {
      z := AddMagsF64(env, a, b, SignBit(a));
    } else {
      z := SubMagsF64(env, a, b, SignBit(a));
    }
  }

  method F64Sub(env: FpEnv, a: u64, b: u64) returns (z: u64)
    modifies env`exceptionFlags
    ensures Outcome(z, env.exceptionFlags)
         == Accrued(old(env.exceptionFlags), AddSpec(env.roundingMode, a, WithSign(b, !SignBit(b))))
  {
    hide AddSpec, Mag;
    if SignBit(a) == SignBit(b) {
      z := SubMagsF64(env, a, b, SignBit(a));
    } else {
      z := AddMagsF64(env, a, b, SignBit(a));
    }
  }

  lemma Resigned(b: u64)
    ensures WithSign(b, SignBit(b)) == b
  {
    Fields(b);
  }

  // ---- operands

  /** A finite operand's significand k places up; subnormals are doubled
      because their exponent field is one too small. */
  function Operand(exp: nat, frac: nat, k: nat): nat {
    Shl(if exp != 0 then FRAC + frac else 2 * frac, k)
  }

  lemma OperandValue(ui: u64, k: nat)
    requires IsFinite(ui)
    ensures MagValue(Mag(ui)) == Scale(Operand(ExpField(ui), FracField(ui), k) as real, ExpField(ui) - 1075 - k)
  {
    hide Scale, Shl;
    Fields(ui);
    var e, f := ExpField(ui), FracField(ui);
    if e == 0 {
      ScaleTwice(f as real, 0 - 1075);
      ScaleDouble(f as real, 0 - 1075);
      ScaleShl(2 * f, k, 0 - 1075 - k);
    } else {
      ModIs(Mag(ui), e, f, FRAC);
      ScaleShl(FRAC + f, k, e - 1075 - k);
    }
  }

  lemma OperandBounds(exp: nat, frac: nat)
    requires frac < FRAC
    ensures Operand(exp, frac, 9) == (if exp != 0 then FRAC + frac else 2 * frac) * 0x200
    ensures Operand(exp, frac, 10) == (if exp != 0 then FRAC + frac else 2 * frac) * 0x400
    ensures Operand(exp, frac, 9) < TOP && Operand(exp, frac, 10) < SIGN
    ensures Operand(exp, frac, 9) % 2 == 0 && Operand(exp, frac, 10) % 0x400 == 0
    ensures exp != 0 ==> Operand(exp, frac, 10) >= TOP
  {
    Pow2Small();
    Multiples(if exp != 0 then FRAC + frac else 2 * frac);
  }

  lemma Multiples(m: nat)
    ensures (m * 0x200) % 2 == 0 && (m * 0x400) % 0x400 == 0
  {
    ModIs(m * 0x200, m * 0x100, 0, 2);
    ModIs(m * 0x400, m, 0, 0x400);
  }

  /** The operand of the smaller exponent moved into line: y is its exact
      position, the jammed word lies in the same cell. */
  lemma Aligned(s: u64, d: nat, e: int) returns (y: real)
    requires d >= 1
    ensures Scale(y, e) == Scale(s as real, e - d)
    ensures SameCell(y, Shift64RightJam(s, d), 2)
    ensures 0 <= Shift64RightJam(s, d) <= s / 2 + 1
    ensures s < SIGN ==> Shift64RightJam(s, d) < TOP
    ensures s < TOP ==> Shift64RightJam(s, d) < 0x2000_0000_0000_0000
    ensures s % 0x400 == 0 && y != Shift64RightJam(s, d) as real ==> Shift64RightJam(s, d) < 0x2000_0000_0000_0000
  {
    hide Pow2, Scale, SameCell, Shift64RightJam, JamShift;
    y := s as real / Pow2(d) as real;
    assert y * Pow2(d) as real == s as real;
    ScaleUp(y, e - d, d, s as real);
    Shift64RightJamIs(s, d);
    EqualCell(s as real, s, 1);
    CellJam(s as real, s, 1, Pow2(d), d, y);
    JamSize(s, d);
    if d <= 10 && s % 0x400 == 0 { JamExact(s, d, y); }
  }

  lemma JamSize(s: u64, d: nat)
    requires d >= 1
    ensures JamShift(s, d) <= s / 2 + 1
    ensures s < SIGN ==> JamShift(s, d) < TOP
    ensures s < TOP ==> JamShift(s, d) < 0x2000_0000_0000_0000
    ensures d >= 11 ==> JamShift(s, d) < 0x2000_0000_0000_0000
  {
    Pow2Mono(1, d);
    if d >= 11 { Pow2Mono(11, d); Pow2Small(); }
    ShrLo(s, d);
    assert Pow2(1) == 2;
    hide Pow2, Shr, Lo;
    ShrSmall(Shr(s, d), Pow2(d), s);
  }

  lemma ShrSmall(q: nat, p: nat, s: u64)
    requires p >= 2 && q * p <= s
    ensures q <= s / 2
    ensures p >= 0x800 ==> q <= s / 0x800
  {
    MulBound(q, 2, q, p);
    if p >= 0x800 { MulBound(q, 0x800, q, p); }
  }

  lemma JamExact(s: u64, d: nat, y: real)
    requires 1 <= d <= 10 && s % 0x400 == 0 && y * Pow2(d) as real == s as real
    ensures y == JamShift(s, d) as real
  {
    hide Pow2, Shr, Lo;
    var t := TenBitsDivide(s, d);
    ShrExact(s, d, t);
    ScaledEqualInt(y, t, Pow2(d), s);
  }

  lemma TenBitsDivide(s: nat, d: nat) returns (t: nat)
    requires d <= 10 && s % 0x400 == 0
    ensures s == t * Pow2(d)
  {
    Pow2Add(10 - d, d);
    Pow2Small();
    hide Pow2;
    t := s / 0x400 * Pow2(10 - d);
    Assoc(s / 0x400, Pow2(10 - d), Pow2(d));
  }

  // ---- s_addMagsF64.c

  method PropagateNaNF64UI(env: FpEnv, uiA: u64, uiB: u64) returns (z: u64)
    modifies env`exceptionFlags
    ensures Outcome(z, env.exceptionFlags)
         == Accrued(old(env.exceptionFlags), NaNResult(IsSigNaN(uiA) || IsSigNaN(uiB)))
  {
    if IsSigNaN(uiA) || IsSigNaN(uiB) { env.RaiseFlags({Invalid}); }
    z := DEFAULT_NAN;
  }

  /** The smaller significand, jammed into place, added to the larger. */
  method SumOfAligned(small: u64, big: u64) returns (sigZ: u64, ghost x: real)
    requires IsFinite(small) && IsFinite(big) && ExpField(small) < ExpField(big)
    ensures QUARTER <= sigZ < SIGN && Ready(x, sigZ, ExpField(big), MagValue(Mag(small)) + MagValue(Mag(big)))
  {
    hide Mag, Scale, Shift64RightJam, MagValue, Ready, Operand, ExpField, FracField;
    var expSmall, expBig := ExpField(small), ExpField(big);
    var sigSmall, sigBig := FracField(small) * 0x200, FracField(big) * 0x200;
    OperandBounds(expSmall, FracField(small));
    x := AddAligned(small, big);
    sigSmall := sigSmall + if expSmall != 0 then QUARTER else sigSmall;
    sigSmall := Shift64RightJam(sigSmall, expBig - expSmall);
    sigZ := QUARTER + sigSmall + sigBig;
  }

  /** uiB is taken to have the sign signZ: the routine adds magnitudes. */
  method AddMagsF64(env: FpEnv, uiA: u64, uiB: u64, signZ: bool) returns (z: u64)
    requires signZ == SignBit(uiA)
    modifies env`exceptionFlags
    ensures Outcome(z, env.exceptionFlags)
         == Accrued(old(env.exceptionFlags), AddSpec(env.roundingMode, uiA, WithSign(uiB, signZ)))
  {
    hide AddSpec, Mag, Scale, SameCell, Round, Shift64RightJam, Operand, MagValue;
    hide ExpField, FracField, Pack, IsSigNaN, NaNResult, WithSign;
    ghost var mode := env.roundingMode;
    Fields(uiA);
    Fields(uiB);
    SpecialSums(mode, uiA, uiB, signZ);
    var expA, sigA := ExpField(uiA), FracField(uiA);
    var expB, sigB := ExpField(uiB), FracField(uiB);
    OperandBounds(expA, sigA);
    OperandBounds(expB, sigB);
    var expDiff: int := expA - expB;
    sigA := sigA * 0x200;
    sigB := sigB * 0x200;
    var expZ: int, sigZ: nat;
    ghost var x: real;
    if expDiff == 0 {
      if expA == 0x7FF {
        if sigA != 0 || sigB != 0 {
          z := PropagateNaNF64UI(env, uiA, uiB);
        } else {
          z := uiA;
        }
        return;
      }
      if expA == 0 {
        z := Pack(signZ, 0, (uiA + uiB) % W64 % SIGN);
        AddSubnormals(mode, uiA, uiB, signZ);
        WordSum(uiA, uiB);
        return;
      }
      expZ := expA;
      sigZ := TOP + sigA + sigB;
      x := AddSameExponent(uiA, uiB);
    } else {
      if expDiff < 0 {
        if expB == 0x7FF {
          if sigB != 0 {
            z := PropagateNaNF64UI(env, uiA, uiB);
          } else {
            z := Pack(signZ, 0x7FF, 0);
          }
          return;
        }
        expZ := expB;
        sigZ, x := SumOfAligned(uiA, uiB);
      } else {
        if expA == 0x7FF {
          if sigA != 0 {
            z := PropagateNaNF64UI(env, uiA, uiB);
          } else {
            z := uiA;
          }
          return;
        }
        expZ := expA;
        sigZ, x := SumOfAligned(uiB, uiA);
      }
      if sigZ < TOP {
        expZ := expZ - 1;
        sigZ := sigZ * 2;
      }
    }
    z := RoundPackToF64(env, signZ, expZ, sigZ, x);
    SumOfMagnitudes(mode, uiA, uiB, signZ);
  }

  // ---- s_subMagsF64.c

  /** The smaller significand, jammed into place, taken from the larger. */
  method DifferenceOfAligned(small: u64, big: u64) returns (sigZ: u64, ghost x: real)
    requires IsFinite(small) && IsFinite(big) && ExpField(small) < ExpField(big)
    ensures sigZ < SIGN && CanNormalise(x, sigZ)
    ensures Scale(x, ExpField(big) - 1 - 1084) == MagValue(Mag(big)) - MagValue(Mag(small)) > 0.0
  {
    hide Mag, Scale, Shift64RightJam, MagValue, CanNormalise, Operand, ExpField, FracField;
    var expSmall, expBig := ExpField(small), ExpField(big);
    var sigSmall, sigBig := FracField(small) * 0x400, FracField(big) * 0x400;
    OperandBounds(expSmall, FracField(small));
    x := SubAligned(small, big);
    sigSmall := sigSmall + if expSmall != 0 then TOP else sigSmall;
    sigSmall := Shift64RightJam(sigSmall, expBig - expSmall);
    sigBig := sigBig + TOP;
    sigZ := sigBig - sigSmall;
  }

  /** uiB is taken to have the opposite sign: the routine subtracts magnitudes. */
  method SubMagsF64(env: FpEnv, uiA: u64, uiB: u64, sign: bool) returns (z: u64)
    requires sign == SignBit(uiA)
    modifies env`exceptionFlags
    ensures Outcome(z, env.exceptionFlags)
         == Accrued(old(env.exceptionFlags), AddSpec(env.roundingMode, uiA, WithSign(uiB, !sign)))
  {
    hide AddSpec, Mag, Scale, SameCell, Round, Shift64RightJam, Operand, MagValue;
    hide ExpField, FracField, Pack, IsSigNaN, WithSign;
    ghost var mode := env.roundingMode;
    Fields(uiA);
    Fields(uiB);
    SpecialSums(mode, uiA, uiB, !sign);
    DifferenceOfMagnitudes(mode, uiA, uiB, sign);
    var signZ := sign;
    var expA, sigA := ExpField(uiA), FracField(uiA);
    var expB, sigB := ExpField(uiB), FracField(uiB);
    OperandBounds(expA, sigA);
    OperandBounds(expB, sigB);
    var expDiff := expA - expB;
    sigA := sigA * 0x400;
    sigB := sigB * 0x400;
    var expZ: int, sigZ: int;
    ghost var x: real;
    if expDiff == 0 {
      if expA == 0x7FF {
        if sigA != 0 || sigB != 0 {
          z := PropagateNaNF64UI(env, uiA, uiB);
        } else {
          env.RaiseFlags({Invalid});
          z := DEFAULT_NAN;
        }
        return;
      }
      x := SubSameExponent(uiA, uiB);
      expZ := if expA == 0 then 1 else expA;
      if sigA == sigB {
        z := Pack(env.roundingMode == Min, 0, 0);
        return;
      }
      if sigB < sigA {
        sigZ := sigA - sigB;
      } else {
        signZ := !signZ;
        sigZ := sigB - sigA;
      }
    } else if expDiff < 0 {
      if expB == 0x7FF {
        if sigB != 0 {
          z := PropagateNaNF64UI(env, uiA, uiB);
        } else {
          z := Pack(!signZ, 0x7FF, 0);
        }
        return;
      }
      signZ := !signZ;
      expZ := expB;
      sigZ, x := DifferenceOfAligned(uiA, uiB);
    } else {
      if expA == 0x7FF {
        if sigA != 0 {
          z := PropagateNaNF64UI(env, uiA, uiB);
        } else {
          z := uiA;
        }
        return;
      }
      expZ := expA;
      sigZ, x := DifferenceOfAligned(uiB, uiA);
    }
    z := NormRoundPackToF64(env, signZ, expZ - 1, sigZ, x);
  }

  /** The difference of magnitudes takes the sign of the larger. */
  lemma DifferenceOfMagnitudes(mode: RoundingMode, a: u64, b: u64, sign: bool)
    requires sign == SignBit(a)
    ensures IsFinite(a) && IsFinite(b) ==>
            var d := MagValue(Mag(a)) - MagValue(Mag(b));
            var spec := AddSpec(mode, a, WithSign(b, !sign));
            && (d > 0.0 ==> spec == Round(mode, sign, d))
            && (d < 0.0 ==> spec == Round(mode, !sign, -d))
            && (d == 0.0 ==> spec == Outcome(Pack(mode == Min, 0, 0), {}))
  {
    hide Round, MagValue, RoundSigned;
    var c := WithSign(b, !sign);
    var d := MagValue(Mag(a)) - MagValue(Mag(b));
    if !IsFinite(a) || !IsFinite(b) { return; }
    var zero := ZeroSumSign(mode, sign, !sign);
    assert Value(a) + Value(c) == if sign then -d else d;
    if d > 0.0 {
      SignedRound(mode, sign, d, Value(a) + Value(c), zero);
    } else if d < 0.0 {
      SignedRound(mode, !sign, -d, Value(a) + Value(c), zero);
    } else {
      SignedRound(mode, zero, d, Value(a) + Value(c), zero);
      RoundZero(mode, zero);
      PackIs(zero, 0, 0);
    }
  }

  lemma SubSameExponent(a: u64, b: u64) returns (x: real)
    requires IsFinite(a) && IsFinite(b) && ExpField(a) == ExpField(b)
    ensures var p, q := FracField(a) * 0x400, FracField(b) * 0x400;
            var e := if ExpField(a) == 0 then 1 else ExpField(a);
            && x == (if q < p then p - q else q - p) as real
            && Scale(x, e - 1 - 1084)
               == (if q < p then MagValue(Mag(a)) - MagValue(Mag(b)) else MagValue(Mag(b)) - MagValue(Mag(a)))
            && (MagValue(Mag(a)) < MagValue(Mag(b)) <==> p < q)
            && (MagValue(Mag(a)) == MagValue(Mag(b)) <==> p == q)
  {
    hide Scale, MagValue, Operand, Mag, ExpField, FracField;
    OperandValue(a, 10);
    OperandValue(b, 10);
    OperandBounds(ExpField(a), FracField(a));
    OperandBounds(ExpField(b), FracField(b));
    var p, q := FracField(a) * 0x400, FracField(b) * 0x400;
    if q < p {
      x := ScaledDifference(p, q, ExpField(a));
    } else {
      x := ScaledDifference(q, p, ExpField(a));
    }
  }

  /** Significands without the hidden bit have the same difference. */
  lemma ScaledDifference(p: nat, q: nat, exp: int) returns (x: real)
    requires p >= q && exp >= 0
    ensures x == (p - q) as real
    ensures var e := if exp == 0 then 1 else exp;
            var f := (n: int) => if exp == 0 then 2 * n else FRAC * 0x400 + n;
            Scale(x, e - 1085) == Scale(f(p) as real, exp - 1085) - Scale(f(q) as real, exp - 1085)
            && (Scale(f(p) as real, exp - 1085) == Scale(f(q) as real, exp - 1085) <==> p == q)
            && (Scale(f(q) as real, exp - 1085) < Scale(f(p) as real, exp - 1085) <==> q < p)
  {
    hide Scale;
    x := (p - q) as real;
    var f := (n: int) => if exp == 0 then 2 * n else FRAC * 0x400 + n;
    ScaleSum(f(p) as real, f(q) as real, exp - 1085);
    ScaleOrder(f(p) as real, f(q) as real, exp - 1085);
    ScaleOrder(f(q) as real, f(p) as real, exp - 1085);
    if exp == 0 {
      ScaleDouble(x, 0 - 1085);
      ScaleTwice(x, 0 - 1085);
    }
  }

  lemma SubAligned(small: u64, big: u64) returns (x: real)
    requires IsFinite(small) && IsFinite(big) && ExpField(small) < ExpField(big)
    ensures AlignedWord(small, big, 10) < TOP + FracField(big) * 0x400 < SIGN
    ensures CanNormalise(x, TOP + FracField(big) * 0x400 - AlignedWord(small, big, 10))
    ensures Scale(x, ExpField(big) - 1 - 1084) == MagValue(Mag(big)) - MagValue(Mag(small)) > 0.0
  {
    Fields(small);
    Fields(big);
    hide Scale, MagValue, Operand, Shift64RightJam, CanNormalise, ExpField, FracField;
    MagInjective(Mag(small), Mag(big));
    OperandValue(small, 10);
    OperandValue(big, 10);
    OperandBounds(ExpField(small), FracField(small));
    OperandBounds(ExpField(big), FracField(big));
    x := AlignedDifference(Operand(ExpField(small), FracField(small), 10), Operand(ExpField(big), FracField(big), 10),
                           ExpField(big) - ExpField(small), ExpField(big));
  }

  lemma AlignedDifference(p: u64, q: nat, d: nat, e: int) returns (x: real)
    requires d >= 1 && p < SIGN && p % 0x400 == 0 && TOP <= q < SIGN && q % 2 == 0
    ensures Shift64RightJam(p, d) < q
    ensures CanNormalise(x, q - Shift64RightJam(p, d))
    ensures Scale(x, e - 1085) == Scale(q as real, e - 1085) - Scale(p as real, e - 1085 - d)
  {
    hide Scale, SameCell, Shift64RightJam;
    var y := Aligned(p, d, e - 1085);
    ScaleSum(q as real, y, e - 1085);
    CellPlusEven(y, Shift64RightJam(p, d), q);
    x := q as real - y;
  }

  lemma SpecialSums(mode: RoundingMode, a: u64, b: u64, sign: bool)
    ensures var spec := AddSpec(mode, a, WithSign(b, sign));
            && (IsNaN(a) || IsNaN(b) ==> spec == NaNResult(IsSigNaN(a) || IsSigNaN(b)))
            && (IsInf(a) && !IsNaN(b) && !(IsInf(b) && SignBit(a) != sign) ==> spec == Outcome(a, {}))
            && (IsInf(a) && IsInf(b) && SignBit(a) != sign ==> spec == NaNResult(true))
            && (IsFinite(a) && IsInf(b) ==> spec == Outcome(Pack(sign, 0x7FF, 0), {}))
  {
    hide RoundSigned, Value;
  }

  /** Magnitudes of one sign add up to a value of that sign. */
  lemma SumOfMagnitudes(mode: RoundingMode, a: u64, b: u64, sign: bool)
    requires IsFinite(a) && IsFinite(b) && sign == SignBit(a)
    ensures MagValue(Mag(a)) + MagValue(Mag(b)) >= 0.0
    ensures AddSpec(mode, a, WithSign(b, sign)) == Round(mode, sign, MagValue(Mag(a)) + MagValue(Mag(b)))
  {
    hide Round, MagValue, RoundSigned;
    var c := WithSign(b, sign);
    MagMono(Mag(a), Mag(a));
    MagMono(Mag(b), Mag(b));
    SignedRound(mode, sign, MagValue(Mag(a)) + MagValue(Mag(b)), Value(a) + Value(c), ZeroSumSign(mode, sign, sign));
  }

  lemma AddSubnormals(mode: RoundingMode, a: u64, b: u64, sign: bool)
    requires ExpField(a) == 0 && ExpField(b) == 0 && sign == SignBit(a)
    ensures AddSpec(mode, a, WithSign(b, sign)) == Outcome(Pack(sign, 0, Mag(a) + Mag(b)), {})
    ensures Mag(a) + Mag(b) < SIGN
  {
    hide *;
    SubnormalMag(a);
    SubnormalMag(b);
    SubnormalSum(Mag(a), Mag(b));
    SumOfMagnitudes(mode, a, b, sign);
    PackedSum(mode, sign, Mag(a) + Mag(b), MagValue(Mag(a)) + MagValue(Mag(b)));
  }

  lemma PackedSum(mode: RoundingMode, sign: bool, s: nat, v: real)
    requires s < INF && s < SIGN && v == MagValue(s)
    ensures v >= 0.0 && Round(mode, sign, v) == Outcome(Pack(sign, 0, s), {})
  {
    RoundExact(mode, sign, s);
    PackSubnormal(sign, s);
    hide Round, MagValue;
  }

  lemma PackSubnormal(sign: bool, s: nat)
    requires s < INF
    ensures Pack(sign, 0, s) == PackMag(sign, s)
  {
    PackIs(sign, 0, s);
  }

  lemma SubnormalMag(ui: u64)
    requires ExpField(ui) == 0
    ensures Mag(ui) < FRAC && IsFinite(ui)
  {
    Fields(ui);
  }

  lemma SubnormalSum(m: nat, n: nat)
    requires m < FRAC && n < FRAC
    ensures MagValue(m) + MagValue(n) == MagValue(m + n) && m + n < INF && m + n < SIGN
  {
    hide Scale;
    assert Sig(m + n) == m + n && Ex(m + n) == 1;
    ScaleSum(m as real, n as real, 0 - 1074);
  }

  lemma WordSum(a: u64, b: u64)
    requires Mag(a) + Mag(b) < SIGN
    ensures (a + b) % W64 % SIGN == Mag(a) + Mag(b)
  {
  }

  lemma AddSameExponent(a: u64, b: u64) returns (x: real)
    requires IsFinite(a) && IsFinite(b) && ExpField(a) == ExpField(b) != 0
    ensures Scale(x, ExpField(a) - 1084) == MagValue(Mag(a)) + MagValue(Mag(b))
    ensures SameCell(x, TOP + FracField(a) * 0x200 + FracField(b) * 0x200, 0x200)
  {
    hide Scale, MagValue, Operand, SameCell;
    OperandValue(a, 9);
    OperandValue(b, 9);
    OperandBounds(ExpField(a), FracField(a));
    OperandBounds(ExpField(b), FracField(b));
    var p, q := Operand(ExpField(a), FracField(a), 9), Operand(ExpField(b), FracField(b), 9);
    x := (p + q) as real;
    ScaleSum(p as real, q as real, ExpField(a) - 1084);
    EqualCell(x, p + q, 0x200);
  }

  /** The word the code adds the smaller operand as. */
  function AlignedWord(small: u64, big: u64, k: nat): u64
    requires ExpField(small) < ExpField(big)
  {
    Shift64RightJam(Operand(ExpField(small), FracField(small), k) % W64, ExpField(big) - ExpField(small))
  }

  lemma AddAligned(small: u64, big: u64) returns (x: real)
    requires IsFinite(small) && IsFinite(big) && ExpField(small) < ExpField(big)
    ensures QUARTER + AlignedWord(small, big, 9) + FracField(big) * 0x200 < SIGN
    ensures Ready(x, QUARTER + AlignedWord(small, big, 9) + FracField(big) * 0x200, ExpField(big),
                  MagValue(Mag(small)) + MagValue(Mag(big)))
  {
    hide Scale, MagValue, Operand, Shift64RightJam, Ready, Mag, ExpField, FracField;
    OperandValue(small, 9);
    OperandValue(big, 9);
    OperandBounds(ExpField(small), FracField(small));
    OperandBounds(ExpField(big), FracField(big));
    x := AlignedSum(Operand(ExpField(small), FracField(small), 9), Operand(ExpField(big), FracField(big), 9),
                    ExpField(big) - ExpField(small), ExpField(big));
  }

  lemma AlignedSum(p: u64, q: nat, d: nat, e: int) returns (x: real)
    requires d >= 1 && p < TOP && q < TOP && q % 2 == 0
    ensures q + Shift64RightJam(p, d) < SIGN
    ensures Ready(x, q + Shift64RightJam(p, d), e, Scale(p as real, e - 1084 - d) + Scale(q as real, e - 1084))
  {
    hide Scale, SameCell, Shift64RightJam, Ready;
    var y := Aligned(p, d, e - 1084);
    ScaleSum(q as real, y, e - 1084);
    CellPlusEven(y, Shift64RightJam(p, d), q);
    x := NormalisedOnce(q as real + y, q + Shift64RightJam(p, d), e);
  }
}
