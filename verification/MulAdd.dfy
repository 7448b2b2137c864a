/** Fused multiply-add (softfloat/f64_mulAdd.c, s_mulAddF64.c with op 0) and
    the two instructions built on it (riscv/insns/fadd_d.h, fmul_d.h). */
module MulAdd {
  import opened Arith
  import opened Powers
  import opened MultiWord
  import opened Binary64
  import opened Jam
  import opened Cells
  import opened RoundPack
  import opened Normalise
  import opened Ieee
  import opened MulDiv

  method F64MulAdd(env: FpEnv, a: u64, b: u64, c: u64) returns (z: u64)
    modifies env`exceptionFlags
    ensures Outcome(z, env.exceptionFlags)
         == Accrued(old(env.exceptionFlags), FmaSpec(env.roundingMode, a, b, c))
  {
    hide FmaSpec, Mag;
    var special: bool;
    special, z := SpecialMulAdd(env, a, b, c);
    if !special {
      z := FiniteMulAdd(env, a, b, c);
    }
  }

  /** NaN and infinite operands and zero products, in the source's order. */
  method SpecialMulAdd(env: FpEnv, a: u64, b: u64, c: u64) returns (special: bool, z: u64)
    modifies env`exceptionFlags
    ensures special ==>
              Outcome(z, env.exceptionFlags) == Accrued(old(env.exceptionFlags), FmaSpec(env.roundingMode, a, b, c))
    ensures !special ==> env.exceptionFlags == old(env.exceptionFlags)
    ensures !special <==> IsFinite(a) && IsFinite(b) && IsFinite(c) && !IsZero(a) && !IsZero(b)
  {
    hide FmaSpec, Mag, ExpField, FracField, Pack, IsSigNaN;
    Fields(a);
    Fields(b);
    Fields(c);
    SpecialFmas(env.roundingMode, a, b, c);
    special := true;
    var signProd := SignBit(a) != SignBit(b);
    var expA, sigA := ExpField(a), FracField(a);
    var expB, sigB := ExpField(b), FracField(b);
    var signC, expC, sigC := SignBit(c), ExpField(c), FracField(c);
    if expA == 0x7FF || expB == 0x7FF {
      if (expA == 0x7FF && sigA != 0) || (expB == 0x7FF && sigB != 0) {
        z := AddSub.PropagateNaNF64UI(env, a, b);
        z := AddSub.PropagateNaNF64UI(env, z, c);
        return;
      }
      var magBits := if expA == 0x7FF then expB != 0 || sigB != 0 else expA != 0 || sigA != 0;
      if magBits {
        z := Pack(signProd, 0x7FF, 0);
        if expC != 0x7FF { return; }
        if sigC != 0 {
          z := AddSub.PropagateNaNF64UI(env, z, c);
          return;
        }
        if signProd == signC { return; }
      }
      env.RaiseFlags({Invalid});
      z := DEFAULT_NAN;
      z := AddSub.PropagateNaNF64UI(env, z, c);
      return;
    }
    if expC == 0x7FF {
      if sigC != 0 {
        z := AddSub.PropagateNaNF64UI(env, 0, c);
      } else {
        z := c;
      }
      return;
    }
    z := c;
    if (expA == 0 && sigA == 0) || (expB == 0 && sigB == 0) {
      if expC == 0 && sigC == 0 && signProd != signC {
        z := Pack(env.roundingMode == Min, 0, 0);
      }
      return;
    }
    special := false;
  }

  /** The product of the magnitudes, normalised, in two words. */
  method ExactProduct(a: u64, b: u64) returns (expProd: int, sigProd: U128)
    requires IsFinite(a) && IsFinite(b) && !IsZero(a) && !IsZero(b)
    ensures Normalised(sigProd, expProd, MagProduct(a, b)) && -0x1000 < expProd < 0x1000
  {
    hide Mag, Scale, MagValue, Times, MagProduct, Normalised, Shl, ExpField, FracField, WithHidden, U128.Val;
    Fields(a);
    Fields(b);
    FieldValue(a);
    FieldValue(b);
    var na := UnpackNormal(ExpField(a), FracField(a));
    var nb := UnpackNormal(ExpField(b), FracField(b));
    var sa, sb := WithHidden(na.sig), WithHidden(nb.sig);
    MagProductIs(a, b, sa, sb, na.exp, nb.exp);
    expProd := na.exp + nb.exp - 0x3FE;
    sigProd := Mul64To128(sa * 0x400, sb * 0x400);
    ProductWord(sa, sb, sigProd, expProd);
    if sigProd.v64 < QUARTER {
      expProd := expProd - 1;
      sigProd := ShortShift128Left(sigProd.v64, sigProd.v0, 1);
    }
  }

  /** The exact product, normalised, plus the addend. */
  method FiniteMulAdd(env: FpEnv, a: u64, b: u64, c: u64) returns (z: u64)
    requires IsFinite(a) && IsFinite(b) && IsFinite(c) && !IsZero(a) && !IsZero(b)
    modifies env`exceptionFlags
    ensures Outcome(z, env.exceptionFlags)
         == Accrued(old(env.exceptionFlags), FmaSpec(env.roundingMode, a, b, c))
  {
    hide FmaSpec, Mag, Scale, Round, MagValue, Times, MagProduct, Normalised, SameCell, Shl, B2N;
    hide ExpField, FracField, Pack, WithHidden, U128.Val;
    ghost var mode := env.roundingMode;
    Fields(c);
    var signProd, signC := SignBit(a) != SignBit(b), SignBit(c);
    var expC, sigC := ExpField(c), FracField(c);
    FieldValue(c);
    var expProd, sigProd := ExactProduct(a, b);
    if expC == 0 && sigC == 0 {
      ghost var x := DoubledProduct(sigProd, expProd, MagProduct(a, b));
      ZeroAddend(mode, a, b, c);
      var sigZ: u64 := sigProd.v64 * 2 + B2N(sigProd.v0 != 0);
      z := RoundPackToF64(env, signProd, expProd - 1, sigZ, x);
      return;
    }
    var nc := UnpackNormal(expC, sigC);
    AddendWord(c, WithHidden(nc.sig), nc.exp);
    FiniteFma(mode, a, b, c);
    z := AddToProduct(env, signProd, expProd, sigProd, signC, nc.exp, WithHidden(nc.sig) * 0x200,
                      MagProduct(a, b), MagValue(Mag(c)));
  }

  // ---- riscv/insns/fadd_d.h, fmul_d.h

  /** Addition through the fused routine delivers what the direct routine
      would, and moves the flags to the hart's fflags. */
  method FaddD(env: FpEnv, rm: RoundingMode, fflags: set<Flag>, frs1: u64, frs2: u64)
    returns (frd: u64, fflags': set<Flag>)
    modifies env
    ensures Outcome(frd, fflags') == Accrued(fflags + old(env.exceptionFlags), AddSpec(rm, frs1, frs2))
    ensures env.exceptionFlags == {} && env.roundingMode == rm
  {
    hide AddSpec, FmaSpec;
    env.roundingMode := rm;
    frd := F64MulAdd(env, frs1, 0x3FF0_0000_0000_0000, frs2);
    FmaByOneIsAdd(rm, frs1, frs2);
    fflags' := fflags + env.exceptionFlags;
    env.exceptionFlags := {};
  }

  method FmulD(env: FpEnv, rm: RoundingMode, fflags: set<Flag>, frs1: u64, frs2: u64)
    returns (frd: u64, fflags': set<Flag>)
    modifies env
    ensures Outcome(frd, fflags') == Accrued(fflags + old(env.exceptionFlags), MulSpec(rm, frs1, frs2))
    ensures env.exceptionFlags == {} && env.roundingMode == rm
  {
    hide MulSpec, FmaSpec;
    env.roundingMode := rm;
    frd := F64MulAdd(env, frs1, frs2, if SignBit(frs1) != SignBit(frs2) then SIGN else 0);
    FmaWithZeroIsMul(rm, frs1, frs2);
    fflags' := fflags + env.exceptionFlags;
    env.exceptionFlags := {};
  }

  // ---- what the exact sum rounds to

  /** The rounded sum of a product of magnitude p > 0 and sign s, and an
      addend of magnitude c and sign t. */
  ghost function SumOutcome(mode: RoundingMode, s: bool, p: real, t: bool, c: real): Outcome
    requires p > 0.0 && c >= 0.0
  {
    if s == t then Round(mode, s, p + c)
    else if p > c then Round(mode, s, p - c)
    else if p < c then Round(mode, t, c - p)
    else Outcome(Pack(mode == Min, 0, 0), {})
  }

  lemma FiniteFma(mode: RoundingMode, a: u64, b: u64, c: u64)
    requires IsFinite(a) && IsFinite(b) && IsFinite(c) && !IsZero(a) && !IsZero(b)
    ensures MagProduct(a, b) > 0.0 && MagValue(Mag(c)) >= 0.0
    ensures FmaSpec(mode, a, b, c)
         == SumOutcome(mode, SignBit(a) != SignBit(b), MagProduct(a, b), SignBit(c), MagValue(Mag(c)))
  {
    ProductPositive(a, b);
    MagMono(Mag(c), Mag(c));
    ValueProduct(a, b);
    hide Round, MagValue, MagProduct, RoundSigned;
    var s, p, t, m := SignBit(a) != SignBit(b), MagProduct(a, b), SignBit(c), MagValue(Mag(c));
    var zero := ZeroSumSign(mode, s, t);
    SignedSum(mode, s, p, t, m, Value(a) * Value(b) + Value(c), zero);
  }

  lemma ProductPositive(a: u64, b: u64)
    requires !IsZero(a) && !IsZero(b)
    ensures MagProduct(a, b) > 0.0
  {
    ZeroOnly(a);
    ZeroOnly(b);
    hide MagValue;
  }

  lemma SignedSum(mode: RoundingMode, s: bool, p: real, t: bool, c: real, v: real, zero: bool)
    requires p > 0.0 && c >= 0.0 && zero == ZeroSumSign(mode, s, t)
    requires v == (if s then -p else p) + (if t then -c else c)
    ensures RoundSigned(mode, v, zero) == SumOutcome(mode, s, p, t, c)
  {
    hide Round, RoundSigned;
    if s == t {
      SignedRound(mode, s, p + c, v, zero);
    } else if p > c {
      SignedRound(mode, s, p - c, v, zero);
    } else if p < c {
      SignedRound(mode, t, c - p, v, zero);
    } else {
      SignedRound(mode, zero, 0.0, v, zero);
      RoundZero(mode, zero);
      PackIs(zero, 0, 0);
    }
  }

  lemma ZeroAddend(mode: RoundingMode, a: u64, b: u64, c: u64)
    requires IsFinite(a) && IsFinite(b) && !IsZero(a) && !IsZero(b) && IsZero(c)
    ensures FmaSpec(mode, a, b, c) == Round(mode, SignBit(a) != SignBit(b), MagProduct(a, b))
  {
    assert IsFinite(c);
    FiniteFma(mode, a, b, c);
    ZeroOnly(c);
    hide *;
    PlusNothing(mode, SignBit(a) != SignBit(b), MagProduct(a, b), SignBit(c), MagValue(Mag(c)));
  }

  lemma PlusNothing(mode: RoundingMode, s: bool, p: real, t: bool, c: real)
    requires p > 0.0 && c == 0.0
    ensures SumOutcome(mode, s, p, t, c) == Round(mode, s, p)
  {
    hide Round;
  }

  lemma SpecialFmas(mode: RoundingMode, a: u64, b: u64, c: u64)
    ensures !IsSigNaN(DEFAULT_NAN) && !IsSigNaN(0) && forall s :: !IsSigNaN(Pack(s, 0x7FF, 0))
    ensures var spec, sign := FmaSpec(mode, a, b, c), SignBit(a) != SignBit(b);
            var badProduct := (IsInf(a) && IsZero(b)) || (IsZero(a) && IsInf(b));
            var infProduct := !IsNaN(a) && !IsNaN(b) && !badProduct && (IsInf(a) || IsInf(b));
            && (IsNaN(a) || IsNaN(b) ==> spec == NaNResult(IsSigNaN(a) || IsSigNaN(b) || IsSigNaN(c)))
            && (badProduct ==> spec == NaNResult(true))
            && (infProduct && IsFinite(c) ==> spec == Outcome(Pack(sign, 0x7FF, 0), {}))
            && (infProduct && IsNaN(c) ==> spec == NaNResult(IsSigNaN(c)))
            && (infProduct && IsInf(c) && SignBit(c) == sign ==> spec == Outcome(Pack(sign, 0x7FF, 0), {}))
            && (infProduct && IsInf(c) && SignBit(c) != sign ==> spec == NaNResult(true))
            && (IsFinite(a) && IsFinite(b) && IsNaN(c) ==> spec == NaNResult(IsSigNaN(c)))
            && (IsFinite(a) && IsFinite(b) && IsInf(c) ==> spec == Outcome(c, {}))
            && (IsFinite(a) && IsFinite(b) && IsFinite(c) && (IsZero(a) || IsZero(b)) ==>
                 spec ==
                   if IsZero(c) && sign != SignBit(c) then Outcome(Pack(mode == Min, 0, 0), {}) else Outcome(c, {}))
  {
    QuietDefaults();
    if IsFinite(a) && IsFinite(b) && IsFinite(c) && (IsZero(a) || IsZero(b)) {
      ZeroProduct(mode, a, b, c);
    }
    hide RoundSigned, Value, IsSigNaN;
  }

  lemma QuietDefaults()
    ensures !IsSigNaN(DEFAULT_NAN) && !IsSigNaN(0) && forall s :: !IsSigNaN(Pack(s, 0x7FF, 0))
  {
  }

  lemma ZeroProduct(mode: RoundingMode, a: u64, b: u64, c: u64)
    requires IsFinite(a) && IsFinite(b) && IsFinite(c) && (IsZero(a) || IsZero(b))
    ensures FmaSpec(mode, a, b, c)
         == if IsZero(c) && (SignBit(a) != SignBit(b)) != SignBit(c) then Outcome(Pack(mode == Min, 0, 0), {})
            else Outcome(c, {})
  {
    hide Round, MagValue, RoundSigned, MagProduct;
    ValueProduct(a, b);
    ZeroOnly(c);
    var zero := ZeroSumSign(mode, SignBit(a) != SignBit(b), SignBit(c));
    if IsZero(c) && zero != SignBit(c) {
      SignedRound(mode, zero, 0.0, 0.0, zero);
      RoundZero(mode, zero);
      PackIs(zero, 0, 0);
    } else {
      RoundFinite(mode, c, zero);
      if IsZero(c) { PackIs(zero, 0, 0); SameZero(c); }
    }
  }

  lemma SameZero(c: u64)
    requires IsZero(c)
    ensures PackMag(SignBit(c), 0) == c
  {
  }

  // ---- the normalised product

  const W20: nat := 0x10_0000

  /** A 128-bit significand with bit 125 leading and at least twenty trailing
      zeros, worth v at exponent e. */
  ghost predicate Normalised(w: U128, e: int, v: real) {
    && QUARTER <= w.v64 < TOP
    && w.v0 % W20 == 0
    && Scale(w.Val() as real, e - 1148) == v
  }

  lemma ProductWord(sa: nat, sb: nat, w: U128, e: int)
    requires FRAC <= sa < 2 * FRAC && FRAC <= sb < 2 * FRAC && w.Val() == Times(sa * 0x400, sb * 0x400)
    ensures var v := Scale(Times(sa, sb) as real, e - 1128);
            if w.v64 < QUARTER then Normalised(ShortShift128Left(w.v64, w.v0, 1), e - 1, v)
            else Normalised(w, e, v)
  {
    hide Scale, Normalised, U128.Val, ShortShift128Left;
    ProductBounds(sa, sb);
    hide Times;
    var n := Times(sa, sb);
    Pow2Values();
    ScaleUp(n as real, e - 1148, 20, (n * W20) as real);
    WordIs(w, n);
    if w.v64 < QUARTER {
      TwiceWord(w, n);
      ScaleTwice((n * W20) as real, e - 1149);
      ScaleDouble((n * W20) as real, e - 1149);
      MakeNormalised(ShortShift128Left(w.v64, w.v0, 1), e - 1, Scale(n as real, e - 1128), 2 * n);
    } else {
      MakeNormalised(w, e, Scale(n as real, e - 1128), n);
    }
  }

  lemma ProductBounds(sa: nat, sb: nat)
    requires FRAC <= sa < 2 * FRAC && FRAC <= sb < 2 * FRAC
    ensures Times(sa * 0x400, sb * 0x400) == Times(sa, sb) * W20
    ensures FRAC * FRAC <= Times(sa, sb) < 4 * FRAC * FRAC
  {
    MulBound(FRAC, FRAC, sa, sb);
    MulBound(sa, sb, 2 * FRAC - 1, 2 * FRAC - 1);
  }

  lemma WordIs(w: U128, n: nat)
    requires w.Val() == n * W20
    ensures n < FRAC * FRAC * 2 ==> w.v64 < QUARTER
    ensures w.v64 >= QUARTER ==> n >= FRAC * FRAC * 2
    ensures w.v64 < QUARTER ==> n < FRAC * FRAC * 2
  {
  }

  lemma TwiceWord(w: U128, n: nat)
    requires w.Val() == n * W20 && w.v64 < QUARTER
    ensures ShortShift128Left(w.v64, w.v0, 1).Val() == (2 * n) * W20
  {
    assert Pow2(1) == 2;
    assert Shl(w.v64 * W64 + w.v0, 1) == 2 * w.Val();
    hide Pow2, Shl, ShortShift128Left;
    ShortShift128LeftIs(w.v64, w.v0, 1);
  }

  lemma MakeNormalised(w: U128, e: int, v: real, n: nat)
    requires w.Val() == n * W20 && FRAC * FRAC * 2 <= n < FRAC * FRAC * 4
    requires Scale((n * W20) as real, e - 1148) == v
    ensures Normalised(w, e, v)
  {
    hide Scale;
  }

  lemma DoubledProduct(w: U128, e: int, v: real) returns (x: real)
    requires Normalised(w, e, v)
    ensures Scale(x, e - 1 - 1084) == v
    ensures TOP <= w.v64 * 2 + B2N(w.v0 != 0) < SIGN
    ensures SameCell(x, w.v64 * 2 + B2N(w.v0 != 0), 0x200)
  {
    hide Scale, SameCell;
    x := HalvedRatio(w.v64, w.v0);
    Pow2Values();
    hide Pow2;
    ScaleUp(x, e - 1148, 63, w.Val() as real);
    CellCoarsen(x, w.v64 * 2 + B2N(w.v0 != 0), 2, 0x100);
  }

  lemma HalvedRatio(v64: u64, v0: u64) returns (x: real)
    ensures x * SIGN as real == (v64 * W64 + v0) as real
    ensures SameCell(x, v64 * 2 + B2N(v0 != 0), 2)
  {
    hide SameCell;
    x := Ratio(v64 * W64 + v0, SIGN);
    HalvedCell(x, v64, v0);
  }

  lemma HalvedCell(x: real, v64: u64, v0: u64)
    requires x * SIGN as real == (v64 * W64 + v0) as real
    ensures SameCell(x, v64 * 2 + B2N(v0 != 0), 2)
  {
    hide SameCell;
    RatioOrder(x, SIGN, v64 * W64 + v0, v64 * 2);
    RatioOrder(x, SIGN, v64 * W64 + v0, v64 * 2 + 2);
    if v0 == 0 {
      EqualCell(x, v64 * 2, 2);
    } else {
      MakeCell(x, v64 * 2 + 1, 2, v64);
    }
  }

  lemma AddendWord(c: u64, sc: nat, ec: int)
    requires FRAC <= sc < 2 * FRAC && MagValue(Mag(c)) == Scale(sc as real, ec - 1075)
    ensures QUARTER <= sc * 0x200 < TOP && (sc * 0x200) % 0x200 == 0
    ensures Scale((sc * 0x200) as real, ec - 1084) == MagValue(Mag(c))
  {
    hide Scale, MagValue;
    Pow2Small();
    ModIs(sc * 0x200, sc, 0, 0x200);
    ScaleUp(sc as real, ec - 1084, 9, (sc * 0x200) as real);
  }

  // ---- adding the addend in

  method AddToProduct(env: FpEnv, signProd: bool, expProd: int, sigProd: U128, signC: bool, expC: int, sigC: u64,
                      ghost p: real, ghost c: real) returns (z: u64)
    requires Normalised(sigProd, expProd, p) && p > 0.0
    requires QUARTER <= sigC < TOP && sigC % 0x200 == 0 && Scale(sigC as real, expC - 1084) == c && c >= 0.0
    requires -0x2000 < expProd < 0x2000 && -0x2000 < expC < 0x2000
    modifies env`exceptionFlags
    ensures Outcome(z, env.exceptionFlags)
         == Accrued(old(env.exceptionFlags), SumOutcome(env.roundingMode, signProd, p, signC, c))
  {
    hide Normalised, Scale, SameCell, Round;
    if signProd == signC {
      var expZ, sigZ, x := AddSameSign(expProd, sigProd, expC, sigC, p, c);
      z := RoundPackToF64(env, signProd, expZ, sigZ, x);
    } else {
      var cancelled, larger, expZ, sigZ, x := AddOppositeSign(expProd, sigProd, expC, sigC, p, c);
      if cancelled {
        z := Pack(env.roundingMode == Min, 0, 0);
      } else {
        z := RoundPackToF64(env, if larger then signC else signProd, expZ, sigZ, x);
      }
    }
  }

  method AddSameSign(expProd: int, sigProd: U128, expC: int, sigC: u64, ghost p: real, ghost c: real)
    returns (expZ: int, sigZ: u64, ghost x: real)
    requires Normalised(sigProd, expProd, p)
    requires QUARTER <= sigC < TOP && sigC % 0x200 == 0 && Scale(sigC as real, expC - 1084) == c
    ensures TOP <= sigZ < SIGN && SameCell(x, sigZ, 0x200) && Scale(x, expZ - 1084) == p + c
    ensures expProd - 1 <= expZ <= expProd || expC - 1 <= expZ <= expC
  {
    hide Normalised, Scale, SameCell, Shift64RightJam, Shift128RightJam, Sticky, U128.Val;
    var expDiff := expProd - expC;
    var sum: nat;
    if expDiff <= 0 {
      expZ := expC;
      var high := sigProd.v64;
      if expDiff != 0 { high := Shift64RightJam(high, -expDiff); }
      sum := Sticky(sigC + high, sigProd.v0 != 0);
      x := ProductAligned(sigProd, expProd, p, sigC, expC, c, high);
    } else {
      expZ := expProd;
      var sigC128 := Shift128RightJam(sigC, 0, expDiff);
      var sigZ128 := Add128(sigProd.v64, sigProd.v0, sigC128.v64, sigC128.v0);
      sum := Sticky(sigZ128.v64, sigZ128.v0 != 0);
      x := AddendAligned(sigProd, expProd, p, sigC, expC, c, sigZ128);
    }
    sigZ := sum;
    if sigZ < TOP {
      expZ := expZ - 1;
      sigZ := sigZ * 2;
    }
  }

  /** The product is the smaller operand: jam it down to the addend's place. */
  lemma ProductAligned(w: U128, e: int, p: real, sigC: u64, ec: int, c: real, high: nat) returns (x: real)
    requires Normalised(w, e, p) && e <= ec
    requires QUARTER <= sigC < TOP && sigC % 0x200 == 0 && Scale(sigC as real, ec - 1084) == c
    requires high == if e == ec then w.v64 else Shift64RightJam(w.v64, ec - e)
    ensures QUARTER <= Sticky(sigC + high, w.v0 != 0) < SIGN
    ensures Ready(x, Sticky(sigC + high, w.v0 != 0), ec, p + c)
  {
    hide Scale, SameCell, Pow2, JamShift, Shift64RightJam, Ready, Sticky, U128.Val;
    HighPart(w, ec - e, high);
    BelowTop(sigC);
    var y := ProductInPlace(w, e, ec - e);
    x := SumReady(sigC, Sticky(high, w.v0 != 0), y, ec);
    StickyPlusEven(sigC, high, w.v0 != 0);
  }

  lemma BelowTop(s: u64)
    requires s < TOP && s % 0x200 == 0
    ensures s <= TOP - 0x200 && s % 2 == 0
  {
    var q := s / 0x200;
    ModIs(s, 0x100 * q, 0, 2);
  }

  lemma SumReady(sigC: nat, jam: nat, y: real, ec: int) returns (x: real)
    requires sigC % 2 == 0 && SameCell(y, jam, 2)
    ensures Ready(x, sigC + jam, ec, Scale(y, ec - 1084) + Scale(sigC as real, ec - 1084))
  {
    hide Scale, SameCell, Ready;
    CellPlusEven(y, jam, sigC);
    ScaleSum(sigC as real, y, ec - 1084);
    x := NormalisedOnce(sigC as real + y, sigC + jam, ec);
  }

  lemma ProductInPlace(w: U128, e: int, d: nat) returns (y: real)
    ensures Scale(y, e + d - 1084) == Scale(w.Val() as real, e - 1148)
    ensures SameCell(y, JamShift(w.Val(), 64 + d), 2)
  {
    hide Scale, SameCell, Pow2, JamShift;
    var n := w.Val();
    EqualCell(n as real, n, 1);
    y := JamDown(n as real, n, 1, Pow2(64 + d), 64 + d, e + d - 1084);
  }

  lemma HighPart(w: U128, d: nat, high: nat)
    requires w.v64 < TOP && high == if d == 0 then w.v64 else Shift64RightJam(w.v64, d)
    ensures high < TOP && Sticky(high, w.v0 != 0) == JamShift(w.Val(), 64 + d)
  {
    hide Pow2, JamShift, Shift64RightJam;
    JamTwoWords(w.v64, w.v0, d);
    if d > 0 {
      Shift64RightJamIs(w.v64, d);
      AddSub.JamSize(w.v64, d);
    }
  }

  lemma StickyPlusEven(p: nat, q: nat, b: bool)
    requires p % 2 == 0
    ensures Sticky(p + q, b) == p + Sticky(q, b)
  {
  }

  /** Jamming the high word and or-ing in the low one jams both. */
  lemma JamTwoWords(v64: u64, v0: u64, c: nat)
    ensures (if c == 0 then Sticky(v64, v0 != 0) else Sticky(JamShift(v64, c), v0 != 0))
         == JamShift(v64 * W64 + v0, 64 + c)
  {
    if c == 0 {
      HighWord(v64, v0);
    } else {
      hide Pow2, Shr, Lo;
      FarParts(v64, v0, c);
    }
  }

  lemma FarParts(v64: u64, v0: u64, c: nat)
    ensures Shr(v64 * W64 + v0, 64 + c) == Shr(v64, c)
    ensures Lo(v64 * W64 + v0, 64 + c) != 0 <==> Lo(v64, c) != 0 || v0 != 0
  {
    Pow2Add(c, 64);
    Pow2Values();
    hide Pow2;
    FarLimbs(v64, v0, Pow2(c));
  }

  lemma JamHigh(v: real, z: U128, e: int) returns (x: real)
    requires SameCell(v, z.Val(), 2)
    ensures Scale(x, e) == Scale(v, e - 64)
    ensures SameCell(x, Sticky(z.v64, z.v0 != 0), 2)
  {
    Pow2Values();
    hide Scale, SameCell, Pow2, JamShift;
    x := JamDown(v, z.Val(), 2, SIGN, 64, e);
    HighWord(z.v64, z.v0);
  }

  lemma AddendAligned(w: U128, e: int, p: real, sigC: u64, ec: int, c: real, z: U128) returns (x: real)
    requires Normalised(w, e, p) && e > ec
    requires QUARTER <= sigC < TOP && sigC % 0x200 == 0 && Scale(sigC as real, ec - 1084) == c
    requires var s := Shift128RightJam(sigC, 0, e - ec);
             z.Val() == (w.v64 * W64 + w.v0 + (s.v64 * W64 + s.v0)) % W128
    ensures QUARTER <= Sticky(z.v64, z.v0 != 0) < SIGN
    ensures Ready(x, Sticky(z.v64, z.v0 != 0), e, p + c)
  {
    hide Scale, SameCell, JamShift, Shift128RightJam, Ready;
    var n := sigC * W64;
    WordMultiple(sigC);
    var y := JammedWord(n, e - ec, e - 1148);
    Shift128RightJamIs(sigC, 0, e - ec);
    var v := w.Val() as real + y;
    SumOfWords(w, JamShift(n, e - ec), y, z);
    WordScale(sigC, ec - 1084);
    ScaleSum(w.Val() as real, y, e - 1148);
    x := JamHigh(v, z, e - 1084);
    x := NormalisedOnce(x, Sticky(z.v64, z.v0 != 0), e);
  }

  lemma WordMultiple(s: nat)
    ensures (s * W64) % W20 == 0 && (s * W64) % 2 == 0
    ensures QUARTER <= s < TOP ==> QUARTER * W64 <= s * W64 < TOP * W64
  {
    ModIs(s * W64, s * 0x1000_0000_0000, 0, W20);
    ModIs(s * W64, s * 0x8000_0000_0000_0000, 0, 2);
  }

  lemma ProductLimits(w: U128)
    requires QUARTER <= w.v64 < TOP && w.v0 % W20 == 0
    ensures QUARTER * W64 <= w.Val() < TOP * W64 && w.Val() % W20 == 0 && w.Val() % 2 == 0
  {
    ModIs(w.Val(), w.v64 * 0x1000_0000_0000 + w.v0 / W20, 0, W20);
    EvenWord(w);
  }

  lemma SumOfWords(w: U128, jam: nat, y: real, z: U128)
    requires QUARTER <= w.v64 < TOP && w.v0 % W20 == 0 && jam < QUARTER * W64 && SameCell(y, jam, 2)
    requires z.Val() == (w.v64 * W64 + w.v0 + jam) % W128
    ensures SameCell(w.Val() as real + y, z.Val(), 2)
    ensures QUARTER <= Sticky(z.v64, z.v0 != 0) < SIGN
  {
    hide SameCell;
    EvenWord(w);
    CellPlusEven(y, jam, w.Val());
  }

  lemma EvenWord(w: U128)
    requires w.v0 % W20 == 0
    ensures w.Val() % 2 == 0
  {
  }

  method AddOppositeSign(expProd: int, sigProd: U128, expC: int, sigC: u64, ghost p: real, ghost c: real)
    returns (cancelled: bool, larger: bool, expZ: int, sigZ: u64, ghost x: real)
    requires Normalised(sigProd, expProd, p)
    requires QUARTER <= sigC < TOP && sigC % 0x200 == 0 && Scale(sigC as real, expC - 1084) == c
    ensures cancelled <==> p == c
    ensures !cancelled ==> (larger <==> c > p)
    ensures !cancelled ==> TOP <= sigZ < SIGN && SameCell(x, sigZ, 0x200)
    ensures !cancelled ==> Scale(x, expZ - 1084) == if c > p then c - p else p - c
    ensures !cancelled ==> expProd - 0x80 <= expZ <= expProd + 2 || expC - 0x80 <= expZ <= expC + 2
  {
    hide Normalised, Scale, SameCell, Shift128RightJam, U128.Val, Difference;
    var expDiff := expProd - expC;
    var z: U128;
    cancelled, larger, expZ, sigZ, x := false, false, 0, 0, 0.0;
    if expDiff < 0 {
      larger := true;
      expZ := expC;
      var s := Shift128RightJam(sigProd.v64, sigProd.v0, -expDiff);
      z := Sub128(sigC, 0, s.v64, s.v0);
      x := AddendLarger(sigProd, expProd, p, sigC, expC, c, z);
    } else if expDiff == 0 {
      expZ := expProd;
      z := Sub128(sigProd.v64, sigProd.v0, sigC, 0);
      SameExponent(sigProd, expProd, p, sigC, c, z);
      if z.v64 == 0 && z.v0 == 0 {
        cancelled := true;
        return;
      }
      if z.v64 >= SIGN {
        larger := true;
        var z' := z;
        z := Sub128(0, 0, z'.v64, z'.v0);
        NegatedDifference(sigProd, sigC, z', z);
      }
      x := ExactDifference(sigProd, expProd, p, sigC, c, z, larger);
    } else {
      expZ := expProd;
      var s := Shift128RightJam(sigC, 0, expDiff);
      z := Sub128(sigProd.v64, sigProd.v0, s.v64, s.v0);
      x := ProductLarger(sigProd, expProd, p, sigC, expC, c, z);
    }
    expZ, sigZ, x := NormaliseDifference(z, expZ, x);
  }

  // ---- the jammed smaller operand

  /** A word with twenty trailing zeros moved c places down: what is lost is
      exact unless the word is far below the other operand. */
  lemma JammedWord(w: nat, c: nat, e: int) returns (y: real)
    requires w < TOP * W64 && w % W20 == 0 && c >= 1
    ensures Scale(y, e) == Scale(w as real, e - c)
    ensures SameCell(y, JamShift(w, c), 2)
    ensures JamShift(w, c) < QUARTER * W64
    ensures y == JamShift(w, c) as real || JamShift(w, c) < QUARTER * W64 - W64
  {
    hide Scale, SameCell, Pow2, JamShift, Shr, Lo;
    EqualCell(w as real, w, 1);
    y := JamDown(w as real, w, 1, Pow2(c), c, e);
    JamHalf(w, c);
    if c <= 20 { JamNothing(w, c, e, y); }
  }

  lemma JamHalf(w: nat, c: nat)
    requires w < TOP * W64 && w % W20 == 0 && c >= 1
    ensures JamShift(w, c) < QUARTER * W64
    ensures c > 20 ==> JamShift(w, c) < QUARTER * W64 - W64
  {
    ShrLo(w, c);
    PowerAtLeast(c);
    TopMultiple(w);
    hide Pow2, Shr, Lo;
    HalfOf(Shr(w, c), Pow2(c), w);
  }

  lemma PowerAtLeast(c: nat)
    requires c >= 1
    ensures Pow2(c) >= 2 && (c > 20 ==> Pow2(c) >= W20)
  {
    assert Pow2(1) == 2;
    Pow2Values();
    hide Pow2;
    Pow2Mono(1, c);
    if c > 20 { Pow2Mono(20, c); }
  }

  lemma TopMultiple(w: nat)
    requires w < TOP * W64 && w % W20 == 0
    ensures w <= TOP * W64 - W20
  {
    DivMod(w, W20);
    assert w / W20 < TOP * W64 / W20;
  }

  lemma HalfOf(q: nat, p: nat, w: nat)
    requires p >= 2 && q * p <= w
    ensures q <= w / 2
    ensures p >= W20 ==> q <= w / W20
  {
    MulBound(q, 2, q, p);
    if p >= W20 { MulBound(q, W20, q, p); }
  }

  lemma JamNothing(w: nat, c: nat, e: int, y: real)
    requires w % W20 == 0 && c <= 20 && Scale(y, e) == Scale(w as real, e - c)
    ensures y == JamShift(w, c) as real
  {
    hide Pow2, Shr, Lo, Scale;
    var t := TwentyBitsDivide(w, c);
    ShrExact(w, c, t);
    RealOfProduct(t, Pow2(c));
    ScaleUp(t as real, e - c, c, w as real);
    ScaleOrder(y, t as real, e);
  }

  lemma TwentyBitsDivide(w: nat, c: nat) returns (t: nat)
    requires c <= 20 && w % W20 == 0
    ensures w == t * Pow2(c)
  {
    PowersTo20(c);
    hide Pow2;
    t := w / W20 * Pow2(20 - c);
    Regrouped(w, Pow2(20 - c), Pow2(c));
  }

  lemma PowersTo20(c: nat)
    requires c <= 20
    ensures Pow2(20 - c) * Pow2(c) == W20
  {
    Pow2Add(20 - c, c);
    Pow2Values();
  }

  lemma Regrouped(w: nat, p: nat, q: nat)
    requires w % W20 == 0 && p * q == W20
    ensures w == w / W20 * p * q
  {
    DivMod(w, W20);
    Assoc(w / W20, p, q);
  }

  // ---- differences

  /** z is the 128-bit word for the exact positive difference v, which it
      represents exactly when the high word cancels. */
  ghost predicate Difference(v: real, z: U128) {
    && 0 < z.Val() && z.v64 < TOP && v > 0.0
    && SameCell(v, z.Val(), 2)
    && (z.v64 == 0 ==> v == z.Val() as real)
  }

  lemma PositiveCell(v: real, n: nat)
    requires SameCell(v, n, 2) && n > 0
    ensures v > 0.0
  {
  }

  /** big - jam, for a big word and the jammed word s at y. */
  lemma DifferenceOf(big: nat, s: U128, y: real, z: U128)
    requires QUARTER * W64 <= big < TOP * W64 && big % 2 == 0
    requires z.Val() == (big - (s.v64 * W64 + s.v0)) % W128
    requires s.Val() < QUARTER * W64 && SameCell(y, s.Val(), 2)
    requires y == s.Val() as real || s.Val() < QUARTER * W64 - W64
    ensures Difference(big as real - y, z)
  {
    hide SameCell;
    assert z.Val() == big - s.Val();
    CellPlusEven(y, s.Val(), big);
    PositiveCell(big as real - y, big - s.Val());
  }

  lemma WordScale(n: nat, e: int)
    ensures Scale((n * W64) as real, e - 64) == Scale(n as real, e)
  {
    Pow2Values();
    hide Scale, Pow2;
    ScaleUp(n as real, e - 64, 64, (n * W64) as real);
  }

  lemma AddendLarger(w: U128, e: int, p: real, sigC: u64, ec: int, c: real, z: U128) returns (v: real)
    requires Normalised(w, e, p) && e < ec
    requires QUARTER <= sigC < TOP && sigC % 0x200 == 0 && Scale(sigC as real, ec - 1084) == c
    requires var s := Shift128RightJam(w.v64, w.v0, ec - e);
             z.Val() == (sigC * W64 + 0 - (s.v64 * W64 + s.v0)) % W128
    ensures Difference(v, z) && Scale(v, ec - 1148) == c - p && c > p
  {
    hide Scale, SameCell, JamShift, Shift128RightJam, Difference, U128.Val;
    ProductLimits(w);
    var y := JammedWord(w.Val(), ec - e, ec - 1148);
    Shift128RightJamIs(w.v64, w.v0, ec - e);
    ValIs(w);
    var big := sigC * W64;
    WordMultiple(sigC);
    v := big as real - y;
    DifferenceOf(big, Shift128RightJam(w.v64, w.v0, ec - e), y, z);
    WordScale(sigC, ec - 1084);
    ScaleSum(big as real, y, ec - 1148);
    DifferencePositive(v, z, ec - 1148);
  }

  lemma DifferencePositive(v: real, z: U128, e: int)
    requires Difference(v, z)
    ensures Scale(v, e) > 0.0
  {
    hide Scale, SameCell;
    ScaleSign(v, e);
  }

  lemma ProductLarger(w: U128, e: int, p: real, sigC: u64, ec: int, c: real, z: U128) returns (v: real)
    requires Normalised(w, e, p) && e > ec
    requires QUARTER <= sigC < TOP && sigC % 0x200 == 0 && Scale(sigC as real, ec - 1084) == c
    requires var s := Shift128RightJam(sigC, 0, e - ec);
             z.Val() == (w.v64 * W64 + w.v0 - (s.v64 * W64 + s.v0)) % W128
    ensures Difference(v, z) && Scale(v, e - 1148) == p - c && p > c
  {
    hide Scale, SameCell, JamShift, Shift128RightJam, Difference, U128.Val;
    ProductLimits(w);
    var n := sigC * W64;
    WordMultiple(sigC);
    var y := JammedWord(n, e - ec, e - 1148);
    Shift128RightJamIs(sigC, 0, e - ec);
    ValIs(w);
    v := w.Val() as real - y;
    DifferenceOf(w.Val(), Shift128RightJam(sigC, 0, e - ec), y, z);
    WordScale(sigC, ec - 1084);
    ScaleSum(w.Val() as real, y, e - 1148);
    DifferencePositive(v, z, e - 1148);
  }

  lemma SameExponent(w: U128, e: int, p: real, sigC: u64, c: real, z: U128)
    requires Normalised(w, e, p)
    requires QUARTER <= sigC < TOP && Scale(sigC as real, e - 1084) == c
    requires z.Val() == (w.v64 * W64 + w.v0 - (sigC * W64 + 0)) % W128
    ensures p == c <==> z.v64 == 0 && z.v0 == 0
    ensures c > p <==> z.v64 >= SIGN
    ensures c > p <==> sigC * W64 > w.Val()
    ensures w.v64 < TOP
  {
    hide Scale;
    WordScale(sigC, e - 1084);
    ScaleOrder((sigC * W64) as real, w.Val() as real, e - 1148);
    ScaleOrder(w.Val() as real, (sigC * W64) as real, e - 1148);
    DifferenceSign(w.v64, w.v0, sigC, z);
  }

  lemma DifferenceSign(v64: u64, v0: u64, sigC: u64, z: U128)
    requires v64 < TOP && sigC < TOP && z.Val() == (v64 * W64 + v0 - (sigC * W64 + 0)) % W128
    ensures v64 * W64 + v0 == sigC * W64 <==> z.v64 == 0 && z.v0 == 0
    ensures sigC * W64 > v64 * W64 + v0 <==> z.v64 >= SIGN
  {
    var d := v64 * W64 + v0 - sigC * W64;
    if d >= 0 { ModIs(d, 0, d, W128); } else { ModIs(d, 0 - 1, d + W128, W128); }
  }

  lemma NegatedDifference(w: U128, sigC: u64, z: U128, z': U128)
    requires w.v64 < TOP && sigC < TOP && sigC * W64 > w.Val()
    requires z.Val() == (w.v64 * W64 + w.v0 - (sigC * W64 + 0)) % W128
    requires z'.Val() == (0 * W64 + 0 - (z.v64 * W64 + z.v0)) % W128
    ensures z'.Val() == sigC * W64 - w.Val()
  {
    ValIs(z);
    hide U128.Val;
    var d := sigC * W64 - (w.v64 * W64 + w.v0);
    ValIs(w);
    assert z.Val() == W128 - d;
  }

  lemma ExactDifference(w: U128, e: int, p: real, sigC: u64, c: real, z: U128, larger: bool) returns (v: real)
    requires Normalised(w, e, p)
    requires QUARTER <= sigC < TOP && Scale(sigC as real, e - 1084) == c && p != c && larger == (c > p)
    requires if larger then z.Val() == sigC * W64 - w.Val()
             else z.Val() == (w.v64 * W64 + w.v0 - (sigC * W64 + 0)) % W128
    ensures Difference(v, z) && Scale(v, e - 1148) == if c > p then c - p else p - c
  {
    hide Scale, SameCell;
    v := z.Val() as real;
    EqualCell(v, z.Val(), 2);
    WordScale(sigC, e - 1084);
    var n := sigC * W64;
    ScaleOrder(n as real, w.Val() as real, e - 1148);
    ScaleOrder(w.Val() as real, n as real, e - 1148);
    ScaleSum(n as real, w.Val() as real, e - 1148);
    ScaleSum(w.Val() as real, n as real, e - 1148);
  }

  // ---- normalising the difference

  method NormaliseDifference(z: U128, exp: int, ghost v: real) returns (expZ: int, sigZ: u64, ghost x: real)
    requires Difference(v, z)
    ensures TOP <= sigZ < SIGN && SameCell(x, sigZ, 0x200) && Scale(x, expZ - 1084) == Scale(v, exp - 1148)
    ensures exp - 0x80 <= expZ <= exp + 2
  {
    hide Scale, SameCell, LeadingBit, ShortShift64RightJam, ShortShift128Left, Difference, Sticky, U128.Val;
    var w := z;
    expZ := exp;
    HighWordSmall(v, z);
    if w.v64 == 0 {
      expZ := expZ - 64;
      w := U128(w.v0, 0);
    }
    var zeros := CountLeadingZeros64(w.v64);
    if z.v64 != 0 { LeadingBounds(w.v64, 63 - zeros); }
    var shiftCount: int := zeros;
    shiftCount := shiftCount - 1;
    expZ := expZ - shiftCount;
    if shiftCount < 0 {
      x := HalvedWord(v, z, exp);
      sigZ := ShortShift64RightJam(w.v64, -shiftCount);
    } else {
      if z.v64 == 0 {
        x := LowWordShifted(v, z, shiftCount, exp);
      } else {
        x := WordShifted(v, z, shiftCount, exp);
      }
      w := ShortShift128Left(w.v64, w.v0, shiftCount);
      sigZ := w.v64;
    }
    StickyFits(sigZ, w.v0 != 0);
    sigZ := Sticky(sigZ, w.v0 != 0);
  }

  lemma HighWordSmall(v: real, z: U128)
    requires Difference(v, z)
    ensures z.v64 < TOP && (z.v64 == 0 ==> z.v0 != 0)
  {
  }

  lemma HalvedWord(v: real, z: U128, e: int) returns (x: real)
    requires Difference(v, z) && z.v64 == 0 && LeadingBit(z.v0, 63)
    ensures Sticky(ShortShift64RightJam(z.v0, 1), false) == ShortShift64RightJam(z.v0, 1)
    ensures TOP <= ShortShift64RightJam(z.v0, 1) < SIGN && SameCell(x, ShortShift64RightJam(z.v0, 1), 0x200)
    ensures Scale(x, e - 64 + 1 - 1084) == Scale(v, e - 1148)
  {
    hide Scale, SameCell, JamShift;
    assert Pow2(1) == 2;
    LeadingOf63(z.v0);
    hide Pow2, LeadingBit;
    EqualCell(v, z.v0, 1);
    x := JamDown(v, z.v0, 1, 2, 1, e - 64 + 1 - 1084);
    HalfWord(z.v0);
    CellCoarsen(x, JamShift(z.v0, 1), 2, 0x100);
  }

  lemma LowWordShifted(v: real, z: U128, n: nat, e: int) returns (x: real)
    requires Difference(v, z) && z.v64 == 0 && n <= 62 && LeadingBit(z.v0, 62 - n)
    ensures var w := ShortShift128Left(z.v0, 0, n);
            TOP <= Sticky(w.v64, w.v0 != 0) < SIGN && SameCell(x, Sticky(w.v64, w.v0 != 0), 0x200)
    ensures Scale(x, e - 64 - n - 1084) == Scale(v, e - 1148)
  {
    hide Scale, SameCell, Pow2, LeadingBit, Shl, ShortShift128Left;
    var a := z.v0;
    LeadingMoves(a, 62 - n, n);
    LeadingBounds(Shl(a, n), 62);
    x := Shl(a, n) as real;
    ScaleShl(a, n, e - 64 - n - 1084);
    ShlTwoWords(a, 0, n);
    ShlOfZero(n);
    ShortShift128LeftIs(a, 0, n);
    WordOf(ShortShift128Left(a, 0, n), Shl(a, n), 0);
    EqualCell(x, Shl(a, n), 0x200);
  }

  lemma WordShifted(v: real, z: U128, n: nat, e: int) returns (x: real)
    requires Difference(v, z) && z.v64 != 0 && 1 <= n <= 62 && LeadingBit(z.v64, 62 - n)
    ensures var w := ShortShift128Left(z.v64, z.v0, n);
            TOP <= Sticky(w.v64, w.v0 != 0) < SIGN && SameCell(x, Sticky(w.v64, w.v0 != 0), 0x200)
    ensures Scale(x, e - n - 1084) == Scale(v, e - 1148)
  {
    hide Scale, SameCell, Pow2, LeadingBit, Shl, ShortShift128Left, JamShift;
    var a := z.Val();
    HighWordLeads(z, 62 - n);
    LeadingMoves(a, 126 - n, n);
    var y := ScaledUp(v, n);
    CellShlExact(v, a, n, y);
    ScaleUp(v, e - n - 1148, n, y);
    LeadingOf126(Shl(a, n));
    ShortShift128LeftIs(z.v64, z.v0, n);
    var w := ShortShift128Left(z.v64, z.v0, n);
    Pow2Add(63 - n, n + 1);
    x := JamDown(y, Shl(a, n), Pow2(n + 1), Pow2(63 - n), 64, e - n - 1084);
    HighWord(w.v64, w.v0);
    TopWord(w);
    CellCoarsen(x, Sticky(w.v64, w.v0 != 0), 2, 0x100);
  }

  lemma ScaledUp(v: real, n: nat) returns (y: real)
    ensures y == v * Pow2(n) as real
  {
    y := v * Pow2(n) as real;
  }

  lemma LeadingOf63(a: nat)
    requires LeadingBit(a, 63)
    ensures SIGN <= a < W64
  {
    Pow2Values();
  }

  lemma HalfWord(a: u64)
    requires a >= SIGN
    ensures ShortShift64RightJam(a, 1) == JamShift(a, 1)
    ensures TOP <= JamShift(a, 1) < SIGN
  {
    assert Pow2(1) == 2;
  }

  lemma ShlOfZero(n: nat)
    ensures Shl(0, n) == 0
  {
  }

  lemma WordOf(w: U128, h: nat, l: u64)
    requires w.Val() == h * W64 + l
    ensures w.v64 == h && w.v0 == l
  {
  }

  lemma HighWordLeads(z: U128, k: nat)
    requires LeadingBit(z.v64, k)
    ensures LeadingBit(z.Val(), k + 64)
  {
    Pow2Values();
    ModIs(z.Val(), z.v64, z.v0, W64);
    hide Pow2, LeadingBit;
    LeadingShr(z.Val(), 64, k);
  }

  lemma LeadingOf126(a: nat)
    requires LeadingBit(a, 126)
    ensures TOP * W64 <= a < SIGN * W64
  {
    Pow2Add(62, 64);
    Pow2Add(63, 64);
    Pow2Values();
  }

  lemma TopWord(w: U128)
    requires TOP * W64 <= w.Val() < SIGN * W64
    ensures TOP <= Sticky(w.v64, w.v0 != 0) < SIGN
  {
  }
}
