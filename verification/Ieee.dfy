/** What each binary64 operation must deliver, bits and flags: exact
    arithmetic followed by one rounding (IEEE 754-2008, sections 5.3.1, 5.4.1,
    6.1, 6.3 and 7.2), with the default NaN for every NaN result. */
module Ieee {
  import opened Powers
  import opened Binary64

  function NaNResult(signalling: bool): Outcome {
    Outcome(DEFAULT_NAN, if signalling then {Invalid} else {})
  }

  function WithSign(ui: u64, sign: bool): (r: u64)
    ensures Mag(r) == Mag(ui) && SignBit(r) == sign
    ensures IsSigNaN(r) == IsSigNaN(ui)
  {
    PackMag(sign, Mag(ui))
  }

  /** Section 6.3: an exact zero sum of unlike signs is +0, or -0 when rounding
      down; a sum of like-signed zeros keeps the sign. */
  function ZeroSumSign(mode: RoundingMode, s: bool, t: bool): bool {
    if s == t then s else mode == Min
  }

  ghost function AddSpec(mode: RoundingMode, a: u64, b: u64): Outcome {
    if IsNaN(a) || IsNaN(b) then NaNResult(IsSigNaN(a) || IsSigNaN(b))
    else if IsInf(a) then
      if IsInf(b) && SignBit(a) != SignBit(b) then NaNResult(true) else Outcome(a, {})
    else if IsInf(b) then Outcome(b, {})
    else RoundSigned(mode, Value(a) + Value(b), ZeroSumSign(mode, SignBit(a), SignBit(b)))
  }

  ghost function MulSpec(mode: RoundingMode, a: u64, b: u64): Outcome {
    var sign := SignBit(a) != SignBit(b);
    if IsNaN(a) || IsNaN(b) then NaNResult(IsSigNaN(a) || IsSigNaN(b))
    else if (IsInf(a) && IsZero(b)) || (IsZero(a) && IsInf(b)) then NaNResult(true)
    else if IsInf(a) || IsInf(b) then Outcome(PackMag(sign, INF), {})
    else RoundSigned(mode, Value(a) * Value(b), sign)
  }

  ghost function FmaSpec(mode: RoundingMode, a: u64, b: u64, c: u64): Outcome {
    var sign := SignBit(a) != SignBit(b);
    if IsNaN(a) || IsNaN(b) then NaNResult(IsSigNaN(a) || IsSigNaN(b) || IsSigNaN(c))
    else if (IsInf(a) && IsZero(b)) || (IsZero(a) && IsInf(b)) then NaNResult(true)
    else if IsNaN(c) then NaNResult(IsSigNaN(c))
    else if IsInf(a) || IsInf(b) then
      if IsInf(c) && SignBit(c) != sign then NaNResult(true) else Outcome(PackMag(sign, INF), {})
    else if IsInf(c) then Outcome(c, {})
    else RoundSigned(mode, Value(a) * Value(b) + Value(c), ZeroSumSign(mode, sign, SignBit(c)))
  }

  ghost function DivSpec(mode: RoundingMode, a: u64, b: u64): Outcome {
    var sign := SignBit(a) != SignBit(b);
    if IsNaN(a) || IsNaN(b) then NaNResult(IsSigNaN(a) || IsSigNaN(b))
    else if (IsInf(a) && IsInf(b)) || (IsZero(a) && IsZero(b)) then NaNResult(true)
    else if IsInf(a) then Outcome(PackMag(sign, INF), {})
    else if IsInf(b) then Outcome(PackMag(sign, 0), {})
    else if IsZero(b) then Outcome(PackMag(sign, INF), {Infinity})
    else
      ZeroOnly(b);
      RoundSigned(mode, Value(a) / Value(b), sign)
  }

  /** The integer nearest q, ties to even. */
  ghost function NearestEvenInt(q: real): int {
    var n := q.Floor;
    if q - n as real > 0.5 || (q - n as real == 0.5 && n % 2 == 1) then n + 1 else n
  }

  /** p less the multiple of q nearest it. */
  ghost function RemValue(p: real, q: real): real
    requires q != 0.0
  {
    p - NearestEvenInt(p / q) as real * q
  }

  ghost function RemSpec(a: u64, b: u64): Outcome {
    if IsNaN(a) || IsNaN(b) then NaNResult(IsSigNaN(a) || IsSigNaN(b))
    else if IsInf(a) || IsZero(b) then NaNResult(true)
    else if IsInf(b) then Outcome(a, {})
    else
      ZeroOnly(b);
      RoundSigned(NearEven, RemValue(Value(a), Value(b)), SignBit(a))
  }

  lemma ZeroOnly(b: u64)
    ensures Value(b) == 0.0 <==> IsZero(b)
    ensures MagValue(Mag(b)) > 0.0 <==> !IsZero(b)
  {
    hide Sig, Ex, Scale;
    ZeroMag();
    MagInjective(0, Mag(b));
  }

  lemma ZeroMag()
    ensures MagValue(0) == 0.0
  {
    ScaleZero(1 - 1075);
  }

  /** A signed exact value rounds as its sign and magnitude do. */
  lemma SignedRound(mode: RoundingMode, sign: bool, mag: real, v: real, zeroSign: bool)
    requires mag >= 0.0 && v == (if sign then -mag else mag)
    requires mag == 0.0 ==> sign == zeroSign
    ensures RoundSigned(mode, v, zeroSign) == Round(mode, sign, mag)
  {
    hide Round;
  }

  lemma RoundZero(mode: RoundingMode, sign: bool)
    ensures Round(mode, sign, 0.0) == Outcome(PackMag(sign, 0), {})
  {
    hide Round;
    ZeroMag();
    RoundExact(mode, sign, 0);
  }

  lemma RoundFinite(mode: RoundingMode, a: u64, zeroSign: bool)
    requires IsFinite(a) && (IsZero(a) ==> zeroSign == SignBit(a))
    ensures RoundSigned(mode, Value(a), zeroSign) == Outcome(a, {})
  {
    hide Round, MagValue;
    ZeroOnly(a);
    RoundExact(mode, SignBit(a), Mag(a));
    SignedRound(mode, SignBit(a), MagValue(Mag(a)), Value(a), zeroSign);
    Fields(a);
  }

  // ---- the direct routines and the fused one agree

  const ONE: u64 := 0x3FF0_0000_0000_0000

  lemma OneIsOne()
    ensures Value(ONE) == 1.0 && IsFinite(ONE) && !IsZero(ONE) && !SignBit(ONE)
  {
    assert Sig(Mag(ONE)) == FRAC && Ex(Mag(ONE)) == 0x3FF;
    hide Scale, Pow2;
    Pow2Values();
    ScaleUp(1.0, -52, 52, FRAC as real);
    ScaleOne();
  }

  lemma ScaleOne()
    ensures Scale(1.0, 0) == 1.0
  {
  }

  /** fadd.d: addition as a fused multiply-add by 1.0. */
  lemma FmaByOneIsAdd(mode: RoundingMode, a: u64, c: u64)
    ensures FmaSpec(mode, a, ONE, c) == AddSpec(mode, a, c)
  {
    OneIsOne();
    hide RoundSigned, Value;
    assert Value(a) * 1.0 == Value(a);
  }

  /** fmul.d: multiplication as a fused multiply-add with a zero of the
      product's sign. */
  lemma FmaWithZeroIsMul(mode: RoundingMode, a: u64, b: u64)
    ensures FmaSpec(mode, a, b, PackMag(SignBit(a) != SignBit(b), 0)) == MulSpec(mode, a, b)
  {
    var z := PackMag(SignBit(a) != SignBit(b), 0);
    assert Mag(z) == 0 && SignBit(z) == (SignBit(a) != SignBit(b));
    ZeroOnly(z);
    hide RoundSigned, Value;
  }

  lemma AddCommutes(mode: RoundingMode, a: u64, b: u64)
    ensures AddSpec(mode, a, b) == AddSpec(mode, b, a)
  {
    hide RoundSigned, Value;
    if IsInf(a) && IsInf(b) && SignBit(a) == SignBit(b) { assert a == b; }
  }
}
