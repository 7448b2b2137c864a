/** The one rounding routine of SoftFloat (softfloat/s_roundPackToF64.c), its
    normalising front end, and the flag and rounding-mode globals. */
module RoundPack {
  import opened Arith
  import opened Powers
  import opened Binary64
  import opened Jam
  import opened Cells

  /** softfloat_roundingMode and softfloat_exceptionFlags. */
  class FpEnv {
    var roundingMode: RoundingMode
    var exceptionFlags: set<Flag>

    constructor (mode: RoundingMode)
      ensures roundingMode == mode && exceptionFlags == {}
    {
      roundingMode := mode;
      exceptionFlags := {};
    }

    method RaiseFlags(flags: set<Flag>)
      modifies this`exceptionFlags
      ensures exceptionFlags == old(exceptionFlags) + flags
    {
      exceptionFlags := exceptionFlags + flags;
    }
  }

  /** Flags are sticky: an outcome only ever adds to them. */
  function Accrued(flags: set<Flag>, o: Outcome): Outcome {
    o.(flags := flags + o.flags)
  }

  const TOP: nat := 0x4000_0000_0000_0000    // 2^62, the leading bit of a normalised significand
  const QUARTER: nat := 0x2000_0000_0000_0000   // 2^61

  function RoundIncrement(mode: RoundingMode, sign: bool): nat {
    if mode == NearEven || mode == NearMaxMag then 0x200
    else if mode == MinMag || mode == (if sign then Max else Min) then 0
    else 0x3FF
  }

  /** The significand after the increment, its low bit cleared on a tie. */
  function Rounded(mode: RoundingMode, sign: bool, sig: nat): nat {
    var r := (sig + RoundIncrement(mode, sign)) / 0x400;
    if sig % 0x400 == 0x200 && mode == NearEven then r - r % 2 else r
  }

  /** For every exact significand in the rounding cell of sig, the result is
      the correct rounding of exact * 2^(exp-1084); exact == sig is the plain
      case.  Tininess is always detected before rounding in this build. */
  method RoundPackToF64(env: FpEnv, sign: bool, exp: int, sig: u64, ghost exact: real) returns (z: u64)
    requires -0x8000 <= exp < 0x8000 && sig < SIGN && (exp >= 0 ==> sig >= TOP)
    requires SameCell(exact, sig, 0x200)
    modifies env`exceptionFlags
    ensures Scale(exact, exp - 1084) >= 0.0
    ensures Outcome(z, env.exceptionFlags)
         == Accrued(old(env.exceptionFlags), Round(env.roundingMode, sign, Scale(exact, exp - 1084)))
  {
    hide Scale, SameCell, Rounded, Round, Pack, PackMag, Shift64RightJam, RoundIncrement;
    var mode := env.roundingMode;
    var increment := RoundIncrement(mode, sign);
    var s: u64, e := sig, exp;
    ghost var v := Scale(exact, exp - 1084);
    ghost var flags0 := env.exceptionFlags;
    ghost var x := exact;
    var roundBits := s % 0x400;
    if 0x7FD <= e % 0x10000 {
      if e < 0 {
        x := ToSubnormal(exp, sig, exact);
        s := Shift64RightJam(s, -e);
        e := 0;
        roundBits := s % 0x400;
        if roundBits != 0 { env.RaiseFlags({Underflow}); }
      } else if 0x7FD < e || SIGN <= s + increment {
        OverflowAt(mode, sign, e, sig, exact);
        env.RaiseFlags({Overflow, Inexact});
        z := Pack(sign, 0x7FF, 0) - (if increment == 0 then 1 else 0);
        return;
      }
    }
    if exp >= 0 { NotTiny(exp, sig, exact); }
    DeliverAt(mode, sign, e, s, x, exp < 0);
    if roundBits != 0 { env.exceptionFlags := env.exceptionFlags + {Inexact}; }
    s := Rounded(mode, sign, s);
    z := Pack(sign, if s != 0 then e else 0, s);
  }

  // ---- one significand, one exponent

  /** The magnitudes around sig * 2^(e-1084): the significand's top bits,
      carried into the exponent field when they round up to 2^53. */
  lemma Neighbours(e: nat, m: nat)
    requires e <= 0x7FD && m < 0x20_0000_0000_0000 && (e == 0 || m >= FRAC)
    ensures e * FRAC + m < INF
    ensures MagValue(e * FRAC + m) == Scale((m * 0x400) as real, e - 1084)
    ensures MagValue(e * FRAC + m + 1) == Scale((m * 0x400 + 0x400) as real, e - 1084)
  {
    hide Sig, Ex, Scale;
    FieldsOf(e, m);
    NextMag(e * FRAC + m);
    TenBits(m, e - 1084);
    TenBits(m + 1, e - 1084);
  }

  lemma TenBits(m: nat, e: int)
    ensures Scale(m as real, e + 10) == Scale((m * 0x400) as real, e)
  {
    hide Scale;
    Pow2Small();
    ScaleUp(m as real, e, 10, (m * 0x400) as real);
  }

  lemma FieldsOf(e: nat, m: nat)
    requires m < 0x20_0000_0000_0000 && (e == 0 || m >= FRAC)
    ensures Sig(e * FRAC + m) == m && Ex(e * FRAC + m) == e + 1
  {
    if m >= FRAC {
      ModIs(e * FRAC + m, e + 1, m - FRAC, FRAC);
    }
  }

  /** Where the exact significand lies between its two neighbours and their
      midpoint is read off the low ten bits. */
  lemma ReadRoundBits(x: real, sig: nat)
    requires SameCell(x, sig, 0x200)
    ensures Reads(x, sig / 0x400 * 0x400, sig % 0x400)
  {
    GridOfBits(sig);
    ReadCell(x, sig, sig / 0x400 * 0x400, sig % 0x400, sig / 0x200 * 0x200);
  }

  ghost predicate Reads(x: real, a: nat, bits: nat) {
    && a as real <= x < (a + 0x400) as real
    && (x == a as real <==> bits == 0)
    && (x > (a + 0x200) as real <==> bits > 0x200)
    && (x == (a + 0x200) as real <==> bits == 0x200)
  }

  lemma GridOfBits(sig: nat)
    ensures sig == sig / 0x400 * 0x400 + sig % 0x400
    ensures sig / 0x200 * 0x200 == sig / 0x400 * 0x400 + if sig % 0x400 >= 0x200 then 0x200 else 0
    ensures sig % 0x200 != 0 <==> sig % 0x400 != 0 && sig % 0x400 != 0x200
  {
  }

  lemma ReadCell(x: real, sig: nat, a: nat, bits: nat, c: nat)
    requires sig == a + bits && bits < 0x400 && c == a + if bits >= 0x200 then 0x200 else 0
    requires x == sig as real || (bits != 0 && bits != 0x200 && c as real < x < (c + 0x200) as real)
    ensures Reads(x, a, bits)
  {
  }

  lemma FloorAt(e: nat, sig: nat, x: real)
    requires e <= 0x7FD && sig < SIGN && (e == 0 || sig >= TOP) && SameCell(x, sig, 0x200)
    ensures Scale(x, e - 1084) >= 0.0
    ensures Floor(Scale(x, e - 1084)) == e * FRAC + sig / 0x400 < INF
    ensures MagValue(e * FRAC + sig / 0x400) == Scale(x, e - 1084) <==> sig % 0x400 == 0
  {
    hide Scale, MagValue, SameCell, Bracket, Floor;
    var m := sig / 0x400;
    ReadRoundBits(x, sig);
    Between(e, m, x);
    FloorIs(Scale(x, e - 1084), e * FRAC + m);
  }

  lemma FloorIs(v: real, mag: nat)
    requires v >= 0.0 && Bracket(v, mag)
    ensures Floor(v) == mag
  {
    hide MagValue;
    BracketUnique(v, mag, Floor(v));
  }

  lemma Between(e: nat, m: nat, x: real)
    requires e <= 0x7FD && m < 0x20_0000_0000_0000 && (e == 0 || m >= FRAC)
    requires (m * 0x400) as real <= x < (m * 0x400 + 0x400) as real
    ensures e * FRAC + m < INF && Scale(x, e - 1084) >= 0.0 && Bracket(Scale(x, e - 1084), e * FRAC + m)
    ensures x == (m * 0x400) as real <==> MagValue(e * FRAC + m) == Scale(x, e - 1084)
  {
    hide Scale, MagValue;
    Neighbours(e, m);
    ScaleOrder((m * 0x400) as real, x, e - 1084);
    ScaleOrder(x, (m * 0x400 + 0x400) as real, e - 1084);
    ScaleSign(x, e - 1084);
  }

  lemma MidpointAt(e: nat, sig: nat, x: real)
    requires e <= 0x7FD && sig < SIGN && (e == 0 || sig >= TOP) && SameCell(x, sig, 0x200)
    ensures MidpointBits(Scale(x, e - 1084), e * FRAC + sig / 0x400, sig % 0x400)
  {
    hide Scale, MagValue, SameCell;
    var m := sig / 0x400;
    ReadRoundBits(x, sig);
    Neighbours(e, m);
    ScaleOrder((m * 0x400 + 0x200) as real, x, e - 1084);
    Halfway(m * 0x400, e - 1084);
  }

  lemma Halfway(a: nat, e: int)
    ensures (Scale(a as real, e) + Scale((a + 0x400) as real, e)) / 2.0 == Scale((a + 0x200) as real, e)
  {
    hide Scale;
    ScaleSum((a + 0x200) as real, 512.0, e);
  }

  /** bits, read as a ten-bit fraction, places v against the midpoint above mag. */
  ghost predicate MidpointBits(v: real, mag: nat, bits: nat) {
    var mid := (MagValue(mag) + MagValue(mag + 1)) / 2.0;
    (v > mid <==> bits > 0x200) && (v == mid <==> bits == 0x200)
  }

  /** The increment and the tie rule move the significand up exactly when the
      rounding direction does. */
  lemma RoundMagAt(mode: RoundingMode, sign: bool, e: nat, sig: nat, x: real)
    requires e <= 0x7FD && sig < SIGN && (e == 0 || sig >= TOP) && SameCell(x, sig, 0x200)
    ensures Scale(x, e - 1084) >= 0.0
    ensures RoundMag(mode, sign, Scale(x, e - 1084)) == e * FRAC + Rounded(mode, sign, sig)
    ensures MagValue(RoundMag(mode, sign, Scale(x, e - 1084))) == Scale(x, e - 1084) <==> sig % 0x400 == 0
  {
    hide Scale, MagValue, SameCell, Floor, MovesUp, Rounded, RoundMag, MidpointBits, BitsMoveUp;
    var v, m := Scale(x, e - 1084), sig / 0x400;
    FloorAt(e, sig, x);
    MidpointAt(e, sig, x);
    RoundMagCases(mode, sign, v);
    SameParity(e, m);
    MovesUpIs(mode, sign, v, e * FRAC + m, m, sig % 0x400);
    RoundedIs(mode, sign, sig);
    ExactOnce(v, e * FRAC + m);
  }

  lemma ExactOnce(v: real, mag: nat)
    requires Bracket(v, mag) && mag < INF
    ensures MagValue(mag + 1) != v
  {
  }

  lemma SameParity(e: nat, m: nat)
    ensures (e * FRAC + m) % 2 == m % 2
  {
    var h := e * 0x8_0000_0000_0000;
    assert e * FRAC == 2 * h;
    ModIs(e * FRAC + m, h + m / 2, m % 2, 2);
  }

  predicate BitsMoveUp(mode: RoundingMode, sign: bool, m: nat, bits: nat) {
    match mode
    case NearEven => bits > 0x200 || (bits == 0x200 && m % 2 == 1)
    case NearMaxMag => bits >= 0x200
    case MinMag => false
    case Min => sign
    case Max => !sign
  }

  lemma MovesUpIs(mode: RoundingMode, sign: bool, v: real, mag: nat, m: nat, bits: nat)
    requires mag % 2 == m % 2
    requires MidpointBits(v, mag, bits)
    ensures MovesUp(mode, sign, v, mag) <==> BitsMoveUp(mode, sign, m, bits)
  {
    hide MagValue;
  }

  lemma RoundedIs(mode: RoundingMode, sign: bool, sig: nat)
    ensures var m, bits := sig / 0x400, sig % 0x400;
            Rounded(mode, sign, sig) == if bits != 0 && BitsMoveUp(mode, sign, m, bits) then m + 1 else m
    ensures Rounded(mode, sign, sig) <= sig / 0x400 + 1
  {
  }

  // ---- packing

  /** The result and the flags the routine produces below the overflow range. */
  ghost predicate DeliveredAs(mode: RoundingMode, sign: bool, e: nat, sig: nat, v: real, tiny: bool)
  {
    v >= 0.0 && Rounded(mode, sign, sig) < W64 &&
    Round(mode, sign, v) ==
      Outcome(Pack(sign, if Rounded(mode, sign, sig) != 0 then e else 0, Rounded(mode, sign, sig)),
              if sig % 0x400 == 0 then {} else if tiny then {Inexact, Underflow} else {Inexact})
  }

  lemma DeliverAt(mode: RoundingMode, sign: bool, e: nat, sig: nat, x: real, tiny: bool)
    requires e <= 0x7FD && sig < SIGN && (e == 0 || sig >= TOP) && SameCell(x, sig, 0x200)
    requires e == 0x7FD ==> sig + RoundIncrement(mode, sign) < SIGN
    requires Scale(x, e - 1084) < Scale(1.0, -1022) <==> tiny
    ensures DeliveredAs(mode, sign, e, sig, Scale(x, e - 1084), tiny)
  {
    hide Scale, MagValue, SameCell, RoundMag, RoundIncrement, Rounded;
    RoundMagAt(mode, sign, e, sig, x);
    RoundedRange(mode, sign, e, sig);
    PackIs(sign, e, Rounded(mode, sign, sig));
  }

  lemma RoundedRange(mode: RoundingMode, sign: bool, e: nat, sig: nat)
    requires e <= 0x7FD && sig < SIGN && (e == 0 || sig >= TOP)
    requires e == 0x7FD ==> sig + RoundIncrement(mode, sign) < SIGN
    ensures Rounded(mode, sign, sig) <= 0x20_0000_0000_0000
    ensures e * FRAC + Rounded(mode, sign, sig) < INF
    ensures Rounded(mode, sign, sig) == 0 ==> e == 0
  {
    RoundedIs(mode, sign, sig);
  }

  lemma PackIs(sign: bool, e: nat, s: nat)
    requires e * FRAC + s < INF && (s == 0 ==> e == 0)
    ensures Pack(sign, if s != 0 then e else 0, s) == PackMag(sign, e * FRAC + s)
  {
  }

  lemma OverflowAt(mode: RoundingMode, sign: bool, e: nat, sig: nat, x: real)
    requires TOP <= sig < SIGN && SameCell(x, sig, 0x200)
    requires 0x7FD < e || (e == 0x7FD && SIGN <= sig + RoundIncrement(mode, sign))
    ensures Scale(x, e - 1084) >= 0.0
    ensures Pack(sign, 0x7FF, 0) >= 1
    ensures Round(mode, sign, Scale(x, e - 1084))
         == Outcome(Pack(sign, 0x7FF, 0) - (if RoundIncrement(mode, sign) == 0 then 1 else 0), {Overflow, Inexact})
  {
    hide Scale, MagValue, SameCell, RoundMag, Rounded, RoundIncrement;
    if e == 0x7FD {
      RoundMagAt(mode, sign, e, sig, x);
      TopCarries(mode, sign, sig);
    } else {
      BeyondRange(mode, sign, e, sig, x);
    }
    PackOverflow(mode, sign);
  }

  lemma PackOverflow(mode: RoundingMode, sign: bool)
    ensures Pack(sign, 0x7FF, 0) >= 1
    ensures Pack(sign, 0x7FF, 0) - (if RoundIncrement(mode, sign) == 0 then 1 else 0)
         == PackMag(sign, if TowardZero(mode, sign) then INF - 1 else INF)
  {
  }

  lemma TopCarries(mode: RoundingMode, sign: bool, sig: nat)
    requires sig < SIGN <= sig + RoundIncrement(mode, sign)
    ensures 0x7FD * FRAC + Rounded(mode, sign, sig) == INF
  {
  }

  lemma BeyondRange(mode: RoundingMode, sign: bool, e: nat, sig: nat, x: real)
    requires TOP <= sig && SameCell(x, sig, 0x200) && e > 0x7FD
    ensures Scale(x, e - 1084) >= 0.0
    ensures RoundMag(mode, sign, Scale(x, e - 1084)) == INF
  {
    hide Scale, MagValue, SameCell;
    AtLeastTop(x, sig);
    TopTimes(e, x);
    InfValue();
    ScaleMono(1.0, 1024, e - 1022);
    FloorIs(Scale(x, e - 1084), INF);
  }

  lemma AtLeastTop(x: real, sig: nat)
    requires TOP <= sig && SameCell(x, sig, 0x200)
    ensures x >= TOP as real
  {
    Grid(sig, 0x200, TOP / 0x200);
  }

  lemma TopTimes(e: int, x: real)
    requires x >= TOP as real
    ensures Scale(x, e - 1084) >= Scale(1.0, e - 1022) > 0.0
  {
    hide Scale;
    ScaleOrder(TOP as real, x, e - 1084);
    OneScaled(62, e - 1084);
    Pow2Values();
    ScaleSign(1.0, e - 1022);
  }

  lemma OneScaled(n: nat, e: int)
    ensures Scale(1.0, e + n) == Scale(Pow2(n) as real, e)
  {
    hide Scale, Pow2;
    ScaleUp(1.0, e, n, Pow2(n) as real);
  }

  lemma InfValue()
    ensures MagValue(INF) == Scale(1.0, 1024)
  {
    hide Scale;
    OneScaled(52, 972);
    Pow2Values();
    assert Sig(INF) == FRAC && Ex(INF) == 0x7FF;
  }

  /** A non-negative exponent means a normal result. */
  lemma NotTiny(e: nat, sig: nat, x: real)
    requires TOP <= sig && SameCell(x, sig, 0x200)
    ensures Scale(x, e - 1084) >= Scale(1.0, -1022)
  {
    hide Scale, SameCell;
    AtLeastTop(x, sig);
    TopTimes(e, x);
    ScaleMono(1.0, -1022, e - 1022);
  }

  /** A negative exponent moves the significand down to exponent 0. */
  lemma ToSubnormal(exp: int, sig: u64, x: real) returns (y: real)
    requires exp < 0 && sig < SIGN && SameCell(x, sig, 0x200)
    ensures Scale(y, 0 - 1084) == Scale(x, exp - 1084)
    ensures SameCell(y, Shift64RightJam(sig, -exp), 0x200)
    ensures Shift64RightJam(sig, -exp) < SIGN
    ensures Scale(x, exp - 1084) < Scale(1.0, -1022)
  {
    hide Scale, SameCell, Pow2, Shift64RightJam;
    var c := -exp;
    y := x / Pow2(c) as real;
    assert y * Pow2(c) as real == x;
    CellJamSame(x, sig, 0x200, c, y);
    Shift64RightJamIs(sig, c);
    JamBelow(sig, c);
    Rescale(x, y, exp);
    BelowNormal(x, sig, exp);
  }

  lemma JamBelow(a: u64, c: nat)
    requires a < SIGN && c >= 1
    ensures JamShift(a, c) < SIGN
  {
  }

  lemma Rescale(x: real, y: real, exp: int)
    requires exp < 0 && y * Pow2(-exp) as real == x
    ensures Scale(y, 0 - 1084) == Scale(x, exp - 1084)
  {
    hide Scale;
    ScaleUp(y, exp - 1084, -exp, x);
  }

  lemma BelowNormal(x: real, sig: nat, exp: int)
    requires exp < 0 && sig < SIGN && SameCell(x, sig, 0x200)
    ensures Scale(x, exp - 1084) < Scale(1.0, -1022)
  {
    BelowSign(x, sig);
    hide Scale, SameCell;
    ScaleOrder(x, SIGN as real, exp - 1084);
    OneScaled(63, exp - 1084);
    Pow2Values();
    ScaleMono(1.0, exp - 1021, -1022);
  }

  lemma BelowSign(x: real, sig: nat)
    requires sig < SIGN && SameCell(x, sig, 0x200)
    ensures x < SIGN as real
  {
    Grid(sig, 0x200, SIGN / 0x200);
  }
}
