/** The binary64 format and its correctly rounded results: what the SoftFloat
    routines are specified against (IEEE 754-2008, sections 3.4, 4.3 and 7). */
module Binary64 {
  import opened Powers

  datatype RoundingMode = NearEven | MinMag | Min | Max | NearMaxMag

  datatype Flag = Inexact | Underflow | Overflow | Infinity | Invalid

  const FRAC: nat := 0x10_0000_0000_0000          // 2^52, the hidden bit
  const SIGN: nat := 0x8000_0000_0000_0000        // 2^63
  const INF: nat := 0x7FF0_0000_0000_0000         // magnitude bits of infinity
  const DEFAULT_NAN: u64 := 0xFFFF_FFFF_FFFF_FFFF

  // ---- fields (softfloat/internals.h)

  predicate SignBit(ui: u64) { ui >= SIGN }

  function Mag(ui: u64): (m: nat)
    ensures m < SIGN
  {
    ui % SIGN
  }

  function ExpField(ui: u64): (e: int)
    ensures 0 <= e <= 0x7FF
  {
    (ui / FRAC) % 0x800
  }

  function FracField(ui: u64): (f: int)
    ensures 0 <= f < FRAC
  {
    ui % FRAC
  }

  /** The macro adds its three fields modulo 2^64. */
  function Pack(sign: bool, exp: int, sig: int): u64 {
    ((if sign then SIGN else 0) + exp * FRAC + sig) % W64
  }

  function PackMag(sign: bool, m: nat): u64
    requires m < SIGN
  {
    if sign then SIGN + m else m
  }

  predicate IsNaN(ui: u64) { Mag(ui) > INF }

  predicate IsInf(ui: u64) { Mag(ui) == INF }

  predicate IsFinite(ui: u64) { Mag(ui) < INF }

  predicate IsZero(ui: u64) { Mag(ui) == 0 }

  predicate IsSigNaN(ui: u64) {
    (ui / 0x8_0000_0000_0000) % 0x1000 == 0xFFE && ui % 0x8_0000_0000_0000 != 0
  }

  lemma Fields(ui: u64)
    ensures ui == (if SignBit(ui) then SIGN else 0) + ExpField(ui) * FRAC + FracField(ui)
    ensures Mag(ui) == ExpField(ui) * FRAC + FracField(ui)
    ensures IsNaN(ui) <==> ExpField(ui) == 0x7FF && FracField(ui) != 0
    ensures IsInf(ui) <==> ExpField(ui) == 0x7FF && FracField(ui) == 0
    ensures IsFinite(ui) <==> ExpField(ui) < 0x7FF
    ensures IsZero(ui) <==> ExpField(ui) == 0 && FracField(ui) == 0
    ensures PackMag(SignBit(ui), Mag(ui)) == ui
  {
  }

  // ---- values

  /** The significand and the biased exponent a magnitude stands for: a
      subnormal has no hidden bit and the exponent of the smallest normal. */
  function Sig(m: nat): nat { if m < FRAC then m else FRAC + m % FRAC }

  function Ex(m: nat): nat { if m < FRAC then 1 else m / FRAC }

  /** The value of a magnitude.  At m == INF it is 2^1024, the first value the
      format would hold next if its exponent range went on. */
  ghost function MagValue(m: nat): (v: real)
  {
    Scale(Sig(m) as real, Ex(m) - 1075)
  }

  ghost function Value(ui: u64): real {
    if SignBit(ui) then -MagValue(Mag(ui)) else MagValue(Mag(ui))
  }

  lemma MagStep(m: nat)
    ensures MagValue(m + 1) == Scale((Sig(m) + 1) as real, Ex(m) - 1075)
    ensures MagValue(m) < MagValue(m + 1)
    ensures MagValue(m) >= 0.0
  {
    hide Scale, Sig, Ex;
    NextMag(m);
    ScaleOrder(Sig(m) as real, (Sig(m) + 1) as real, Ex(m) - 1075);
    ScaleSign(Sig(m) as real, Ex(m) - 1075);
  }

  lemma NextMag(m: nat)
    ensures MagValue(m + 1) == Scale((Sig(m) + 1) as real, Ex(m) - 1075)
  {
    hide Scale;
    if m + 1 > FRAC && (m + 1) % FRAC == 0 {
      CarryStep(m);
    } else {
      NoCarry(m);
      hide Sig, Ex;
    }
  }

  lemma NoCarry(m: nat)
    requires m + 1 <= FRAC || (m + 1) % FRAC != 0
    ensures Ex(m + 1) == Ex(m) && Sig(m + 1) == Sig(m) + 1
  {
  }

  lemma CarryStep(m: nat)
    requires m + 1 > FRAC && (m + 1) % FRAC == 0
    ensures MagValue(m + 1) == Scale((Sig(m) + 1) as real, Ex(m) - 1075)
  {
    hide Scale;
    var k := (m + 1) / FRAC;
    assert m == (k - 1) * FRAC + (FRAC - 1);
    assert m / FRAC == k - 1 && m % FRAC == FRAC - 1;
    assert Sig(m + 1) == FRAC && Ex(m + 1) == k;
    assert Sig(m) + 1 == 2 * FRAC && Ex(m) == k - 1;
    ScaleTwice(FRAC as real, k - 1 - 1075);
    ScaleDouble(FRAC as real, k - 1 - 1075);
  }

  lemma {:induction false} MagMono(m: nat, n: nat)
    requires m <= n
    ensures m < n ==> MagValue(m) < MagValue(n)
    ensures MagValue(m) <= MagValue(n)
    ensures 0.0 <= MagValue(m)
  {
    hide *;
    MagStep(m);
    if m < n {
      MagMono(m, n - 1);
      MagStep(n - 1);
    }
  }

  lemma MagInjective(m: nat, n: nat)
    ensures MagValue(m) == MagValue(n) <==> m == n
    ensures MagValue(m) < MagValue(n) <==> m < n
  {
    hide *;
    if m <= n { MagMono(m, n); } else { MagMono(n, m); }
  }

  // ---- rounding

  /** m is the largest magnitude at or below x. */
  ghost predicate Bracket(x: real, m: nat) {
    m <= INF && MagValue(m) <= x && (m < INF ==> x < MagValue(m + 1))
  }

  lemma BracketUnique(x: real, m: nat, n: nat)
    requires Bracket(x, m) && Bracket(x, n)
    ensures m == n
  {
    hide MagValue;
    if m < n { MagMono(m + 1, n); }
    if n < m { MagMono(n + 1, m); }
  }

  ghost function FloorFrom(x: real, top: nat): (m: nat)
    requires x >= 0.0 && top <= INF
    requires top < INF ==> x < MagValue(top + 1)
    ensures Bracket(x, m)
  {
    if top == 0 || MagValue(top) <= x then
      assert MagValue(0) == 0.0;
      top
    else
      FloorFrom(x, top - 1)
  }

  ghost function Floor(x: real): (m: nat)
    requires x >= 0.0
    ensures Bracket(x, m)
  {
    FloorFrom(x, INF)
  }

  /** Whether a value strictly between m and m + 1 moves up in magnitude. */
  ghost predicate MovesUp(mode: RoundingMode, sign: bool, x: real, m: nat) {
    var mid := (MagValue(m) + MagValue(m + 1)) / 2.0;
    match mode
    case NearEven => x > mid || (x == mid && m % 2 == 1)
    case NearMaxMag => x >= mid
    case MinMag => false
    case Min => sign
    case Max => !sign
  }

  /** The magnitude x rounds to, with INF standing for 2^1024 and beyond. */
  ghost function RoundMag(mode: RoundingMode, sign: bool, x: real): (r: nat)
    requires x >= 0.0
    ensures r <= INF
  {
    var m := Floor(x);
    if m < INF && MagValue(m) != x && MovesUp(mode, sign, x, m) then m + 1 else m
  }

  predicate TowardZero(mode: RoundingMode, sign: bool) {
    mode == MinMag || (mode == Min && !sign) || (mode == Max && sign)
  }

  datatype Outcome = Outcome(bits: u64, flags: set<Flag>)

  /** The correctly rounded result of an operation whose exact value has the
      given sign and magnitude x, with overflow, underflow and inexact as
      sections 7.4 to 7.6 demand and tininess detected before rounding. */
  ghost function Round(mode: RoundingMode, sign: bool, x: real): Outcome
    requires x >= 0.0
  {
    var r := RoundMag(mode, sign, x);
    if r == INF then
      Outcome(PackMag(sign, if TowardZero(mode, sign) then INF - 1 else INF), {Overflow, Inexact})
    else
      Outcome(PackMag(sign, r),
              if MagValue(r) == x then {}
              else if x < Scale(1.0, -1022) then {Inexact, Underflow} else {Inexact})
  }

  /** Rounds a signed exact value; an exact zero takes the sign zeroSign. */
  ghost function RoundSigned(mode: RoundingMode, v: real, zeroSign: bool): Outcome {
    if v > 0.0 then Round(mode, false, v)
    else if v < 0.0 then Round(mode, true, -v)
    else Round(mode, zeroSign, 0.0)
  }

  // ---- what the rounding means

  lemma RoundExact(mode: RoundingMode, sign: bool, m: nat)
    requires m < INF
    ensures MagValue(m) >= 0.0
    ensures Round(mode, sign, MagValue(m)) == Outcome(PackMag(sign, m), {})
  {
    MagStep(m);
    BracketUnique(MagValue(m), m, Floor(MagValue(m)));
  }

  ghost function Dist(x: real, y: real): real { if x <= y then y - x else x - y }

  lemma RoundMagCases(mode: RoundingMode, sign: bool, x: real)
    requires x >= 0.0
    ensures Bracket(x, Floor(x))
    ensures Floor(x) < INF ==>
              RoundMag(mode, sign, x)
              == (if MagValue(Floor(x)) != x && MovesUp(mode, sign, x, Floor(x)) then Floor(x) + 1 else Floor(x))
  {
  }

  /** Round to nearest returns a magnitude no other is closer than, and an
      even one when another is as close; ties away go to the larger. */
  lemma NearestIsClosest(mode: RoundingMode, sign: bool, x: real, y: nat)
    requires x >= 0.0 && mode in {NearEven, NearMaxMag} && x < MagValue(INF) && y <= INF
    ensures var r := RoundMag(mode, sign, x);
            Dist(x, MagValue(r)) <= Dist(x, MagValue(y)) &&
            (Dist(x, MagValue(r)) == Dist(x, MagValue(y)) && y != r ==>
              if mode == NearEven then r % 2 == 0 else r == y + 1)
  {
    hide MagValue, RoundMag, MovesUp, Dist;
    var m := Floor(x);
    RoundMagCases(mode, sign, x);
    MagInjective(y, m);
    MagInjective(m + 1, y);
    NearestCase(mode, sign, x, y, m, MagValue(m), MagValue(m + 1), MagValue(y));
  }

  lemma NearestCase(mode: RoundingMode, sign: bool, x: real, y: nat, m: nat, lo: real, hi: real, v: real)
    requires mode in {NearEven, NearMaxMag} && lo == MagValue(m) && hi == MagValue(m + 1) && v == MagValue(y)
    requires lo <= x < hi && (y < m ==> v < lo) && (y > m + 1 ==> hi < v)
    ensures var r := if lo != x && MovesUp(mode, sign, x, m) then m + 1 else m;
            Dist(x, MagValue(r)) <= Dist(x, v) &&
            (Dist(x, MagValue(r)) == Dist(x, v) && y != r ==>
              if mode == NearEven then r % 2 == 0 else r == y + 1)
  {
    hide MagValue;
  }

  /** A directed mode returns the closest magnitude on its own side. */
  lemma DirectedIsTight(mode: RoundingMode, sign: bool, x: real, y: nat)
    requires x >= 0.0 && mode in {MinMag, Min, Max} && x <= MagValue(INF) && y <= INF
    ensures var r := RoundMag(mode, sign, x);
            if TowardZero(mode, sign) then MagValue(r) <= x && (MagValue(y) <= x ==> y <= r)
            else MagValue(r) >= x && (MagValue(y) >= x ==> y >= r)
  {
    var m := Floor(x);
    MagStep(m);
    hide MagValue;
    if y <= m { MagMono(y, m); } else { MagMono(m + 1, y); }
  }

  lemma FloorMono(x: real, y: real)
    requires 0.0 <= x <= y
    ensures Floor(x) <= Floor(y)
  {
    var m, n := Floor(x), Floor(y);
    if n < m { MagMono(n + 1, m); }
  }

  /** Rounding never reverses an order. */
  lemma RoundMono(mode: RoundingMode, sign: bool, x: real, y: real)
    requires 0.0 <= x <= y
    ensures RoundMag(mode, sign, x) <= RoundMag(mode, sign, y)
  {
    FloorMono(x, y);
    var m := Floor(x);
    MagStep(m);
    if m == Floor(y) && m < INF && MagValue(m) == y {
      assert x == y;
    }
  }
}
