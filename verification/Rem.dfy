/** The exact IEEE remainder (softfloat/f64_rem.c). */
module Rem {
  import opened Arith
  import opened Powers
  import opened MultiWord
  import opened EstimateDiv
  import opened Binary64
  import opened Jam
  import opened Cells
  import opened RoundPack
  import opened Normalise
  import opened Ieee
  import opened MulDiv

  // ---- the integer remainder

  /** r is dividend - n*d for the integer n nearest dividend/d, ties to even. */
  ghost predicate NearestRemainder(dividend: nat, d: nat, n: nat, r: int) {
    && dividend == Times(n, d) + r && 0 - (d as int) <= 2 * r <= d
    && (2 * r == d || 2 * r == 0 - (d as int) ==> n % 2 == 0)
  }

  /** The dividend so far: an even multiple of d, plus s shifted by the bits
      still to come. */
  ghost predicate Reduced(dividend: nat, d: nat, k: nat, s: nat, e: nat) {
    dividend == Times(2 * k, d) + Shl(s, e) && s < d && s % 4 == 0
  }

  /** The dividend is n divisors and four times v; v is below three quarters of
      the divisor, and q has the parity of n. */
  ghost predicate Last(dividend: nat, d: nat, n: nat, q: nat, v: nat) {
    dividend == Times(n, d) + 4 * v && 4 * v < 3 * d && n % 2 == q % 2
  }

  /** Both loops of the routine.  mag is a quarter of the magnitude of the
      nearest remainder. */
  method Reduce(sigA0: u64, sigB0: u64, expDiff0: int, ghost dividend: nat)
    returns (negative: bool, mag: u64, ghost n: nat)
    requires sigB0 >= HALF && sigB0 % 0x800 == 0 && sigA0 % 0x400 == 0 && expDiff0 >= -1
    requires if expDiff0 < 0 then sigA0 < sigB0 else sigA0 < 2 * sigB0
    requires dividend == Shl(sigA0, if expDiff0 < 0 then 0 else expDiff0)
    ensures mag <= sigB0 / 8 && (negative ==> mag != 0)
    ensures NearestRemainder(dividend, sigB0, n, if negative then 0 - 4 * (mag as int) else 4 * mag)
  {
    hide Times, Shl, Reduced, Last, Quotient, NearestRemainder;
    var sigA: u64, sigB: u64, expDiff := sigA0, sigB0, expDiff0;
    var q: u64 := if sigB <= sigA then 1 else 0;
    if q != 0 { sigA := sigA - sigB; }
    ghost var k := 0;
    if 0 < expDiff { k := StartReduction(dividend, sigA0, sigB, q, expDiff); }
    expDiff := expDiff - 64;
    while 0 < expDiff
      invariant if 0 < expDiff0 then 0 < expDiff + 64 && Reduced(dividend, sigB, k, sigA, expDiff + 64)
                else
                  && expDiff == expDiff0 - 64 && sigA == sigA0 - (if q == 1 then sigB else 0)
                  && q == if sigB <= sigA0 then 1 else 0
      invariant sigA < sigB
    {
      ghost var s := sigA;
      q := EstimateDiv128To64(sigA, 0, sigB);
      ghost var z := q;
      q := if 2 < q then q - 2 else 0;
      sigA := (W64 - Times(sigB / 4, q) % W64) % W64;
      k := ReduceBy62(dividend, sigB, k, s, expDiff + 64, z, q, sigA);
      expDiff := expDiff - 62;
    }
    expDiff := expDiff + 64;
    if 0 < expDiff {
      ghost var s := sigA;
      q := EstimateDiv128To64(sigA, 0, sigB);
      ghost var z := q;
      q := if 2 < q then q - 2 else 0;
      ghost var q1 := q;
      q := Shr(q, 64 - expDiff);
      sigB := sigB / 4;
      sigA := (Shl64(sigA / 2, expDiff - 1) - Times(sigB, q)) % W64;
      n := ReduceLast(dividend, sigB0, k, s, expDiff, z, q1, q, sigA);
    } else {
      NoReduction(dividend, sigA0, sigB, q, sigA, expDiff);
      sigA := sigA / 4;
      sigB := sigB / 4;
      n := q;
    }
    Quartered(sigB0);
    negative, mag, n := Centre(sigA, sigB, q, dividend, n);
  }

  lemma Quartered(d: u64)
    requires d >= HALF && d % 0x800 == 0
    ensures HALF / 4 <= d / 4 < TOP && 4 * (d / 4) == d && d / 4 / 2 == d / 8
  {
    var j := d / 0x800;
    DivMod(d, 0x800);
    ModIs(d, 0x200 * j, 0, 4);
    ModIs(d, 0x100 * j, 0, 8);
    ModIs(d / 4, 0x100 * j, 0, 2);
  }

  lemma StartReduction(dividend: nat, sigA0: u64, d: u64, q: u64, e: nat) returns (k: nat)
    requires dividend == Shl(sigA0, e) && e > 0 && sigA0 < 2 * d
    requires q == (if d <= sigA0 then 1 else 0) && sigA0 % 0x400 == 0 && d % 0x800 == 0
    ensures Reduced(dividend, d, k, sigA0 - (if q == 1 then d else 0), e)
  {
    assert Pow2(e) == 2 * Pow2(e - 1);
    hide Pow2;
    k := if q == 1 then Pow2(e - 1) else 0;
    if q == 1 { AddMul(sigA0 - d, d, 2 * k); }
    FirstMultiple(sigA0, d, q, sigA0 - (if q == 1 then d else 0));
  }

  lemma FirstMultiple(sigA0: u64, d: u64, q: u64, s: int)
    requires s == sigA0 - (if q == 1 then d else 0) && q == (if d <= sigA0 then 1 else 0)
    requires sigA0 % 0x400 == 0 && d % 0x800 == 0 && sigA0 < 2 * d
    ensures 0 <= s < d && s % 4 == 0
  {
    var i, j := sigA0 / 0x400, d / 0x800;
    assert sigA0 == 0x400 * i && d == 0x800 * j;
    ModIs(s, 0x100 * i - (if q == 1 then 0x200 * j else 0), 0, 4);
  }

  /** q undershoots the quotient by at most two. */
  lemma Undershoot(s: u64, d: u64, z: u64, q: u64) returns (t: nat)
    requires d > 0 && Quotient(s, 0, d) <= z <= Quotient(s, 0, d) + 2 && q == if 2 < z then z - 2 else 0
    ensures s * W64 == Times(q, d) + t && t < 3 * d
  {
    var y := Quotient(s, 0, d);
    var r := (s * W64) % d;
    DivMod(s * W64, d);
    assert s * W64 == y * d + r;
    t := s * W64 - q * d;
    assert 0 <= y - q <= 2;
    AddMul(q, y - q, d);
    assert (y - q) * d == if y == q then 0 else if y == q + 1 then d else d + d;
  }

  lemma ReduceBy62(dividend: nat, d: u64, k: nat, s: u64, e: nat, z: u64, q: u64, s': u64) returns (k': nat)
    requires Reduced(dividend, d, k, s, e) && e > 64 && d % 0x800 == 0 && d >= HALF
    requires Quotient(s, 0, d) <= z <= Quotient(s, 0, d) + 2 && q == if 2 < z then z - 2 else 0
    requires s' == (W64 - Times(d / 4, q) % W64) % W64
    ensures Reduced(dividend, d, k', s', e - 62) && s' < d
  {
    hide Times, Shl, Quotient;
    var t := Undershoot(s, d, z, q);
    QuarterOf(s, d, q, t, s');
    k' := k + Shl(q, e - 65);
    NextMultiple(d, k, s, e, q, s');
  }

  lemma QuarterOf(s: u64, d: u64, q: u64, t: nat, s': u64)
    requires s % 4 == 0 && d % 0x800 == 0 && d > 0 && s * W64 == Times(q, d) + t && t < 3 * d
    requires s' == (W64 - Times(d / 4, q) % W64) % W64
    ensures t == 4 * s' && s' < d && s' % 4 == 0
  {
    var p := Times(d / 4, q);
    QuarterProduct(d, q);
    hide Times;
    var u := QuarterDifference(s, p, t);
    NegMod(s / 4, p, u);
  }

  lemma QuarterDifference(s: u64, p: nat, t: nat) returns (u: nat)
    requires s % 4 == 0 && p % 4 == 0 && s * W64 == 4 * p + t
    ensures u == (s / 4) * W64 - p && t == 4 * u && u % 4 == 0
  {
    var h := s / 4;
    assert s == 4 * h;
    u := h * W64 - p;
  }

  lemma QuarterProduct(d: nat, q: nat)
    requires d % 0x800 == 0
    ensures Times(q, d) == 4 * Times(d / 4, q) && Times(d / 4, q) % 4 == 0
  {
    var h := 0x80 * (d / 0x800);
    assert d == 16 * h && d / 4 == 4 * h;
    Assoc(4, h, q);
    assert q * d == 16 * (h * q);
    assert (d / 4) * q == 4 * (h * q);
  }

  lemma NegMod(a: nat, p: nat, u: nat)
    requires u == a * W64 - p && u < W64
    ensures (W64 - p % W64) % W64 == u
  {
  }

  lemma NextMultiple(d: u64, k: nat, s: u64, e: nat, q: u64, s': u64)
    requires e > 64 && s * W64 == Times(q, d) + 4 * s'
    ensures Times(2 * k, d) + Shl(s, e) == Times(2 * (k + Shl(q, e - 65)), d) + Shl(s', e - 62)
  {
    var p := Pow2(e - 65);
    ShiftedBy62(e);
    hide Pow2;
    Assoc(s, W64, 2 * p);
    AddMul(q * d, 4 * s', 2 * p);
    Assoc(s', 4, 2 * p);
    FoldMultiples(k, q, d, p);
  }

  lemma ShiftedBy62(e: nat)
    requires e > 64
    ensures Pow2(e) == W64 * (2 * Pow2(e - 65)) && Pow2(e - 62) == 4 * (2 * Pow2(e - 65))
  {
    Pow2Values();
    assert Pow2(1) == 2 && Pow2(2) == 4;
    hide Pow2;
    Pow2Add(64, e - 64);
    Pow2Add(1, e - 65);
    Pow2Add(2, e - 64);
  }

  lemma FoldMultiples(k: nat, q: nat, d: nat, p: nat)
    ensures (2 * k) * d + (q * d) * (2 * p) == (2 * (k + q * p)) * d
  {
    Reorder(q, d, p);
    AddMul(2 * k, 2 * (q * p), d);
  }

  lemma Reorder(q: nat, d: nat, p: nat)
    ensures (q * d) * (2 * p) == (2 * (q * p)) * d
  {
  }

  lemma ReduceLast(dividend: nat, d: u64, k: nat, s: u64, e: nat, z: u64, q1: u64, q: u64, v: u64) returns (n: nat)
    requires Reduced(dividend, d, k, s, e) && 1 <= e <= 64 && d % 0x800 == 0 && d >= HALF
    requires Quotient(s, 0, d) <= z <= Quotient(s, 0, d) + 2 && q1 == if 2 < z then z - 2 else 0
    requires q == Shr(q1, 64 - e) && v == (Shl64(s / 2, e - 1) - Times(d / 4, q)) % W64
    ensures Last(dividend, d, n, q, v)
  {
    hide Times, Shl, Quotient, Shr, Lo;
    var t := Undershoot(s, d, z, q1);
    var w := Remaining(s, d, q1, q, t, e);
    FourthOf(s, d, q, e, w, v);
    n := 2 * k + q;
    TimesAdd(2 * k, q, d);
  }

  lemma TimesAdd(x: nat, y: nat, d: nat)
    ensures Times(x + y, d) == Times(x, d) + Times(y, d)
  {
    AddMul(x, y, d);
  }

  /** Dropping the low 64 - e bits of the quotient leaves less than 3d. */
  lemma Remaining(s: u64, d: u64, q1: u64, q: nat, t: nat, e: nat) returns (w: nat)
    requires 1 <= e <= 64 && d > 0 && s * W64 == Times(q1, d) + t && t < 3 * d && q == Shr(q1, 64 - e)
    ensures Shl(s, e) == Times(q, d) + w && w < 3 * d
  {
    hide Pow2;
    var p := Pow2(64 - e);
    SplitWord(64 - e);
    ShrLo(q1, 64 - e);
    var r := Lo(q1, 64 - e);
    hide Shr, Lo;
    Assoc(s, Pow2(e), p);
    ScaleDivision(q, p, r, d);
    w := FewDivisors(s * Pow2(e), q, p, r, d, t);
  }

  lemma FewDivisors(m: nat, q: nat, p: nat, r: nat, d: nat, t: nat) returns (w: nat)
    requires p >= 1 && d >= 1 && r < p && m * p == q * (p * d) + r * d + t && t < 3 * d
    ensures m == q * d + w && w < 3 * d
  {
    var x := m - q * d;
    Arith.Dist(m, q * d, p);
    Assoc(q, d, p);
    assert p * d == d * p;
    assert x * p == r * d + t;
    assert r * d >= 0;
    if x < 0 { AtLeast(0 - x, p); NegMul(x, p); }
    w := x;
    MulLe(r + 1, p, d);
    AddMul(r, 1, d);
    if w >= 3 * d {
      MulLe(3 * d, w, p);
      Assoc(3, d, p);
      AtLeast(p, d);
    }
  }

  lemma FourthOf(s: u64, d: u64, q: nat, e: nat, w: nat, v: u64)
    requires 1 <= e <= 64 && s % 4 == 0 && d % 0x800 == 0
    requires Shl(s, e) == Times(q, d) + w && w < 3 * d
    requires v == (Shl64(s / 2, e - 1) - Times(d / 4, q)) % W64
    ensures w == 4 * v
  {
    hide Times, Shl, Shl64;
    QuarterProduct(d, q);
    QuarterShift(s, e);
    var a, p := Shl(s / 2, e - 1), Times(d / 4, q);
    Shl64Is(s / 2, e - 1);
    FourTimes(a, p, w);
  }

  lemma Shl64Is(a: u64, n: nat)
    ensures Shl64(a, n) == Shl(a, n) % W64
  {
  }

  lemma FourTimes(a: nat, p: nat, w: nat)
    requires 4 * a == 4 * p + w && w < 3 * W64
    ensures w == 4 * ((a % W64 - p) % W64)
  {
    ModDiff(a, p);
  }

  lemma QuarterShift(s: nat, e: nat)
    requires s % 4 == 0 && e >= 1
    ensures Shl(s, e) == 4 * Shl(s / 2, e - 1)
  {
    var h := 2 * (s / 4);
    DivMod(s, 4);
    ModIs(s, h, 0, 2);
    assert Pow2(e) == 2 * Pow2(e - 1);
    hide Pow2;
    FourOf(h, Pow2(e - 1));
  }

  lemma FourOf(h: nat, p: nat)
    ensures (2 * h) * (2 * p) == 4 * (h * p)
  {
  }

  lemma ModDiff(a: nat, b: nat)
    requires 0 <= a - b < W64
    ensures (a % W64 - b) % W64 == a - b
  {
  }

  lemma NoReduction(dividend: nat, sigA0: u64, d: u64, q: u64, s: u64, expDiff: int)
    requires -1 <= expDiff <= 0 && dividend == Shl(sigA0, 0) && d % 0x800 == 0 && sigA0 % 0x400 == 0
    requires q == (if d <= sigA0 then 1 else 0) && s == sigA0 - (if q == 1 then d else 0) && s < d
    ensures Last(dividend, d, q, q, s / 4)
  {
    assert Times(q, d) == if q == 1 then d else 0;
    assert Shl(sigA0, 0) == sigA0;
    hide Times, Shl;
    Quarters(sigA0, d, s);
  }

  lemma Quarters(a: nat, d: nat, s: nat)
    requires a % 0x400 == 0 && d % 0x800 == 0 && (s == a || s == a - d)
    ensures s == 4 * (s / 4)
  {
    var i, j := a / 0x400, d / 0x800;
    DivMod(a, 0x400);
    DivMod(d, 0x800);
    var m := if s == a then 0x100 * i else 0x100 * i - 0x200 * j;
    assert s == m * 4 + 0;
    ModIs(s, m, 0, 4);
  }

  // ---- the final choice between two candidates

  /** The do-while loop and the choice that follows it. */
  method Centre(sigA0: u64, sigB: u64, q0: u64, ghost dividend: nat, ghost n0: nat)
    returns (negative: bool, mag: u64, ghost n: nat)
    requires HALF / 4 <= sigB < TOP && Last(dividend, 4 * sigB, n0, q0, sigA0)
    ensures mag <= sigB / 2 && (negative ==> mag != 0)
    ensures NearestRemainder(dividend, 4 * sigB, n, if negative then 0 - 4 * (mag as int) else 4 * mag)
  {
    hide Times, NearestRemainder, Last;
    var sigA: u64, q: u64 := sigA0, q0;
    n := n0;
    var alternateSigA: u64 := sigA;
    FirstCandidate(dividend, sigB, n, q, sigA);
    q := (q + 1) % W64;
    sigA := (sigA - sigB) % W64;
    while sigA < HALF
      invariant Last(dividend, 4 * sigB, n, (q + 1) % 2, alternateSigA)
      invariant sigA == (alternateSigA - sigB) % W64
      decreases alternateSigA
    {
      NextCandidate(dividend, sigB, n, q, alternateSigA, sigA);
      alternateSigA := sigA;
      q := (q + 1) % W64;
      sigA := (sigA - sigB) % W64;
      n := n + 1;
    }
    var sigMean := (sigA + alternateSigA) % W64;
    var first := HALF <= sigMean || (sigMean == 0 && q % 2 == 1);
    LastCandidates(dividend, sigB, n, q, alternateSigA, sigA, sigMean);
    TakeNearest(dividend, sigB, n, alternateSigA, first);
    if first {
      sigA := alternateSigA;
    } else {
      n := n + 1;
    }
    negative := HALF <= sigA;
    mag := if negative then (W64 - sigA) % W64 else sigA;
  }

  lemma FirstCandidate(dividend: nat, b: nat, n: nat, q: u64, v: nat)
    requires Last(dividend, 4 * b, n, q, v)
    ensures Last(dividend, 4 * b, n, ((q + 1) % W64 + 1) % 2, v)
  {
    NextParity(q);
    hide Times;
  }

  lemma NextParity(q: u64)
    ensures ((q + 1) % W64 + 1) % 2 == q % 2
  {
  }

  /** One more divisor fits. */
  lemma NextCandidate(dividend: nat, b: nat, n: nat, q: u64, alt: u64, sigA: u64)
    requires HALF / 4 <= b < TOP && Last(dividend, 4 * b, n, (q + 1) % 2, alt) && sigA == (alt - b) % W64 < HALF
    ensures sigA < alt && Last(dividend, 4 * b, n + 1, ((q + 1) % W64 + 1) % 2, sigA)
  {
    OneLessDivisor(dividend, b, n, alt);
    hide Times;
    NextParity(q);
    OtherParity(q, n);
    DivisorFits(b, alt, sigA);
  }

  lemma OtherParity(q: u64, n: nat)
    requires n % 2 == (q + 1) % 2 % 2
    ensures (n + 1) % 2 == q % 2 % 2
  {
  }

  lemma DivisorFits(b: nat, alt: u64, sigA: u64)
    requires 0 < b < TOP && sigA == (alt - b) % W64 < HALF
    ensures alt >= b && sigA == alt - b
  {
    if alt < b { ModIs(alt - b, -1, alt - b + W64, W64); }
  }

  /** When the next candidate is negative, the last two surround zero. */
  lemma LastCandidates(dividend: nat, b: nat, n: nat, q: u64, alt: u64, sigA: u64, mean: u64)
    requires HALF / 4 <= b < TOP && Last(dividend, 4 * b, n, (q + 1) % 2, alt) && sigA == (alt - b) % W64 >= HALF
    requires mean == (sigA + alt) % W64
    ensures alt < b && sigA == W64 + alt - b && (q % 2 == 1 <==> n % 2 == 0)
    ensures HALF <= mean <==> 2 * alt < b
    ensures mean == 0 <==> 2 * alt == b
    ensures dividend == Times(n, 4 * b) + 4 * alt == Times(n + 1, 4 * b) + 4 * (alt - b)
  {
    OneLessDivisor(dividend, b, n, alt);
    hide Times;
    MeanIs(b, alt, sigA, mean);
  }

  /** The second candidate is the first less the divisor, below zero; their sum
      tells which is nearer. */
  lemma MeanIs(b: u64, alt: u64, sigA: u64, mean: u64)
    requires HALF / 4 <= b < TOP && alt < HALF && sigA == (alt - b) % W64 >= HALF && mean == (sigA + alt) % W64
    ensures alt < b && sigA == W64 + alt - b
    ensures HALF <= mean <==> 2 * alt < b
    ensures mean == 0 <==> 2 * alt == b
  {
  }

  lemma TakeNearest(dividend: nat, b: nat, n: nat, v: nat, first: bool)
    requires dividend == Times(n, 4 * b) + 4 * v == Times(n + 1, 4 * b) + 4 * (v - b) && v < b
    requires first <==> 2 * v < b || (2 * v == b && n % 2 == 0)
    ensures NearestRemainder(dividend, 4 * b, if first then n else n + 1, if first then 4 * v else 4 * (v - b))
  {
    hide Times;
  }

  lemma OneLessDivisor(dividend: nat, b: nat, n: nat, v: nat)
    requires dividend == Times(n, 4 * b) + 4 * v
    ensures dividend == Times(n + 1, 4 * b) + 4 * (v - b)
  {
    AddMul(n, 1, 4 * b);
  }

  // ---- the real remainder

  /** The number within a half of x, even when there are two, is the nearest
      integer; negating x negates it. */
  lemma NearestIs(x: real, n: int)
    requires -0.5 <= x - n as real <= 0.5 && (x - n as real == 0.5 || x - n as real == -0.5 ==> n % 2 == 0)
    ensures NearestEvenInt(x) == n && NearestEvenInt(-x) == -n
  {
    hide NearestEvenInt;
    NearestOne(x, n);
    NearestOne(-x, -n);
  }

  lemma NearestOne(x: real, n: int)
    requires -0.5 <= x - n as real <= 0.5 && (x - n as real == 0.5 || x - n as real == -0.5 ==> n % 2 == 0)
    ensures NearestEvenInt(x) == n
  {
    if x >= n as real { assert x.Floor == n; } else { assert x.Floor == n - 1; }
  }

  lemma NearestWithin(x: real)
    requires x >= 0.0
    ensures var n := NearestEvenInt(x); -0.5 <= x - n as real <= 0.5 && n >= 0 && (n as real - x <= x)
    ensures var n := NearestEvenInt(x); x - n as real == 0.5 || x - n as real == -0.5 ==> n % 2 == 0
  {
    var n := x.Floor;
    assert n as real <= x < n as real + 1.0 && n >= 0;
  }

  ghost function RemQuotient(a: u64, b: u64): int
    requires !IsZero(b)
  {
    NearestEvenInt(MagQuotient(a, b))
  }

  /** |a| less the nearest multiple of |b|. */
  ghost function MagRemainder(a: u64, b: u64): real
    requires !IsZero(b)
  {
    MagValue(Mag(a)) - RemQuotient(a, b) as real * MagValue(Mag(b))
  }

  function RealAbs(x: real): real { if x < 0.0 then -x else x }

  lemma RemainderBounds(a: u64, b: u64)
    requires !IsZero(b)
    ensures RealAbs(MagRemainder(a, b)) <= MagValue(Mag(a))
    ensures 2.0 * RealAbs(MagRemainder(a, b)) <= MagValue(Mag(b))
  {
    hide MagValue, NearestEvenInt, MagRemainder;
    ZeroOnly(b);
    MagMono(Mag(a), Mag(a));
    RemainderIsDifference(a, b);
    var x := MagQuotient(a, b);
    NearestWithin(x);
    DivideBack(MagValue(Mag(a)), MagValue(Mag(b)), x);
    ScaledDifference(x, RemQuotient(a, b) as real, MagValue(Mag(b)), MagValue(Mag(a)),
                     RemQuotient(a, b) as real * MagValue(Mag(b)));
  }

  lemma DivideBack(p: real, q: real, x: real)
    requires q > 0.0 && x == p / q
    ensures x * q == p
  {
  }

  lemma ScaledDifference(x: real, n: real, q: real, p: real, m: real)
    requires q > 0.0 && x >= 0.0 && n >= 0.0 && -0.5 <= x - n <= 0.5 && n - x <= x && p == x * q && m == n * q
    ensures RealAbs(p - m) <= p
    ensures 2.0 * RealAbs(p - m) <= q
  {
    assert p - m == (x - n) * q;
    MulOrder(x - n, 0.5, q, p - m, 0.5 * q);
    MulOrder(x - n, -0.5, q, p - m, -0.5 * q);
    assert m - p == (n - x) * q;
    MulOrder(n - x, x, q, m - p, p);
    MulOrder(0.0, n, q, 0.0, m);
  }

  /** The specification in terms of magnitudes. */
  lemma RemSpecIs(a: u64, b: u64)
    requires IsFinite(a) && IsFinite(b) && !IsZero(b)
    ensures var r := MagRemainder(a, b);
            RemSpec(a, b) == Round(NearEven, SignBit(a) != (r < 0.0), RealAbs(r))
  {
    hide MagValue, RemValue, Round;
    ZeroOnly(b);
    MagMono(Mag(a), Mag(a));
    RemSpecUnfold(a, b);
    RemValueSigned(SignBit(a), SignBit(b), MagValue(Mag(a)), MagValue(Mag(b)));
    MagRemainderIs(a, b);
    hide MagRemainder;
    var r := MagRemainder(a, b);
    SignedRound(NearEven, SignBit(a) != (r < 0.0), RealAbs(r), if SignBit(a) then -r else r, SignBit(a));
  }

  lemma MagRemainderIs(a: u64, b: u64)
    requires !IsZero(b)
    ensures MagValue(Mag(b)) > 0.0 && MagRemainder(a, b) == RemValue(MagValue(Mag(a)), MagValue(Mag(b)))
  {
    hide MagValue, NearestEvenInt;
    ZeroOnly(b);
  }

  lemma RemSpecUnfold(a: u64, b: u64)
    requires IsFinite(a) && IsFinite(b) && !IsZero(b)
    ensures Value(b) != 0.0
    ensures RemSpec(a, b) == RoundSigned(NearEven, RemValue(Value(a), Value(b)), SignBit(a))
  {
    ZeroOnly(b);
    hide Value, RemValue, RoundSigned;
  }

  lemma RemValueSigned(s: bool, t: bool, p: real, q: real)
    requires p >= 0.0 && q > 0.0
    ensures RemValue(if s then -p else p, if t then -q else q) == if s then -RemValue(p, q) else RemValue(p, q)
  {
    hide NearestEvenInt;
    RealQuotientSigns(p, q);
    var x := p / q;
    NearestWithin(x);
    NearestIs(x, NearestEvenInt(x));
    SignedProducts(NearestEvenInt(x) as real, q);
  }

  lemma SignedProducts(n: real, q: real)
    ensures (-n) * q == -(n * q) && n * (-q) == -(n * q) && (-n) * (-q) == n * q
  {
  }

  // ---- the remainder is always representable

  function UnitSig(ui: u64): nat { if ExpField(ui) == 0 then FracField(ui) else FRAC + FracField(ui) }

  function UnitExp(ui: u64): int { if ExpField(ui) == 0 then 1 else ExpField(ui) }

  lemma RemainderRepresentable(a: u64, b: u64) returns (m: nat)
    requires IsFinite(a) && IsFinite(b) && !IsZero(b)
    ensures m < INF && MagValue(m) == RealAbs(MagRemainder(a, b))
  {
    hide MagValue, Scale, MagQuotient, NearestEvenInt, RemQuotient, MagRemainder, UnitSig, UnitExp;
    hide Shl, ExpField, FracField, IsFinite;
    Units(a);
    Units(b);
    var e := if UnitExp(a) <= UnitExp(b) then UnitExp(a) else UnitExp(b);
    var da: nat, db: nat := UnitExp(a) - e, UnitExp(b) - e;
    var n := RemQuotient(a, b);
    ScaleShl(UnitSig(a), da, e - 1075);
    ScaleShl(UnitSig(b), db, e - 1075);
    var t := GridDifference(Shl(UnitSig(a), da), n, Shl(UnitSig(b), db), e - 1075);
    RemainderIsDifference(a, b);
    RemainderBounds(a, b);
    ScaleAbs(t, e - 1075);
    var u: nat := if t < 0 then -t else t;
    FitsUnit(u, if da == 0 then UnitSig(a) else UnitSig(b), e - 1075);
    m := Representable(u, e - 1075);
  }

  lemma RemainderIsDifference(a: u64, b: u64)
    requires !IsZero(b)
    ensures MagRemainder(a, b) == MagValue(Mag(a)) - RemQuotient(a, b) as real * MagValue(Mag(b))
  {
  }

  lemma Units(ui: u64)
    requires IsFinite(ui)
    ensures UnitSig(ui) < 2 * FRAC && 1 <= UnitExp(ui) < 0x7FF
    ensures MagValue(Mag(ui)) == Scale(UnitSig(ui) as real, UnitExp(ui) - 1075) >= 0.0
  {
    hide MagValue, Scale;
    Fields(ui);
    FieldValue(ui);
    MagMono(Mag(ui), Mag(ui));
  }

  lemma GridDifference(p: nat, n: int, q: nat, e: int) returns (t: int)
    ensures Scale(t as real, e) == Scale(p as real, e) - n as real * Scale(q as real, e)
    ensures t == p - n * q
  {
    t := p - n * q;
    RealOfProduct(n, q);
    ScaleProductInt(n, q, e, n * q);
    hide Scale;
    ScaleSum(p as real, (n * q) as real, e);
  }

  lemma ScaleProductInt(n: int, q: nat, e: int, p: int)
    requires p == n * q
    ensures n as real * Scale(q as real, e) == Scale(p as real, e)
  {
    RealOfProduct(n, q);
    RealAssoc(n as real, q as real, P2(e));
  }

  lemma ScaleAbs(t: int, e: int)
    ensures RealAbs(Scale(t as real, e)) == Scale((if t < 0 then -t else t) as real, e)
  {
    hide Scale;
    ScaleZero(e);
    ScaleOrder(t as real, 0.0, e);
    ScaleSum(0.0, t as real, e);
  }

  lemma FitsUnit(u: nat, s: nat, e: int)
    requires Scale(u as real, e) <= Scale(s as real, e)
    ensures u <= s
  {
    hide Scale;
    if s < u { ScaleOrder(s as real, u as real, e); }
  }

  /** The remainder is exact: no rounding mode changes it and no flag is
      raised, although it may well be subnormal. */
  lemma RemainderExact(mode: RoundingMode, a: u64, b: u64)
    requires IsFinite(a) && IsFinite(b) && !IsZero(b)
    ensures var r := MagRemainder(a, b);
            RemSpec(a, b) == Round(mode, SignBit(a) != (r < 0.0), RealAbs(r)) && RemSpec(a, b).flags == {}
  {
    hide MagValue, Round, MagRemainder;
    var m := RemainderRepresentable(a, b);
    RemSpecIs(a, b);
    var s := SignBit(a) != (MagRemainder(a, b) < 0.0);
    RoundExact(mode, s, m);
    RoundExact(NearEven, s, m);
  }

  /** When |a| is below half of |b| the remainder is a itself. */
  lemma DividendIsRemainder(a: u64, b: u64)
    requires IsFinite(a) && IsFinite(b) && !IsZero(b) && 2.0 * MagValue(Mag(a)) < MagValue(Mag(b))
    ensures RemSpec(a, b) == Outcome(a, {})
  {
    hide MagValue, Round, NearestEvenInt;
    MagMono(Mag(a), Mag(a));
    var x := MagQuotient(a, b);
    DivideBack(MagValue(Mag(a)), MagValue(Mag(b)), x);
    BelowHalf(x, MagValue(Mag(b)), MagValue(Mag(a)));
    NearestIs(x, 0);
    RemSpecIs(a, b);
    RoundExact(NearEven, SignBit(a), Mag(a));
    Fields(a);
  }

  lemma BelowHalf(x: real, q: real, p: real)
    requires q > 0.0 && x >= 0.0 && p == x * q && 2.0 * p < q
    ensures x < 0.5
  {
    if x >= 0.5 { RealMulMono(0.5, x, q); }
  }

  // ---- f64_rem.c

  /** No flag other than invalid is ever raised, and the rounding mode plays
      no part. */
  method F64Rem(env: FpEnv, a: u64, b: u64) returns (z: u64)
    modifies env`exceptionFlags
    ensures Outcome(z, env.exceptionFlags) == Accrued(old(env.exceptionFlags), RemSpec(a, b))
  {
    hide RemSpec, Mag, Scale, Round, MagValue, WithHidden, Shl, NearestRemainder;
    hide ExpField, FracField, IsSigNaN;
    Fields(a);
    Fields(b);
    SpecialRems(a, b);
    var signA := SignBit(a);
    var expA, sigA := ExpField(a), FracField(a);
    var expB, sigB := ExpField(b), FracField(b);
    if expA == 0x7FF {
      if sigA != 0 || (expB == 0x7FF && sigB != 0) {
        z := AddSub.PropagateNaNF64UI(env, a, b);
      } else {
        env.RaiseFlags({Invalid});
        z := DEFAULT_NAN;
      }
      return;
    }
    if expB == 0x7FF {
      if sigB != 0 {
        z := AddSub.PropagateNaNF64UI(env, a, b);
      } else {
        z := a;
      }
      return;
    }
    if expB == 0 && sigB == 0 {
      env.RaiseFlags({Invalid});
      return DEFAULT_NAN;
    }
    if expA == 0 && sigA == 0 {
      return a;
    }
    FieldValue(a);
    FieldValue(b);
    var nb := UnpackNormal(expB, sigB);
    var na := UnpackNormal(expA, sigA);
    var expDiff := na.exp - nb.exp;
    if expDiff < -1 {
      SmallDividend(a, b, WithHidden(na.sig), na.exp, WithHidden(nb.sig), nb.exp);
      return a;
    }
    var sa: u64 := WithHidden(na.sig) * 0x800;
    var sb: u64 := WithHidden(nb.sig) * 0x800;
    if expDiff < 0 {
      sa := sa / 2;
      assert sa == WithHidden(na.sig) * 0x400;
    }
    ghost var dividend := DividendIs(WithHidden(na.sig), sa, na.exp, nb.exp);
    TwoEleven(WithHidden(nb.sig), nb.exp - 1086);
    var negative, mag, n := Reduce(sa, sb, expDiff, dividend);
    RemainderIs(env.roundingMode, a, b, dividend, sb, nb.exp, n, negative, mag);
    z := NormRoundPackToF64(env, signA != negative, nb.exp, mag, mag as real);
  }

  lemma SpecialRems(a: u64, b: u64)
    ensures IsNaN(a) || IsNaN(b) ==> RemSpec(a, b) == NaNResult(IsSigNaN(a) || IsSigNaN(b))
    ensures !IsNaN(a) && !IsNaN(b) && (IsInf(a) || IsZero(b)) ==> RemSpec(a, b) == NaNResult(true)
    ensures IsFinite(a) && IsInf(b) ==> RemSpec(a, b) == Outcome(a, {})
    ensures IsZero(a) && IsFinite(b) && !IsZero(b) ==> RemSpec(a, b) == Outcome(a, {})
  {
    hide MagValue, RoundSigned;
    ZeroOnly(b);
    ZeroMag();
    if IsZero(a) && IsFinite(b) && !IsZero(b) { DividendIsRemainder(a, b); }
    hide Value, RemValue;
  }

  lemma SmallDividend(a: u64, b: u64, sa: nat, ea: int, sb: nat, eb: int)
    requires IsFinite(a) && IsFinite(b) && !IsZero(b) && sa < 2 * FRAC && FRAC <= sb && ea < eb - 1
    requires MagValue(Mag(a)) == Scale(sa as real, ea - 1075) && MagValue(Mag(b)) == Scale(sb as real, eb - 1075)
    ensures RemSpec(a, b) == Outcome(a, {})
  {
    hide MagValue, Scale, RemSpec;
    var f := FRAC as real;
    ScaleOrder(sa as real, 2.0 * f, ea - 1075);
    ScaleDouble(f, ea - 1075);
    ScaleTwice(f, ea - 1075);
    ScaleMono(f, ea + 1 - 1075, eb - 1075);
    ScaleOrder(f, sb as real, eb - 1075);
    DividendIsRemainder(a, b);
  }

  lemma TwoEleven(s: nat, e: int)
    ensures Scale((s * 0x800) as real, e) == Scale(s as real, e + 11)
    ensures (s * 0x800) % 0x800 == 0
  {
    hide Scale;
    Pow2Small();
    ScaleUp(s as real, e, 11, (s * 0x800) as real);
  }

  lemma DividendIs(s: nat, sa: nat, ea: int, eb: int) returns (dividend: nat)
    requires ea - eb >= -1 && sa == if ea < eb then s * 0x400 else s * 0x800
    ensures dividend == Shl(sa, if ea < eb then 0 else ea - eb)
    ensures Scale(dividend as real, eb - 1086) == Scale(s as real, ea - 1075)
    ensures sa % 0x400 == 0
  {
    hide Scale, Shl;
    ModIs(sa, if ea < eb then s else 2 * s, 0, 0x400);
    var n := if ea < eb then 0 else ea - eb;
    dividend := Shl(sa, n);
    ScaleShl(sa, n, eb - 1086);
    if ea < eb {
      TenBits(s, eb - 1086);
    } else {
      TwoEleven(s, ea - 1086);
    }
  }

  lemma RemainderIs(mode: RoundingMode, a: u64, b: u64, dividend: nat, d: nat, eb: int, n: nat, negative: bool,
                    mag: nat)
    requires IsFinite(a) && IsFinite(b) && !IsZero(b)
    requires MagValue(Mag(a)) == Scale(dividend as real, eb - 1086) && MagValue(Mag(b)) == Scale(d as real, eb - 1086)
    requires NearestRemainder(dividend, d, n, if negative then 0 - 4 * (mag as int) else 4 * mag)
    requires negative ==> mag != 0
    ensures Scale(mag as real, eb - 1084) >= 0.0
    ensures RemSpec(a, b) == Round(mode, SignBit(a) != negative, Scale(mag as real, eb - 1084))
  {
    hide MagValue, Scale, Round, RemSpec, MagRemainder, NearestRemainder;
    var r := if negative then 0 - 4 * (mag as int) else 4 * mag;
    ScaleSign(mag as real, eb - 1084);
    RemainderExact(mode, a, b);
    ZeroOnly(b);
    QuotientIs(a, b, dividend, d, eb - 1086, n, r);
    ScaleSign(r as real, eb - 1086);
    ScaleSum(0.0, (4 * mag) as real, eb - 1086);
    Quadruple(mag, eb - 1086);
  }

  lemma Quadruple(m: nat, e: int)
    ensures Scale((4 * m) as real, e) == Scale(m as real, e + 2)
    ensures Scale((0 - 4 * (m as int)) as real, e) == -Scale(m as real, e + 2)
  {
    assert Pow2(2) == 4;
    hide Scale;
    ScaleUp(m as real, e, 2, (4 * m) as real);
    ScaleSum(0.0, (4 * m) as real, e);
  }

  lemma QuotientIs(a: u64, b: u64, dividend: nat, d: nat, e: int, n: nat, r: int)
    requires !IsZero(b) && NearestRemainder(dividend, d, n, r)
    requires MagValue(Mag(a)) == Scale(dividend as real, e) && MagValue(Mag(b)) == Scale(d as real, e) > 0.0
    ensures MagRemainder(a, b) == Scale(r as real, e)
  {
    hide MagValue, Scale, NearestEvenInt;
    ScaleSign(d as real, e);
    var x := Ratio(dividend, d);
    SameRatio(x, dividend, d, e);
    DivideScaled(MagValue(Mag(a)), MagValue(Mag(b)), x);
    IntegerDivision(x, dividend, d, n, r);
    NearestIs(x, n);
    var t := GridDifference(dividend, n, d, e);
  }

  lemma SameRatio(x: real, p: nat, q: nat, e: int)
    requires x * q as real == p as real
    ensures x * Scale(q as real, e) == Scale(p as real, e)
  {
    RealAssoc(x, q as real, P2(e));
  }

  lemma IntegerDivision(x: real, p: nat, d: nat, n: nat, r: int)
    requires d > 0 && x * d as real == p as real && NearestRemainder(p, d, n, r)
    ensures -0.5 <= x - n as real <= 0.5
    ensures x - n as real == 0.5 || x - n as real == -0.5 ==> n % 2 == 0
  {
    var y := 2.0 * (x - n as real);
    Twice(x - n as real, d as real);
    RealOfProduct(n, d);
    assert (x - n as real) * d as real == r as real;
    assert y * d as real == (2 * r) as real;
    RatioSigned(y, d, 2 * r);
  }

  lemma RatioSigned(y: real, d: nat, r: int)
    requires d > 0 && y * d as real == r as real
    ensures r <= d ==> y <= 1.0
    ensures r >= 0 - (d as int) ==> y >= -1.0
    ensures y == 1.0 <==> r == d
    ensures y == -1.0 <==> r == 0 - (d as int)
  {
    RealUnit(d as real);
    MulOrder(y, 1.0, d as real, r as real, d as real);
    MulOrder(y, -1.0, d as real, r as real, -(d as real));
  }

  lemma RealUnit(q: real)
    ensures 1.0 * q == q && -1.0 * q == -q
  {
  }

  lemma MulOrder(x: real, y: real, q: real, p: real, r: real)
    requires q > 0.0 && p == x * q && r == y * q
    ensures x < y <==> p < r
    ensures x == y <==> p == r
  {
    if x < y { RealMulLess(x, y, q); } else if y < x { RealMulLess(y, x, q); }
  }
}
