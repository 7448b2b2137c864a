/** The sticky ("jamming") shifts of SoftFloat on 64- and 128-bit words. */
module Jam {
  import opened Arith
  import opened Powers
  import opened Bits
  import opened MultiWord

  /** q | sticky */
  function Sticky(q: nat, sticky: bool): (r: nat)
    ensures q <= r <= q + 1 && r / 2 == q / 2
    ensures sticky ==> r % 2 == 1
    ensures !sticky ==> r == q
  {
    if sticky && q % 2 == 0 then q + 1 else q
  }

  /** a >> n and the bits it loses */
  function Shr(a: nat, n: nat): (r: nat)
    ensures r <= a
  {
    DivBounds(a, Pow2(n)); a / Pow2(n)
  }

  function Lo(a: nat, n: nat): (r: nat)
    ensures r < Pow2(n)
  {
    DivMod(a, Pow2(n)); a % Pow2(n)
  }

  lemma ShrLo(a: nat, n: nat)
    ensures a == Shr(a, n) * Pow2(n) + Lo(a, n)
  {
    DivMod(a, Pow2(n));
  }

  lemma ShrExact(a: nat, n: nat, q: nat)
    requires a == q * Pow2(n)
    ensures Shr(a, n) == q && Lo(a, n) == 0
  {
    hide Pow2;
    ModIs(a, q, 0, Pow2(n));
  }

  /** A right shift that keeps in bit 0 whether a 1 was shifted out. */
  function JamShift(a: nat, c: nat): nat {
    Sticky(Shr(a, c), Lo(a, c) != 0)
  }

  /** -count & 63 */
  function NegCount(count: nat): nat { (64 - count % 64) % 64 }

  function Shl64(a: u64, n: nat): u64 { Shl(a, n) % W64 }

  lemma StickyFits(q: u64, s: bool)
    ensures Sticky(q, s) < W64
  {
  }

  lemma SplitWord(count: nat)
    requires count <= 64
    ensures Pow2(count) * Pow2(64 - count) == W64 && Pow2(64 - count) * Pow2(count) == W64
  {
    Pow2Add(count, 64 - count);
    Pow2Values();
  }

  /** Scaling by n pushes everything above the low p out of the word. */
  lemma LowBits(a: nat, p: nat, n: nat)
    requires p >= 1 && n >= 1 && p * n == W64
    ensures a * n == (a / p) * W64 + (a % p) * n
    ensures (a * n) % W64 == (a % p) * n && (a * n) / W64 == a / p
    ensures (a % p) * n <= W64 - n
    ensures a % p != 0 <==> (a % p) * n != 0
  {
    DivMod(a, p);
    var q, r := a / p, a % p;
    ScaleDivision(q, p, r, n);
    ScaledRemainder(r, p, n);
    ModIs(a * n, q, r * n, W64);
  }

  /** What a shift by -count & 63 puts in the word is what a >> count loses. */
  lemma ShiftedOut(a: u64, count: nat)
    requires 1 <= count < 64
    ensures Shl64(a, NegCount(count)) == Shl(Lo(a, count), 64 - count)
    ensures Shl64(a, NegCount(count)) != 0 <==> Lo(a, count) != 0
    ensures Shl(a, 64 - count) == Shr(a, count) * W64 + Shl(Lo(a, count), 64 - count)
  {
    NegCountIs(count);
    SplitWord(count);
    hide Pow2, NegCount;
    ShiftedWord(a, Pow2(count), Pow2(64 - count));
  }

  lemma NegCountIs(count: nat)
    requires 1 <= count < 64
    ensures NegCount(count) == 64 - count
  {
  }

  lemma ShiftedWord(a: u64, p: nat, n: nat)
    requires p >= 1 && n >= 1 && p * n == W64
    ensures (a * n) % W64 == (a % p) * n && ((a % p) * n != 0 <==> a % p != 0)
    ensures a * n == (a / p) * W64 + (a % p) * n
  {
    LowBits(a, p, n);
  }

  lemma TooFar(a: nat, k: nat, count: nat)
    requires a < Pow2(k) && k <= count
    ensures Shr(a, count) == 0 && Lo(a, count) == a
  {
    Pow2Mono(k, count);
    DivBounds(a, Pow2(count));
  }

  // ---- s_shift64RightJam.c

  function Shift64RightJam(a: u64, count: nat): u64 {
    if count < 64 then
      StickyFits(Shr(a, count), Shl64(a, NegCount(count)) != 0);
      Sticky(Shr(a, count), Shl64(a, NegCount(count)) != 0)
    else if a != 0 then 1 else 0
  }

  /** Every positive count jams; the primitives rule out a count of 0. */
  lemma Shift64RightJamIs(a: u64, count: nat)
    requires count >= 1
    ensures Shift64RightJam(a, count) == JamShift(a, count)
  {
    hide Shr, Lo, Shl64, Pow2;
    if count < 64 {
      ShiftedOut(a, count);
    } else {
      Pow2Values();
      TooFar(a, 64, count);
    }
  }

  /** With a count of 0 the routine sets bit 0 of any nonzero word. */
  lemma Shift64RightJamZero(a: u64)
    ensures Shift64RightJam(a, 0) == JamShift(a, 0) <==> a == 0 || a % 2 == 1
  {
    assert Pow2(0) == 1 && Shl64(a, 0) == a;
  }

  // ---- s_shortShift64RightJam.c

  function ShortShift64RightJam(a: u64, count: nat): u64
    requires count < 64
  {
    StickyFits(Shr(a, count), Lo(a, count) != 0);
    Sticky(Shr(a, count), Lo(a, count) != 0)
  }

  // ---- s_shift64ExtraRightJam.c

  datatype U64Extra = U64Extra(v: u64, extra: u64)

  /** The bits that leave the word fill the fraction word from the top; those
      that leave that too, and the fraction that came in, survive in its bit 0. */
  method Shift64ExtraRightJam(a: u64, extra: u64, count: nat) returns (z: U64Extra)
    requires count >= 1
    ensures z.v == Shr(a, count)
    ensures count <= 64 ==> z.extra == Sticky(Shl(Lo(a, count), 64 - count), extra != 0)
    ensures count > 64 ==> z.extra == if a != 0 || extra != 0 then 1 else 0
  {
    hide Shr, Lo, Shl64, Pow2, Shl, Sticky;
    var v, e: u64;
    if count < 64 {
      v := Shr(a, count);
      e := Shl64(a, NegCount(count));
      ShiftedOut(a, count);
    } else {
      v := 0;
      e := if count == 64 then a else if a != 0 then 1 else 0;
      Pow2Values();
      TooFar(a, 64, count);
      ShlZero(a);
    }
    OrSticky(e, extra != 0);
    z := U64Extra(v, Or(e, if extra != 0 then 1 else 0));
  }

  lemma OrSticky(q: u64, s: bool)
    ensures Or(q, if s then 1 else 0) == Sticky(q, s) < W64
    ensures q <= 1 ==> Sticky(q, s) == if q == 1 || s then 1 else 0
  {
    StickyFits(q, s);
    OrZero(q / 2);
    if !s { OrZero(q); }
  }

  lemma ShlZero(a: nat)
    ensures Shl(a, 0) == a
  {
  }

  // ---- s_shift128RightJam.c

  function Shift128RightJam(a64: u64, a0: u64, count: nat): U128 {
    if count < 64 then
      var n := NegCount(count);
      U128(Shr(a64, count), Sticky(Or(Shl64(a64, n), Shr(a0, count)), Shl64(a0, n) != 0) % W64)
    else if count < 128 then
      U128(0, Sticky(Shr(a64, count % 64), Lo(a64, count % 64) != 0 || a0 != 0) % W64)
    else
      U128(0, if a64 != 0 || a0 != 0 then 1 else 0)
  }

  lemma Shift128RightJamIs(a64: u64, a0: u64, count: nat)
    requires count >= 1
    ensures Shift128RightJam(a64, a0, count).Val() == JamShift(a64 * W64 + a0, count)
  {
    hide Shr, Lo, Shl64, Pow2;
    if count < 64 {
      NearShift(a64, a0, count);
    } else if count < 128 {
      FarShift(a64, a0, count);
      StickyFits(Shr(a64, count % 64), Lo(a64, count % 64) != 0 || a0 != 0);
    } else {
      Pow2Values();
      TooFar(a64 * W64 + a0, 128, count);
    }
  }

  lemma NearShift(a64: u64, a0: u64, count: nat)
    requires 1 <= count < 64
    ensures Shift128RightJam(a64, a0, count).Val() == JamShift(a64 * W64 + a0, count)
  {
    hide Shr, Lo, Shl64, Shl, Pow2, Or;
    ShiftedOut(a64, count);
    ShiftedOut(a0, count);
    TwoWordQuotient(a64, a0, count);
    StickyWord(Shr(a64, count), Or(Shl(Lo(a64, count), 64 - count), Shr(a0, count)), Lo(a0, count) != 0);
  }

  lemma TwoWordQuotient(a64: nat, a0: u64, count: nat)
    requires 1 <= count < 64
    ensures Or(Shl(Lo(a64, count), 64 - count), Shr(a0, count)) < W64
    ensures Shr(a64 * W64 + a0, count)
         == Shr(a64, count) * W64 + Or(Shl(Lo(a64, count), 64 - count), Shr(a0, count))
    ensures Lo(a64 * W64 + a0, count) == Lo(a0, count)
  {
    hide Pow2, Or;
    SplitWord(count);
    var p, n := Pow2(count), Pow2(64 - count);
    QuotientBelow(a0, p, n);
    DivBounds(a0, p);
    OrDisjoint(Lo(a64, count), Shr(a0, count), 64 - count);
    TwoLimbs(a64, a0, p, n);
  }

  lemma TwoLimbs(a64: nat, a0: u64, p: nat, n: nat)
    requires p >= 1 && n >= 1 && p * n == W64 && a0 / p < n
    ensures (a64 % p) * n + a0 / p < W64
    ensures (a64 * W64 + a0) / p == (a64 / p) * W64 + ((a64 % p) * n + a0 / p)
    ensures (a64 * W64 + a0) % p == a0 % p
  {
    LowBits(a64, p, n);
    DivMod(a0, p);
    AddMul(a64 * n, a0 / p, p);
    Assoc(a64, n, p);
    ModIs(a64 * W64 + a0, a64 * n + a0 / p, a0 % p, p);
  }

  lemma StickyWord(h: nat, l: nat, s: bool)
    requires l < W64
    ensures Sticky(l, s) < W64 && h * W64 + Sticky(l, s) == Sticky(h * W64 + l, s)
  {
  }

  lemma FarShift(a64: u64, a0: u64, count: nat)
    requires 64 <= count < 128
    ensures Shr(a64 * W64 + a0, count) == Shr(a64, count % 64)
    ensures Lo(a64 * W64 + a0, count) != 0 <==> Lo(a64, count % 64) != 0 || a0 != 0
  {
    hide Pow2;
    var p := Pow2(count - 64);
    Pow2Add(count - 64, 64);
    Pow2Values();
    assert count % 64 == count - 64;
    FarLimbs(a64, a0, p);
  }

  lemma FarLimbs(a64: nat, a0: u64, p: nat)
    requires p >= 1
    ensures p * W64 >= 1
    ensures (a64 * W64 + a0) / (p * W64) == a64 / p
    ensures (a64 * W64 + a0) % (p * W64) == (a64 % p) * W64 + a0
  {
    DivMod(a64, p);
    var q, r := a64 / p, a64 % p;
    ScaleDivision(q, p, r, W64);
    ScaledRemainder(r, p, W64);
    ModIs(a64 * W64 + a0, q, r * W64 + a0, p * W64);
  }

  // ---- s_shortShift128Left.c

  function ShortShift128Left(a64: u64, a0: u64, count: nat): U128
    requires count < 64
  {
    U128(Or(Shl64(a64, count), Shr(a0, NegCount(count))) % W64, Shl64(a0, count))
  }

  /** Every count from 1 to 63 is a plain 128-bit shift; a count of 0 is one if
      and only if the low word's bits are all in the high word already. */
  lemma ShortShift128LeftIs(a64: u64, a0: u64, count: nat)
    requires count < 64 && Shl(a64 * W64 + a0, count) < W128
    ensures ShortShift128Left(a64, a0, count).Val() == Shl(a64 * W64 + a0, count)
            <==> count > 0 || Or(a64, a0) == a64
    ensures a0 == 0 ==> Or(a64, a0) == a64
  {
    hide Shr, Shl64, Shl, Pow2, Or;
    if a0 == 0 { OrZero(a64); }
    if count == 0 {
      ShlZero(a64 * W64 + a0);
      LeftByZero(a64, a0);
    } else {
      LeftLimbs(a64, a0, count);
    }
  }

  lemma LeftByZero(a64: u64, a0: u64)
    ensures Or(a64, a0) < W64 && ShortShift128Left(a64, a0, 0) == U128(Or(a64, a0), a0)
  {
    ShiftByZero(a64);
    ShiftByZero(a0);
    OrFits(a64, a0);
    hide Or, Shl64, Shr, Pow2;
  }

  lemma ShiftByZero(a: u64)
    ensures NegCount(0) == 0 && Shl64(a, 0) == a && Shr(a, 0) == a
  {
    assert Pow2(0) == 1;
    hide Pow2;
  }

  lemma LeftLimbs(a64: u64, a0: u64, count: nat)
    requires 1 <= count < 64 && Shl(a64 * W64 + a0, count) < W128
    ensures Or(Shl64(a64, count), Shr(a0, NegCount(count))) < W64
    ensures Or(Shl64(a64, count), Shr(a0, NegCount(count))) * W64 + Shl64(a0, count) == Shl(a64 * W64 + a0, count)
  {
    hide Shl, Shr, Pow2, Or;
    LeftProduct(a64, a0, count);
    OrShl(a64, Shr(a0, 64 - count), count);
  }

  lemma OrShl(a: nat, b: nat, k: nat)
    requires b < Pow2(k)
    ensures Or(Shl(a, k), b) == Shl(a, k) + b
  {
    OrDisjoint(a, b, k);
  }

  lemma LeftProduct(a64: u64, a0: u64, count: nat)
    requires 1 <= count < 64 && Shl(a64 * W64 + a0, count) < W128
    ensures Shr(a0, 64 - count) < Pow2(count)
    ensures Shl(a64, count) + Shr(a0, 64 - count) < W64
    ensures (Shl(a64, count) + Shr(a0, 64 - count)) * W64 + Shl(a0, count) % W64 == Shl(a64 * W64 + a0, count)
  {
    hide Pow2;
    SplitWord(count);
    var p, n := Pow2(count), Pow2(64 - count);
    QuotientBelow(a0, n, p);
    LowBits(a0, n, p);
    ShlTwoWords(a64, a0, count);
  }

  lemma ShlTwoWords(a64: nat, a0: nat, count: nat)
    ensures Shl(a64 * W64 + a0, count) == Shl(a64, count) * W64 + Shl(a0, count)
  {
    var p := Pow2(count);
    AddMul(a64 * W64, a0, p);
    Assoc(a64, W64, p);
    Assoc(a64, p, W64);
  }
}
