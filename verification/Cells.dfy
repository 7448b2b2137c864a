/** When does rounding a jammed significand give what rounding the exact one
    would?  When the two lie in the same cell of the grid of rounding points. */
module Cells {
  import opened Arith
  import opened Powers
  import opened Jam

  /** x and s are equal, or strictly inside the same cell of the grid of
      multiples of g. */
  ghost predicate SameCell(x: real, s: int, g: nat)
    requires g > 0
  {
    x == s as real || (s % g != 0 && (s / g * g) as real < x < (s / g * g + g) as real)
  }

  /** Multiples of g stay on their side of the cell of s. */
  lemma Grid(s: int, g: nat, k: int)
    requires g > 0
    ensures k * g <= s ==> k * g <= s / g * g
    ensures k * g > s ==> k * g >= s / g * g + g
    ensures s / g * g <= s < s / g * g + g
  {
    var q := s / g;
    DivMod(s, g);
    AddMul(q, 1, g);
    if k * g <= s && k > q { MulLe(q + 1, k, g); }
    if k * g > s && k <= q { MulLe(k, q, g); }
    if k <= q { MulLe(k, q, g); } else { MulLe(q + 1, k, g); }
  }

  lemma CellCoarsen(x: real, s: int, g: nat, k: nat)
    requires g > 0 && k > 0 && SameCell(x, s, g)
    ensures g * k > 0 && SameCell(x, s, g * k)
  {
    AtLeast(k, g);
    var c := s / (g * k);
    Grid(s, g * k, c);
    Assoc(c, k, g);
    Assoc(c + 1, k, g);
    AddMul(c, 1, g * k);
    Grid(s, g, c * k);
    Grid(s, g, (c + 1) * k);
    if s % (g * k) == 0 {
      DivMod(s, g * k);
      ModIs(s, c * k, 0, g);
    }
  }

  lemma CellDouble(x: real, s: int, g: nat)
    requires g > 0 && SameCell(x, s, g)
    ensures SameCell(2.0 * x, 2 * s, 2 * g)
  {
    DivMod(s, g);
    var q, r := s / g, s % g;
    assert 2 * s == q * (2 * g) + 2 * r;
    ModIs(2 * s, q, 2 * r, 2 * g);
    assert q * (2 * g) == 2 * (q * g);
  }

  /** Adding a grid point, or reflecting in one, keeps the cell. */
  lemma CellShift(x: real, s: int, g: nat, k: int)
    requires g > 0 && SameCell(x, s, g)
    ensures SameCell((k * g) as real + x, k * g + s, g)
    ensures SameCell((k * g) as real - x, k * g - s, g)
  {
    CellPlus(x, s, g, k);
    CellMinus(x, s, g, k);
  }

  lemma CellPlus(x: real, s: int, g: nat, k: int)
    requires g > 0 && SameCell(x, s, g)
    ensures SameCell((k * g) as real + x, k * g + s, g)
  {
    DivMod(s, g);
    var q, r := s / g, s % g;
    AddMul(k, q, g);
    ModIs(k * g + s, k + q, r, g);
  }

  lemma CellMinus(x: real, s: int, g: nat, k: int)
    requires g > 0 && SameCell(x, s, g)
    ensures SameCell((k * g) as real - x, k * g - s, g)
  {
    DivMod(s, g);
    var q, r := s / g, s % g;
    if r != 0 {
      Dist(k, q, g);
      AddMul(k - q, 0 - 1, g);
      ModIs(k * g - s, k - q - 1, g - r, g);
    }
  }

  lemma CellPlusEven(x: real, s: int, p: int)
    requires p % 2 == 0 && SameCell(x, s, 2)
    ensures SameCell(p as real + x, p + s, 2)
    ensures SameCell(p as real - x, p - s, 2)
  {
    CellShift(x, s, 2, p / 2);
    assert p / 2 * 2 == p;
  }

  lemma CellNotOnGrid(x: real, s: int, g: nat)
    requires g > 0 && SameCell(x, s, g) && x != s as real
    ensures s % g != 0
  {
  }

  lemma MakeCell(x: real, s: int, g: nat, c: int)
    requires g > 0 && s / g == c && s % g != 0 && (c * g) as real < x < (c * g + g) as real
    ensures SameCell(x, s, g)
  {
  }

  lemma MakeOddCell(y: real, q: nat)
    requires q as real < y < (q + 1) as real
    ensures SameCell(y, Sticky(q, true), 2)
  {
  }

  /** A jamming right shift by at least the grid's own width gives an odd
      number or the exact one. */
  lemma CellJam(x: real, s: nat, g: nat, m: nat, c: nat, y: real)
    requires g > 0 && SameCell(x, s, g) && Pow2(c) == m * g && y * Pow2(c) as real == x
    ensures SameCell(y, JamShift(s, c), 2)
  {
    ShrLo(s, c);
    hide Pow2, Shr, Lo, SameCell;
    JamQuotient(x, s, g, m, Pow2(c), Shr(s, c), Lo(s, c), y);
  }

  lemma JamQuotient(x: real, s: nat, g: nat, m: nat, p: nat, q: nat, r: nat, y: real)
    requires g > 0 && SameCell(x, s, g) && p == m * g && y * p as real == x
    requires p > 0 && s == q * p + r && r < p
    ensures SameCell(y, Sticky(q, r != 0), 2)
  {
    hide SameCell, Encloses;
    QuotientCell(s, q, r, p, g, m);
    if r == 0 {
      if x != s as real { CellNotOnGrid(x, s, g); }
      ScaledEqual(y, q, p, x);
      EqualCell(y, q, 2);
    } else {
      ScaledInside(x, s, g, q, q + 1, p, y);
      MakeOddCell(y, q);
    }
  }

  lemma QuotientCell(s: nat, q: nat, r: nat, p: nat, g: nat, m: nat)
    requires p > 0 && g > 0 && s == q * p + r && r < p && p == m * g
    ensures Encloses(s, g, q, q + 1, p)
    ensures r == 0 ==> s % g == 0
  {
    Assoc(q, m, g);
    Assoc(q + 1, m, g);
    AddMul(q, 1, p);
    Grid(s, g, q * m);
    Grid(s, g, (q + 1) * m);
    if r == 0 { ModIs(s, q * m, 0, g); }
  }

  lemma RealOfProduct(a: int, b: int)
    ensures (a * b) as real == a as real * b as real
  {
  }

  lemma ScaledEqual(y: real, q: int, p: nat, x: real)
    requires p > 0 && y * p as real == x && x == (q * p) as real
    ensures y == q as real
  {
    RealOfProduct(q, p);
    if y < q as real { RealMulLess(y, q as real, p as real); }
    if y > q as real { RealMulLess(q as real, y, p as real); }
  }

  lemma ScaledEqualInt(y: real, q: int, p: nat, s: int)
    requires p > 0 && y * p as real == s as real && s == q * p
    ensures y == q as real
  {
    ScaledEqual(y, q, p, s as real);
  }

  lemma ScaledBetween(y: real, lo: int, hi: int, p: nat, x: real)
    requires p > 0 && y * p as real == x && (lo * p) as real < x < (hi * p) as real
    ensures lo as real < y < hi as real
  {
    RealOfProduct(lo, p);
    RealOfProduct(hi, p);
    if y < lo as real { RealMulLess(y, lo as real, p as real); }
    if y > hi as real { RealMulLess(hi as real, y, p as real); }
  }

  lemma CellInside(x: real, s: int, g: nat, lo: int, hi: int)
    requires g > 0 && SameCell(x, s, g) && lo <= s / g * g && s / g * g + g <= hi && lo <= s < hi
    requires x == s as real ==> lo < s
    ensures lo as real < x < hi as real
  {
  }

  /** The cell of s lies between the multiples lo and hi of p. */
  predicate Encloses(s: int, g: nat, lo: int, hi: int, p: nat)
    requires g > 0
  {
    lo * p <= s / g * g && s / g * g + g <= hi * p && lo * p <= s < hi * p
  }

  lemma ScaledInside(x: real, s: int, g: nat, lo: int, hi: int, p: nat, y: real)
    requires g > 0 && p > 0 && SameCell(x, s, g) && y * p as real == x
    requires Encloses(s, g, lo, hi, p)
    requires x == s as real ==> lo * p < s
    ensures lo as real < y < hi as real
  {
    CellInside(x, s, g, lo * p, hi * p);
    hide SameCell;
    ScaledBetween(y, lo, hi, p, x);
  }

  /** Any jamming right shift keeps a cell of even width. */
  lemma CellJamSame(x: real, s: nat, g: nat, c: nat, y: real)
    requires g > 0 && g % 2 == 0 && SameCell(x, s, g) && y * Pow2(c) as real == x
    ensures SameCell(y, JamShift(s, c), g)
  {
    ShrLo(s, c);
    hide Pow2, Shr, Lo, Sticky;
    CellOfQuotient(x, s, g, Shr(s, c), Lo(s, c), Pow2(c), y);
  }

  lemma CellOfQuotient(x: real, s: nat, g: nat, q: nat, r: nat, p: nat, y: real)
    requires g > 0 && g % 2 == 0 && SameCell(x, s, g) && p > 0 && y * p as real == x
    requires s == q * p + r && r < p
    ensures SameCell(y, Sticky(q, r != 0), g)
  {
    hide SameCell, Sticky, Encloses;
    CellOfSticky(q, g, r != 0);
    var lo, hi := ShiftedCell(s, q, r, p, g);
    if r != 0 {
      ScaledInside(x, s, g, lo, hi, p, y);
      MakeCell(y, Sticky(q, true), g, q / g);
    } else if x == s as real {
      ScaledEqual(y, q, p, x);
      EqualCell(y, q, g);
    } else {
      CellNotOnGrid(x, s, g);
      ScaledInside(x, s, g, lo, hi, p, y);
      MakeCell(y, q, g, q / g);
    }
  }

  lemma EqualCell(y: real, q: int, g: nat)
    requires g > 0 && y == q as real
    ensures SameCell(y, q, g)
  {
  }

  lemma ShiftedCell(s: nat, q: nat, r: nat, p: nat, g: nat) returns (lo: int, hi: int)
    requires p > 0 && g > 0 && s == q * p + r && r < p
    ensures lo == q / g * g && hi == lo + g
    ensures Encloses(s, g, lo, hi, p)
    ensures r != 0 ==> lo * p < s
    ensures r == 0 && s % g != 0 ==> q % g != 0
  {
    lo := q / g * g;
    hi := lo + g;
    var k := q / g;
    DivMod(q, g);
    Assoc(k, g, p);
    Assoc(k, p, g);
    Assoc(k + 1, g, p);
    Assoc(k + 1, p, g);
    AddMul(k, 1, g);
    MulLe(k * g, q, p);
    MulLe(q + 1, (k + 1) * g, p);
    AddMul(q, 1, p);
    Grid(s, g, k * p);
    Grid(s, g, (k + 1) * p);
    if r == 0 && q % g == 0 {
      ModIs(s, k * p, 0, g);
    }
  }

  lemma CellOfSticky(q: nat, g: nat, s: bool)
    requires g > 0 && g % 2 == 0
    ensures Sticky(q, s) / g == q / g
    ensures s ==> Sticky(q, s) % g != 0
  {
    DivMod(q, g);
    RemainderParity(q, g);
    if s && q % 2 == 0 {
      ModIs(q + 1, q / g, q % g + 1, g);
    }
  }

  lemma RemainderParity(q: nat, g: nat)
    requires g > 0 && g % 2 == 0
    ensures (q % g) % 2 == q % 2
  {
    var h := g / 2;
    var k, r := q / g, q % g;
    DivMod(q, g);
    Assoc(k, h, 2);
    ModIs(q, k * h + r / 2, r % 2, 2);
  }
}
