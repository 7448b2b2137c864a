/** A hart's port into memory: a three-level page-table walk cached by one TLB
    with three tag arrays (riscv/mmu.h, riscv/mmu.cc). */
module Mmu {
  import opened Wrappers
  import opened Arith
  import opened Powers
  import opened Bits
  import opened Bytes

  const PGSHIFT: nat := 13
  const PGSIZE: nat := 0x2000
  const PTIDXS: nat := 0x400
  const LEVELS: nat := 3
  const VA_SIZE: nat := 0x800_0000_0000         // 2^43
  const TLB_ENTRIES: nat := 256
  const NO_TAG: u64 := W64 - 1

  const PTE_V: u64 := 0x001
  const PTE_UR: u64 := 0x008
  const PTE_UW: u64 := 0x010
  const PTE_UX: u64 := 0x020
  const PTE_PERM: u64 := 0x1F8

  datatype Access = Load | Store | Fetch

  datatype Fault = Misaligned(access: Access, addr: u64) | AccessFault(access: Access, addr: u64)

  // ---- the walk, as a function of memory and the control state

  /** Target memory and what the walk reads of the processor; a port with no
      processor behaves as a supervisor with virtual memory off. */
  datatype Config = Config(mem: seq<u8>, vm: bool, supervisor: bool, ptbr: u64)

  /** sim_t sizes memory in megabytes; set_pcr clears the low bits of ptbr. */
  predicate WellFormed(c: Config) {
    |c.mem| % PGSIZE == 0 && |c.mem| < W64 && c.ptbr % PGSIZE == 0
  }

  function Vpn(addr: u64): (v: nat)
    ensures v < 0x8_0000_0000_0000
  {
    addr / PGSIZE
  }

  function PageBase(pte: u64): (b: u64)
    ensures b % PGSIZE == 0
  {
    pte / PGSIZE * PGSIZE
  }

  /** Sign extension from VA_BITS. */
  function SignExtended(addr: u64): u64 {
    var low := addr % VA_SIZE;
    if low < VA_SIZE / 2 then low else low + (W64 - VA_SIZE)
  }

  /** 1 << ptshift at each level */
  function Span(level: nat): (s: nat)
    requires level < LEVELS
    ensures s >= 1
  {
    if level == 0 then 0x10_0000 else if level == 1 then 0x400 else 1
  }

  function PteAddr(base: u64, level: nat, addr: u64): nat
    requires level < LEVELS
  {
    base + addr / (PGSIZE * Span(level)) % PTIDXS * 8
  }

  lemma PteAddrFits(base: u64, level: nat, addr: u64, memsz: nat)
    requires level < LEVELS && base % PGSIZE == 0 && memsz % PGSIZE == 0
    ensures PteAddr(base, level, addr) < base + PGSIZE <= W64
    ensures PteAddr(base, level, addr) < memsz ==> base + PGSIZE <= memsz
    ensures PteAddr(base, level, addr) % 8 == 0
  {
    var k := addr / (PGSIZE * Span(level)) % PTIDXS;
    DivMod(addr / (PGSIZE * Span(level)), PTIDXS);
    hide Span;
    BelowWholePage(base, W64);
    if base + k * 8 < memsz { BelowWholePage(base, memsz); }
    ModIs(base + k * 8, 0x400 * (base / PGSIZE) + k, 0, 8);
  }

  lemma BelowWholePage(base: nat, limit: nat)
    requires base % PGSIZE == 0 && limit % PGSIZE == 0 && base < limit
    ensures base + PGSIZE <= limit
  {
    var i, j := base / PGSIZE, limit / PGSIZE;
    assert base == i * PGSIZE && limit == j * PGSIZE;
  }

  /** A leaf found above the last level stands for many pages: the low page
      number bits are ORed in. */
  function Leaf(ptd: u64, level: nat, addr: u64): u64
    requires level < LEVELS
  {
    LeafFits(ptd, level, addr);
    Or(ptd, Vpn(addr) % Span(level) * PGSIZE)
  }

  lemma LeafFits(ptd: u64, level: nat, addr: u64)
    requires level < LEVELS
    ensures Or(ptd, Vpn(addr) % Span(level) * PGSIZE) < W64
  {
    var low := Vpn(addr) % Span(level);
    assert low < 0x10_0000;
    Pow2Values();
    hide Pow2;
    OrBelow(ptd, low * PGSIZE, 64);
  }

  function WalkFrom(mem: seq<u8>, base: u64, level: nat, addr: u64): u64
    requires level <= LEVELS && base % PGSIZE == 0 && |mem| % PGSIZE == 0
    decreases LEVELS - level
  {
    if level == LEVELS then 0
    else
      PteAddrFits(base, level, addr, |mem|);
      if PteAddr(base, level, addr) >= |mem| then 0
      else
        var ptd := Word(mem, PteAddr(base, level, addr));
        if ptd % 2 == 0 then 0
        else if ptd / 2 % 2 == 1 then WalkFrom(mem, PageBase(ptd), level + 1, addr)
        else if PageBase(Leaf(ptd, level, addr)) < |mem| then Leaf(ptd, level, addr)
        else 0
  }

  function Walk(c: Config, addr: u64): u64
    requires WellFormed(c)
  {
    if SignExtended(addr) != addr then 0
    else if !c.vm then if addr < |c.mem| then PTE_V + PTE_PERM + PageBase(addr) else 0
    else WalkFrom(c.mem, c.ptbr, 0, addr)
  }

  // ---- permissions

  /** pte_perm of refill_tlb: the user bits, or the supervisor bits moved onto
      them, and the valid bit. */
  function EffectivePerm(pte: u64, supervisor: bool): nat {
    var p := And(pte, PTE_PERM);
    Or(if supervisor then And(p / 8, PTE_PERM) else p, And(pte, PTE_V))
  }

  function PermBit(access: Access): u64 {
    match access case Load => PTE_UR case Store => PTE_UW case Fetch => PTE_UX
  }

  /** The valid bit and the read, write or execute bit of the current
      privilege are set in the entry. */
  predicate Grants(pte: u64, supervisor: bool, access: Access) {
    var k := match access case Load => 3 case Store => 4 case Fetch => 5;
    Bit(pte, 0) && Bit(pte, if supervisor then k + 3 else k)
  }

  lemma PermTests(pte: u64, supervisor: bool, access: Access)
    ensures var p := EffectivePerm(pte, supervisor);
            && (And(p, PermBit(access) + PTE_V) == PermBit(access) + PTE_V <==> Grants(pte, supervisor, access))
            && (Bit(pte, 0) ==> (And(p, PermBit(access)) != 0 <==> Grants(pte, supervisor, access)))
  {
    var k := match access case Load => 3 case Store => 4 case Fetch => 5;
    assert Pow2(3) == 8 && Pow2(4) == 16 && Pow2(5) == 32;
    var p := EffectivePerm(pte, supervisor);
    AndPower(p, k);
    AndPowerAndOne(p, k);
    PermBits(pte, supervisor, k);
    hide And, Or, Bit, Pow2, EffectivePerm;
  }

  lemma PermBits(pte: u64, supervisor: bool, k: nat)
    requires 3 <= k <= 5
    ensures Bit(EffectivePerm(pte, supervisor), 0) <==> Bit(pte, 0)
    ensures Bit(EffectivePerm(pte, supervisor), k) <==> Bit(pte, if supervisor then k + 3 else k)
  {
    PermConstants(k);
    ThreeDown(And(pte, PTE_PERM), k);
    ThreeDown(And(pte, PTE_PERM), 0);
    hide And, Or, Bit;
    var p := And(pte, PTE_PERM);
    var q := if supervisor then And(p / 8, PTE_PERM) else p;
    BitOr(q, And(pte, PTE_V), 0);
    BitOr(q, And(pte, PTE_V), k);
    BitAnd(pte, PTE_V, 0);
    BitAnd(pte, PTE_V, k);
    BitAnd(pte, PTE_PERM, 0);
    BitAnd(pte, PTE_PERM, k);
    BitAnd(pte, PTE_PERM, k + 3);
    BitAnd(p / 8, PTE_PERM, 0);
    BitAnd(p / 8, PTE_PERM, k);
  }

  lemma PermConstants(k: nat)
    requires 3 <= k <= 5
    ensures Bit(0x1F8, k) && Bit(0x1F8, k + 3) && !Bit(0x1F8, 0) && Bit(1, 0) && !Bit(1, k)
  {
    assert Bit(0x1F8, 3) && Bit(0x1F8, 4) && Bit(0x1F8, 5) && Bit(0x1F8, 6) && Bit(0x1F8, 7) && Bit(0x1F8, 8);
    BitZero(k - 1);
    assert 1 / 2 == 0;
  }

  lemma ThreeDown(p: nat, k: nat)
    ensures Bit(p / 8, k) <==> Bit(p, k + 3)
  {
    assert Bit(p, k + 3) == Bit(p / 2, k + 2) == Bit(p / 2 / 2, k + 1) == Bit(p / 2 / 2 / 2, k);
    assert p / 2 / 2 / 2 == p / 8;
  }

  // ---- what a translation must deliver

  function Translation(c: Config, addr: u64, bytes: nat, access: Access): Result<nat, Fault>
    requires WellFormed(c) && bytes > 0
  {
    if addr % bytes != 0 then Err(Misaligned(access, addr))
    else if !Grants(Walk(c, addr), c.supervisor, access) then Err(AccessFault(access, addr))
    else Ok(PageBase(Walk(c, addr)) + addr % PGSIZE)
  }

  /** A granted entry maps a whole page that lies in memory. */
  lemma WalkInMemory(c: Config, addr: u64, access: Access)
    requires WellFormed(c) && Grants(Walk(c, addr), c.supervisor, access)
    ensures PageBase(Walk(c, addr)) + PGSIZE <= |c.mem|
  {
    BitZero(0);
    assert Walk(c, addr) != 0;
    hide Bit, Grants;
    if c.vm { WalkFromInMemory(c.mem, c.ptbr, 0, addr); }
    FlatEntry(addr, |c.mem|);
    WalkCases(c, addr);
    hide Walk;
    BelowWholePage(PageBase(Walk(c, addr)), |c.mem|);
  }

  lemma FlatEntry(addr: u64, limit: nat)
    requires limit % PGSIZE == 0 && limit < W64
    ensures PTE_V + PTE_PERM + PageBase(addr) < W64
    ensures addr < limit ==> PageBase(PTE_V + PTE_PERM + PageBase(addr)) < limit
  {
    var p := addr / PGSIZE;
    ModIs(p * PGSIZE + 0x1F9, p, 0x1F9, PGSIZE);
  }

  lemma WalkCases(c: Config, addr: u64)
    requires WellFormed(c)
    ensures var pte := Walk(c, addr);
            pte == 0 || (!c.vm && addr < |c.mem| && pte == PTE_V + PTE_PERM + PageBase(addr))
            || (c.vm && pte == WalkFrom(c.mem, c.ptbr, 0, addr))
  {
    hide WalkFrom;
  }

  lemma {:induction false} WalkFromInMemory(mem: seq<u8>, base: u64, level: nat, addr: u64)
    requires level <= LEVELS && base % PGSIZE == 0 && |mem| % PGSIZE == 0
    ensures var pte := WalkFrom(mem, base, level, addr); pte != 0 ==> PageBase(pte) < |mem|
    decreases LEVELS - level
  {
    if level < LEVELS {
      PteAddrFits(base, level, addr, |mem|);
      if PteAddr(base, level, addr) < |mem| {
        WalkFromInMemory(mem, PageBase(Word(mem, PteAddr(base, level, addr))), level + 1, addr);
      }
    }
  }

  /** Every translated access lies inside target memory. */
  lemma TranslationInBounds(c: Config, addr: u64, bytes: nat, access: Access)
    requires WellFormed(c) && bytes in {1, 2, 4, 8}
    ensures var r := Translation(c, addr, bytes, access); r.Ok? ==> r.value + bytes <= |c.mem|
  {
    hide Walk, Grants, PageBase;
    if Grants(Walk(c, addr), c.supervisor, access) && addr % bytes == 0 {
      WalkInMemory(c, addr, access);
      AlignedInPage(addr, bytes);
    }
  }

  lemma AlignedInPage(addr: u64, bytes: nat)
    requires bytes in {1, 2, 4, 8} && addr % bytes == 0
    ensures addr % PGSIZE + bytes <= PGSIZE
  {
  }

  // ---- the walk depends only on the page

  lemma {:induction false} WalkFromSamePage(mem: seq<u8>, base: u64, level: nat, a: u64, b: u64)
    requires level <= LEVELS && base % PGSIZE == 0 && |mem| % PGSIZE == 0 && Vpn(a) == Vpn(b)
    ensures WalkFrom(mem, base, level, a) == WalkFrom(mem, base, level, b)
    decreases LEVELS - level
  {
    hide Word, Or;
    if level < LEVELS {
      PteAddrFits(base, level, a, |mem|);
      SamePteAddr(base, level, a, b);
      if PteAddr(base, level, a) < |mem| {
        WalkFromSamePage(mem, PageBase(Word(mem, PteAddr(base, level, a))), level + 1, a, b);
      }
    }
  }

  lemma SamePteAddr(base: u64, level: nat, a: u64, b: u64)
    requires level < LEVELS && Vpn(a) == Vpn(b)
    ensures PteAddr(base, level, a) == PteAddr(base, level, b)
  {
    DivideTwice(a, Span(level));
    DivideTwice(b, Span(level));
  }

  lemma DivideTwice(a: nat, s: nat)
    requires s >= 1
    ensures a / (PGSIZE * s) == a / PGSIZE / s
  {
    var q := a / PGSIZE;
    DivMod(a, PGSIZE);
    DivMod(q, s);
    var r := q % s;
    ScaleDivision(q / s, s, r, PGSIZE);
    ScaledRemainder(r, s, PGSIZE);
    ModIs(a, q / s, r * PGSIZE + a % PGSIZE, PGSIZE * s);
  }

  /** So one TLB entry can serve the whole page. */
  lemma WalkSamePage(c: Config, a: u64, b: u64)
    requires WellFormed(c) && Vpn(a) == Vpn(b)
    ensures Walk(c, a) == Walk(c, b)
  {
    hide WalkFrom;
    SameSignExtension(a, b);
    BelowSamePage(a, b, |c.mem|);
    WalkFromSamePage(c.mem, c.ptbr, 0, a, b);
  }

  lemma SameSignExtension(a: u64, b: u64)
    requires Vpn(a) == Vpn(b)
    ensures SignExtended(a) == a <==> SignExtended(b) == b
  {
    Canonical(a);
    Canonical(b);
    hide SignExtended;
    BelowSamePage(a, b, VA_SIZE / 2);
    BelowSamePage(a, b, W64 - VA_SIZE / 2);
  }

  lemma Canonical(a: u64)
    ensures SignExtended(a) == a <==> a < VA_SIZE / 2 || a >= W64 - VA_SIZE / 2
  {
  }

  lemma BelowSamePage(a: u64, b: u64, limit: nat)
    requires Vpn(a) == Vpn(b) && limit % PGSIZE == 0
    ensures a < limit <==> b < limit
  {
    var j := limit / PGSIZE;
    assert limit == j * PGSIZE;
  }

  /** A leaf of a large page translates to that page's base plus the offset in
      it, when the base is aligned to the large page's size; its flags are
      those of the stored entry always. */
  lemma LeafMeaning(ptd: u64, level: nat, addr: u64)
    requires level < LEVELS
    ensures PageBase(ptd) % (PGSIZE * Span(level)) == 0 ==>
              PageBase(Leaf(ptd, level, addr)) == PageBase(ptd) + Vpn(addr) % Span(level) * PGSIZE
    ensures forall k: nat :: k < PGSHIFT ==> (Bit(Leaf(ptd, level, addr), k) <==> Bit(ptd, k))
  {
    Pow2Small();
    LeafFits(ptd, level, addr);
    var low := Vpn(addr) % Span(level);
    assert low < Span(level);
    forall k: nat | k < PGSHIFT ensures Bit(Leaf(ptd, level, addr), k) <==> Bit(ptd, k) {
      BitOr(ptd, low * PGSIZE, k);
      BitOfScaled(low, PGSHIFT, k);
    }
    if PageBase(ptd) % (PGSIZE * Span(level)) == 0 {
      var f := ptd % PGSIZE;
      SpanIsPower(level);
      LeafSum(ptd, low, 20 - 10 * level);
    }
  }

  lemma SpanIsPower(level: nat)
    requires level < LEVELS
    ensures Span(level) == Pow2(20 - 10 * level)
  {
    Pow2Small();
    Pow2Values();
    assert Pow2(0) == 1;
  }

  lemma LeafSum(ptd: u64, low: nat, n: nat)
    requires low < Pow2(n) && PageBase(ptd) % (PGSIZE * Pow2(n)) == 0
    requires Or(ptd, low * PGSIZE) < W64
    ensures PageBase(Or(ptd, low * PGSIZE)) == PageBase(ptd) + low * PGSIZE
  {
    var f, p := ptd % PGSIZE, ptd / PGSIZE;
    Pow2Small();
    OrHigh(p, low, f, 13);
    assert Shl(p, 13) == p * PGSIZE && Shl(low, 13) == low * PGSIZE && Shl(Or(p, low), 13) == Or(p, low) * PGSIZE;
    hide Or, Pow2, Shl;
    var j := AlignedPages(p, Pow2(n));
    OrDisjoint(j, low, n);
    ModIs(Or(ptd, low * PGSIZE), p + low, f, PGSIZE);
  }

  lemma AlignedPages(p: nat, s: nat) returns (j: nat)
    requires s > 0 && (p * PGSIZE) % (PGSIZE * s) == 0
    ensures p == j * s
  {
    j := (p * PGSIZE) / (PGSIZE * s);
    DivMod(p * PGSIZE, PGSIZE * s);
    Assoc(j, s, PGSIZE);
    assert p * PGSIZE == (j * s) * PGSIZE;
  }

  /** Or acts on the bits above k alone when the low bits of one side are 0. */
  lemma {:induction false} OrHigh(p: nat, low: nat, f: nat, k: nat)
    requires f < Pow2(k)
    ensures Or(Shl(p, k) + f, Shl(low, k)) == Shl(Or(p, low), k) + f
  {
    if k == 0 {
      Unshifted(p);
      Unshifted(low);
      Unshifted(Or(p, low));
    } else {
      assert f / 2 < Pow2(k - 1);
      Doubles(p, k);
      Doubles(low, k);
      Doubles(Or(p, low), k);
      hide Pow2, Or, Shl;
      OrHigh(p, low, f / 2, k - 1);
      OrHighStep(Shl(p, k - 1), Shl(low, k - 1), Shl(Or(p, low), k - 1), f,
                 Shl(p, k), Shl(low, k), Shl(Or(p, low), k));
    }
  }

  lemma Unshifted(p: nat)
    ensures Shl(p, 0) == p && Pow2(0) == 1
  {
  }

  lemma Doubles(p: nat, k: nat)
    requires k > 0
    ensures Shl(p, k) == 2 * Shl(p, k - 1)
  {
    var h := Pow2(k - 1);
    assert Pow2(k) == 2 * h;
    Assoc(2, p, h);
  }

  lemma OrHighStep(x: nat, y: nat, z: nat, f: nat, x2: nat, y2: nat, z2: nat)
    requires Or(x + f / 2, y) == z + f / 2 && x2 == 2 * x && y2 == 2 * y && z2 == 2 * z
    ensures Or(x2 + f, y2) == z2 + f
  {
    OrDoubles(x, f, y);
  }

  lemma OrDoubles(x: nat, f: nat, y: nat)
    ensures Or(2 * x + f, 2 * y) == 2 * Or(x + f / 2, y) + f % 2
  {
    assert (2 * x + f) / 2 == x + f / 2 && (2 * x + f) % 2 == f % 2;
  }

  // ---- what the walk reads

  /** Addresses of the page-table doublewords a walk looks at. */
  ghost function ReadsFrom(mem: seq<u8>, base: u64, level: nat, addr: u64): set<nat>
    requires level <= LEVELS && base % PGSIZE == 0 && |mem| % PGSIZE == 0
    decreases LEVELS - level
  {
    if level == LEVELS then {}
    else
      PteAddrFits(base, level, addr, |mem|);
      var a := PteAddr(base, level, addr);
      if a >= |mem| then {}
      else
        var ptd := Word(mem, a);
        if ptd % 2 == 1 && ptd / 2 % 2 == 1 then {a} + ReadsFrom(mem, PageBase(ptd), level + 1, addr) else {a}
  }

  ghost function WalkReads(c: Config, addr: u64): set<nat>
    requires WellFormed(c)
  {
    if c.vm then ReadsFrom(c.mem, c.ptbr, 0, addr) else {}
  }

  predicate Written(mem: seq<u8>, p: nat, val: seq<u8>, mem': seq<u8>) {
    && p + |val| <= |mem| == |mem'|
    && mem'[p..p + |val|] == val
    && forall k :: 0 <= k < |mem| && !(p <= k < p + |val|) ==> mem'[k] == mem[k]
  }

  predicate Apart(entries: set<nat>, p: nat, n: nat) {
    forall a :: a in entries ==> a + 8 <= p || p + n <= a
  }

  lemma {:induction false} WalkFromFrame(mem: seq<u8>, p: nat, val: seq<u8>, mem': seq<u8>, base: u64, level: nat,
                                         addr: u64)
    requires level <= LEVELS && base % PGSIZE == 0 && |mem| % PGSIZE == 0 && Written(mem, p, val, mem')
    requires Apart(ReadsFrom(mem, base, level, addr), p, |val|)
    ensures WalkFrom(mem', base, level, addr) == WalkFrom(mem, base, level, addr)
    decreases LEVELS - level
  {
    hide Word, PteAddr, Leaf, PageBase;
    if level < LEVELS {
      PteAddrFits(base, level, addr, |mem|);
      var a := PteAddr(base, level, addr);
      if a < |mem| {
        SameWord(mem, p, val, mem', a);
        var ptd := Word(mem, a);
        if ptd % 2 == 1 && ptd / 2 % 2 == 1 {
          WalkFromFrame(mem, p, val, mem', PageBase(ptd), level + 1, addr);
        }
      }
    }
  }

  lemma SameWord(mem: seq<u8>, p: nat, val: seq<u8>, mem': seq<u8>, a: nat)
    requires Written(mem, p, val, mem') && a + 8 <= |mem| && (a + 8 <= p || p + |val| <= a)
    ensures Word(mem', a) == Word(mem, a)
  {
  }

  /** A store that misses the doublewords a page's walk reads leaves that walk
      as it was. */
  lemma WalkFrame(c: Config, p: nat, val: seq<u8>, mem': seq<u8>, addr: u64)
    requires WellFormed(c) && Written(c.mem, p, val, mem') && Apart(WalkReads(c, addr), p, |val|)
    ensures Walk(c.(mem := mem'), addr) == Walk(c, addr)
  {
    hide WalkFrom, ReadsFrom, Written;
    if c.vm { WalkFromFrame(c.mem, p, val, mem', c.ptbr, 0, addr); }
    SameSize(c.mem, p, val, mem');
  }

  lemma SameSize(mem: seq<u8>, p: nat, val: seq<u8>, mem': seq<u8>)
    requires Written(mem, p, val, mem')
    ensures |mem'| == |mem|
  {
  }

  // ---- the TLB

  /** A tag that is set sits at its own index, its page is mapped with the
      tag array's permission, and the data entry is that page's displacement. */
  ghost predicate EntryAgrees(c: Config, i: nat, tag: u64, data: u64, access: Access)
    requires WellFormed(c)
  {
    tag != NO_TAG ==>
      && tag % TLB_ENTRIES == i && tag < 0x8_0000_0000_0000
      && Grants(Walk(c, tag * PGSIZE), c.supervisor, access)
      && data == (PageBase(Walk(c, tag * PGSIZE)) - tag * PGSIZE) % W64
  }

  ghost predicate TlbAgrees(c: Config, tags: seq<u64>, data: seq<u64>, access: Access)
    requires WellFormed(c) && |tags| == |data| == TLB_ENTRIES
  {
    forall i :: 0 <= i < TLB_ENTRIES ==> EntryAgrees(c, i, tags[i], data[i], access)
  }

  /** A store outside the page-table entries behind every cached page. */
  ghost predicate StoreApart(c: Config, tags: seq<u64>, p: nat, n: nat)
    requires WellFormed(c)
  {
    forall i :: 0 <= i < |tags| && tags[i] < 0x8_0000_0000_0000 ==> Apart(WalkReads(c, tags[i] * PGSIZE), p, n)
  }

  lemma StoreKeepsTlb(c: Config, tags: seq<u64>, data: seq<u64>, access: Access, p: nat, val: seq<u8>, mem': seq<u8>)
    requires WellFormed(c) && |tags| == |data| == TLB_ENTRIES && TlbAgrees(c, tags, data, access)
    requires Written(c.mem, p, val, mem') && StoreApart(c, tags, p, |val|)
    ensures TlbAgrees(c.(mem := mem'), tags, data, access)
  {
    hide Walk, Grants, PageBase, WalkReads, Written, Apart;
    SameSize(c.mem, p, val, mem');
    forall i | 0 <= i < TLB_ENTRIES ensures EntryAgrees(c.(mem := mem'), i, tags[i], data[i], access) {
      assert EntryAgrees(c, i, tags[i], data[i], access);
      if tags[i] != NO_TAG { WalkFrame(c, p, val, mem', tags[i] * PGSIZE); }
    }
  }

  /** A hit returns what the walk would. */
  lemma HitTranslates(c: Config, addr: u64, data: u64, bytes: nat, access: Access)
    requires WellFormed(c) && bytes in {1, 2, 4, 8} && addr % bytes == 0
    requires EntryAgrees(c, Vpn(addr) % TLB_ENTRIES, Vpn(addr), data, access)
    ensures Translation(c, addr, bytes, access) == Ok((data + addr) % W64)
  {
    hide Walk, Grants, PageBase;
    var page: u64 := Vpn(addr) * PGSIZE;
    WalkSamePage(c, addr, page);
    WalkInMemory(c, addr, access);
    Displaced(PageBase(Walk(c, addr)), page, addr);
  }

  lemma Displaced(base: u64, page: u64, addr: u64)
    requires page == addr / PGSIZE * PGSIZE && base + PGSIZE <= W64
    ensures ((base - page) % W64 + addr) % W64 == base + addr % PGSIZE
  {
    var off := addr % PGSIZE;
    assert addr == page + off;
    if base < page { assert (base - page) % W64 == base - page + W64; }
  }

  class MmuPort {
    const mem: array<u8>
    const tlbData: array<u64>
    const insnTag: array<u64>
    const loadTag: array<u64>
    const storeTag: array<u64>
    var vm: bool
    var supervisor: bool
    var ptbr: u64

    ghost predicate Valid()
      reads this, mem
    {
      && tlbData.Length == insnTag.Length == loadTag.Length == storeTag.Length == TLB_ENTRIES
      && tlbData != insnTag && tlbData != loadTag && tlbData != storeTag
      && insnTag != loadTag && insnTag != storeTag && loadTag != storeTag
      && WellFormed(Control())
    }

    ghost function Control(): Config
      reads this, mem
    {
      Config(mem[..], vm, supervisor, ptbr)
    }

    function Tags(access: Access): array<u64> {
      match access case Load => loadTag case Store => storeTag case Fetch => insnTag
    }

    ghost function Tlb(): set<object> { {tlbData, insnTag, loadTag, storeTag} }

    /** All three tag arrays agree with the walk, through the one data array. */
    ghost predicate Coherent()
      reads this, mem, Tlb()
    {
      && Valid()
      && TlbAgrees(Control(), loadTag[..], tlbData[..], Load)
      && TlbAgrees(Control(), storeTag[..], tlbData[..], Store)
      && TlbAgrees(Control(), insnTag[..], tlbData[..], Fetch)
    }

    constructor (mem: array<u8>)
      requires mem.Length % PGSIZE == 0 && mem.Length < W64
      ensures Coherent() && this.mem == mem && fresh(Tlb()) && Control() == Config(mem[..], false, true, 0)
    {
      this.mem := mem;
      tlbData := new u64[TLB_ENTRIES](_ => 0);
      insnTag := new u64[TLB_ENTRIES](_ => NO_TAG);
      loadTag := new u64[TLB_ENTRIES](_ => NO_TAG);
      storeTag := new u64[TLB_ENTRIES](_ => NO_TAG);
      vm, supervisor, ptbr := false, true, 0;
    }

    method FlushTlb()
      requires Valid()
      modifies insnTag, loadTag, storeTag
      ensures Coherent() && Control() == old(Control())
    {
      hide Walk, Grants, PageBase;
      var i := 0;
      while i < TLB_ENTRIES
        invariant 0 <= i <= TLB_ENTRIES
        invariant Valid() && Control() == old(Control())
        invariant forall k :: 0 <= k < i ==> insnTag[k] == loadTag[k] == storeTag[k] == NO_TAG
      {
        insnTag[i] := NO_TAG;
        loadTag[i] := NO_TAG;
        storeTag[i] := NO_TAG;
        i := i + 1;
      }
    }

    /** set_pcr(CSR_STATUS, ...) changes the mode and flushes. */
    method SetStatus(vm: bool, supervisor: bool)
      requires Valid()
      modifies `vm, `supervisor, insnTag, loadTag, storeTag
      ensures Coherent() && Control() == old(Control()).(vm := vm, supervisor := supervisor)
    {
      this.vm, this.supervisor := vm, supervisor;
      FlushTlb();
    }

    /** set_pcr(CSR_PTBR, ...) does not flush, so the TLB can go stale; it
        cannot while virtual memory is off. */
    method SetPtbr(val: u64)
      requires Valid()
      modifies `ptbr
      ensures Valid() && Control() == old(Control()).(ptbr := PageBase(val))
      ensures old(Coherent()) && !vm ==> Coherent()
    {
      hide WalkFrom, Grants;
      ptbr := PageBase(val);
    }

    /** Turns an address into an index into target memory. */
    method Translate(addr: u64, bytes: nat, access: Access) returns (r: Result<nat, Fault>)
      requires Coherent() && bytes in {1, 2, 4, 8}
      modifies Tlb()
      ensures Coherent() && Control() == old(Control())
      ensures r == Translation(Control(), addr, bytes, access)
    {
      hide Walk, Grants, Translation, PageBase, EntryAgrees;
      var idx := Vpn(addr) % TLB_ENTRIES;
      var tags := Tags(access);
      var tag := tags[idx];
      var data := (tlbData[idx] + addr) % W64;
      if addr % bytes != 0 {
        MisalignedIs(Control(), addr, bytes, access);
        return Err(Misaligned(access, addr));
      }
      if tag == Vpn(addr) {
        assert EntryAgrees(Control(), idx, tags[..][idx], tlbData[..][idx], access);
        HitTranslates(Control(), addr, tlbData[idx], bytes, access);
        return Ok(data);
      }
      r := RefillTlb(addr, bytes, access);
    }

    method RefillTlb(addr: u64, bytes: nat, access: Access) returns (r: Result<nat, Fault>)
      requires Coherent() && bytes in {1, 2, 4, 8} && addr % bytes == 0
      modifies Tlb()
      ensures Coherent() && Control() == old(Control())
      ensures r == Translation(Control(), addr, bytes, access)
    {
      hide Walk, Grants, EffectivePerm, And, EntryAgrees, TlbAgrees, PageBase;
      var idx := Vpn(addr) % TLB_ENTRIES;
      var expectedTag: u64 := Vpn(addr);
      var pte := PageTableWalk(addr);
      var ptePerm := EffectivePerm(pte, supervisor);
      PermTests(pte, supervisor, access);
      var perm := PermBit(access) + PTE_V;
      if And(ptePerm, perm) != perm {
        return Err(AccessFault(access, addr));
      }
      var pgoff := addr % PGSIZE;
      var pgbase := PageBase(pte);
      WalkInMemory(Control(), addr, access);
      PermTests(pte, supervisor, Load);
      PermTests(pte, supervisor, Store);
      PermTests(pte, supervisor, Fetch);
      GrantsValid(pte, supervisor, access);
      EntryIs(Control(), addr, Load);
      EntryIs(Control(), addr, Store);
      EntryIs(Control(), addr, Fetch);
      WriteEntry(idx, if And(ptePerm, PTE_UR) != 0 then expectedTag else NO_TAG,
                 if And(ptePerm, PTE_UW) != 0 then expectedTag else NO_TAG,
                 if And(ptePerm, PTE_UX) != 0 then expectedTag else NO_TAG,
                 (pgbase - (addr - pgoff)) % W64);
      r := Ok(pgbase + pgoff);
    }

    method WriteEntry(idx: nat, load: u64, store: u64, insn: u64, data: u64)
      requires Coherent() && idx < TLB_ENTRIES
      requires EntryAgrees(Control(), idx, load, data, Load) && EntryAgrees(Control(), idx, store, data, Store)
      requires EntryAgrees(Control(), idx, insn, data, Fetch)
      modifies Tlb()
      ensures Coherent() && Control() == old(Control())
    {
      hide EntryAgrees, TlbAgrees;
      Refilled(Control(), loadTag[..], tlbData[..], Load, idx, load, data);
      Refilled(Control(), storeTag[..], tlbData[..], Store, idx, store, data);
      Refilled(Control(), insnTag[..], tlbData[..], Fetch, idx, insn, data);
      loadTag[idx] := load;
      storeTag[idx] := store;
      insnTag[idx] := insn;
      tlbData[idx] := data;
      assert loadTag[..] == old(loadTag[..])[idx := load];
      assert storeTag[..] == old(storeTag[..])[idx := store];
      assert insnTag[..] == old(insnTag[..])[idx := insn];
      assert tlbData[..] == old(tlbData[..])[idx := data];
    }

    method LoadBytes(addr: u64, bytes: nat) returns (r: Result<seq<u8>, Fault>)
      requires Coherent() && bytes in {1, 2, 4, 8}
      modifies Tlb()
      ensures Coherent() && Control() == old(Control())
      ensures match Translation(Control(), addr, bytes, Load)
              case Ok(p) => p + bytes <= mem.Length && r == Ok(mem[p..p + bytes])
              case Err(fault) => r == Err(fault)
    {
      hide Translation, Walk, TlbAgrees;
      TranslationInBounds(Control(), addr, bytes, Load);
      var t := Translate(addr, bytes, Load);
      match t
      case Ok(p) => r := Ok(mem[p..p + bytes]);
      case Err(fault) => r := Err(fault);
    }

    /** The TLB stays coherent when the store misses the page-table entries
        behind the cached pages. */
    method StoreBytes(addr: u64, val: seq<u8>) returns (r: Result<nat, Fault>)
      requires Coherent() && |val| in {1, 2, 4, 8} && mem !in Tlb()
      modifies Tlb(), mem
      ensures r == Translation(old(Control()), addr, |val|, Store)
      ensures r.Err? ==> Coherent() && Control() == old(Control())
      ensures r.Ok? ==> Written(old(mem[..]), r.value, val, mem[..]) && Control() == old(Control()).(mem := mem[..])
      ensures r.Ok? && StoreApart(old(Control()), loadTag[..] + storeTag[..] + insnTag[..], r.value, |val|) ==>
                Coherent()
    {
      hide Translation, Walk, TlbAgrees, WalkReads, StoreApart;
      TranslationInBounds(Control(), addr, |val|, Store);
      r := Translate(addr, |val|, Store);
      if r.Ok? {
        ghost var c, d := Control(), tlbData[..];
        ghost var l, s, f := loadTag[..], storeTag[..], insnTag[..];
        assert TlbAgrees(c, l, d, Load) && TlbAgrees(c, s, d, Store) && TlbAgrees(c, f, d, Fetch);
        var p, k := r.value, 0;
        while k < |val|
          invariant 0 <= k <= |val|
          invariant tlbData[..] == d && loadTag[..] == l && storeTag[..] == s && insnTag[..] == f
          invariant forall j :: p <= j < p + k ==> mem[j] == val[j - p]
          invariant forall j :: 0 <= j < mem.Length && !(p <= j < p + k) ==> mem[j] == old(mem[..])[j]
        {
          mem[p + k] := val[k];
          k := k + 1;
        }
        SliceIs(mem[..], p, val);
        if StoreApart(c, l + s + f, p, |val|) {
          SplitApart(c, l, s, f, p, |val|);
          StoreKeepsTlb(c, l, d, Load, p, val, mem[..]);
          StoreKeepsTlb(c, s, d, Store, p, val, mem[..]);
          StoreKeepsTlb(c, f, d, Fetch, p, val, mem[..]);
        }
      }
    }

    /** The walk proper, level by level. */
    method PageTableWalk(addr: u64) returns (pte: u64)
      requires Valid()
      ensures pte == Walk(Control(), addr)
    {
      hide Word, Or, SignExtended, Leaf;
      pte := 0;
      if SignExtended(addr) != addr {
      } else if !vm {
        if addr < mem.Length { pte := PTE_V + PTE_PERM + PageBase(addr); }
      } else {
        var base: u64, i := ptbr, 0;
        while i < LEVELS
          invariant 0 <= i <= LEVELS && base % PGSIZE == 0
          invariant WalkFrom(mem[..], base, i, addr) == Walk(Control(), addr)
        {
          PteAddrFits(base, i, addr, mem.Length);
          var pteAddr := PteAddr(base, i, addr);
          if pteAddr >= mem.Length { break; }
          var ptd := Word(mem[..], pteAddr);
          if ptd % 2 == 0 {
            break;
          } else if ptd / 2 % 2 == 1 {
            base := PageBase(ptd);
          } else {
            ptd := Leaf(ptd, i, addr);
            if PageBase(ptd) < mem.Length { pte := ptd; }
            break;
          }
          i := i + 1;
        }
      }
    }
  }

  lemma SliceIs(m: seq<u8>, p: nat, val: seq<u8>)
    requires p + |val| <= |m| && forall j :: p <= j < p + |val| ==> m[j] == val[j - p]
    ensures m[p..p + |val|] == val
  {
  }

  lemma SplitApart(c: Config, x: seq<u64>, y: seq<u64>, z: seq<u64>, p: nat, n: nat)
    requires WellFormed(c) && StoreApart(c, x + y + z, p, n)
    ensures StoreApart(c, x, p, n) && StoreApart(c, y, p, n) && StoreApart(c, z, p, n)
  {
    hide WalkReads, Apart;
    var all := x + y + z;
    assert forall i :: 0 <= i < |x| ==> x[i] == all[i];
    assert forall i :: 0 <= i < |y| ==> y[i] == all[|x| + i];
    assert forall i :: 0 <= i < |z| ==> z[i] == all[|x| + |y| + i];
  }

  lemma MisalignedIs(c: Config, addr: u64, bytes: nat, access: Access)
    requires WellFormed(c) && bytes > 0 && addr % bytes != 0
    ensures Translation(c, addr, bytes, access) == Err(Misaligned(access, addr))
  {
  }

  lemma GrantsValid(pte: u64, supervisor: bool, access: Access)
    requires Grants(pte, supervisor, access)
    ensures Bit(pte, 0)
  {
  }

  lemma Refilled(c: Config, tags: seq<u64>, data: seq<u64>, access: Access, idx: nat, tag: u64, d: u64)
    requires WellFormed(c) && |tags| == |data| == TLB_ENTRIES && idx < TLB_ENTRIES
    requires TlbAgrees(c, tags, data, access) && EntryAgrees(c, idx, tag, d, access)
    ensures TlbAgrees(c, tags[idx := tag], data[idx := d], access)
  {
    hide EntryAgrees;
  }

  /** What refill_tlb stores agrees with the walk. */
  lemma EntryIs(c: Config, addr: u64, access: Access)
    requires WellFormed(c)
    ensures EntryAgrees(c, Vpn(addr) % TLB_ENTRIES,
                        if Grants(Walk(c, addr), c.supervisor, access) then Vpn(addr) else NO_TAG,
                        (PageBase(Walk(c, addr)) - (addr - addr % PGSIZE)) % W64, access)
  {
    hide Walk, Grants, PageBase;
    WalkSamePage(c, addr, Vpn(addr) * PGSIZE);
  }
}
