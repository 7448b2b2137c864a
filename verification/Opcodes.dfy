/** The instruction index: a sorted bucket table scanned without a bound
    (riscv/processor.cc, register_insn, build_opcode_map, decode_insn). */
module Opcodes {
  import opened Arith
  import opened Powers
  import opened Bits

  /** A handler, by number; ILLEGAL raises the illegal-instruction trap. */
  type Handler = nat
  const ILLEGAL: Handler := 0

  datatype InsnDesc = InsnDesc(match_: u32, mask: u32, rv32: Handler, rv64: Handler)

  const SENTINEL: InsnDesc := InsnDesc(0, 0, ILLEGAL, ILLEGAL)

  predicate Fits(d: InsnDesc, bits: u64) { And(bits, d.mask) == d.match_ }

  function HandlerOf(d: InsnDesc, rv64: bool): Handler { if rv64 then d.rv64 else d.rv32 }

  /** What decoding should find: a registered instruction that fits, none that
      fits having a smaller match. */
  predicate LeastFit(insns: seq<InsnDesc>, bits: u64, d: InsnDesc) {
    d in insns && Fits(d, bits) && forall x :: x in insns && Fits(x, bits) ==> d.match_ <= x.match_
  }

  predicate NoneFits(insns: seq<InsnDesc>, bits: u64) {
    forall x :: x in insns ==> !Fits(x, bits)
  }

  // ---- low bits

  /** The k low bits of the mask are set. */
  predicate Covers(mask: nat, k: nat) { mask % Pow2(k) == Pow2(k) - 1 }

  lemma CoversFewer(mask: nat, k: nat)
    requires k > 0 && Covers(mask, k)
    ensures Covers(mask, k - 1) && mask % 2 == 1
  {
    var h := Pow2(k - 1);
    var q := mask / Pow2(k);
    DivMod(mask, Pow2(k));
    assert Pow2(k) == 2 * h;
    hide Pow2;
    Assoc(q, 2, h);
    ModIs(mask, 2 * q + 1, h - 1, h);
    ModIs(mask, q * h + h - 1, 1, 2);
  }

  lemma AndIsCovers(mask: nat, k: nat)
    ensures And(mask, Pow2(k) - 1) == Pow2(k) - 1 <==> Covers(mask, k)
  {
    AndLowMask(mask, k);
  }

  /** So an instruction that fits has the low bits of the word in its match. */
  lemma {:induction false} AndKeepsLow(a: nat, mask: nat, k: nat)
    requires Covers(mask, k)
    ensures And(a, mask) % Pow2(k) == a % Pow2(k)
  {
    if k > 0 {
      CoversHalf(mask, k);
      AndHalf(a, mask);
      hide And, Covers;
      ModDouble(a, k);
      ModDouble(And(a, mask), k);
      AndKeepsLow(a / 2, mask / 2, k - 1);
    }
  }

  lemma CoversHalf(mask: nat, k: nat)
    requires k > 0 && Covers(mask, k)
    ensures Covers(mask / 2, k - 1) && mask % 2 == 1
  {
    CoversFewer(mask, k);
    ModDouble(mask, k);
    assert Pow2(k) == 2 * Pow2(k - 1);
    hide Pow2;
  }

  lemma AndHalf(a: nat, mask: nat)
    requires mask % 2 == 1
    ensures And(a, mask) / 2 == And(a / 2, mask / 2) && And(a, mask) % 2 == a % 2
  {
  }

  // ---- the order of the table

  /** cmp: by bucket, then by match */
  predicate Before(x: InsnDesc, y: InsnDesc, buckets: nat)
    requires buckets > 0
  {
    if x.match_ % buckets != y.match_ % buckets then x.match_ % buckets < y.match_ % buckets
    else x.match_ <= y.match_
  }

  predicate Sorted(s: seq<InsnDesc>, buckets: nat)
    requires buckets > 0
  {
    forall i, j :: 0 <= i < j < |s| ==> Before(s[i], s[j], buckets)
  }

  lemma BeforeOrder(x: InsnDesc, y: InsnDesc, z: InsnDesc, buckets: nat)
    requires buckets > 0
    ensures Before(x, y, buckets) || Before(y, x, buckets)
    ensures Before(x, y, buckets) && Before(y, z, buckets) ==> Before(x, z, buckets)
  {
  }

  function Insert(d: InsnDesc, s: seq<InsnDesc>, buckets: nat): seq<InsnDesc>
    requires buckets > 0
  {
    if s == [] then [d]
    else if Before(d, s[0], buckets) then [d] + s
    else [s[0]] + Insert(d, s[1..], buckets)
  }

  lemma {:induction false} InsertSorts(d: InsnDesc, s: seq<InsnDesc>, buckets: nat)
    requires buckets > 0 && Sorted(s, buckets)
    ensures Sorted(Insert(d, s, buckets), buckets)
    ensures multiset(Insert(d, s, buckets)) == multiset(s) + multiset{d}
  {
    hide Before, Sorted;
    SortedCons(s, buckets);
    if s == [] {
      assert [d][1..] == [];
      NoneSorted(buckets);
      SortedCons([d], buckets);
    } else {
      var r := Insert(d, s[1..], buckets);
      assert s == [s[0]] + s[1..];
      InsertSorts(d, s[1..], buckets);
      BeforeOrder(d, s[0], d, buckets);
      if Before(d, s[0], buckets) {
        forall x | x in s ensures Before(d, x, buckets) { BeforeOrder(d, s[0], x, buckets); }
        assert ([d] + s)[1..] == s;
        SortedCons([d] + s, buckets);
      } else {
        SameElements(r, s[1..], d);
        assert ([s[0]] + r)[1..] == r;
        SortedCons([s[0]] + r, buckets);
      }
    }
  }

  lemma SortedCons(s: seq<InsnDesc>, buckets: nat)
    requires buckets > 0
    ensures Sorted(s, buckets) <==>
              s == [] || (Sorted(s[1..], buckets) && forall x :: x in s[1..] ==> Before(s[0], x, buckets))
  {
    hide Before;
    if s != [] && Sorted(s[1..], buckets) && forall x :: x in s[1..] ==> Before(s[0], x, buckets) {
      forall i, j | 0 <= i < j < |s| ensures Before(s[i], s[j], buckets) {
        assert s[j] == s[1..][j - 1];
        if i > 0 { assert s[i] == s[1..][i - 1]; }
      }
    }
    if s != [] && Sorted(s, buckets) {
      forall i, j | 0 <= i < j < |s| - 1 ensures Before(s[1..][i], s[1..][j], buckets) {
        assert s[1..][i] == s[i + 1] && s[1..][j] == s[j + 1];
      }
    }
  }

  lemma SameElements(r: seq<InsnDesc>, t: seq<InsnDesc>, d: InsnDesc)
    requires multiset(r) == multiset(t) + multiset{d}
    ensures forall x :: x in r ==> x in t || x == d
  {
    forall x | x in r ensures x in t || x == d { assert x in multiset(r); }
  }

  /** Stands for std::sort: some permutation in order. */
  function Sort(s: seq<InsnDesc>, buckets: nat): seq<InsnDesc>
    requires buckets > 0
  {
    if s == [] then [] else Insert(s[0], Sort(s[1..], buckets), buckets)
  }

  lemma {:induction false} SortSorts(s: seq<InsnDesc>, buckets: nat)
    requires buckets > 0
    ensures Sorted(Sort(s, buckets), buckets) && multiset(Sort(s, buckets)) == multiset(s)
    ensures |Sort(s, buckets)| == |s|
  {
    hide Sorted, Insert;
    if s == [] {
      NoneSorted(buckets);
    } else {
      assert s == [s[0]] + s[1..];
      SortSorts(s[1..], buckets);
      InsertSorts(s[0], Sort(s[1..], buckets), buckets);
      assert |multiset(Sort(s, buckets))| == |multiset(s)|;
    }
  }

  lemma NoneSorted(buckets: nat)
    requires buckets > 0
    ensures Sorted([], buckets)
  {
  }

  // ---- the table

  /** Entries before j belong to buckets below b, the others to b and above. */
  ghost predicate SplitAt(s: seq<InsnDesc>, buckets: nat, j: nat, b: nat)
    requires buckets > 0
  {
    && j <= |s|
    && (forall k :: 0 <= k < j ==> s[k].match_ % buckets < b)
    && (forall k :: j <= k < |s| ==> s[k].match_ % buckets >= b)
  }

  ghost predicate Passing(s: seq<InsnDesc>, buckets: nat, j: nat, b: nat)
    requires buckets > 0
  {
    && j <= |s|
    && (forall k :: 0 <= k < j ==> s[k].match_ % buckets <= b)
    && (forall k :: j <= k < |s| ==> s[k].match_ % buckets >= b)
  }

  lemma NextBucket(s: seq<InsnDesc>, buckets: nat, j: nat, b: nat)
    requires buckets > 0 && Sorted(s, buckets) && Passing(s, buckets, j, b)
    requires j < |s| ==> s[j].match_ % buckets != b
    ensures SplitAt(s, buckets, j, b + 1)
  {
    forall k | j <= k < |s| ensures s[k].match_ % buckets >= b + 1 {
      assert k == j || Before(s[j], s[k], buckets);
    }
  }

  lemma AllPassed(s: seq<InsnDesc>, buckets: nat, j: nat)
    requires buckets > 0 && SplitAt(s, buckets, j, buckets)
    ensures j == |s|
  {
    InSomeBucket(s, buckets, j);
  }

  lemma InSomeBucket(s: seq<InsnDesc>, buckets: nat, j: nat)
    requires buckets > 0
    ensures j < |s| ==> s[j].match_ % buckets < buckets
  {
    if j < |s| { DivMod(s[j].match_, buckets); }
  }

  lemma PassOne(s: seq<InsnDesc>, buckets: nat, j: nat, b: nat)
    requires buckets > 0
    ensures SplitAt(s, buckets, j, b) ==> Passing(s, buckets, j, b)
    ensures Passing(s, buckets, j, b) && j < |s| && s[j].match_ % buckets == b ==> Passing(s, buckets, j + 1, b)
    ensures Passing(s, buckets, j, b) || SplitAt(s, buckets, j, b) ==> j <= |s|
    ensures SplitAt(s, buckets, 0, 0)
  {
  }

  /** The second half of build_opcode_map: one pass over the buckets and the
      sorted instructions together.  Its last assertion is the source's own. */
  method FillTable(s: seq<InsnDesc>, buckets: nat) returns (opcodeMap: seq<nat>, opcodeStore: seq<InsnDesc>)
    requires buckets > 0 && Sorted(s, buckets)
    ensures opcodeStore == s + [SENTINEL] && |opcodeMap| == buckets
    ensures forall c :: 0 <= c < buckets ==> SplitAt(s, buckets, opcodeMap[c], c)
  {
    hide SplitAt, Passing, Sorted;
    opcodeMap, opcodeStore := [], [];
    var b, i := 0, 0;
    PassOne(s, buckets, 0, 0);
    while b < buckets
      invariant 0 <= b <= buckets && |opcodeMap| == b
      invariant SplitAt(s, buckets, i, b) && i <= |s| && opcodeStore == s[..i]
      invariant forall c :: 0 <= c < b ==> SplitAt(s, buckets, opcodeMap[c], c)
    {
      opcodeMap := opcodeMap + [|opcodeStore|];
      PassOne(s, buckets, i, b);
      while i < |s| && b == s[i].match_ % buckets
        invariant Passing(s, buckets, i, b) && i <= |s| && opcodeStore == s[..i]
        decreases |s| - i
      {
        PassOne(s, buckets, i, b);
        opcodeStore := opcodeStore + [s[i]];
        i := i + 1;
      }
      NextBucket(s, buckets, i, b);
      b := b + 1;
    }
    AllPassed(s, buckets, i);
    assert |opcodeStore| == |s|;
    opcodeStore := opcodeStore + [SENTINEL];
  }

  ghost predicate IsTable(insns: seq<InsnDesc>, k: nat, opcodeMap: seq<nat>, opcodeStore: seq<InsnDesc>) {
    && Sorted(insns, Pow2(k)) && opcodeStore == insns + [SENTINEL] && |opcodeMap| == Pow2(k)
    && (forall c :: 0 <= c < Pow2(k) ==> SplitAt(insns, Pow2(k), opcodeMap[c], c))
    && (forall d :: d in insns ==> Covers(d.mask, k))
  }

  /** buckets is the largest power of two whose predecessor every mask covers. */
  ghost predicate IsBucketCount(insns: seq<InsnDesc>, buckets: nat, k: nat) {
    && buckets == Pow2(k)
    && (forall d :: d in insns ==> Covers(d.mask, k))
    && (exists d :: d in insns && !Covers(d.mask, k + 1))
  }

  lemma NoTable(insns: seq<InsnDesc>, opcodeStore: seq<InsnDesc>)
    ensures forall k: nat :: !IsTable(insns, k, [], opcodeStore)
  {
    hide Sorted, Covers, SplitAt;
  }

  lemma FewerBuckets(insns: seq<InsnDesc>, i: nat, k: nat)
    requires i < |insns| && insns[i].mask % 2 == 1 && 1 <= k
    requires And(insns[i].mask, Pow2(k) - 1) != Pow2(k) - 1
    requires forall j :: 0 <= j < i ==> Covers(insns[j].mask, k)
    ensures k > 1 && (Pow2(k) - 1) / 2 == Pow2(k - 1) - 1
    ensures forall j :: 0 <= j < i ==> Covers(insns[j].mask, k - 1)
  {
    AndIsCovers(insns[i].mask, k);
    assert Pow2(1) == 2 && Pow2(k) == 2 * Pow2(k - 1);
    forall j | 0 <= j < i ensures Covers(insns[j].mask, k - 1) { CoversFewer(insns[j].mask, k); }
  }

  lemma NotAll(mask: u32)
    ensures !Covers(mask, 64)
  {
    Pow2Values();
    hide Pow2;
  }

  lemma BelowWord(k: nat)
    requires k < 64
    ensures Pow2(k) < W64
  {
    assert Pow2(k + 1) == 2 * Pow2(k);
    Pow2Values();
    Pow2Mono(k + 1, 64);
  }

  lemma SameMembers(s: seq<InsnDesc>, t: seq<InsnDesc>)
    requires multiset(s) == multiset(t)
    ensures forall d :: d in s <==> d in t
  {
    forall d ensures d in s <==> d in t { assert d in multiset(s) <==> d in multiset(t); }
  }

  /** Outside its own bucket nothing fits. */
  lemma OwnBucket(d: InsnDesc, k: nat, bits: u64)
    requires Covers(d.mask, k) && Fits(d, bits)
    ensures d.match_ % Pow2(k) == bits % Pow2(k)
  {
    AndKeepsLow(bits, d.mask, k);
  }

  lemma StartOfScan(insns: seq<InsnDesc>, k: nat, opcodeMap: seq<nat>, opcodeStore: seq<InsnDesc>, bits: u64, c: nat)
    requires IsTable(insns, k, opcodeMap, opcodeStore) && c == bits % Pow2(k) < |opcodeMap|
    ensures opcodeMap[c] <= |insns| && forall j :: 0 <= j < opcodeMap[c] ==> !Fits(insns[j], bits)
  {
    hide Fits, Covers, Pow2;
    assert SplitAt(insns, Pow2(k), opcodeMap[c], c);
    forall j | 0 <= j < opcodeMap[c] && Fits(insns[j], bits) ensures false {
      OwnBucket(insns[j], k, bits);
    }
  }

  lemma FirstIsLeast(insns: seq<InsnDesc>, k: nat, bits: u64, j: nat)
    requires Sorted(insns, Pow2(k)) && (forall d :: d in insns ==> Covers(d.mask, k))
    requires j < |insns| && Fits(insns[j], bits) && forall i :: 0 <= i < j ==> !Fits(insns[i], bits)
    ensures LeastFit(insns, bits, insns[j])
  {
    hide Fits, Covers, Pow2;
    forall x | x in insns && Fits(x, bits) ensures insns[j].match_ <= x.match_ {
      var i :| 0 <= i < |insns| && insns[i] == x;
      OwnBucket(x, k, bits);
      OwnBucket(insns[j], k, bits);
      assert i == j || Before(insns[j], insns[i], Pow2(k));
    }
  }

  /** The processor's part that decodes; a pointer into opcode_store is an index. */
  class Decoder {
    var instructions: seq<InsnDesc>
    var opcodeMap: seq<nat>
    var opcodeStore: seq<InsnDesc>
    var rv64: bool

    /** register_insn's assertion, for every instruction. */
    ghost predicate Registered()
      reads this
    {
      forall d :: d in instructions ==> d.mask % 2 == 1
    }

    /** The index is in step with the instructions. */
    ghost predicate Built()
      reads this
    {
      exists k: nat :: IsTable(instructions, k, opcodeMap, opcodeStore)
    }

    constructor (rv64: bool)
      ensures instructions == [] && Registered() && this.rv64 == rv64
    {
      instructions, opcodeMap, opcodeStore := [], [], [];
      this.rv64 := rv64;
    }

    method RegisterInsn(desc: InsnDesc)
      requires Registered() && desc.mask % 2 == 1
      modifies `instructions
      ensures Registered() && instructions == old(instructions) + [desc]
    {
      instructions := instructions + [desc];
    }

    method CountBuckets() returns (buckets: nat)
      requires Registered()
      ensures if instructions == [] then buckets == 0 else exists k: nat :: IsBucketCount(instructions, buckets, k)
    {
      hide Covers, And, Pow2;
      ghost var k: nat := 64;
      buckets := W64 - 1;
      Pow2Values();
      for i := 0 to |instructions|
        invariant buckets == Pow2(k) - 1 && 1 <= k <= 64
        invariant k == 64 || exists d :: d in instructions && !Covers(d.mask, k + 1)
        invariant forall j :: 0 <= j < i ==> Covers(instructions[j].mask, k)
      {
        while And(instructions[i].mask, buckets) != buckets
          invariant buckets == Pow2(k) - 1 && 1 <= k <= 64
          invariant k == 64 || exists d :: d in instructions && !Covers(d.mask, k + 1)
          invariant forall j :: 0 <= j < i ==> Covers(instructions[j].mask, k)
          decreases k
        {
          FewerBuckets(instructions, i, k);
          AndIsCovers(instructions[i].mask, k);
          buckets, k := buckets / 2, k - 1;
        }
        AndIsCovers(instructions[i].mask, k);
      }
      buckets := (buckets + 1) % W64;
      if instructions != [] {
        NotAll(instructions[0].mask);
        BelowWord(k);
        assert IsBucketCount(instructions, buckets, k);
      }
    }

    /** With nothing registered the count of buckets wraps to zero, and there is
        no table to look anything up in. */
    method BuildOpcodeMap()
      requires Registered()
      modifies `instructions, `opcodeMap, `opcodeStore
      ensures Registered() && multiset(instructions) == multiset(old(instructions))
      ensures Built() <==> instructions != []
      ensures instructions == [] ==> opcodeMap == [] && opcodeStore == [SENTINEL]
    {
      hide Sorted, Covers, SplitAt, Pow2;
      var buckets := CountBuckets();
      if buckets == 0 {
        opcodeMap, opcodeStore := [], [SENTINEL];
        NoTable(instructions, opcodeStore);
        return;
      }
      ghost var k: nat :| IsBucketCount(instructions, buckets, k);
      ghost var insns := instructions;
      instructions := Sort(instructions, buckets);
      SortSorts(insns, buckets);
      SameMembers(insns, instructions);
      opcodeMap, opcodeStore := FillTable(instructions, buckets);
      assert IsTable(instructions, k, opcodeMap, opcodeStore);
    }

    /** The scan always stops: at the least instruction that fits, or at the
        sentinel when none does. */
    method DecodeInsn(bits: u64) returns (f: Handler)
      requires Built()
      ensures (exists d :: LeastFit(instructions, bits, d) && f == HandlerOf(d, rv64))
              || (NoneFits(instructions, bits) && f == ILLEGAL)
    {
      hide Sorted, Covers, SplitAt, Pow2, Fits;
      ghost var k: nat :| IsTable(instructions, k, opcodeMap, opcodeStore);
      var mask := |opcodeMap| - 1;
      AndLowMask(bits, k);
      DivMod(bits, Pow2(k));
      var c := And(bits, mask);
      StartOfScan(instructions, k, opcodeMap, opcodeStore, bits, c);
      SentinelFits(bits);
      var j := opcodeMap[c];
      while !Fits(opcodeStore[j], bits)
        invariant j <= |instructions|
        invariant forall i :: 0 <= i < j ==> !Fits(instructions[i], bits)
        decreases |instructions| - j
      {
        j := j + 1;
      }
      f := HandlerOf(opcodeStore[j], rv64);
      if j < |instructions| {
        FirstIsLeast(instructions, k, bits, j);
        assert LeastFit(instructions, bits, opcodeStore[j]) && f == HandlerOf(opcodeStore[j], rv64);
      }
    }
  }

  lemma SentinelFits(bits: u64)
    ensures Fits(SENTINEL, bits)
  {
  }
}
