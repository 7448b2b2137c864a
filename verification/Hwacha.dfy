/** The Hwacha vector unit's control state and its save and restore to memory
    (hwacha/insns/vxcptsave.h, vxcptrestore.h, vxcptkill.h, vsetcfg.h,
    vsetvl.h, hwacha/decode_hwacha.h, hwacha/hwacha.cc). */
module Hwacha {
  import opened Wrappers
  import opened Arith
  import opened Powers
  import opened Bytes

  const MAX_UTS: nat := 2048

  /** take_exception: the cause and the auxiliary word. */
  datatype Exception =
    | IllegalCfg(which: nat) | Privileged
    | MisalignedLoad(addr: nat) | MisalignedStore(addr: nat) | FaultLoad(addr: nat) | FaultStore(addr: nat)

  /** ct_state_t */
  datatype Ct = Ct(nxpr: u32, nfpr: u32, maxvl: u32, vl: u32, count: u32, prec: u32, vfPc: u64)

  /** ut_state_t: one microthread */
  datatype Ut = Ut(run: bool, xpr: seq<u64>, fpr: seq<u64>)

  const CT_RESET: Ct := Ct(32, 32, 32, 0, 0, 64, W64 - 1)

  function UtReset(): Ut { Ut(false, seq(32, i => 0), seq(32, i => 0)) }

  /** Both register files have 32 registers, and integer register 0 is zero. */
  predicate ValidUts(uts: seq<Ut>) {
    |uts| == MAX_UTS && forall i {:trigger uts[i]} :: 0 <= i < |uts| ==>
      |uts[i].xpr| == 32 && |uts[i].fpr| == 32 && uts[i].xpr[0] == 0
  }

  /** What every run of configuration instructions keeps. */
  predicate ValidCt(c: Ct) { c.nxpr <= 32 && c.nfpr <= 32 && c.vl <= c.maxvl <= MAX_UTS }

  // ---- the save area

  /** Registers come row by row: row x holds register x of microthreads 0 to vl - 1. */
  function XprRow(uts: seq<Ut>, x: nat, vl: nat): (r: seq<u64>)
    requires x < 32 && vl <= |uts| && ValidUts(uts)
    ensures |r| == vl
  {
    seq(vl, i requires 0 <= i < vl => uts[i].xpr[x])
  }

  function FprRow(uts: seq<Ut>, f: nat, vl: nat): (r: seq<u64>)
    requires f < 32 && vl <= |uts| && ValidUts(uts)
    ensures |r| == vl
  {
    seq(vl, i requires 0 <= i < vl => uts[i].fpr[f])
  }

  /** Integer rows 1 to n - 1, then nothing; register 0 is not saved. */
  function XprRows(uts: seq<Ut>, n: nat, vl: nat): seq<u64>
    requires n <= 32 && vl <= |uts| && ValidUts(uts)
  {
    if n <= 1 then [] else XprRows(uts, n - 1, vl) + XprRow(uts, n - 1, vl)
  }

  function FprRows(uts: seq<Ut>, n: nat, vl: nat): seq<u64>
    requires n <= 32 && vl <= |uts| && ValidUts(uts)
  {
    if n == 0 then [] else FprRows(uts, n - 1, vl) + FprRow(uts, n - 1, vl)
  }

  function Registers(c: Ct, uts: seq<Ut>): seq<u64>
    requires ValidCt(c) && ValidUts(uts)
  {
    XprRows(uts, c.nxpr, c.vl) + FprRows(uts, c.nfpr, c.vl)
  }

  /** Bytes the save area takes. */
  function AreaSize(c: Ct, uts: seq<Ut>): nat
    requires ValidCt(c) && ValidUts(uts)
  {
    32 + 8 * |Registers(c, uts)| + c.vl
  }

  /** out, as little-endian doublewords, starts at a. */
  ghost predicate Doublewords(mem: seq<u8>, a: nat, out: seq<u64>) {
    a + 8 * |out| <= |mem| && forall k :: 0 <= k < |out| ==> Word(mem, a + 8 * k) == out[k]
  }

  /** The words at the head of the area. */
  function Fields(c: Ct): seq<u32> { [c.nxpr, c.nfpr, c.maxvl, c.vl, c.count] }

  ghost predicate Words(mem: seq<u8>, a: nat, out: seq<u32>) {
    a + 4 * |out| <= |mem| && forall k :: 0 <= k < |out| ==> Half(mem, a + 4 * k) == out[k]
  }

  ghost predicate Header(mem: seq<u8>, a: nat, c: Ct) {
    a + 32 <= |mem| && Words(mem, a, Fields(c)) && Word(mem, a + 24) == c.vfPc
  }

  ghost predicate RunBits(mem: seq<u8>, a: nat, uts: seq<Ut>, n: nat) {
    a + n <= |mem| && n <= |uts| && forall i :: 0 <= i < n ==> mem[a + i] == if uts[i].run then 1 else 0
  }

  /** Memory at a holds a saved vector state. */
  ghost predicate Saved(mem: seq<u8>, a: nat, c: Ct, uts: seq<Ut>)
    requires ValidCt(c) && ValidUts(uts)
  {
    && Header(mem, a, c)
    && Doublewords(mem, a + 32, Registers(c, uts))
    && RunBits(mem, a + 32 + 8 * |Registers(c, uts)|, uts, c.vl)
  }

  // ---- memory

  ghost predicate SameOutside(m: seq<u8>, m': seq<u8>, a: nat, n: nat) {
    |m'| == |m| && forall k :: 0 <= k < |m| && !(a <= k < a + n) ==> m'[k] == m[k]
  }

  lemma HalfApart(m: seq<u8>, m': seq<u8>, a: nat, n: nat, b: nat)
    requires SameOutside(m, m', a, n) && b + 4 <= |m| && (b + 4 <= a || a + n <= b)
    ensures Half(m', b) == Half(m, b)
  {
  }

  lemma WordApart(m: seq<u8>, m': seq<u8>, a: nat, n: nat, b: nat)
    requires SameOutside(m, m', a, n) && b + 8 <= |m| && (b + 8 <= a || a + n <= b)
    ensures Word(m', b) == Word(m, b)
  {
    HalfApart(m, m', a, n, b);
    HalfApart(m, m', a, n, b + 4);
  }

  lemma HalfOfBytes(v: u32)
    ensures var b0, b1, b2, b3 := v % 0x100, v / 0x100 % 0x100, v / 0x1_0000 % 0x100, v / 0x100_0000;
            0 <= b3 < 0x100 && v == b0 + 0x100 * b1 + 0x1_0000 * b2 + 0x100_0000 * b3
  {
    var x, y, z := v / 0x100, v / 0x1_0000, v / 0x100_0000;
    assert v == 0x100 * x + v % 0x100;
    assert x / 0x100 == y && y / 0x100 == z;
  }

  /** The ports' memory, without translation: what is not misaligned and lies
      inside is accessible. */
  class Memory {
    const data: array<u8>

    constructor (data: array<u8>)
      ensures this.data == data
    {
      this.data := data;
    }

    method PutHalf(a: nat, v: u32)
      requires a + 4 <= data.Length
      modifies data
      ensures SameOutside(old(data[..]), data[..], a, 4) && Half(data[..], a) == v
    {
      HalfOfBytes(v);
      data[a], data[a + 1] := v % 0x100, v / 0x100 % 0x100;
      data[a + 2], data[a + 3] := v / 0x1_0000 % 0x100, v / 0x100_0000;
    }

    method StoreB(addr: nat, v: u8) returns (r: Option<Exception>)
      modifies data
      ensures r == if addr < data.Length then None else Some(FaultStore(addr))
      ensures if r.None? then data[..] == old(data[..])[addr := v] else data[..] == old(data[..])
    {
      if addr >= data.Length { return Some(FaultStore(addr)); }
      data[addr] := v;
      r := None;
    }

    method StoreW(addr: nat, v: u32) returns (r: Option<Exception>)
      modifies data
      ensures r == if addr % 4 != 0 then Some(MisalignedStore(addr))
              else if addr + 4 > data.Length then Some(FaultStore(addr)) else None
      ensures SameOutside(old(data[..]), data[..], addr, 4)
      ensures r.None? ==> Half(data[..], addr) == v
    {
      if addr % 4 != 0 { return Some(MisalignedStore(addr)); }
      if addr + 4 > data.Length { return Some(FaultStore(addr)); }
      PutHalf(addr, v);
      r := None;
    }

    method StoreD(addr: nat, v: u64) returns (r: Option<Exception>)
      modifies data
      ensures r == if addr % 8 != 0 then Some(MisalignedStore(addr))
              else if addr + 8 > data.Length then Some(FaultStore(addr)) else None
      ensures SameOutside(old(data[..]), data[..], addr, 8)
      ensures r.None? ==> Word(data[..], addr) == v
    {
      hide Half;
      if addr % 8 != 0 { return Some(MisalignedStore(addr)); }
      if addr + 8 > data.Length { return Some(FaultStore(addr)); }
      PutHalf(addr, v % W32);
      ghost var m := data[..];
      PutHalf(addr + 4, v / W32);
      HalfApart(m, data[..], addr + 4, 4, addr);
      r := None;
    }

    method LoadB(addr: nat) returns (r: Option<Exception>, v: u8)
      ensures r == if addr < data.Length then None else Some(FaultLoad(addr))
      ensures r.None? ==> v == data[addr]
    {
      if addr >= data.Length { return Some(FaultLoad(addr)), 0; }
      return None, data[addr];
    }

    method LoadW(addr: nat) returns (r: Option<Exception>, v: u32)
      ensures r == if addr % 4 != 0 then Some(MisalignedLoad(addr))
              else if addr + 4 > data.Length then Some(FaultLoad(addr)) else None
      ensures r.None? ==> v == Half(data[..], addr)
    {
      if addr % 4 != 0 { return Some(MisalignedLoad(addr)), 0; }
      if addr + 4 > data.Length { return Some(FaultLoad(addr)), 0; }
      return None, Half(data[..], addr);
    }

    method LoadD(addr: nat) returns (r: Option<Exception>, v: u64)
      ensures r == if addr % 8 != 0 then Some(MisalignedLoad(addr))
              else if addr + 8 > data.Length then Some(FaultLoad(addr)) else None
      ensures r.None? ==> v == Word(data[..], addr)
    {
      if addr % 8 != 0 { return Some(MisalignedLoad(addr)), 0; }
      if addr + 8 > data.Length { return Some(FaultLoad(addr)), 0; }
      return None, Word(data[..], addr);
    }
  }

  // ---- rows of the save area

  lemma {:induction false} XprPrefix(uts: seq<Ut>, x: nat, n: nat, vl: nat)
    requires 1 <= x <= n <= 32 && vl <= |uts| && ValidUts(uts)
    ensures XprRows(uts, x, vl) <= XprRows(uts, n, vl)
  {
    hide ValidUts;
    if x < n { XprPrefix(uts, x, n - 1, vl); }
  }

  lemma {:induction false} FprPrefix(uts: seq<Ut>, f: nat, n: nat, vl: nat)
    requires f <= n <= 32 && vl <= |uts| && ValidUts(uts)
    ensures FprRows(uts, f, vl) <= FprRows(uts, n, vl)
  {
    hide ValidUts;
    if f < n { FprPrefix(uts, f, n - 1, vl); }
  }

  /** Where register x of microthread i stands. */
  lemma XprAt(c: Ct, uts: seq<Ut>, x: nat, i: nat)
    requires ValidCt(c) && ValidUts(uts) && 1 <= x < c.nxpr && i < c.vl
    ensures var k := |XprRows(uts, x, c.vl)| + i; k < |Registers(c, uts)| && Registers(c, uts)[k] == uts[i].xpr[x]
  {
    XprPrefix(uts, x + 1, c.nxpr, c.vl);
    var rows := XprRows(uts, x + 1, c.vl);
    assert rows[|XprRows(uts, x, c.vl)| + i] == XprRow(uts, x, c.vl)[i];
  }

  lemma FprAt(c: Ct, uts: seq<Ut>, f: nat, i: nat)
    requires ValidCt(c) && ValidUts(uts) && f < c.nfpr && i < c.vl
    ensures var k := |XprRows(uts, c.nxpr, c.vl)| + |FprRows(uts, f, c.vl)| + i;
            k < |Registers(c, uts)| && Registers(c, uts)[k] == uts[i].fpr[f]
  {
    var k := |FprRows(uts, f, c.vl)| + i;
    FprPrefix(uts, f + 1, c.nfpr, c.vl);
    FprIndex(uts, f, i, c.vl);
    hide ValidUts, XprRows, FprRows;
    assert FprRows(uts, c.nfpr, c.vl)[k] == FprRows(uts, f + 1, c.vl)[k];
  }

  lemma FprIndex(uts: seq<Ut>, f: nat, i: nat, vl: nat)
    requires f < 32 && i < vl <= |uts| && ValidUts(uts)
    ensures var k := |FprRows(uts, f, vl)| + i;
            k < |FprRows(uts, f + 1, vl)| && FprRows(uts, f + 1, vl)[k] == uts[i].fpr[f]
  {
    var rows, row := FprRows(uts, f, vl), FprRow(uts, f, vl);
    assert FprRows(uts, f + 1, vl) == rows + row;
    hide FprRows, ValidUts;
  }

  /** The area written so far: out is a prefix of what is to be written. */
  ghost predicate Progress(mem: seq<u8>, a: nat, c: Ct, out: seq<u64>) {
    Header(mem, a, c) && Doublewords(mem, a + 32, out)
  }

  lemma Append(m: seq<u8>, m': seq<u8>, a: nat, c: Ct, out: seq<u64>, v: u64)
    requires Progress(m, a, c, out) && SameOutside(m, m', a + 32 + 8 * |out|, 8)
    requires a + 40 + 8 * |out| <= |m| && Word(m', a + 32 + 8 * |out|) == v
    ensures Progress(m', a, c, out + [v])
  {
    hide Half, Word;
    HeaderApart(m, m', a, c, a + 32 + 8 * |out|, 8);
    forall k | 0 <= k < |out| + 1 ensures Word(m', a + 32 + 8 * k) == (out + [v])[k] {
      if k < |out| { WordApart(m, m', a + 32 + 8 * |out|, 8, a + 32 + 8 * k); }
    }
  }

  lemma HeaderApart(m: seq<u8>, m': seq<u8>, a: nat, c: Ct, b: nat, n: nat)
    requires Header(m, a, c) && SameOutside(m, m', b, n) && a + 32 <= b
    ensures Header(m', a, c)
  {
    hide Half, Word, SameOutside;
    SameSize(m, m', b, n);
    WordsApart(m, m', a, Fields(c), b, n);
    WordApart(m, m', b, n, a + 24);
  }

  lemma WordsApart(m: seq<u8>, m': seq<u8>, a: nat, out: seq<u32>, b: nat, n: nat)
    requires Words(m, a, out) && SameOutside(m, m', b, n) && a + 4 * |out| <= b
    ensures Words(m', a, out)
  {
    hide Half;
    forall k | 0 <= k < |out| ensures Half(m', a + 4 * k) == out[k] { HalfApart(m, m', b, n, a + 4 * k); }
  }

  lemma NoWords(m: seq<u8>, a: nat)
    ensures a <= |m| ==> Words(m, a, [])
  {
  }

  lemma AppendWord(m: seq<u8>, m': seq<u8>, a: nat, out: seq<u32>, v: u32)
    requires Words(m, a, out) && SameOutside(m, m', a + 4 * |out|, 4) && a + 4 * |out| + 4 <= |m|
    requires Half(m', a + 4 * |out|) == v
    ensures Words(m', a, out + [v])
  {
    hide Half;
    WordsApart(m, m', a, out, a + 4 * |out|, 4);
  }

  lemma SameSize(m: seq<u8>, m': seq<u8>, b: nat, n: nat)
    requires SameOutside(m, m', b, n)
    ensures |m'| == |m|
  {
  }

  // ---- the instructions

  class VectorUnit {
    const mem: Memory
    const uts: array<Ut>
    var ct: Ct
    var supervisor: bool

    ghost predicate Valid()
      reads this, uts
    {
      ValidCt(ct) && ValidUts(uts[..])
    }

    constructor (mem: Memory)
      ensures Valid() && this.mem == mem && ct == CT_RESET && fresh(uts)
    {
      this.mem := mem;
      uts := new Ut[MAX_UTS](_ => UtReset());
      ct := CT_RESET;
      supervisor := true;
    }

    /** read_xpr: no value where the source takes the illegal-register exception. */
    method ReadXpr(idx: nat, src: nat) returns (r: Option<u64>)
      requires ValidUts(uts[..]) && idx < MAX_UTS && ct.nxpr <= 32
      ensures r == if src >= ct.nxpr then None else Some(uts[idx].xpr[src])
    {
      assert uts[..][idx] == uts[idx];
      if src >= ct.nxpr { return None; }
      r := Some(uts[idx].xpr[src]);
    }

    method ReadFpr(idx: nat, src: nat) returns (r: Option<u64>)
      requires ValidUts(uts[..]) && idx < MAX_UTS && ct.nfpr <= 32
      ensures r == if src >= ct.nfpr then None else Some(uts[idx].fpr[src])
    {
      assert uts[..][idx] == uts[idx];
      if src >= ct.nfpr { return None; }
      r := Some(uts[idx].fpr[src]);
    }

    /** A write to integer register 0 is dropped. */
    method WriteXpr(idx: nat, dst: nat, value: u64) returns (ok: bool)
      requires ValidUts(uts[..]) && idx < MAX_UTS && ct.nxpr <= 32
      modifies uts
      ensures ValidUts(uts[..]) && ok == (dst < ct.nxpr)
      ensures forall i :: 0 <= i < MAX_UTS && i != idx ==> uts[i] == old(uts[i])
      ensures |old(uts[idx]).xpr| == 32
      ensures uts[idx] ==
                if ok && dst != 0 then old(uts[idx]).(xpr := old(uts[idx]).xpr[dst := value]) else old(uts[idx])
    {
      assert uts[..][idx] == uts[idx];
      if dst >= ct.nxpr { return false; }
      if dst != 0 { uts[idx] := uts[idx].(xpr := uts[idx].xpr[dst := value]); }
      ok := true;
    }

    method WriteFpr(idx: nat, dst: nat, value: u64) returns (ok: bool)
      requires ValidUts(uts[..]) && idx < MAX_UTS && ct.nfpr <= 32
      modifies uts
      ensures ValidUts(uts[..]) && ok == (dst < ct.nfpr)
      ensures forall i :: 0 <= i < MAX_UTS && i != idx ==> uts[i] == old(uts[i])
      ensures |old(uts[idx]).fpr| == 32
      ensures uts[idx] == if ok then old(uts[idx]).(fpr := old(uts[idx]).fpr[dst := value]) else old(uts[idx])
    {
      assert uts[..][idx] == uts[idx];
      if dst >= ct.nfpr { return false; }
      uts[idx] := uts[idx].(fpr := uts[idx].fpr[dst := value]);
      ok := true;
    }

    method Vxcptkill() returns (r: Option<Exception>)
      requires Valid()
      modifies `ct, uts
      ensures Valid() && r == if supervisor then None else Some(Privileged)
      ensures if r.None? then ct == CT_RESET && forall i :: 0 <= i < MAX_UTS ==> uts[i] == UtReset()
              else ct == old(ct) && uts[..] == old(uts[..])
    {
      if !supervisor { return Some(Privileged); }
      ct := CT_RESET;
      for i := 0 to MAX_UTS
        invariant ct == CT_RESET && ValidUts(uts[..]) && forall k :: 0 <= k < i ==> uts[k] == UtReset()
      {
        uts[i] := UtReset();
      }
      r := None;
    }

    method MaxVl(nxpr: nat, nfpr: nat) returns (maxvl: u32)
      requires nxpr <= 32 && nfpr <= 32
      ensures FillsBanks(maxvl, nxpr, nfpr) && maxvl <= MAX_UTS
    {
      hide FillsBanks;
      maxvl := 8 * 256;
      OneRegister(nxpr, nfpr);
      if nxpr + nfpr >= 2 {
        BanksFilled(nxpr, nfpr, nxpr - 1 + nfpr);
        maxvl := 8 * (256 / (nxpr - 1 + nfpr));
      }
      AtMostAll(maxvl, nxpr, nfpr);
    }

    /** Widths beyond 32 registers are refused; otherwise as many microthreads
        as 256 registers a lane hold, over eight lanes. */
    method Vsetcfg(xs1: u64, imm: u64) returns (r: Option<Exception>)
      requires Valid()
      modifies `ct
      ensures Valid()
      ensures var nxpr, nfpr := xs1 % 64 + imm % 64, xs1 / 64 % 64 + imm / 64 % 64;
              if nxpr > 32 then r == Some(IllegalCfg(0)) && ct == old(ct)
              else if nfpr > 32 then r == Some(IllegalCfg(1)) && ct == old(ct)
              else
                r == None && ct == old(ct).(nxpr := nxpr, nfpr := nfpr, vl := 0, maxvl := ct.maxvl)
                && FillsBanks(ct.maxvl, nxpr, nfpr)
    {
      var nxpr, nfpr := xs1 % 64 + imm % 64, xs1 / 64 % 64 + imm / 64 % 64;
      if nxpr > 32 { return Some(IllegalCfg(0)); }
      if nfpr > 32 { return Some(IllegalCfg(1)); }
      hide FillsBanks, ValidUts;
      var maxvl := MaxVl(nxpr, nfpr);
      ct := ct.(nxpr := nxpr, nfpr := nfpr, maxvl := maxvl, vl := 0);
      r := None;
    }

    // ---- vxcptsave.h

    /** The control state; the four bytes after it are left as they are. */
    method SaveHeader(addr: nat) returns (r: Option<Exception>)
      requires Valid()
      modifies mem.data
      ensures r.None? ==> Header(mem.data[..], addr, ct)
      ensures addr % 8 == 0 && addr + 32 <= mem.data.Length ==> r.None?
    {
      hide Half, Word, SameOutside, ValidUts, Words;
      r := SaveFields(addr);
      if r.Some? { return; }
      ghost var m := mem.data[..];
      r := mem.StoreD(addr + 24, ct.vfPc);
      if r.Some? { return; }
      SameSize(m, mem.data[..], addr + 24, 8);
      WordsApart(m, mem.data[..], addr, Fields(ct), addr + 24, 8);
    }

    /** STORE_W of the five words */
    method SaveFields(addr: nat) returns (r: Option<Exception>)
      modifies mem.data
      ensures r.None? ==> addr + 20 <= mem.data.Length && Words(mem.data[..], addr, Fields(ct))
      ensures addr % 4 == 0 && addr + 20 <= mem.data.Length ==> r.None?
    {
      hide Words;
      NoWords(mem.data[..], addr);
      r := StoreField(addr, 0);
      if r.Some? { return; }
      r := StoreField(addr, 1);
      if r.Some? { return; }
      r := StoreField(addr, 2);
      if r.Some? { return; }
      r := StoreField(addr, 3);
      if r.Some? { return; }
      r := StoreField(addr, 4);
      if r.Some? { return; }
      assert Fields(ct)[..5] == Fields(ct);
    }

    /** STORE_W of one control field */
    method StoreField(addr: nat, k: nat) returns (r: Option<Exception>)
      requires k < 5 && (addr + 4 * k <= mem.data.Length ==> Words(mem.data[..], addr, Fields(ct)[..k]))
      modifies mem.data
      ensures r.None? ==> addr + 4 * (k + 1) <= mem.data.Length && Words(mem.data[..], addr, Fields(ct)[..k + 1])
      ensures addr % 4 == 0 && addr + 4 * (k + 1) <= mem.data.Length ==> r.None?
    {
      hide Half, SameOutside, Words;
      ghost var m := mem.data[..];
      var a := addr + 4 * k;
      r := mem.StoreW(a, Fields(ct)[k]);
      if r.Some? { return; }
      SameSize(m, mem.data[..], a, 4);
      assert Fields(ct)[..k] + [Fields(ct)[k]] == Fields(ct)[..k + 1];
      AppendWord(m, mem.data[..], addr, Fields(ct)[..k], Fields(ct)[k]);
    }

    /** One row of integer registers: for (i...) STORE_D(addr, UT_READ_XPR(i, x)) */
    method SaveXprRow(base: nat, addr0: nat, x: nat, ghost out: seq<u64>)
      returns (r: Option<Exception>, addr: nat, ghost out': seq<u64>)
      requires Valid() && 1 <= x < ct.nxpr && Progress(mem.data[..], base, ct, out) && addr0 == base + 32 + 8 * |out|
      modifies mem.data
      ensures r.None? ==>
                && out' == out + XprRow(uts[..], x, ct.vl) && addr == base + 32 + 8 * |out'|
                && Progress(mem.data[..], base, ct, out')
      ensures base % 8 == 0 && base + 32 + 8 * (|out| + ct.vl) <= mem.data.Length ==> r.None?
    {
      hide Word, SameOutside, Progress, ValidUts;
      UtsAt(uts[..], 0);
      addr, out', r := addr0, out, None;
      ghost var row := XprRow(uts[..], x, ct.vl);
      for i := 0 to ct.vl
        invariant r.None? && out' == out + row[..i] && addr == base + 32 + 8 * |out'|
                  && Progress(mem.data[..], base, ct, out')
      {
        UtsAt(uts[..], i);
        var v := ReadXpr(i, x);
        ghost var m := mem.data[..];
        r := mem.StoreD(addr, v.value);
        if r.Some? { return; }
        Append(m, mem.data[..], base, ct, out', v.value);
        assert row[..i + 1] == row[..i] + [row[i]];
        addr, out' := addr + 8, out' + [v.value];
      }
      assert row[..ct.vl] == row;
    }

    method SaveFprRow(base: nat, addr0: nat, f: nat, ghost out: seq<u64>)
      returns (r: Option<Exception>, addr: nat, ghost out': seq<u64>)
      requires Valid() && f < ct.nfpr && Progress(mem.data[..], base, ct, out) && addr0 == base + 32 + 8 * |out|
      modifies mem.data
      ensures r.None? ==>
                && out' == out + FprRow(uts[..], f, ct.vl) && addr == base + 32 + 8 * |out'|
                && Progress(mem.data[..], base, ct, out')
      ensures base % 8 == 0 && base + 32 + 8 * (|out| + ct.vl) <= mem.data.Length ==> r.None?
    {
      hide Word, SameOutside, Progress, ValidUts;
      UtsAt(uts[..], 0);
      addr, out', r := addr0, out, None;
      ghost var row := FprRow(uts[..], f, ct.vl);
      for i := 0 to ct.vl
        invariant r.None? && out' == out + row[..i] && addr == base + 32 + 8 * |out'|
                  && Progress(mem.data[..], base, ct, out')
      {
        UtsAt(uts[..], i);
        var v := ReadFpr(i, f);
        ghost var m := mem.data[..];
        r := mem.StoreD(addr, v.value);
        if r.Some? { return; }
        Append(m, mem.data[..], base, ct, out', v.value);
        assert row[..i + 1] == row[..i] + [row[i]];
        addr, out' := addr + 8, out' + [v.value];
      }
      assert row[..ct.vl] == row;
    }

    method SaveRuns(base: nat, addr0: nat, ghost out: seq<u64>) returns (r: Option<Exception>)
      requires Valid() && Progress(mem.data[..], base, ct, out) && addr0 == base + 32 + 8 * |out|
      modifies mem.data
      ensures r.None? ==> Progress(mem.data[..], base, ct, out) && RunBits(mem.data[..], addr0, uts[..], ct.vl)
      ensures addr0 + ct.vl <= mem.data.Length ==> r.None?
    {
      hide Word, Progress, ValidUts, Half;
      var addr := addr0;
      r := None;
      ProgressFits(mem.data[..], base, ct, out);
      UtsAt(uts[..], 0);
      for i := 0 to ct.vl
        invariant r.None? && addr == addr0 + i && Progress(mem.data[..], base, ct, out)
        invariant RunBits(mem.data[..], addr0, uts[..], i)
      {
        UtsAt(uts[..], i);
        ghost var m := mem.data[..];
        r := mem.StoreB(addr, if uts[i].run then 1 else 0);
        if r.Some? { return; }
        ProgressApart(m, mem.data[..], base, ct, out, addr, 1);
        addr := addr + 1;
      }
    }

    method Vxcptsave(addr0: nat) returns (r: Option<Exception>)
      requires Valid()
      modifies `ct, uts, mem.data
      ensures Valid() && (r.None? ==> supervisor)
      ensures r.None? ==> Saved(mem.data[..], addr0, old(ct), old(uts[..]))
      ensures r.None? ==> ct == CT_RESET && forall i :: 0 <= i < MAX_UTS ==> uts[i] == UtReset()
      ensures supervisor && addr0 % 8 == 0 && addr0 + AreaSize(old(ct), old(uts[..])) <= mem.data.Length ==> r.None?
    {
      hide Word, Half, Header, Saved, ValidUts, Registers;
      if !supervisor { return Some(Privileged); }
      r := SaveHeader(addr0);
      if r.Some? { return; }
      r := SaveRegisters(addr0);
      if r.Some? { return; }
      r := Vxcptkill();
    }

    /** The two register loops and the run bits. */
    method SaveRegisters(addr0: nat) returns (r: Option<Exception>)
      requires Valid() && Header(mem.data[..], addr0, ct)
      modifies mem.data
      ensures r.None? ==> Saved(mem.data[..], addr0, ct, uts[..])
      ensures addr0 % 8 == 0 && addr0 + AreaSize(ct, uts[..]) <= mem.data.Length ==> r.None?
    {
      hide Word, Half, Header, Progress, RunBits, Saved, ValidUts;
      ghost var out := StartRows(mem.data[..], addr0, ct, uts[..]);
      UtsAt(uts[..], 0);
      AllXprs(uts[..], ct.nxpr, ct.vl);
      var addr, x := addr0 + 32, 1;
      r := None;
      while x < ct.nxpr
        invariant 1 <= x && r.None? && (x <= ct.nxpr || x == 1)
        invariant out == XprRows(uts[..], if x <= ct.nxpr then x else ct.nxpr, ct.vl)
        invariant Progress(mem.data[..], addr0, ct, out) && addr == addr0 + 32 + 8 * |out|
        decreases ct.nxpr - x
      {
        FitsRow(ct, uts[..], x);
        r, addr, out := SaveXprRow(addr0, addr, x, out);
        if r.Some? { return; }
        x := x + 1;
      }
      ghost var xprs := out;
      for f := 0 to ct.nfpr
        invariant r.None? && out == xprs + FprRows(uts[..], f, ct.vl)
        invariant Progress(mem.data[..], addr0, ct, out) && addr == addr0 + 32 + 8 * |out|
      {
        FitsFprRow(ct, uts[..], f);
        r, addr, out := SaveFprRow(addr0, addr, f, out);
        if r.Some? { return; }
      }
      r := SaveRuns(addr0, addr, out);
      if r.Some? { return; }
      IsSaved(mem.data[..], addr0, ct, uts[..]);
    }

    // ---- vxcptrestore.h

    method RestoreHeader(addr: nat, ghost c0: Ct) returns (r: Option<Exception>)
      requires Header(mem.data[..], addr, c0)
      modifies `ct
      ensures r.None? <==> addr % 8 == 0
      ensures r.None? ==> ct == c0.(prec := old(ct).prec)
    {
      HeaderReads(mem.data[..], addr, c0);
      hide Word, Half, Header;
      Aligned(addr);
      var w;
      r, w := mem.LoadW(addr);
      if r.Some? { return; }
      ct := ct.(nxpr := w);
      r, w := mem.LoadW(addr + 4);
      if r.Some? { return; }
      ct := ct.(nfpr := w);
      r, w := mem.LoadW(addr + 8);
      if r.Some? { return; }
      ct := ct.(maxvl := w);
      r, w := mem.LoadW(addr + 12);
      if r.Some? { return; }
      ct := ct.(vl := w);
      r, w := mem.LoadW(addr + 16);
      if r.Some? { return; }
      ct := ct.(count := w);
      var d;
      r, d := mem.LoadD(addr + 24);
      if r.Some? { return; }
      ct := ct.(vfPc := d);
    }

    /** One row: for (i...) UT_WRITE_XPR(i, x, LOAD_D(addr)) */
    method RestoreXprRow(addr0: nat, x: nat, ghost row: seq<u64>) returns (r: Option<Exception>, addr: nat)
      requires Valid() && 1 <= x < ct.nxpr && |row| == ct.vl && Doublewords(mem.data[..], addr0, row) && addr0 % 8 == 0
      modifies uts
      ensures r.None? && addr == addr0 + 8 * ct.vl && ValidUts(uts[..])
      ensures forall j :: 0 <= j < MAX_UTS ==>
                |old(uts[j]).xpr| == 32
                && uts[j] == if j < ct.vl then old(uts[j]).(xpr := old(uts[j]).xpr[x := row[j]]) else old(uts[j])
    {
      hide Word;
      addr, r := addr0, None;
      AllSized(uts[..]);
      for i := 0 to ct.vl
        invariant r.None? && addr == addr0 + 8 * i && ValidUts(uts[..])
        invariant forall j :: 0 <= j < MAX_UTS ==>
                    uts[j] == if j < i then old(uts[j]).(xpr := old(uts[j]).xpr[x := row[j]]) else old(uts[j])
      {
        var d;
        r, d := mem.LoadD(addr);
        var ok := WriteXpr(i, x, d);
        addr := addr + 8;
      }
    }

    method RestoreFprRow(addr0: nat, f: nat, ghost row: seq<u64>) returns (r: Option<Exception>, addr: nat)
      requires Valid() && f < ct.nfpr && |row| == ct.vl && Doublewords(mem.data[..], addr0, row) && addr0 % 8 == 0
      modifies uts
      ensures r.None? && addr == addr0 + 8 * ct.vl && ValidUts(uts[..])
      ensures forall j :: 0 <= j < MAX_UTS ==>
                |old(uts[j]).fpr| == 32
                && uts[j] == if j < ct.vl then old(uts[j]).(fpr := old(uts[j]).fpr[f := row[j]]) else old(uts[j])
    {
      hide Word;
      addr, r := addr0, None;
      AllSized(uts[..]);
      for i := 0 to ct.vl
        invariant r.None? && addr == addr0 + 8 * i && ValidUts(uts[..])
        invariant forall j :: 0 <= j < MAX_UTS ==>
                    uts[j] == if j < i then old(uts[j]).(fpr := old(uts[j]).fpr[f := row[j]]) else old(uts[j])
      {
        var d;
        r, d := mem.LoadD(addr);
        var ok := WriteFpr(i, f, d);
        addr := addr + 8;
      }
    }

    method RestoreRuns(addr0: nat, ghost u0: seq<Ut>) returns (r: Option<Exception>)
      requires Valid() && RunBits(mem.data[..], addr0, u0, ct.vl)
      modifies uts
      ensures r.None? && ValidUts(uts[..])
      ensures forall j :: 0 <= j < MAX_UTS ==>
                uts[j] == if j < ct.vl then old(uts[j]).(run := u0[j].run) else old(uts[j])
    {
      var addr := addr0;
      r := None;
      AllSized(uts[..]);
      for i := 0 to ct.vl
        invariant r.None? && addr == addr0 + i && ValidUts(uts[..])
        invariant forall j :: 0 <= j < MAX_UTS ==>
                    uts[j] == if j < i then old(uts[j]).(run := u0[j].run) else old(uts[j])
      {
        var b;
        r, b := mem.LoadB(addr);
        uts[i] := uts[i].(run := b != 0);
        addr := addr + 1;
      }
    }

    /** From a saved state, all of it comes back: the control state but for the
        precision, and the registers and run bits in use.  Everything else is
        as it was. */
    method Vxcptrestore(addr0: nat, ghost c0: Ct, ghost u0: seq<Ut>) returns (r: Option<Exception>)
      requires Valid() && ValidCt(c0) && ValidUts(u0) && Saved(mem.data[..], addr0, c0, u0)
      modifies `ct, uts
      ensures r.None? <==> supervisor && addr0 % 8 == 0
      ensures r.None? ==> Valid() && ct == c0.(prec := old(ct).prec)
      ensures r.None? ==> Restored(uts[..], old(uts[..]), u0, c0.vl, c0.nxpr, c0.nfpr, c0.vl)
    {
      hide Word, Half, Header, RunBits, Saved, ValidUts, Registers, Doublewords, Restored, XprRows, FprRows;
      if !supervisor { return Some(Privileged); }
      SavedParts(mem.data[..], addr0, c0, u0);
      UtsAt(u0, 0);
      UtsAt(uts[..], 0);
      r := RestoreHeader(addr0, c0);
      if r.Some? { return; }
      var addr, x := addr0 + 32, 1;
      NothingRestored(uts[..], u0, c0.vl);
      AllXprs(u0, 1, c0.vl);
      AllXprs(u0, c0.nxpr, c0.vl);
      while x < ct.nxpr
        invariant 1 <= x && (x <= ct.nxpr || x == 1) && r.None? && Valid() && ct == c0.(prec := old(ct).prec)
        invariant addr == addr0 + 32 + 8 * |XprRows(u0, if x <= ct.nxpr then x else ct.nxpr, ct.vl)|
        invariant Restored(uts[..], old(uts[..]), u0, ct.vl, x, 0, 0)
        decreases ct.nxpr - x
      {
        XprRowAt(mem.data[..], addr0, c0, u0, x);
        ghost var u := uts[..];
        r, addr := RestoreXprRow(addr, x, XprRow(u0, x, ct.vl));
        NextXpr(u, uts[..], old(uts[..]), u0, ct.vl, x);
        x := x + 1;
      }
      OneXpr(uts[..], old(uts[..]), u0, ct.vl, x, ct.nxpr);
      AllFprs(u0, ct.vl);
      for f := 0 to ct.nfpr
        invariant r.None? && Valid() && ct == c0.(prec := old(ct).prec)
        invariant addr == addr0 + 32 + 8 * (|XprRows(u0, ct.nxpr, ct.vl)| + |FprRows(u0, f, ct.vl)|)
        invariant Restored(uts[..], old(uts[..]), u0, ct.vl, ct.nxpr, f, 0)
      {
        FprRowAt(mem.data[..], addr0, c0, u0, f);
        ghost var u := uts[..];
        r, addr := RestoreFprRow(addr, f, FprRow(u0, f, ct.vl));
        NextFpr(u, uts[..], old(uts[..]), u0, ct.vl, ct.nxpr, f);
      }
      ghost var u := uts[..];
      RegistersSize(c0, u0);
      r := RestoreRuns(addr, u0);
      AllRuns(u, uts[..], old(uts[..]), u0, ct.vl, ct.nxpr, ct.nfpr);
    }

    /** Save, and the kill that ends it, followed by a restore at the same
        address. */
    method SaveAndRestore(addr: nat) returns (r: Option<Exception>)
      requires Valid() && supervisor && addr % 8 == 0 && addr + AreaSize(ct, uts[..]) <= mem.data.Length
      modifies `ct, uts, mem.data
      ensures r.None? && Valid() && ct == old(ct).(prec := 64)
      ensures forall i :: 0 <= i < ct.vl ==>
                && uts[i].run == old(uts[i]).run
                && (forall x :: 0 <= x < ct.nxpr ==>
                      |uts[i].xpr| == |old(uts[i]).xpr| == 32 && uts[i].xpr[x] == old(uts[i]).xpr[x])
                && (forall f :: 0 <= f < ct.nfpr ==>
                      |uts[i].fpr| == |old(uts[i]).fpr| == 32 && uts[i].fpr[f] == old(uts[i]).fpr[f])
    {
      hide Saved, Registers, AreaSize, Restored;
      r := Vxcptsave(addr);
      ghost var killed := uts[..];
      r := Vxcptrestore(addr, old(ct), old(uts[..]));
      BackAsBefore(uts[..], killed, old(uts[..]), ct.vl, ct.nxpr, ct.nfpr);
    }

    method Vsetvl(xs1: u64) returns (vl: u32)
      requires Valid()
      modifies `ct
      ensures Valid() && ct == old(ct).(vl := vl)
      ensures vl == if ct.maxvl <= xs1 % W32 then ct.maxvl else xs1 % W32
    {
      vl := if ct.maxvl <= xs1 % W32 then ct.maxvl else xs1 % W32;
      ct := ct.(vl := vl);
    }
  }

  lemma UtsAt(uts: seq<Ut>, i: nat)
    requires ValidUts(uts) && i < MAX_UTS
    ensures |uts| == MAX_UTS && |uts[i].xpr| == 32 && |uts[i].fpr| == 32 && uts[i].xpr[0] == 0
  {
  }

  lemma ProgressApart(m: seq<u8>, m': seq<u8>, a: nat, c: Ct, out: seq<u64>, b: nat, n: nat)
    requires Progress(m, a, c, out) && SameOutside(m, m', b, n) && a + 32 + 8 * |out| <= b
    ensures Progress(m', a, c, out)
  {
    hide Word, Half;
    HeaderApart(m, m', a, c, b, n);
    forall k | 0 <= k < |out| ensures Word(m', a + 32 + 8 * k) == out[k] { WordApart(m, m', b, n, a + 32 + 8 * k); }
  }

  lemma StartRows(m: seq<u8>, a: nat, c: Ct, uts: seq<Ut>) returns (out: seq<u64>)
    requires Header(m, a, c)
    ensures out == [] && Progress(m, a, c, out)
  {
    out := [];
  }

  lemma FitsRow(c: Ct, uts: seq<Ut>, x: nat)
    requires ValidCt(c) && ValidUts(uts) && 1 <= x < c.nxpr
    ensures |XprRows(uts, x, c.vl)| + c.vl == |XprRows(uts, x + 1, c.vl)| <= |Registers(c, uts)|
  {
    XprPrefix(uts, x + 1, c.nxpr, c.vl);
  }

  lemma FitsFprRow(c: Ct, uts: seq<Ut>, f: nat)
    requires ValidCt(c) && ValidUts(uts) && f < c.nfpr
    ensures |XprRows(uts, c.nxpr, c.vl)| + |FprRows(uts, f, c.vl)| + c.vl <= |Registers(c, uts)|
  {
    FprPrefix(uts, f + 1, c.nfpr, c.vl);
  }

  lemma ProgressFits(m: seq<u8>, a: nat, c: Ct, out: seq<u64>)
    requires Progress(m, a, c, out)
    ensures a + 32 + 8 * |out| <= |m|
  {
  }

  lemma AllXprs(uts: seq<Ut>, n: nat, vl: nat)
    requires n <= 32 && vl <= |uts| && ValidUts(uts)
    ensures n <= 1 ==> XprRows(uts, n, vl) == []
  {
  }

  lemma IsSaved(m: seq<u8>, a: nat, c: Ct, uts: seq<Ut>)
    requires ValidCt(c) && ValidUts(uts) && Progress(m, a, c, Registers(c, uts))
    requires RunBits(m, a + 32 + 8 * |Registers(c, uts)|, uts, c.vl)
    ensures Saved(m, a, c, uts)
  {
  }

  lemma AllSized(uts: seq<Ut>)
    requires ValidUts(uts)
    ensures |uts| == MAX_UTS && forall i :: 0 <= i < MAX_UTS ==> |uts[i].xpr| == 32 && |uts[i].fpr| == 32
  {
  }

  lemma Aligned(addr: nat)
    ensures addr % 8 == 0 <==> (addr + 24) % 8 == 0
    ensures addr % 8 == 0 ==> addr % 4 == 0
    ensures addr % 4 == (addr + 4) % 4 == (addr + 8) % 4 == (addr + 12) % 4 == (addr + 16) % 4
  {
    var q, r := addr / 4, addr % 4;
    ModIs(addr + 4, q + 1, r, 4);
    ModIs(addr + 8, q + 2, r, 4);
    ModIs(addr + 12, q + 3, r, 4);
    ModIs(addr + 16, q + 4, r, 4);
    var p, t := addr / 8, addr % 8;
    ModIs(addr + 24, p + 3, t, 8);
    if t == 0 { ModIs(addr, 2 * p, 0, 4); }
  }

  lemma HeaderReads(m: seq<u8>, a: nat, c: Ct)
    requires Header(m, a, c)
    ensures a + 32 <= |m| && Word(m, a + 24) == c.vfPc
    ensures Half(m, a) == c.nxpr && Half(m, a + 4) == c.nfpr && Half(m, a + 8) == c.maxvl
    ensures Half(m, a + 12) == c.vl && Half(m, a + 16) == c.count
  {
    hide Word, Half;
    var f := Fields(c);
    assert Half(m, a + 4 * 0) == f[0] && Half(m, a + 4 * 1) == f[1] && Half(m, a + 4 * 2) == f[2];
    assert Half(m, a + 4 * 3) == f[3] && Half(m, a + 4 * 4) == f[4];
  }

  /** u is u1 with the first vl microthreads given the registers of u0 below x
      (but integer register 0) and f, and the first n their run bits. */
  ghost predicate Restored(u: seq<Ut>, u1: seq<Ut>, u0: seq<Ut>, vl: nat, x: nat, f: nat, n: nat) {
    && |u| == |u1| == |u0| == MAX_UTS
    && forall j :: 0 <= j < MAX_UTS ==> RestoredAt(u[j], u1[j], u0[j], j < vl, x, f, j < n)
  }

  ghost predicate RestoredAt(a: Ut, b: Ut, c: Ut, active: bool, x: nat, f: nat, run: bool) {
    && |a.xpr| == |b.xpr| == |c.xpr| == |a.fpr| == |b.fpr| == |c.fpr| == 32
    && (forall y :: 0 <= y < 32 ==> a.xpr[y] == if active && 1 <= y < x then c.xpr[y] else b.xpr[y])
    && (forall y :: 0 <= y < 32 ==> a.fpr[y] == if active && y < f then c.fpr[y] else b.fpr[y])
    && a.run == if run then c.run else b.run
  }

  lemma SavedParts(m: seq<u8>, a: nat, c: Ct, uts: seq<Ut>)
    requires ValidCt(c) && ValidUts(uts) && Saved(m, a, c, uts)
    ensures Header(m, a, c) && Doublewords(m, a + 32, Registers(c, uts))
    ensures RunBits(m, a + 32 + 8 * |Registers(c, uts)|, uts, c.vl)
  {
  }

  lemma RegistersSize(c: Ct, uts: seq<Ut>)
    requires ValidCt(c) && ValidUts(uts)
    ensures |Registers(c, uts)| == |XprRows(uts, c.nxpr, c.vl)| + |FprRows(uts, c.nfpr, c.vl)|
  {
  }

  lemma NothingRestored(u: seq<Ut>, u0: seq<Ut>, vl: nat)
    requires ValidUts(u) && ValidUts(u0)
    ensures Restored(u, u, u0, vl, 1, 0, 0)
  {
  }

  lemma NextXpr(u: seq<Ut>, u': seq<Ut>, u1: seq<Ut>, u0: seq<Ut>, vl: nat, x: nat)
    requires Restored(u, u1, u0, vl, x, 0, 0) && |u'| == MAX_UTS && 1 <= x < 32 && vl <= MAX_UTS && ValidUts(u0)
    requires forall j :: 0 <= j < MAX_UTS ==>
               |u[j].xpr| == 32 && u'[j] == if j < vl then u[j].(xpr := u[j].xpr[x := XprRow(u0, x, vl)[j]]) else u[j]
    ensures Restored(u', u1, u0, vl, x + 1, 0, 0)
  {
    forall j | 0 <= j < MAX_UTS ensures RestoredAt(u'[j], u1[j], u0[j], j < vl, x + 1, 0, j < 0) {
      assert RestoredAt(u[j], u1[j], u0[j], j < vl, x, 0, j < 0);
    }
  }

  lemma NextFpr(u: seq<Ut>, u': seq<Ut>, u1: seq<Ut>, u0: seq<Ut>, vl: nat, x: nat, f: nat)
    requires Restored(u, u1, u0, vl, x, f, 0) && |u'| == MAX_UTS && f < 32 && vl <= MAX_UTS && ValidUts(u0)
    requires forall j :: 0 <= j < MAX_UTS ==>
               |u[j].fpr| == 32 && u'[j] == if j < vl then u[j].(fpr := u[j].fpr[f := FprRow(u0, f, vl)[j]]) else u[j]
    ensures Restored(u', u1, u0, vl, x, f + 1, 0)
  {
    forall j | 0 <= j < MAX_UTS ensures RestoredAt(u'[j], u1[j], u0[j], j < vl, x, f + 1, j < 0) {
      assert RestoredAt(u[j], u1[j], u0[j], j < vl, x, f, j < 0);
    }
  }

  lemma AllRuns(u: seq<Ut>, u': seq<Ut>, u1: seq<Ut>, u0: seq<Ut>, vl: nat, x: nat, f: nat)
    requires Restored(u, u1, u0, vl, x, f, 0) && |u'| == MAX_UTS
    requires forall j :: 0 <= j < MAX_UTS ==> u'[j] == if j < vl then u[j].(run := u0[j].run) else u[j]
    ensures Restored(u', u1, u0, vl, x, f, vl)
  {
    forall j | 0 <= j < MAX_UTS ensures RestoredAt(u'[j], u1[j], u0[j], j < vl, x, f, j < vl) {
      assert RestoredAt(u[j], u1[j], u0[j], j < vl, x, f, j < 0);
    }
  }

  /** No integer register is in use beyond register 0 when nxpr is 0 or 1. */
  lemma OneXpr(u: seq<Ut>, u1: seq<Ut>, u0: seq<Ut>, vl: nat, x: nat, nxpr: nat)
    requires Restored(u, u1, u0, vl, x, 0, 0) && (x == nxpr || (x == 1 && nxpr == 0))
    ensures Restored(u, u1, u0, vl, nxpr, 0, 0)
  {
    forall j | 0 <= j < MAX_UTS ensures RestoredAt(u[j], u1[j], u0[j], j < vl, nxpr, 0, j < 0) {
      assert RestoredAt(u[j], u1[j], u0[j], j < vl, x, 0, j < 0);
    }
  }

  lemma AllFprs(uts: seq<Ut>, vl: nat)
    requires vl <= |uts| && ValidUts(uts)
    ensures FprRows(uts, 0, vl) == []
  {
  }

  lemma PartOf(m: seq<u8>, a: nat, out: seq<u64>, p: nat, row: seq<u64>)
    requires Doublewords(m, a, out) && p + |row| <= |out| && forall i :: 0 <= i < |row| ==> out[p + i] == row[i]
    ensures Doublewords(m, a + 8 * p, row)
  {
    hide Word;
    forall i | 0 <= i < |row| ensures Word(m, a + 8 * p + 8 * i) == row[i] {
      assert Word(m, a + 8 * (p + i)) == out[p + i];
    }
  }

  lemma XprRowAt(m: seq<u8>, a: nat, c: Ct, uts: seq<Ut>, x: nat)
    requires ValidCt(c) && ValidUts(uts) && Doublewords(m, a + 32, Registers(c, uts)) && 1 <= x < c.nxpr
    ensures Doublewords(m, a + 32 + 8 * |XprRows(uts, x, c.vl)|, XprRow(uts, x, c.vl))
    ensures |XprRows(uts, x + 1, c.vl)| == |XprRows(uts, x, c.vl)| + c.vl
  {
    FitsRow(c, uts, x);
    forall i | 0 <= i < c.vl { XprAt(c, uts, x, i); }
    PartOf(m, a + 32, Registers(c, uts), |XprRows(uts, x, c.vl)|, XprRow(uts, x, c.vl));
  }

  lemma FprRowAt(m: seq<u8>, a: nat, c: Ct, uts: seq<Ut>, f: nat)
    requires ValidCt(c) && ValidUts(uts) && Doublewords(m, a + 32, Registers(c, uts)) && f < c.nfpr
    ensures Doublewords(m, a + 32 + 8 * (|XprRows(uts, c.nxpr, c.vl)| + |FprRows(uts, f, c.vl)|), FprRow(uts, f, c.vl))
    ensures |FprRows(uts, f + 1, c.vl)| == |FprRows(uts, f, c.vl)| + c.vl
  {
    FitsFprRow(c, uts, f);
    forall i | 0 <= i < c.vl { FprAt(c, uts, f, i); }
    PartOf(m, a + 32, Registers(c, uts), |XprRows(uts, c.nxpr, c.vl)| + |FprRows(uts, f, c.vl)|, FprRow(uts, f, c.vl));
  }

  lemma BackAsBefore(u: seq<Ut>, killed: seq<Ut>, u0: seq<Ut>, vl: nat, nxpr: nat, nfpr: nat)
    requires Restored(u, killed, u0, vl, nxpr, nfpr, vl) && ValidUts(u0) && ValidUts(killed) && nxpr <= 32
             && nfpr <= 32 && vl <= MAX_UTS
    ensures forall i :: 0 <= i < vl ==>
              && u[i].run == u0[i].run
              && (forall x :: 0 <= x < nxpr ==> |u[i].xpr| == |u0[i].xpr| == 32 && u[i].xpr[x] == u0[i].xpr[x])
              && (forall f :: 0 <= f < nfpr ==> |u[i].fpr| == |u0[i].fpr| == 32 && u[i].fpr[f] == u0[i].fpr[f])
  {
    forall i | 0 <= i < vl
      ensures u[i].run == u0[i].run
      ensures forall x :: 0 <= x < nxpr ==> |u[i].xpr| == |u0[i].xpr| == 32 && u[i].xpr[x] == u0[i].xpr[x]
      ensures forall f :: 0 <= f < nfpr ==> |u[i].fpr| == |u0[i].fpr| == 32 && u[i].fpr[f] == u0[i].fpr[f]
    {
      assert RestoredAt(u[i], killed[i], u0[i], i < vl, nxpr, nfpr, i < vl);
    }
  }

  /** maxvl is the largest multiple of eight for which every microthread's
      registers, less integer register 0, fit in 2048 places; 2048 when there
      is at most one register. */
  ghost predicate FillsBanks(maxvl: nat, nxpr: nat, nfpr: nat) {
    && maxvl % 8 == 0 && maxvl <= MAX_UTS
    && if nxpr + nfpr < 2 then maxvl == MAX_UTS
       else maxvl * (nxpr + nfpr - 1) <= MAX_UTS < (maxvl + 8) * (nxpr + nfpr - 1)
  }

  lemma OneRegister(nxpr: nat, nfpr: nat)
    ensures nxpr + nfpr < 2 ==> FillsBanks(8 * 256, nxpr, nfpr)
  {
  }

  lemma AtMostAll(maxvl: nat, nxpr: nat, nfpr: nat)
    requires FillsBanks(maxvl, nxpr, nfpr)
    ensures maxvl <= MAX_UTS
  {
  }

  lemma BanksFilled(nxpr: nat, nfpr: nat, d: nat)
    requires nxpr <= 32 && nfpr <= 32 && nxpr + nfpr >= 2 && d == nxpr - 1 + nfpr
    ensures 256 / d <= 256 && FillsBanks(8 * (256 / d), nxpr, nfpr)
  {
    hide FillsBanks;
    DivMod(256, d);
    DivBounds(256, d);
    Filled(nxpr, nfpr, d, 256 / d, 256 % d);
  }

  lemma Filled(nxpr: nat, nfpr: nat, d: nat, q: nat, r: nat)
    requires d == nxpr + nfpr - 1 && d > 0 && q <= 256 && r < d && 256 == q * d + r
    ensures FillsBanks(8 * q, nxpr, nfpr)
  {
    TimesEight(q, d);
    ModIs(8 * q, q, 0, 8);
    assert 8 * q * (nxpr + nfpr - 1) == 8 * q * d && (8 * q + 8) * (nxpr + nfpr - 1) == (8 * q + 8) * d;
  }

  lemma TimesEight(q: nat, d: nat)
    ensures (8 * q) * d == 8 * (q * d) && (8 * q + 8) * d == 8 * (q * d) + 8 * d
  {
    Assoc(8, q, d);
    AddMul(8 * q, 8, d);
  }
}
