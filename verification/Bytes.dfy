/** Little-endian words in a sequence of bytes. */
module Bytes {
  import opened Powers

  type u8 = x: int | 0 <= x < 0x100

  function Half(mem: seq<u8>, a: nat): u32
    requires a + 4 <= |mem|
  {
    mem[a] as int + 0x100 * mem[a + 1] as int + 0x1_0000 * mem[a + 2] as int + 0x100_0000 * mem[a + 3] as int
  }

  /** The doubleword at a. */
  function Word(mem: seq<u8>, a: nat): u64
    requires a + 8 <= |mem|
  {
    Half(mem, a) as int + W32 * Half(mem, a + 4) as int
  }

  /** The number that bytes spell, and the low bytes of a number. */
  function Unsigned(b: seq<u8>): nat {
    if b == [] then 0 else b[0] as int + 0x100 * Unsigned(b[1..])
  }

  function LowBytes(v: nat, n: nat): (b: seq<u8>)
    ensures |b| == n
  {
    if n == 0 then [] else [v % 0x100] + LowBytes(v / 0x100, n - 1)
  }

  lemma {:induction false} UnsignedBound(b: seq<u8>)
    ensures Unsigned(b) < Pow2(8 * |b|)
  {
    if b != [] {
      UnsignedBound(b[1..]);
      ByteMore(|b| - 1);
    }
  }

  lemma ByteMore(n: nat)
    ensures Pow2(8 * (n + 1)) == 0x100 * Pow2(8 * n)
  {
    Pow2Add(8, 8 * n);
    assert Pow2(8) == 0x100;
  }

  /** Storing the low bytes and reading them back leaves what fits. */
  lemma {:induction false} UnsignedOfLow(v: nat, n: nat)
    requires v < Pow2(8 * n)
    ensures Unsigned(LowBytes(v, n)) == v
  {
    if n > 0 {
      ByteMore(n - 1);
      UnsignedOfLow(v / 0x100, n - 1);
    }
  }
}
