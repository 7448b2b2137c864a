/** Streaming MD5: buffering, the split length counter and the padding
    (test/full-programs/md5/md5.c), against the one-shot definition of
    RFC 1321, section 3, with the block function left abstract. */
module Md5 {
  import opened Arith
  import opened Powers
  import opened Bytes

  const BLOCK: nat := 64
  const LO: nat := 0x2000_0000                    // 2^29
  const W61: nat := 0x2000_0000_0000_0000

  datatype Digest = Digest(a: u32, b: u32, c: u32, d: u32)

  const INIT: Digest := Digest(0x67452301, 0xEFCDAB89, 0x98BADCFE, 0x10325476)

  /** The four rounds on one block of 64 bytes. */
  type Compress = (Digest, seq<u8>) -> Digest

  // ---- RFC 1321, section 3

  /** Section 3.4: block by block. */
  function Fold(f: Compress, s: Digest, data: seq<u8>): Digest
    requires |data| % BLOCK == 0
    decreases |data|
  {
    if data == [] then s else
      Drop64(data);
      Fold(f, f(s, data[..BLOCK]), data[BLOCK..])
  }

  lemma Drop64(data: seq<u8>)
    requires |data| % BLOCK == 0 && data != []
    ensures |data| >= BLOCK && (|data| - BLOCK) % BLOCK == 0
  {
  }

  function Zeros(n: nat): (z: seq<u8>)
    ensures |z| == n && forall i :: 0 <= i < n ==> z[i] == 0
  {
    seq(n, i => 0)
  }

  /** How many zero bytes follow the 0x80 of section 3.1: enough for the length
      to become 56 modulo 64. */
  function PadCount(n: nat): (z: nat)
    ensures z < BLOCK && (n + 1 + z) % BLOCK == 56
  {
    PadFills(n); (119 - n % BLOCK) % BLOCK
  }

  lemma PadFills(n: nat)
    ensures var z := (119 - n % BLOCK) % BLOCK; 0 <= z < BLOCK && (n + 1 + z) % BLOCK == 56
  {
  }

  /** Section 3.2: the bit length modulo 2^64, low byte first. */
  function LengthBytes(bits: u64): (b: seq<u8>)
    ensures |b| == 8
  {
    seq(8, i requires 0 <= i < 8 => ByteOf(bits, i))
  }

  function ByteOf(v: nat, i: nat): u8 {
    ByteFits(v / Pow2(8 * i)); v / Pow2(8 * i) % 0x100
  }

  lemma ByteFits(v: int)
    ensures 0 <= v % 0x100 < 0x100
  {
  }

  function Padded(message: seq<u8>): (p: seq<u8>)
    ensures |p| % BLOCK == 0
  {
    PaddedBlocks(|message|);
    message + [0x80] + Zeros(PadCount(|message|)) + LengthBytes(|message| * 8 % W64)
  }

  lemma PaddedBlocks(n: nat)
    ensures (n + 1 + PadCount(n) + 8) % BLOCK == 0
  {
    ModIs(n + 1 + PadCount(n) + 8, (n + 1 + PadCount(n)) / BLOCK + 1, 0, BLOCK);
  }

  /** Section 3.5: A, B, C, D, low bytes first. */
  function DigestBytes(s: Digest): (b: seq<u8>)
    ensures |b| == 16
  {
    WordBytes(s.a) + WordBytes(s.b) + WordBytes(s.c) + WordBytes(s.d)
  }

  function WordBytes(v: u32): (b: seq<u8>)
    ensures |b| == 4
  {
    seq(4, i requires 0 <= i < 4 => ByteOf(v, i))
  }

  function Hash(f: Compress, message: seq<u8>): seq<u8> {
    DigestBytes(Fold(f, INIT, Padded(message)))
  }

  lemma {:induction false} FoldConcat(f: Compress, s: Digest, x: seq<u8>, y: seq<u8>)
    requires |x| % BLOCK == 0 && |y| % BLOCK == 0
    ensures |x + y| % BLOCK == 0 && Fold(f, s, x + y) == Fold(f, Fold(f, s, x), y)
    decreases |x|
  {
    SumBlocks(|x|, |y|);
    if x == [] {
      assert x + y == y;
    } else {
      Drop64(x);
      assert (x + y)[..BLOCK] == x[..BLOCK] && (x + y)[BLOCK..] == x[BLOCK..] + y;
      FoldConcat(f, f(s, x[..BLOCK]), x[BLOCK..], y);
    }
  }

  lemma SumBlocks(m: nat, n: nat)
    requires m % BLOCK == 0 && n % BLOCK == 0
    ensures (m + n) % BLOCK == 0
  {
  }

  // ---- the length counter

  /** lo keeps 29 bits of the byte count and hi the 32 above them. */
  predicate Counts(hi: u32, lo: u32, n: nat) { lo < LO && hi * LO + lo == n % W61 }

  lemma CounterStep(hi: u32, lo: u32, n: nat, size: u64, hi': u32, lo': u32)
    requires Counts(hi, lo, n) && lo' == (lo + size) % LO
    requires hi' == (hi + (if lo' < lo then 1 else 0) + size / LO) % W32
    ensures Counts(hi', lo', n + size)
  {
    var q, s := size / LO, size % LO;
    DivMod(size, LO);
    Carry(lo, s, q, lo');
    var h := hi + (if lo' < lo then 1 else 0) + q;
    var k := h / W32;
    DivMod(h, W32);
    DivMod(n, W61);
    ModIs(n + size, n / W61 + k, hi' * LO + lo', W61);
  }

  lemma Carry(lo: nat, s: nat, q: nat, lo': nat)
    requires lo < LO && s < LO && lo' == (lo + (q * LO + s)) % LO
    ensures lo + s == lo' + if lo' < lo then LO else 0
  {
    if lo + s < LO {
      ModIs(lo + (q * LO + s), q, lo + s, LO);
    } else {
      ModIs(lo + (q * LO + s), q + 1, lo + s - LO, LO);
    }
  }

  /** The two words of the length are the bit count. */
  lemma BitCount(hi: u32, lo: u32, n: nat)
    requires Counts(hi, lo, n)
    ensures lo * 8 < W32 && hi * W32 + lo * 8 == n * 8 % W64
  {
    DivMod(n, W61);
    ModIs(n * 8, n / W61, hi * W32 + lo * 8, W64);
  }

  // ---- the context

  /** Everything but the unprocessed tail of the message. */
  function Whole(message: seq<u8>): (w: seq<u8>)
    ensures |w| % BLOCK == 0
  {
    WholeBlocks(|message|);
    message[..|message| - |message| % BLOCK]
  }

  lemma WholeBlocks(n: nat)
    ensures 0 <= n % BLOCK <= n && (n - n % BLOCK) % BLOCK == 0
  {
  }

  function Tail(message: seq<u8>): (t: seq<u8>)
    ensures |t| == |message| % BLOCK && message == Whole(message) + t
  {
    WholeBlocks(|message|);
    message[|message| - |message| % BLOCK..]
  }

  /** A message split as blocks followed by less than a block. */
  lemma SplitIs(message: seq<u8>, w: seq<u8>, t: seq<u8>)
    requires message == w + t && |w| % BLOCK == 0 && |t| < BLOCK
    ensures Whole(message) == w && Tail(message) == t
  {
    ModIs(|message|, |w| / BLOCK, |t|, BLOCK);
  }

  class Context {
    const f: Compress
    var s: Digest
    var lo: u32
    var hi: u32
    const buffer: array<u8>
    ghost var message: seq<u8>

    ghost predicate Valid()
      reads this, buffer
    {
      && buffer.Length == BLOCK
      && Counts(hi, lo, |message|)
      && s == Fold(f, INIT, Whole(message))
      && buffer[..|message| % BLOCK] == Tail(message)
    }

    /** MD5_Init */
    constructor (f: Compress)
      ensures Valid() && message == [] && this.f == f && fresh(buffer)
    {
      this.f := f;
      s := INIT;
      lo, hi := 0, 0;
      buffer := new u8[BLOCK](_ => 0);
      message := [];
    }

    /** body: one or more blocks, in a loop that tests at its end. */
    method Body(data: seq<u8>)
      requires |data| % BLOCK == 0 && data != []
      modifies `s
      ensures s == Fold(f, old(s), data)
    {
      var rest := data;
      while true
        invariant |rest| % BLOCK == 0 && rest != [] && Fold(f, s, rest) == Fold(f, old(s), data)
        decreases |rest|
      {
        Drop64(rest);
        s := f(s, rest[..BLOCK]);
        rest := rest[BLOCK..];
        if |rest| == 0 { break; }
      }
    }

    /** memcpy into the buffer */
    method CopyIn(at: nat, data: seq<u8>)
      requires buffer.Length == BLOCK && at + |data| <= BLOCK
      modifies buffer
      ensures buffer[..at] == old(buffer[..at]) && buffer[at..at + |data|] == data
    {
      for i := 0 to |data|
        invariant forall k :: 0 <= k < at ==> buffer[k] == old(buffer[k])
        invariant forall k :: at <= k < at + i ==> buffer[k] == data[k - at]
      {
        buffer[at + i] := data[i];
      }
    }

    /** Completes the block in the buffer and processes it. */
    method TopUp(used: nat, data: seq<u8>, ghost w: seq<u8>) returns (rest: seq<u8>)
      requires buffer.Length == BLOCK && 0 < used < BLOCK && |data| >= BLOCK - used
      requires |w| % BLOCK == 0 && s == Fold(f, INIT, w)
      modifies `s, buffer
      ensures rest == data[BLOCK - used..]
      ensures var x := w + (old(buffer[..used]) + data[..BLOCK - used]); |x| % BLOCK == 0 && s == Fold(f, INIT, x)
    {
      hide Fold;
      var available := BLOCK - used;
      CopyIn(used, data[..available]);
      assert buffer[..] == old(buffer[..used]) + data[..available];
      ghost var x := buffer[..];
      Body(buffer[..]);
      Extend(f, w, x);
      rest := data[available..];
    }

    /** Processes the whole blocks of what is left and buffers the tail. */
    method Absorb(data: seq<u8>, ghost w: seq<u8>) returns (ghost w': seq<u8>, ghost t: seq<u8>)
      requires buffer.Length == BLOCK && |w| % BLOCK == 0 && s == Fold(f, INIT, w)
      modifies `s, buffer
      ensures |w'| % BLOCK == 0 && |t| < BLOCK && w' + t == w + data
      ensures s == Fold(f, INIT, w') && buffer[..|t|] == t
    {
      hide Fold;
      var rest := data;
      w' := w;
      if |rest| >= BLOCK {
        WholeBlocks(|rest|);
        var n := |rest| - |rest| % BLOCK;
        Body(rest[..n]);
        Extend(f, w, rest[..n]);
        w' := w + rest[..n];
        rest := rest[n..];
      }
      CopyIn(0, rest);
      t := rest;
    }

    /** Adds to the counter; used is what the buffer held before. */
    method Count(size: u64) returns (used: nat)
      requires Counts(hi, lo, |message|)
      modifies `lo, `hi
      ensures Counts(hi, lo, |message| + size) && used == |message| % BLOCK
    {
      hide Counts;
      var savedLo := lo;
      LoBound(hi, lo, |message|);
      UsedIs(hi, lo, |message|);
      lo := (savedLo + size) % LO;
      hi := (hi + (if lo < savedLo then 1 else 0) + size / LO) % W32;
      CounterStep(old(hi), old(lo), |message|, size, hi, lo);
      used := savedLo % BLOCK;
    }

    method Update(data: seq<u8>)
      requires Valid() && |data| < W64
      modifies `s, `lo, `hi, `message, buffer
      ensures Valid() && message == old(message) + data
    {
      hide Fold, Counts, Whole, Tail;
      var used := Count(|data|);
      ghost var w, t := Whole(message), Tail(message);
      var rest := data;
      message := message + data;
      if used != 0 {
        var available := BLOCK - used;
        if |data| < available {
          CopyIn(used, data);
          assert buffer[..used + |data|] == t + data;
          Buffered(old(message), data);
          return;
        }
        rest := TopUp(used, data, w);
        w := w + (t + data[..available]);
      }
      assert message == w + rest;
      w, t := Absorb(rest, w);
      SplitIs(message, w, t);
    }

    /** memset of part of the buffer to zero */
    method Clear(at: nat, n: nat)
      requires buffer.Length == BLOCK && at + n <= BLOCK
      modifies buffer
      ensures buffer[..at] == old(buffer[..at]) && buffer[at..at + n] == Zeros(n)
    {
      for i := 0 to n
        invariant forall k :: 0 <= k < at ==> buffer[k] == old(buffer[k])
        invariant forall k :: at <= k < at + i ==> buffer[k] == 0
      {
        buffer[at + i] := 0;
      }
    }

    /** ctx->buffer[56] = ctx->lo and so on */
    method PutLength(low: u32, high: u32)
      requires buffer.Length == BLOCK
      modifies buffer
      ensures buffer[..56] == old(buffer[..56]) && buffer[56..] == WordBytes(low) + WordBytes(high)
    {
      hide ByteOf;
      for i := 0 to 4
        invariant forall k :: 0 <= k < 56 ==> buffer[k] == old(buffer[k])
        invariant forall k :: 56 <= k < 56 + i ==> buffer[k] == ByteOf(low, k - 56)
        invariant forall k :: 60 <= k < 60 + i ==> buffer[k] == ByteOf(high, k - 60)
      {
        buffer[56 + i], buffer[60 + i] := ByteOf(low, i), ByteOf(high, i);
      }
    }

    /** Fills the block with zeros up to at + n, and processes it. */
    method ZeroBlock(at: nat, n: nat, ghost w: seq<u8>)
      requires buffer.Length == BLOCK && at + n == BLOCK && |w| % BLOCK == 0 && s == Fold(f, INIT, w)
      modifies `s, buffer
      ensures var x := w + (old(buffer[..at]) + Zeros(n)); |x| % BLOCK == 0 && s == Fold(f, INIT, x)
    {
      hide Fold;
      Clear(at, n);
      ghost var full := buffer[..];
      assert full == old(buffer[..at]) + Zeros(n);
      Body(buffer[..]);
      Extend(f, w, full);
    }

    /** Fills the last block with zeros and the length, and processes it. */
    method LastBlock(at: nat, n: nat, ghost w: seq<u8>)
      requires buffer.Length == BLOCK && at + n == 56 && lo < LO && |w| % BLOCK == 0 && s == Fold(f, INIT, w)
      modifies `s, buffer
      ensures var x := w + (old(buffer[..at]) + Zeros(n) + (WordBytes(lo * 8) + WordBytes(hi)));
              |x| % BLOCK == 0 && s == Fold(f, INIT, x)
    {
      hide Fold, WordBytes;
      Clear(at, n);
      assert buffer[..56] == old(buffer[..at]) + Zeros(n);
      PutLength(lo * 8, hi);
      ghost var last := buffer[..];
      assert last == old(buffer[..at]) + Zeros(n) + (WordBytes(lo * 8) + WordBytes(hi));
      Body(buffer[..]);
      Extend(f, w, last);
    }

    /** MD5_Final: the digest of everything updated so far. */
    method Final() returns (result: seq<u8>)
      requires Valid()
      modifies `s, buffer
      ensures result == Hash(f, message)
    {
      hide Fold, Counts, Whole, Tail, Padded, DigestBytes, LengthBytes, WordBytes, PadCount, Hash;
      LoBound(hi, lo, |message|);
      UsedIs(hi, lo, |message|);
      PadSizes(|message|);
      BitCount(hi, lo, |message|);
      LengthIs(hi, lo * 8);
      ghost var w, x := Whole(message), Tail(message) + [0x80];
      var used := lo % BLOCK;
      buffer[used] := 0x80;
      assert buffer[..used + 1] == x;
      used := used + 1;
      var available := BLOCK - used;
      PaddedIs(message, if available < 8 then available else 0, if available < 8 then 56 else available - 8,
               hi, lo * 8);
      if available < 8 {
        ZeroBlock(used, available, w);
        w := w + (x + Zeros(available));
        used, available := 0, 64;
        assert buffer[..0] == [];
      }
      LastBlock(used, available - 8, w);
      result := DigestBytes(s);
      HashIs(f, message, Padded(message), s);
    }
  }

  /** Bytes delivered in any pieces, digested. */
  method DigestPieces(f: Compress, pieces: seq<seq<u8>>) returns (result: seq<u8>)
    requires forall p :: p in pieces ==> |p| < W64
    ensures result == Hash(f, Concatenated(pieces))
  {
    var ctx := new Context(f);
    for i := 0 to |pieces|
      invariant ctx.Valid() && ctx.f == f && ctx.message == Concatenated(pieces[..i]) && fresh(ctx) && fresh(ctx.buffer)
    {
      ctx.Update(pieces[i]);
      assert pieces[..i + 1][..i] == pieces[..i];
    }
    assert pieces[..|pieces|] == pieces;
    result := ctx.Final();
  }

  function Concatenated(pieces: seq<seq<u8>>): seq<u8> {
    if pieces == [] then [] else Concatenated(pieces[..|pieces| - 1]) + pieces[|pieces| - 1]
  }

  lemma HashIs(f: Compress, message: seq<u8>, p: seq<u8>, s: Digest)
    requires p == Padded(message) && s == Fold(f, INIT, p)
    ensures DigestBytes(s) == Hash(f, message)
  {
    hide Fold, Padded, DigestBytes;
  }

  lemma PadSizes(n: nat)
    ensures var used := n % BLOCK + 1;
            PadCount(n) == if BLOCK - used < 8 then BLOCK - used + 56 else BLOCK - used - 8
  {
  }

  /** The little-endian bytes of both words are those of the bit count. */
  lemma LengthIs(high: u32, low: u32)
    ensures 0 <= high * W32 + low < W64 && LengthBytes(high * W32 + low) == WordBytes(low) + WordBytes(high)
  {
    hide ByteOf;
    var v := high * W32 + low;
    forall i | 0 <= i < 4 ensures ByteOf(v, i) == ByteOf(low, i) && ByteOf(v, i + 4) == ByteOf(high, i) {
      LowByte(high, low, i);
      HighByte(high, low, i);
    }
  }

  lemma LowByte(high: u32, low: u32, i: nat)
    requires i < 4
    ensures ByteOf(high * W32 + low, i) == ByteOf(low, i)
  {
    var p, q := Pow2(8 * i), Pow2(24 - 8 * i);
    Pow2Values();
    Pow2Small();
    Pow2Add(8, 24 - 8 * i);
    Pow2Add(8 * i, 32 - 8 * i);
    hide Pow2;
    DivMod(low, p);
    Shifted(high, low, p, q);
  }

  lemma Shifted(high: nat, low: nat, p: nat, q: nat)
    requires p > 0 && W32 == p * (0x100 * q)
    ensures (high * W32 + low) / p % 0x100 == low / p % 0x100
  {
    var r := low / p;
    DivMod(low, p);
    Assoc(high, 0x100 * q, p);
    AddMul(high * (0x100 * q), r, p);
    ModIs(high * W32 + low, high * (0x100 * q) + r, low % p, p);
    DivMod(r, 0x100);
    Assoc(high, q, 0x100);
    ModIs(high * (0x100 * q) + r, high * q + r / 0x100, r % 0x100, 0x100);
  }

  lemma HighByte(high: u32, low: u32, i: nat)
    requires i < 4
    ensures ByteOf(high * W32 + low, i + 4) == ByteOf(high, i)
  {
    var p := Pow2(8 * i);
    Pow2Values();
    Pow2Add(32, 8 * i);
    assert Pow2(8 * (i + 4)) == W32 * p;
    hide Pow2;
    WholeWord(high, low, p);
  }

  lemma WholeWord(high: nat, low: u32, p: nat)
    requires p > 0
    ensures W32 * p > 0 && (high * W32 + low) / (W32 * p) == high / p
  {
    var q, r := high / p, high % p;
    DivMod(high, p);
    ScaleDivision(q, p, r, W32);
    ScaledRemainder(r, p, W32);
    ModIs(high * W32 + low, q, r * W32 + low, W32 * p);
  }

  lemma PaddedIs(message: seq<u8>, z1: nat, z2: nat, high: u32, low: u32)
    requires z1 + z2 == PadCount(|message|) && high * W32 + low == |message| * 8 % W64
    requires LengthBytes(high * W32 + low) == WordBytes(low) + WordBytes(high)
    ensures var tail := WordBytes(low) + WordBytes(high);
            && Whole(message) + (Tail(message) + [0x80] + Zeros(z1)) + ([] + Zeros(z2) + tail) == Padded(message)
            && (z1 == 0 ==> Whole(message) + (Tail(message) + [0x80] + Zeros(z2) + tail) == Padded(message))
  {
    var tail := WordBytes(low) + WordBytes(high);
    PaddedParts(message, tail);
    hide PadCount, LengthBytes, WordBytes, Padded, Whole, Tail;
    assert Zeros(z1) + Zeros(z2) == Zeros(z1 + z2);
    Regroup(Whole(message), Tail(message), [0x80], Zeros(z1), Zeros(z2), tail);
  }

  lemma PaddedParts(message: seq<u8>, tail: seq<u8>)
    requires LengthBytes(|message| * 8 % W64) == tail
    ensures Padded(message) == Whole(message) + Tail(message) + [0x80] + Zeros(PadCount(|message|)) + tail
  {
    hide LengthBytes, PadCount;
  }

  lemma Regroup(w: seq<u8>, t: seq<u8>, o: seq<u8>, y: seq<u8>, z: seq<u8>, l: seq<u8>)
    ensures w + (t + o + y) + ([] + z + l) == w + t + o + (y + z) + l
    ensures y == [] ==> w + (t + o + z + l) == w + t + o + (y + z) + l
  {
  }

  lemma LoBound(hi: u32, lo: u32, n: nat)
    requires Counts(hi, lo, n)
    ensures lo < LO
  {
  }

  lemma UsedIs(hi: u32, lo: u32, n: nat)
    requires Counts(hi, lo, n)
    ensures lo % BLOCK == n % BLOCK
  {
    DivMod(n, W61);
    DivMod(lo, BLOCK);
    ModIs(n, n / W61 * 0x80_0000_0000_0000 + hi * 0x80_0000 + lo / BLOCK, lo % BLOCK, BLOCK);
  }

  /** New data that does not fill the buffer. */
  lemma Buffered(message: seq<u8>, data: seq<u8>)
    requires |message| % BLOCK + |data| < BLOCK
    ensures Whole(message + data) == Whole(message) && Tail(message + data) == Tail(message) + data
  {
    assert message + data == Whole(message) + (Tail(message) + data);
    SplitIs(message + data, Whole(message), Tail(message) + data);
  }

  lemma Extend(f: Compress, w: seq<u8>, x: seq<u8>)
    requires |w| % BLOCK == 0 && |x| % BLOCK == 0
    ensures |w + x| % BLOCK == 0 && Fold(f, INIT, w + x) == Fold(f, Fold(f, INIT, w), x)
  {
    FoldConcat(f, INIT, w, x);
  }
}
