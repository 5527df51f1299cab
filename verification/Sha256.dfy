/**
  SHA-256 (petra/src/crypto/hash/sha256.rs), streaming, against sections 5.1.1
  and 6.2 of FIPS 180-4.
*/
module Sha256 {
  import opened Words

  const H_INIT: seq<U32> := [
    0x6a09e667, 0xbb67ae85, 0x3c6ef372, 0xa54ff53a, 0x510e527f, 0x9b05688c, 0x1f83d9ab, 0x5be0cd19
  ]

  const K: seq<U32> := [
    0x428a2f98, 0x71374491, 0xb5c0fbcf, 0xe9b5dba5, 0x3956c25b, 0x59f111f1, 0x923f82a4, 0xab1c5ed5,
    0xd807aa98, 0x12835b01, 0x243185be, 0x550c7dc3, 0x72be5d74, 0x80deb1fe, 0x9bdc06a7, 0xc19bf174,
    0xe49b69c1, 0xefbe4786, 0x0fc19dc6, 0x240ca1cc, 0x2de92c6f, 0x4a7484aa, 0x5cb0a9dc, 0x76f988da,
    0x983e5152, 0xa831c66d, 0xb00327c8, 0xbf597fc7, 0xc6e00bf3, 0xd5a79147, 0x06ca6351, 0x14292967,
    0x27b70a85, 0x2e1b2138, 0x4d2c6dfc, 0x53380d13, 0x650a7354, 0x766a0abb, 0x81c2c92e, 0x92722c85,
    0xa2bfe8a1, 0xa81a664b, 0xc24b8b70, 0xc76c51a3, 0xd192e819, 0xd6990624, 0xf40e3585, 0x106aa070,
    0x19a4c116, 0x1e376c08, 0x2748774c, 0x34b0bcb5, 0x391c0cb3, 0x4ed8aa4a, 0x5b9cca4f, 0x682e6ff3,
    0x748f82ee, 0x78a5636f, 0x84c87814, 0x8cc70208, 0x90befffa, 0xa4506ceb, 0xbef9a3f7, 0xc67178f2
  ]

  // Section 4.1.2: the functions on words.

  /** `(x >> n) | (x << (32 - n))`, for `p` = 2^n and `q` = 2^(32 - n). */
  function Rotr(x: U32, p: nat, q: nat): U32
    requires p > 0 && q > 0 && p * q == 0x1_0000_0000
  {
    RotrFits(x, p, q);
    x / p + x % p * q
  }

  lemma RotrFits(x: U32, p: nat, q: nat)
    requires p > 0 && q > 0 && p * q == 0x1_0000_0000
    ensures 0 <= x / p + x % p * q < 0x1_0000_0000
  {
    var hi, lo := x / p, x % p;
    assert x == p * hi + lo;
    MulAtLeast(p, hi - q + 1);
    assert p * (hi - q + 1) == p * hi - p * q + p;
    assert lo * q <= (p - 1) * q by { assert (p - 1 - lo) * q >= 0; assert (p - 1) * q == lo * q + (p - 1 - lo) * q; }
    assert (p - 1) * q == p * q - q;
    assert lo * q >= 0 && hi >= 0 by { DivNonneg(x, p); }
  }

  lemma DivNonneg(x: nat, p: nat)
    requires p > 0
    ensures x / p >= 0
  {
    var k := x / p;
    assert x == p * k + x % p;
    if k < 0 { MulAtLeast(p, k); }
  }

  function Ch(x: U32, y: U32, z: U32): U32 { Xor32(And32(x, y), And32(0xffff_ffff - x, z)) }

  function Maj(x: U32, y: U32, z: U32): U32 { Xor32(Xor32(And32(x, y), And32(x, z)), And32(y, z)) }

  function BigSigma0(x: U32): U32 {
    Xor32(Xor32(Rotr(x, 0x4, 0x4000_0000), Rotr(x, 0x2000, 0x8_0000)), Rotr(x, 0x40_0000, 0x400))
  }

  function BigSigma1(x: U32): U32 {
    Xor32(Xor32(Rotr(x, 0x40, 0x400_0000), Rotr(x, 0x800, 0x20_0000)), Rotr(x, 0x200_0000, 0x80))
  }

  function SmallSigma0(x: U32): U32 {
    Xor32(Xor32(Rotr(x, 0x80, 0x200_0000), Rotr(x, 0x4_0000, 0x4000)), x / 0x8)
  }

  function SmallSigma1(x: U32): U32 {
    Xor32(Xor32(Rotr(x, 0x2_0000, 0x8000), Rotr(x, 0x8_0000, 0x2000)), x / 0x400)
  }

  // Section 6.2.2: one block.

  function BigEndianWord(b: seq<Byte>, i: nat): U32
    requires 4 * i + 4 <= |b|
  {
    (b[4 * i] as int) * 0x100_0000 + (b[4 * i + 1] as int) * 0x1_0000
    + (b[4 * i + 2] as int) * 0x100 + b[4 * i + 3] as int
  }

  /** The message schedule. */
  function W(block: seq<Byte>, t: nat): U32
    requires |block| == 64
  {
    if t < 16 then BigEndianWord(block, t)
    else WrapAdd32(WrapAdd32(WrapAdd32(W(block, t - 16), SmallSigma0(W(block, t - 15))), W(block, t - 7)),
                   SmallSigma1(W(block, t - 2)))
  }

  datatype Regs = Regs(a: U32, b: U32, c: U32, d: U32, e: U32, f: U32, g: U32, h: U32)

  function Round(s: Regs, k: U32, w: U32): Regs {
    var t1 := WrapAdd32(WrapAdd32(WrapAdd32(WrapAdd32(s.h, BigSigma1(s.e)), Ch(s.e, s.f, s.g)), k), w);
    var t2 := WrapAdd32(BigSigma0(s.a), Maj(s.a, s.b, s.c));
    Regs(WrapAdd32(t1, t2), s.a, s.b, s.c, WrapAdd32(s.d, t1), s.e, s.f, s.g)
  }

  function Rounds(s: Regs, block: seq<Byte>, n: nat): Regs
    requires |block| == 64 && n <= |K|
  {
    if n == 0 then s else Round(Rounds(s, block, n - 1), K[n - 1], W(block, n - 1))
  }

  function Load(h: seq<U32>): Regs
    requires |h| == 8
  {
    Regs(h[0], h[1], h[2], h[3], h[4], h[5], h[6], h[7])
  }

  function Compress(h: seq<U32>, block: seq<Byte>): (r: seq<U32>)
    requires |h| == 8 && |block| == 64
    ensures |r| == 8
  {
    var s := Rounds(Load(h), block, |K|);
    [WrapAdd32(h[0], s.a), WrapAdd32(h[1], s.b), WrapAdd32(h[2], s.c), WrapAdd32(h[3], s.d),
     WrapAdd32(h[4], s.e), WrapAdd32(h[5], s.f), WrapAdd32(h[6], s.g), WrapAdd32(h[7], s.h)]
  }

  // Section 5.1.1 and the whole message.

  function ToBE(x: nat, n: nat): (s: seq<Byte>)
    ensures |s| == n
  {
    if n == 0 then [] else ToBE(x / 0x100, n - 1) + [x % 0x100]
  }

  /** How many zero bytes follow the byte 0x80 of an `n`-byte message. */
  function PadZeros(n: nat): nat { (119 - n % 64) % 64 }

  /** A one bit, the fewest zeros that leave room for eight bytes in the last block, and the length in bits. */
  function Padded(m: seq<Byte>): seq<Byte> {
    m + [0x80] + Zeros(PadZeros(|m|)) + ToBE(8 * |m|, 8)
  }

  lemma PaddingIsLeast(m: seq<Byte>, k: nat)
    ensures |Padded(m)| % 64 == 0
    ensures (|m| + 1 + k) % 64 == 56 ==> PadZeros(|m|) <= k
  {
    hide ToBE;
    var n := |m|;
    assert n == 64 * (n / 64) + n % 64;
    assert PadZeros(n) == if n % 64 <= 55 then 55 - n % 64 else 119 - n % 64;
  }

  /** All whole blocks of a message, in order. */
  function Blocks(h: seq<U32>, m: seq<Byte>): (r: seq<U32>)
    requires |h| == 8
    ensures |r| == 8
    decreases |m|
  {
    if |m| < 64 then h else Blocks(Compress(h, m[..64]), m[64..])
  }

  function Words8(h: seq<U32>): seq<Byte>
    requires |h| == 8
  {
    ToBE(h[0], 4) + ToBE(h[1], 4) + ToBE(h[2], 4) + ToBE(h[3], 4)
    + ToBE(h[4], 4) + ToBE(h[5], 4) + ToBE(h[6], 4) + ToBE(h[7], 4)
  }

  function Digest(m: seq<Byte>): seq<Byte> { Words8(Blocks(H_INIT, Padded(m))) }

  lemma {:induction false} BlocksAppend(h: seq<U32>, a: seq<Byte>, b: seq<Byte>)
    requires |h| == 8 && |a| % 64 == 0
    ensures Blocks(h, a + b) == Blocks(Blocks(h, a), b)
    decreases |a|
  {
    hide Compress;
    if a == [] {
      assert a + b == b;
    } else {
      assert (a + b)[..64] == a[..64] && (a + b)[64..] == a[64..] + b;
      BlocksAppend(Compress(h, a[..64]), a[64..], b);
    }
  }

  lemma OneBlock(h: seq<U32>, b: seq<Byte>)
    requires |h| == 8 && |b| == 64
    ensures Blocks(h, b) == Compress(h, b)
  {
    hide Compress;
    assert b[..64] == b && b[64..] == [];
  }

  /** The length bytes depend on the length modulo 2^64 only. */
  lemma {:induction false} ToBELow(x: nat, n: nat)
    ensures ToBE(x % Pow256(n), n) == ToBE(x, n)
    decreases n
  {
    if n > 0 {
      var q := Pow256(n - 1);
      ToBELow(x / 0x100, n - 1);
      var d, r := x / 0x100 / q, x / 0x100 % q;
      assert x / 0x100 == q * d + r;
      MulAssoc(0x100, q, d);
      ModUnique(x, 0x100 * q, d, x % 0x100 + 0x100 * r);
      ModUnique(x % (0x100 * q), 0x100, r, x % 0x100);
    }
  }

  lemma LengthBytes(n: nat)
    ensures ToBE(n % 0x1_0000_0000_0000_0000 * 8 % 0x1_0000_0000_0000_0000, 8) == ToBE(8 * n, 8)
  {
    hide ToBE, Pow256;
    Pow256Values();
    var w := 0x1_0000_0000_0000_0000;
    ToBELow(n % w * 8, 8);
    ToBELow(8 * n, 8);
    assert 8 * n == n % w * 8 + w * (8 * (n / w));
    ModUnique(8 * n, w, n % w * 8 / w + 8 * (n / w), n % w * 8 % w);
  }

  lemma PadInPlace(done: seq<Byte>, tail: seq<Byte>, z: seq<Byte>, len: seq<Byte>)
    ensures done + (tail + [0x80] + z + len) == done + tail + [0x80] + z + len
  {}

  lemma PadOver(done: seq<Byte>, tail: seq<Byte>, y: seq<Byte>, z: seq<Byte>, len: seq<Byte>)
    ensures done + (tail + [0x80] + y) + (z + len) == done + tail + [0x80] + (y + z) + len
  {}

  /** The padding, when it fits the block that is under way... */
  lemma PaddingFits(done: seq<Byte>, tail: seq<Byte>, len: seq<Byte>)
    requires |done| % 64 == 0 && |tail| < 56 && len == ToBE(8 * |done + tail|, 8)
    ensures done + (tail + [0x80] + Zeros(55 - |tail|) + len) == Padded(done + tail)
  {
    hide ToBE, Zeros;
    PadInPlace(done, tail, Zeros(55 - |tail|), len);
    PadCount(|done|, |tail|);
  }

  /** ... and when it needs one more. */
  lemma PaddingSpills(done: seq<Byte>, tail: seq<Byte>, len: seq<Byte>)
    requires |done| % 64 == 0 && 56 <= |tail| < 64 && len == ToBE(8 * |done + tail|, 8)
    ensures done + (tail + [0x80] + Zeros(63 - |tail|)) + (Zeros(56) + len) == Padded(done + tail)
  {
    ZerosAppend(63 - |tail|, 56);
    hide ToBE, Zeros;
    PadOver(done, tail, Zeros(63 - |tail|), Zeros(56), len);
    PadCount(|done|, |tail|);
  }

  lemma PadCount(d: nat, n: nat)
    requires d % 64 == 0 && n < 64
    ensures PadZeros(d + n) == if n < 56 then 55 - n else 119 - n
  {}

  lemma ZerosAppend(a: nat, b: nat)
    ensures Zeros(a) + Zeros(b) == Zeros(a + b)
  {}

  lemma LengthAdds(a: nat, b: nat)
    ensures WrapAdd64(a % 0x1_0000_0000_0000_0000, b % 0x1_0000_0000_0000_0000) == (a + b) % 0x1_0000_0000_0000_0000
  {}

  // The code.

  /** The first half of `sha256_compress`: the schedule in an array. */
  method Schedule(block: seq<Byte>) returns (w: array<U32>)
    requires |block| == 64
    ensures fresh(w) && w.Length == 64
    ensures forall k :: 0 <= k < 64 ==> w[k] == W(block, k)
  {
    hide WrapAdd32, BigEndianWord, SmallSigma0, SmallSigma1;
    w := new U32[64](i => 0);
    for i := 0 to 16
      invariant forall k :: 0 <= k < i ==> w[k] == W(block, k)
    {
      w[i] := BigEndianWord(block, i);
    }
    for i := 16 to 64
      invariant forall k :: 0 <= k < i ==> w[k] == W(block, k)
    {
      var s0 := SmallSigma0(w[i - 15]);
      var s1 := SmallSigma1(w[i - 2]);
      w[i] := WrapAdd32(WrapAdd32(WrapAdd32(w[i - 16], s0), w[i - 7]), s1);
    }
  }

  /** `sha256_compress`. */
  method CompressInPlace(h: array<U32>, block: seq<Byte>)
    requires h.Length == 8 && |block| == 64
    modifies h
    ensures h[..] == Compress(old(h[..]), block)
  {
    hide Compress, W;
    var w := Schedule(block);
    RunRounds(h, block, w);
  }

  /** The second half: the eight registers rotated in place, 64 times. */
  method RunRounds(h: array<U32>, block: seq<Byte>, w: array<U32>)
    requires h.Length == 8 && |block| == 64 && w.Length == 64 && h != w
    requires forall k :: 0 <= k < 64 ==> w[k] == W(block, k)
    modifies h
    ensures h[..] == Compress(old(h[..]), block)
  {
    hide WrapAdd32, BigSigma0, BigSigma1, Ch, Maj, W;
    var a, b, c, d, e, f, g, hh := h[0], h[1], h[2], h[3], h[4], h[5], h[6], h[7];
    for i := 0 to 64
      invariant Regs(a, b, c, d, e, f, g, hh) == Rounds(Load(h[..]), block, i)
    {
      var t1 := WrapAdd32(WrapAdd32(WrapAdd32(WrapAdd32(hh, BigSigma1(e)), Ch(e, f, g)), K[i]), w[i]);
      var t2 := WrapAdd32(BigSigma0(a), Maj(a, b, c));
      hh := g;
      g := f;
      f := e;
      e := WrapAdd32(d, t1);
      d := c;
      c := b;
      b := a;
      a := WrapAdd32(t1, t2);
    }
    h[0], h[1], h[2], h[3] := WrapAdd32(h[0], a), WrapAdd32(h[1], b), WrapAdd32(h[2], c), WrapAdd32(h[3], d);
    h[4], h[5], h[6], h[7] := WrapAdd32(h[4], e), WrapAdd32(h[5], f), WrapAdd32(h[6], g), WrapAdd32(h[7], hh);
  }

  /** A streaming hasher. `fed` records what it was given. */
  class Hasher {
    const state: array<U32>
    const buffer: array<Byte>
    var bufLen: nat
    var totalLen: U64
    ghost var fed: seq<Byte>

    ghost predicate Valid()
      reads this, state, buffer
    {
      && state.Length == 8 && buffer.Length == 64 && bufLen < 64 && bufLen <= |fed|
      && (|fed| - bufLen) % 64 == 0
      && totalLen == |fed| % 0x1_0000_0000_0000_0000
      && state[..] == Blocks(H_INIT, fed[..|fed| - bufLen])
      && buffer[..bufLen] == fed[|fed| - bufLen..]
    }

    constructor ()
      ensures Valid() && fresh(state) && fresh(buffer) && fed == []
    {
      state := new U32[8](i requires 0 <= i < 8 => H_INIT[i]);
      buffer := new Byte[64](i => 0);
      bufLen, totalLen, fed := 0, 0, [];
      new;
      assert state[..] == H_INIT;
    }

    /** Copies into the buffer from index `bufLen` on. */
    method Fill(bytes: seq<Byte>)
      requires buffer.Length == 64 && bufLen + |bytes| <= 64
      modifies this`bufLen, buffer
      ensures bufLen == old(bufLen) + |bytes|
      ensures buffer[..bufLen] == old(buffer[..bufLen]) + bytes
    {
      var start := bufLen;
      for i := 0 to |bytes|
        invariant buffer[..start + i] == old(buffer[..bufLen]) + bytes[..i]
        modifies buffer
      {
        buffer[start + i] := bytes[i];
      }
      bufLen := start + |bytes|;
    }

    /** Compresses the full buffer, which follows the bytes `done`. */
    method CompressBuffer(ghost done: seq<Byte>)
      requires state.Length == 8 && buffer.Length == 64 && |done| % 64 == 0
      requires state[..] == Blocks(H_INIT, done)
      modifies state
      ensures state[..] == Blocks(H_INIT, done + buffer[..])
    {
      hide Compress, Blocks;
      CompressInPlace(state, buffer[..]);
      OneBlock(Blocks(H_INIT, done), buffer[..]);
      BlocksAppend(H_INIT, done, buffer[..]);
    }

    /** The bytes absorbed so far are `done`, then the buffer; `rest` is still to come. */
    ghost predicate Midway(done: seq<Byte>, rest: seq<Byte>)
      reads this, state, buffer
    {
      && state.Length == 8 && buffer.Length == 64 && bufLen < 64 && |done| % 64 == 0
      && state[..] == Blocks(H_INIT, done)
      && fed == done + buffer[..bufLen] + rest
    }

    /** One turn of the loop of `update`: fill the buffer as far as possible, compress it when it is full. */
    method Turn(rest: seq<Byte>, ghost done: seq<Byte>) returns (rest': seq<Byte>, ghost done': seq<Byte>)
      requires rest != [] && Midway(done, rest)
      modifies this`bufLen, state, buffer
      ensures Midway(done', rest') && |rest'| < |rest|
    {
      hide Compress, Blocks;
      var n := if |rest| < 64 - bufLen then |rest| else 64 - bufLen;
      Fill(rest[..n]);
      rest', done' := rest[n..], done;
      assert fed == done + buffer[..bufLen] + rest';
      if bufLen == 64 {
        CompressBuffer(done);
        done' := done + buffer[..];
        bufLen := 0;
        assert buffer[..0] == [] && buffer[..64] == buffer[..];
      }
    }

    method Drain(data: seq<Byte>, ghost done: seq<Byte>) returns (ghost done': seq<Byte>)
      requires Midway(done, data)
      modifies this`bufLen, state, buffer
      ensures Midway(done', [])
    {
      hide Midway;
      var rest := data;
      done' := done;
      while rest != []
        invariant Midway(done', rest)
        decreases |rest|
      {
        rest, done' := Turn(rest, done');
      }
    }

    method Update(data: seq<Byte>)
      requires Valid()
      modifies this, state, buffer
      ensures Valid() && fed == old(fed) + data
    {
      hide Compress, Blocks, WrapAdd64;
      LengthAdds(|fed|, |data|);
      totalLen := WrapAdd64(totalLen, |data| % 0x1_0000_0000_0000_0000);
      ghost var done := fed[..|fed| - bufLen];
      assert fed == done + buffer[..bufLen];
      fed := fed + data;
      done := Drain(data, done);
      assert fed[..|fed| - bufLen] == done && fed[|fed| - bufLen..] == buffer[..bufLen];
    }

    /** Zeros from index `bufLen` up to `end`. */
    method ZeroTo(end: nat)
      requires buffer.Length == 64 && bufLen <= end <= 64
      modifies buffer
      ensures buffer[..end] == old(buffer[..bufLen]) + Zeros(end - bufLen)
    {
      for i := bufLen to end
        invariant buffer[..i] == old(buffer[..bufLen]) + Zeros(i - bufLen)
      {
        buffer[i] := 0;
      }
    }

    /** The end of the last block: zeros, then the length. */
    method CloseBlock(bitLen: U64, ghost done: seq<Byte>)
      requires state.Length == 8 && buffer.Length == 64 && bufLen <= 56 && |done| % 64 == 0
      requires state[..] == Blocks(H_INIT, done)
      modifies this`bufLen, state, buffer
      ensures state[..] == Blocks(H_INIT, done + (old(buffer[..bufLen]) + Zeros(56 - old(bufLen)) + ToBE(bitLen, 8)))
    {
      hide Compress, Blocks, ToBE;
      ghost var head := buffer[..bufLen];
      ZeroTo(56);
      bufLen := 56;
      Fill(ToBE(bitLen, 8));
      assert buffer[..] == head + Zeros(56 - |head|) + ToBE(bitLen, 8);
      CompressBuffer(done);
    }

    /** A block that has no room for the length: zeros to its end. */
    method SpillBlock(ghost done: seq<Byte>)
      requires state.Length == 8 && buffer.Length == 64 && bufLen <= 64 && |done| % 64 == 0
      requires state[..] == Blocks(H_INIT, done)
      modifies this`bufLen, state, buffer
      ensures bufLen == 0
      ensures state[..] == Blocks(H_INIT, done + (old(buffer[..bufLen]) + Zeros(64 - old(bufLen))))
    {
      hide Compress, Blocks;
      ghost var head := buffer[..bufLen];
      ZeroTo(64);
      assert buffer[..] == head + Zeros(64 - |head|);
      CompressBuffer(done);
      bufLen := 0;
    }

    /** The padding after the byte 0x80, in this block or in one more. */
    method Pad(bitLen: U64, ghost done: seq<Byte>, ghost tail: seq<Byte>)
      requires state.Length == 8 && buffer.Length == 64 && |done| % 64 == 0 && |tail| < 64
      requires bufLen == |tail| + 1 && buffer[..bufLen] == tail + [0x80]
      requires state[..] == Blocks(H_INIT, done) && ToBE(bitLen, 8) == ToBE(8 * |done + tail|, 8)
      modifies this`bufLen, state, buffer
      ensures state[..] == Blocks(H_INIT, Padded(done + tail))
    {
      hide Compress, Blocks, ToBE, Padded, Zeros;
      ghost var len := ToBE(bitLen, 8);
      if bufLen > 56 {
        PaddingSpills(done, tail, len);
        SpillBlock(done);
        assert buffer[..0] + Zeros(56) == Zeros(56);
        CloseBlock(bitLen, done + (tail + [0x80] + Zeros(63 - |tail|)));
      } else {
        PaddingFits(done, tail, len);
        CloseBlock(bitLen, done);
      }
    }

    /** `finalize` consumes the hasher. */
    method Finalize() returns (out: seq<Byte>)
      requires Valid()
      modifies this, state, buffer
      ensures out == Digest(old(fed))
    {
      hide Compress, Blocks, ToBE, Words8, Padded;
      ghost var done, tail := fed[..|fed| - bufLen], fed[|fed| - bufLen..];
      assert fed == done + tail;
      var bitLen := totalLen * 8 % 0x1_0000_0000_0000_0000;
      LengthBytes(|fed|);
      buffer[bufLen] := 0x80;
      bufLen := bufLen + 1;
      assert buffer[..bufLen] == tail + [0x80];
      Pad(bitLen, done, tail);
      out := Words8(state[..]);
    }
  }

  method FeedAll(h: Hasher, chunks: seq<seq<Byte>>)
    requires h.Valid() && h.fed == []
    modifies h, h.state, h.buffer
    ensures h.Valid() && h.fed == Concat(chunks)
  {
    hide Hasher.Valid;
    for i := 0 to |chunks|
      invariant h.Valid() && h.fed == Concat(chunks[..i])
    {
      assert chunks[..i + 1][..i] == chunks[..i];
      h.Update(chunks[i]);
    }
    assert chunks[..|chunks|] == chunks;
  }

  /** `new`, any number of `update`s, `finalize`: only the concatenation of the chunks matters. */
  method DigestOfChunks(chunks: seq<seq<Byte>>) returns (out: seq<Byte>)
    ensures out == Digest(Concat(chunks))
  {
    hide Digest, Hasher.Valid, Concat;
    var h := new Hasher();
    FeedAll(h, chunks);
    out := h.Finalize();
  }
}
