/**
  The ChaCha20 stream cipher (petra/src/crypto/cipher/chacha20.rs), against
  sections 2.1 to 2.4 of RFC 8439.
*/
module ChaCha20 {
  import opened Words

  /** `rotate_left` by the exponent of `p`, where `p * q` is 2^32. */
  function Rotl(x: U32, p: nat, q: nat): U32
    requires (p, q) in [(0x1_0000, 0x1_0000), (0x1000, 0x10_0000), (0x100, 0x100_0000), (0x80, 0x200_0000)]
  {
    x % q * p + x / q
  }

  datatype Quad = Quad(a: U32, b: U32, c: U32, d: U32)

  /** Section 2.1 of RFC 8439. */
  function QuarterRound(x: Quad): Quad {
    var a1 := WrapAdd32(x.a, x.b);
    var d1 := Rotl(Xor32(x.d, a1), 0x1_0000, 0x1_0000);
    var c1 := WrapAdd32(x.c, d1);
    var b1 := Rotl(Xor32(x.b, c1), 0x1000, 0x10_0000);
    var a2 := WrapAdd32(a1, b1);
    var d2 := Rotl(Xor32(d1, a2), 0x100, 0x100_0000);
    var c2 := WrapAdd32(c1, d2);
    var b2 := Rotl(Xor32(b1, c2), 0x80, 0x200_0000);
    Quad(a2, b2, c2, d2)
  }

  function Rotr(y: U32, p: nat, q: nat): U32
    requires (p, q) in [(0x1_0000, 0x1_0000), (0x1000, 0x10_0000), (0x100, 0x100_0000), (0x80, 0x200_0000)]
  {
    y % p * q + y / p
  }

  lemma RotrRotl(x: U32, p: nat, q: nat)
    requires (p, q) in [(0x1_0000, 0x1_0000), (0x1000, 0x10_0000), (0x100, 0x100_0000), (0x80, 0x200_0000)]
    ensures Rotr(Rotl(x, p, q), p, q) == x
  {
    var lo, hi := x % q, x / q;
    if p == 0x1_0000 {
      ModUnique(lo * 0x1_0000 + hi, 0x1_0000, lo, hi);
    } else if p == 0x1000 {
      ModUnique(lo * 0x1000 + hi, 0x1000, lo, hi);
    } else if p == 0x100 {
      ModUnique(lo * 0x100 + hi, 0x100, lo, hi);
    } else {
      ModUnique(lo * 0x80 + hi, 0x80, lo, hi);
    }
  }

  function UndoQuarterRound(y: Quad): Quad {
    var b1 := Xor32(Rotr(y.b, 0x80, 0x200_0000), y.c);
    var c1 := WrapSub32(y.c, y.d);
    var d1 := Xor32(Rotr(y.d, 0x100, 0x100_0000), y.a);
    var a1 := WrapSub32(y.a, b1);
    var b := Xor32(Rotr(b1, 0x1000, 0x10_0000), c1);
    var c := WrapSub32(c1, d1);
    var d := Xor32(Rotr(d1, 0x1_0000, 0x1_0000), a1);
    Quad(WrapSub32(a1, b), b, c, d)
  }

  lemma AddSub(a: U32, b: U32)
    ensures WrapSub32(WrapAdd32(a, b), b) == a
  {}

  /** A quarter round loses nothing: no two states have the same image. */
  lemma QuarterRoundInvertible(x: Quad)
    ensures UndoQuarterRound(QuarterRound(x)) == x
  {
    var a1 := WrapAdd32(x.a, x.b);
    var d1 := Rotl(Xor32(x.d, a1), 0x1_0000, 0x1_0000);
    var c1 := WrapAdd32(x.c, d1);
    var b1 := Rotl(Xor32(x.b, c1), 0x1000, 0x10_0000);
    var a2 := WrapAdd32(a1, b1);
    var d2 := Rotl(Xor32(d1, a2), 0x100, 0x100_0000);
    var c2 := WrapAdd32(c1, d2);
    hide Rotl, Rotr, WrapAdd32, WrapSub32, Xor;
    AddSub(x.a, x.b);
    AddSub(x.c, d1);
    AddSub(a1, b1);
    AddSub(c1, d2);
    UnmixWord(x.d, a1, 0x1_0000, 0x1_0000);
    UnmixWord(x.b, c1, 0x1000, 0x10_0000);
    UnmixWord(d1, a2, 0x100, 0x100_0000);
    UnmixWord(b1, c2, 0x80, 0x200_0000);
  }

  lemma UnmixWord(w: U32, t: U32, p: nat, q: nat)
    requires (p, q) in [(0x1_0000, 0x1_0000), (0x1000, 0x10_0000), (0x100, 0x100_0000), (0x80, 0x200_0000)]
    ensures Xor32(Rotr(Rotl(Xor32(w, t), p, q), p, q), t) == w
  {
    hide Rotl, Rotr, Xor;
    RotrRotl(Xor32(w, t), p, q);
    XorSelfInverse(w, t);
  }

  // The state: a 4x4 matrix of words, row by row.

  /** One quarter round on the words at four indices, as the source writes it. */
  function At(s: seq<U32>, i: nat, j: nat, k: nat, l: nat): (t: seq<U32>)
    requires |s| == 16 && i < 16 && j < 16 && k < 16 && l < 16
    ensures |t| == 16
  {
    var q := QuarterRound(Quad(s[i], s[j], s[k], s[l]));
    s[i := q.a][j := q.b][k := q.c][l := q.d]
  }

  function DoubleRound(s: seq<U32>): (t: seq<U32>)
    requires |s| == 16
    ensures |t| == 16
  {
    var c := At(At(At(At(s, 0, 4, 8, 12), 1, 5, 9, 13), 2, 6, 10, 14), 3, 7, 11, 15);
    At(At(At(At(c, 0, 5, 10, 15), 1, 6, 11, 12), 2, 7, 8, 13), 3, 4, 9, 14)
  }

  function Component(q: Quad, row: nat): U32 {
    if row == 0 then q.a else if row == 1 then q.b else if row == 2 then q.c else q.d
  }

  /** A quarter round on each column of the matrix. */
  function ColumnRound(s: seq<U32>): (t: seq<U32>)
    requires |s| == 16
    ensures |t| == 16
  {
    seq(16, n requires 0 <= n < 16 =>
      Component(QuarterRound(Quad(s[n % 4], s[4 + n % 4], s[8 + n % 4], s[12 + n % 4])), n / 4))
  }

  /** Row `r` of the matrix rotated by `r` places, so that diagonals become columns. */
  function ShiftRows(s: seq<U32>): (t: seq<U32>)
    requires |s| == 16
    ensures |t| == 16
  {
    [s[0], s[1], s[2], s[3], s[5], s[6], s[7], s[4], s[10], s[11], s[8], s[9], s[15], s[12], s[13], s[14]]
  }

  function UnshiftRows(s: seq<U32>): (t: seq<U32>)
    requires |s| == 16
    ensures |t| == 16 && ShiftRows(t) == s
  {
    [s[0], s[1], s[2], s[3], s[7], s[4], s[5], s[6], s[10], s[11], s[8], s[9], s[13], s[14], s[15], s[12]]
  }

  lemma FourQuarters(s: seq<U32>)
    requires |s| == 16
    ensures At(At(At(At(s, 0, 4, 8, 12), 1, 5, 9, 13), 2, 6, 10, 14), 3, 7, 11, 15) == ColumnRound(s)
  {
    hide QuarterRound;
  }

  /** The eight index lists of the source are a column round and a round on the diagonals. */
  lemma DoubleRoundIsColumnsThenDiagonals(s: seq<U32>)
    requires |s| == 16
    ensures DoubleRound(s) == UnshiftRows(ColumnRound(ShiftRows(ColumnRound(s))))
  {
    hide QuarterRound;
    FourQuarters(s);
    var c := ColumnRound(s);
    FourQuarters(ShiftRows(c));
  }

  function Rounds(s: seq<U32>, n: nat): (t: seq<U32>)
    requires |s| == 16
    ensures |t| == 16
  {
    if n == 0 then s else DoubleRound(Rounds(s, n - 1))
  }

  const DOUBLE_ROUNDS: nat := 10

  /** Byte `i` of the block: of word `i / 4` of the rounds added to the initial state. */
  function BlockByte(s: seq<U32>, i: nat): Byte
    requires |s| == 16 && i < 64
  {
    ToLE(WrapAdd32(Rounds(s, DOUBLE_ROUNDS)[i / 4], s[i / 4]), 4)[i % 4]
  }

  const CONSTANTS: seq<U32> := [0x61707865, 0x3320646e, 0x79622d32, 0x6b206574]

  function Word(bytes: seq<Byte>, i: nat): U32
    requires 4 * i + 4 <= |bytes|
  {
    var w := bytes[4 * i..4 * i + 4];
    LE4(w);
    LE(w)
  }

  function InitialState(key: seq<Byte>, nonce: seq<Byte>, counter: U32): (s: seq<U32>)
    requires |key| == 32 && |nonce| == 12
    ensures |s| == 16
  {
    CONSTANTS + seq(8, i requires 0 <= i < 8 => Word(key, i)) + [counter]
    + seq(3, i requires 0 <= i < 3 => Word(nonce, i))
  }

  /** Byte `i` of the key stream that starts at block `counter`; the block counter wraps at 2^32. */
  function KeyStream(key: seq<Byte>, nonce: seq<Byte>, counter: U32, i: nat): Byte
    requires |key| == 32 && |nonce| == 12
  {
    BlockByte(InitialState(key, nonce, (counter + i / 64) % 0x1_0000_0000), i % 64)
  }

  /** Section 2.4 of RFC 8439: the data with the key stream, byte by byte. */
  function Crypt(key: seq<Byte>, nonce: seq<Byte>, counter: U32, data: seq<Byte>): (out: seq<Byte>)
    requires |key| == 32 && |nonce| == 12
    ensures |out| == |data|
  {
    seq(|data|, i requires 0 <= i < |data| => XorByte(data[i], KeyStream(key, nonce, counter, i)))
  }

  /** Decryption is encryption: for every length, across counter wrap-around. */
  lemma CryptInvolution(key: seq<Byte>, nonce: seq<Byte>, counter: U32, data: seq<Byte>)
    requires |key| == 32 && |nonce| == 12
    ensures Crypt(key, nonce, counter, Crypt(key, nonce, counter, data)) == data
  {
    hide Xor, KeyStream;
    var once := Crypt(key, nonce, counter, data);
    forall i | 0 <= i < |data|
      ensures Crypt(key, nonce, counter, once)[i] == data[i]
    {
      XorSelfInverse(data[i], KeyStream(key, nonce, counter, i));
    }
  }

  // The code.

  /** Three lines of the quarter round: `u += v; w ^= u; w = rotl(w)`. */
  method Mix(state: array<U32>, u: nat, v: nat, w: nat, p: nat, q: nat)
    requires state.Length == 16 && u < 16 && v < 16 && w < 16 && u != v && u != w && v != w
    requires (p, q) in [(0x1_0000, 0x1_0000), (0x1000, 0x10_0000), (0x100, 0x100_0000), (0x80, 0x200_0000)]
    modifies state
    ensures state[u] == WrapAdd32(old(state[u]), old(state[v]))
    ensures state[w] == Rotl(Xor32(old(state[w]), state[u]), p, q)
    ensures forall i :: 0 <= i < 16 && i != u && i != w ==> state[i] == old(state[i])
  {
    hide WrapAdd32, Xor32, Rotl;
    state[u] := WrapAdd32(state[u], state[v]);
    state[w] := Xor32(state[w], state[u]);
    state[w] := Rotl(state[w], p, q);
  }

  /** `quarter_round`, in place. */
  method QuarterRoundInPlace(state: array<U32>, a: nat, b: nat, c: nat, d: nat)
    requires state.Length == 16 && a < 16 && b < 16 && c < 16 && d < 16
    requires a != b && a != c && a != d && b != c && b != d && c != d
    modifies state
    ensures state[..] == At(old(state[..]), a, b, c, d)
  {
    hide WrapAdd32, Xor32, Rotl;
    Mix(state, a, b, d, 0x1_0000, 0x1_0000);
    Mix(state, c, d, b, 0x1000, 0x10_0000);
    Mix(state, a, b, d, 0x100, 0x100_0000);
    Mix(state, c, d, b, 0x80, 0x200_0000);
  }

  /** `chacha20_block`. */
  method Block(state: seq<U32>) returns (out: seq<Byte>)
    requires |state| == 16
    ensures |out| == 64
    ensures forall i :: 0 <= i < 64 ==> out[i] == BlockByte(state, i)
  {
    hide At, WrapAdd32, ToLE;
    var working := new U32[16](i requires 0 <= i < 16 => state[i]);
    assert working[..] == state;
    for n := 0 to DOUBLE_ROUNDS
      invariant working[..] == Rounds(state, n)
    {
      QuarterRoundInPlace(working, 0, 4, 8, 12);
      QuarterRoundInPlace(working, 1, 5, 9, 13);
      QuarterRoundInPlace(working, 2, 6, 10, 14);
      QuarterRoundInPlace(working, 3, 7, 11, 15);
      QuarterRoundInPlace(working, 0, 5, 10, 15);
      QuarterRoundInPlace(working, 1, 6, 11, 12);
      QuarterRoundInPlace(working, 2, 7, 8, 13);
      QuarterRoundInPlace(working, 3, 4, 9, 14);
    }
    out := [];
    for w := 0 to 16
      invariant |out| == 4 * w
      invariant forall i :: 0 <= i < 4 * w ==> out[i] == BlockByte(state, i)
    {
      out := out + ToLE(WrapAdd32(working[..][w], state[w]), 4);
    }
  }

  /** The state words are loaded by two loops, around the constants and the counter. */
  method LoadState(key: seq<Byte>, nonce: seq<Byte>, counter: U32) returns (s: seq<U32>)
    requires |key| == 32 && |nonce| == 12
    ensures s == InitialState(key, nonce, counter)
  {
    hide Word;
    var state := new U32[16](i => 0);
    state[0], state[1], state[2], state[3] := CONSTANTS[0], CONSTANTS[1], CONSTANTS[2], CONSTANTS[3];
    for i := 0 to 8
      invariant state[..4] == CONSTANTS
      invariant forall k :: 0 <= k < i ==> state[4 + k] == Word(key, k)
    {
      state[4 + i] := Word(key, i);
    }
    state[12] := counter;
    for i := 0 to 3
      invariant state[..4] == CONSTANTS && state[12] == counter
      invariant forall k :: 0 <= k < 8 ==> state[4 + k] == Word(key, k)
      invariant forall k :: 0 <= k < i ==> state[13 + k] == Word(nonce, k)
    {
      state[13 + i] := Word(nonce, i);
    }
    s := state[..];
  }

  /** One 64-byte chunk, or the shorter last one, XORed in place with its block. */
  method CryptChunk(data: array<Byte>, at: nat, n: nat, block: seq<Byte>)
    requires n <= 64 && at + n <= data.Length && |block| == 64
    modifies data
    ensures forall i :: 0 <= i < data.Length ==>
      data[i] == if at <= i < at + n then XorByte(old(data[i]), block[i - at]) else old(data[i])
  {
    hide XorByte;
    for j := 0 to n
      invariant forall i :: 0 <= i < data.Length ==>
        data[i] == if at <= i < at + j then XorByte(old(data[i]), block[i - at]) else old(data[i])
    {
      data[at + j] := XorByte(data[at + j], block[j]);
    }
  }

  lemma NextState(key: seq<Byte>, nonce: seq<Byte>, counter: U32, next: U32)
    requires |key| == 32 && |nonce| == 12
    ensures |InitialState(key, nonce, counter)| == 16
    ensures InitialState(key, nonce, counter)[12 := next] == InitialState(key, nonce, next)
  {
    hide Word;
  }

  /** The key stream of a chunk is the block of its counter. */
  lemma ChunkStream(key: seq<Byte>, nonce: seq<Byte>, counter: U32, at: nat, next: U32, i: nat)
    requires |key| == 32 && |nonce| == 12 && at % 64 == 0 && at <= i < at + 64
    requires next == (counter + at / 64) % 0x1_0000_0000
    ensures KeyStream(key, nonce, counter, i) == BlockByte(InitialState(key, nonce, next), i - at)
  {
    hide BlockByte, InitialState;
    assert i / 64 == at / 64 && i % 64 == i - at;
  }

  /** `chacha20_crypt`. */
  method CryptInPlace(key: seq<Byte>, nonce: seq<Byte>, counter: U32, data: array<Byte>)
    requires |key| == 32 && |nonce| == 12
    modifies data
    ensures data[..] == Crypt(key, nonce, counter, old(data[..]))
  {
    hide XorByte, BlockByte, KeyStream, InitialState;
    var state := LoadState(key, nonce, counter);
    var next := counter;
    var at := 0;
    while at < data.Length
      invariant 0 <= at <= data.Length
      invariant at < data.Length ==> at % 64 == 0 && next == (counter + at / 64) % 0x1_0000_0000
      invariant forall i :: 0 <= i < data.Length ==>
        data[i] == if i < at then XorByte(old(data[i]), KeyStream(key, nonce, counter, i)) else old(data[i])
    {
      NextState(key, nonce, counter, next);
      var block := Block(state[12 := next]);
      var n := if data.Length - at < 64 then data.Length - at else 64;
      forall i | at <= i < at + n
        ensures KeyStream(key, nonce, counter, i) == block[i - at]
      {
        ChunkStream(key, nonce, counter, at, next, i);
      }
      CryptChunk(data, at, n, block);
      next := WrapAdd32(next, 1);
      at := at + n;
    }
  }
}
