/**
  The Poly1305 one-time authenticator (petra/src/crypto/cipher/poly1305.rs),
  against section 2.5 of RFC 8439.
*/
module Poly1305Mac {
  import opened Words
  import opened PolyLimbs

  // The specification, over unbounded integers.

  const TWO128: nat := 0x1_0000_0000_0000_0000_0000_0000_0000_0000

  /** One chunk: its bytes and a one bit beyond them are added, then multiplied by `r`. */
  function Absorb(acc: nat, chunk: nat, r: nat): nat {
    ((acc + chunk) * r) % P
  }

  function Horner(acc: nat, r: nat, msg: seq<Byte>): nat
    decreases |msg|
  {
    if msg == [] then acc
    else
      var n := if |msg| < 16 then |msg| else 16;
      Horner(Absorb(acc, LE(msg[..n] + [1]), r), r, msg[n..])
  }

  /** The top four bits of bytes 3, 7, 11 and 15 and the low two of bytes 4, 8 and 12 are cleared. */
  function Clamp(k: seq<Byte>): (c: seq<Byte>)
    requires |k| == 16
    ensures |c| == 16
  {
    k[3 := k[3] % 16][7 := k[7] % 16][11 := k[11] % 16][15 := k[15] % 16]
     [4 := k[4] / 4 * 4][8 := k[8] / 4 * 4][12 := k[12] / 4 * 4]
  }

  function Mac(key: seq<Byte>, msg: seq<Byte>): seq<Byte>
    requires |key| == 32
  {
    ToLE((Horner(0, LE(Clamp(key[..16])), msg) + LE(key[16..])) % TWO128, 16)
  }

  /** Whole chunks may be absorbed first. */
  lemma {:induction false} HornerAppend(acc: nat, r: nat, a: seq<Byte>, b: seq<Byte>)
    requires |a| % 16 == 0
    ensures Horner(acc, r, a + b) == Horner(Horner(acc, r, a), r, b)
    decreases |a|
  {
    if a == [] {
      assert a + b == b;
    } else {
      HornerAppend(Absorb(acc, LE(a[..16] + [1]), r), r, a[16..], b);
      assert (a + b)[..16] == a[..16] && (a + b)[16..] == a[16..] + b;
    }
  }

  // Loading bytes into limbs.

  /** `u8to32_le` on four bytes from `i`. */
  method LoadWord(m: seq<Byte>, i: nat) returns (w: U32)
    requires i + 4 <= |m|
    ensures w == m[i] as int + 0x100 * (m[i + 1] as int) + 0x1_0000 * (m[i + 2] as int) + 0x100_0000 * (m[i + 3] as int)
  {
    var s := m[i..i + 4];
    LE4(s);
    w := LE(s);
  }

  /** Five overlapping words of 16 bytes, shifted: the limbs of their little-endian number. */
  method LoadLimbs(m: seq<Byte>) returns (t0: U32, t1: U32, t2: U32, t3: U32, t4: U32)
    requires |m| == 16
    ensures t4 < 0x100_0000
    ensures Value26(t0 % 0x400_0000, t1 % 0x400_0000, t2 % 0x400_0000, t3 % 0x400_0000, t4) == LE(m)
  {
    hide LE, Value26, Value32;
    t0 := LoadWord(m, 0);
    var w1 := LoadWord(m, 3);
    t1 := w1 / 4;
    var w2 := LoadWord(m, 6);
    t2 := w2 / 16;
    var w3 := LoadWord(m, 9);
    t3 := w3 / 64;
    var w4 := LoadWord(m, 12);
    t4 := w4 / 256;
    LEBytes(m);
    LimbBytes(m[0], m[1], m[2], m[3], m[4], m[5], m[6], m[7], m[8], m[9], m[10], m[11], m[12], m[13], m[14], m[15],
              t0, w1, w2, w3, w4);
  }

  lemma LEBytes(m: seq<Byte>)
    requires |m| == 16
    ensures LE(m) == Value32(
      m[0] as int + 0x100 * (m[1] as int) + 0x1_0000 * (m[2] as int) + 0x100_0000 * (m[3] as int),
      m[4] as int + 0x100 * (m[5] as int) + 0x1_0000 * (m[6] as int) + 0x100_0000 * (m[7] as int),
      m[8] as int + 0x100 * (m[9] as int) + 0x1_0000 * (m[10] as int) + 0x100_0000 * (m[11] as int),
      m[12] as int + 0x100 * (m[13] as int) + 0x1_0000 * (m[14] as int) + 0x100_0000 * (m[15] as int))
  {
    LE16(m);
    LE4(m[..4]);
    LE4(m[4..8]);
    LE4(m[8..12]);
    LE4(m[12..]);
  }

  lemma LimbBytes(b0: int, b1: int, b2: int, b3: int, b4: int, b5: int, b6: int, b7: int,
                  b8: int, b9: int, b10: int, b11: int, b12: int, b13: int, b14: int, b15: int,
                  w0: nat, w1: nat, w2: nat, w3: nat, w4: nat)
    requires 0 <= b0 < 256 && 0 <= b1 < 256 && 0 <= b2 < 256 && 0 <= b3 < 256
    requires 0 <= b4 < 256 && 0 <= b5 < 256 && 0 <= b6 < 256 && 0 <= b7 < 256
    requires 0 <= b8 < 256 && 0 <= b9 < 256 && 0 <= b10 < 256 && 0 <= b11 < 256
    requires 0 <= b12 < 256 && 0 <= b13 < 256 && 0 <= b14 < 256 && 0 <= b15 < 256
    requires w0 == b0 + 0x100 * b1 + 0x1_0000 * b2 + 0x100_0000 * b3
    requires w1 == b3 + 0x100 * b4 + 0x1_0000 * b5 + 0x100_0000 * b6
    requires w2 == b6 + 0x100 * b7 + 0x1_0000 * b8 + 0x100_0000 * b9
    requires w3 == b9 + 0x100 * b10 + 0x1_0000 * b11 + 0x100_0000 * b12
    requires w4 == b12 + 0x100 * b13 + 0x1_0000 * b14 + 0x100_0000 * b15
    ensures Value26(w0 % 0x400_0000, w1 / 4 % 0x400_0000, w2 / 16 % 0x400_0000, w3 / 64 % 0x400_0000, w4 / 256)
         == Value32(w0, b4 + 0x100 * b5 + 0x1_0000 * b6 + 0x100_0000 * b7,
                    b8 + 0x100 * b9 + 0x1_0000 * b10 + 0x100_0000 * b11, w4)
  {
    ModUnique(w0, 0x400_0000, b3 / 4, b0 + 0x100 * b1 + 0x1_0000 * b2 + 0x100_0000 * (b3 % 4));
    ModUnique(w1, 4, b3 / 4 + 0x40 * b4 + 0x4000 * b5 + 0x40_0000 * b6, b3 % 4);
    ModUnique(w1 / 4, 0x400_0000, b6 / 16, b3 / 4 + 0x40 * b4 + 0x4000 * b5 + 0x40_0000 * (b6 % 16));
    ModUnique(w2, 16, b6 / 16 + 0x10 * b7 + 0x1000 * b8 + 0x10_0000 * b9, b6 % 16);
    ModUnique(w2 / 16, 0x400_0000, b9 / 64, b6 / 16 + 0x10 * b7 + 0x1000 * b8 + 0x10_0000 * (b9 % 64));
    ModUnique(w3, 64, b9 / 64 + 0x4 * b10 + 0x400 * b11 + 0x4_0000 * b12, b9 % 64);
    ModUnique(w3 / 64, 0x400_0000, 0, b9 / 64 + 0x4 * b10 + 0x400 * b11 + 0x4_0000 * b12);
    ModUnique(w4, 256, b13 + 0x100 * b14 + 0x1_0000 * b15, b12);
  }

  /** `x & 0x3ffffff`. */
  method Low26(x: U32) returns (r: U32)
    ensures r == x % 0x400_0000
  {
    ghost var k := Log2(0x400_0000);
    AndLowMask(k, 0x400_0000, x);
    r := And(x, 0x3ff_ffff);
  }

  /** `t | hibit` for a 24-bit `t`. */
  method SetHigh(t: U32, hibit: U32) returns (r: U32)
    requires t < 0x100_0000
    requires hibit == 0 || hibit == 0x100_0000
    ensures r == t + hibit
  {
    ghost var k := Log2(0x100_0000);
    OrDisjoint(k, 0x100_0000, t, hibit / 0x100_0000);
    r := Or(t, hibit);
  }

  /** The `wrapping_add` of a limb does not wrap. */
  method AddLimb(h: U32, m: U32) returns (r: U32)
    requires h < 0x400_0040 && m < 0x400_0000
    ensures r == h + m
  {
    r := WrapAdd32(h, m);
  }

  /** The accumulator plus one block, whose bit 128 is `hibit` in the top limb. */
  method AddBlock(h: Limbs, m: seq<Byte>, hibit: U32) returns (a: Limbs)
    requires h.Reduced() && |m| == 16
    requires hibit == 0 || hibit == 0x100_0000
    ensures a.Loose()
    ensures a.Value() == h.Value() + LE(m) + (if hibit == 0 then 0 else TWO128)
  {
    var t0, t1, t2, t3, t4 := LoadLimbs(m);
    var m0 := Low26(t0);
    var m1 := Low26(t1);
    var m2 := Low26(t2);
    var m3 := Low26(t3);
    var m4 := SetHigh(t4, hibit);
    var a0 := AddLimb(h.l0, m0);
    var a1 := AddLimb(h.l1, m1);
    var a2 := AddLimb(h.l2, m2);
    var a3 := AddLimb(h.l3, m3);
    var a4 := AddLimb(h.l4, m4);
    a := Limbs(a0, a1, a2, a3, a4);
  }

  /** `x & mask` for the mask of ones below `a`, a gap up to `p`, and ones up to `p * b`. */
  method Mask(x: U32, mask: U32, a: nat, p: nat, b: nat, ghost lo: nat, ghost hi: nat) returns (r: nat)
    requires a in [4, 0x100, 0x4000, 0x10_0000, 0x400_0000] && p in [0x100, 0x4000, 0x10_0000, 0x400_0000]
    requires b in [1, 0x40, 0x1000, 0x4_0000]
    requires a <= p && mask == a - 1 + p * (b - 1)
    requires x == lo + p * hi && lo < p
    ensures r == lo % a + p * (hi % b)
  {
    ghost var i := Log2(a);
    ghost var k := Log2(p);
    ghost var j := Log2(b);
    AndSplit(k, p, lo, hi, a - 1, b - 1);
    AndLowMask(i, a, lo);
    AndLowMask(j, b, hi);
    r := And(x, mask);
  }

  /** The clamped key, limb by limb. */
  method LoadKey(k: seq<Byte>) returns (r: Limbs)
    requires |k| == 16
    ensures r.Tight()
    ensures r.Value() == LE(Clamp(k))
  {
    var r0 := LoadKey0(k);
    var r1 := LoadKey1(k);
    var r2 := LoadKey2(k);
    var r3 := LoadKey3(k);
    var r4 := LoadKey4(k);
    ClampedValue(k, r0, r1, r2, r3, r4);
    r := Limbs(r0, r1, r2, r3, r4);
  }

  method LoadKey0(k: seq<Byte>) returns (r: nat)
    requires |k| == 16
    ensures r == k[0] as int + 0x100 * (k[1] as int) + 0x1_0000 * (k[2] as int) + 0x100_0000 * (k[3] as int % 16 % 4)
  {
    var w := LoadWord(k, 0);
    r := Mask(w, 0x3ff_ffff, 0x400_0000, 0x400_0000, 1, w % 0x400_0000, w / 0x400_0000);
    KeyLimb0(k[0], k[1], k[2], k[3], w);
  }

  method LoadKey4(k: seq<Byte>) returns (r: nat)
    requires |k| == 16
    ensures r == k[13] as int + 0x100 * (k[14] as int) + 0x1_0000 * (k[15] as int % 16)
  {
    var w := LoadWord(k, 12);
    var x := w / 256;
    r := Mask(x, 0xf_ffff, 0x10_0000, 0x10_0000, 1, x % 0x10_0000, x / 0x10_0000);
    KeyLimb4(k[12], k[13], k[14], k[15], w);
  }

  method LoadKey1(k: seq<Byte>) returns (r: nat)
    requires |k| == 16
    ensures r == k[3] as int % 16 / 4 + 0x40 * (k[4] as int / 4 * 4)
             + 0x4000 * (k[5] as int) + 0x40_0000 * (k[6] as int % 16)
  {
    var w := LoadWord(k, 3);
    var x := w / 4;
    r := Mask(x, 0x3ff_ff03, 4, 0x100, 0x4_0000, x % 0x100, x / 0x100);
    KeyLimb1(k[3], k[4], k[5], k[6], w);
  }

  method LoadKey2(k: seq<Byte>) returns (r: nat)
    requires |k| == 16
    ensures r == k[6] as int / 16 + 0x10 * (k[7] as int % 16)
             + 0x1000 * (k[8] as int / 4 * 4) + 0x10_0000 * (k[9] as int % 64)
  {
    var w := LoadWord(k, 6);
    var x := w / 16;
    r := Mask(x, 0x3ff_c0ff, 0x100, 0x4000, 0x1000, x % 0x4000, x / 0x4000);
    KeyLimb2(k[6], k[7], k[8], k[9], w);
  }

  method LoadKey3(k: seq<Byte>) returns (r: nat)
    requires |k| == 16
    ensures r == k[9] as int / 64 + 0x4 * (k[10] as int)
             + 0x400 * (k[11] as int % 16) + 0x4_0000 * (k[12] as int / 4 * 4)
  {
    var w := LoadWord(k, 9);
    var x := w / 64;
    r := Mask(x, 0x3f0_3fff, 0x4000, 0x10_0000, 0x40, x % 0x10_0000, x / 0x10_0000);
    KeyLimb3(k[9], k[10], k[11], k[12], w);
  }

  lemma ClampedValue(k: seq<Byte>, r0: int, r1: int, r2: int, r3: int, r4: int)
    requires |k| == 16
    requires r0 == k[0] as int + 0x100 * (k[1] as int) + 0x1_0000 * (k[2] as int) + 0x100_0000 * (k[3] as int % 16 % 4)
    requires r1 == k[3] as int % 16 / 4 + 0x40 * (k[4] as int / 4 * 4)
              + 0x4000 * (k[5] as int) + 0x40_0000 * (k[6] as int % 16)
    requires r2 == k[6] as int / 16 + 0x10 * (k[7] as int % 16)
              + 0x1000 * (k[8] as int / 4 * 4) + 0x10_0000 * (k[9] as int % 64)
    requires r3 == k[9] as int / 64 + 0x4 * (k[10] as int)
              + 0x400 * (k[11] as int % 16) + 0x4_0000 * (k[12] as int / 4 * 4)
    requires r4 == k[13] as int + 0x100 * (k[14] as int) + 0x1_0000 * (k[15] as int % 16)
    ensures Value26(r0, r1, r2, r3, r4) == LE(Clamp(k))
  {
    LEBytes(Clamp(k));
  }

  lemma KeyLimb0(b0: int, b1: int, b2: int, b3: int, w: nat)
    requires 0 <= b0 < 256 && 0 <= b1 < 256 && 0 <= b2 < 256 && 0 <= b3 < 256
    requires w == b0 + 0x100 * b1 + 0x1_0000 * b2 + 0x100_0000 * b3
    ensures w % 0x400_0000 == b0 + 0x100 * b1 + 0x1_0000 * b2 + 0x100_0000 * (b3 % 16 % 4)
  {
    ModUnique(w, 0x400_0000, b3 / 4, b0 + 0x100 * b1 + 0x1_0000 * b2 + 0x100_0000 * (b3 % 4));
  }

  lemma KeyLimb1(b3: int, b4: int, b5: int, b6: int, w: nat)
    requires 0 <= b3 < 256 && 0 <= b4 < 256 && 0 <= b5 < 256 && 0 <= b6 < 256
    requires w == b3 + 0x100 * b4 + 0x1_0000 * b5 + 0x100_0000 * b6
    ensures w / 4 % 0x100 % 4 + 0x100 * (w / 4 / 0x100 % 0x4_0000)
         == b3 % 16 / 4 + 0x40 * (b4 / 4 * 4) + 0x4000 * b5 + 0x40_0000 * (b6 % 16)
  {
    var x := w / 4;
    ModUnique(w, 4, b3 / 4 + 0x40 * b4 + 0x4000 * b5 + 0x40_0000 * b6, b3 % 4);
    ModUnique(x, 0x100, b4 / 4 + 0x40 * b5 + 0x4000 * b6, b3 / 4 + 0x40 * (b4 % 4));
    ModUnique(x / 0x100, 0x4_0000, b6 / 16, b4 / 4 + 0x40 * b5 + 0x4000 * (b6 % 16));
  }

  lemma KeyLimb2(b6: int, b7: int, b8: int, b9: int, w: nat)
    requires 0 <= b6 < 256 && 0 <= b7 < 256 && 0 <= b8 < 256 && 0 <= b9 < 256
    requires w == b6 + 0x100 * b7 + 0x1_0000 * b8 + 0x100_0000 * b9
    ensures w / 16 % 0x4000 % 0x100 + 0x4000 * (w / 16 / 0x4000 % 0x1000)
         == b6 / 16 + 0x10 * (b7 % 16) + 0x1000 * (b8 / 4 * 4) + 0x10_0000 * (b9 % 64)
  {
    var x := w / 16;
    ModUnique(w, 16, b6 / 16 + 0x10 * b7 + 0x1000 * b8 + 0x10_0000 * b9, b6 % 16);
    ModUnique(x, 0x4000, b8 / 4 + 0x40 * b9, b6 / 16 + 0x10 * b7 + 0x1000 * (b8 % 4));
    ModUnique(x % 0x4000, 0x100, b7 / 16 + 0x10 * (b8 % 4), b6 / 16 + 0x10 * (b7 % 16));
    ModUnique(x / 0x4000, 0x1000, b9 / 64, b8 / 4 + 0x40 * (b9 % 64));
  }

  lemma KeyLimb3(b9: int, b10: int, b11: int, b12: int, w: nat)
    requires 0 <= b9 < 256 && 0 <= b10 < 256 && 0 <= b11 < 256 && 0 <= b12 < 256
    requires w == b9 + 0x100 * b10 + 0x1_0000 * b11 + 0x100_0000 * b12
    ensures w / 64 % 0x10_0000 % 0x4000 + 0x10_0000 * (w / 64 / 0x10_0000 % 0x40)
         == b9 / 64 + 0x4 * b10 + 0x400 * (b11 % 16) + 0x4_0000 * (b12 / 4 * 4)
  {
    var x := w / 64;
    ModUnique(w, 64, b9 / 64 + 0x4 * b10 + 0x400 * b11 + 0x4_0000 * b12, b9 % 64);
    ModUnique(x, 0x10_0000, b12 / 4, b9 / 64 + 0x4 * b10 + 0x400 * b11 + 0x4_0000 * (b12 % 4));
    ModUnique(x % 0x10_0000, 0x4000, b11 / 16 + 0x10 * (b12 % 4), b9 / 64 + 0x4 * b10 + 0x400 * (b11 % 16));
  }

  lemma KeyLimb4(b12: int, b13: int, b14: int, b15: int, w: nat)
    requires 0 <= b12 < 256 && 0 <= b13 < 256 && 0 <= b14 < 256 && 0 <= b15 < 256
    requires w == b12 + 0x100 * b13 + 0x1_0000 * b14 + 0x100_0000 * b15
    ensures w / 256 % 0x10_0000 == b13 + 0x100 * b14 + 0x1_0000 * (b15 % 16)
  {
    ModUnique(w, 256, b13 + 0x100 * b14 + 0x1_0000 * b15, b12);
    ModUnique(w / 256, 0x10_0000, b15 / 16, b13 + 0x100 * b14 + 0x1_0000 * (b15 % 16));
  }

  /** The second half of the key is added to the result as it is. */
  method LoadPad(k: seq<Byte>) returns (p0: U32, p1: U32, p2: U32, p3: U32)
    requires |k| == 16
    ensures Value32(p0, p1, p2, p3) == LE(k)
  {
    p0 := LoadWord(k, 0);
    p1 := LoadWord(k, 4);
    p2 := LoadWord(k, 8);
    p3 := LoadWord(k, 12);
    LEBytes(k);
  }

  // The accumulator over whole blocks, as `process_blocks` sees them.

  /** 16-byte blocks, each with the bit `hi` on top, folded into the accumulator. */
  function FoldBlocks(acc: nat, r: nat, m: seq<Byte>, hi: nat): nat
    decreases |m|
  {
    if |m| < 16 then acc else FoldBlocks(Absorb(acc, LE(m[..16]) + hi, r), r, m[16..], hi)
  }

  lemma {:induction false} FoldIsHorner(acc: nat, r: nat, m: seq<Byte>)
    requires |m| % 16 == 0
    ensures FoldBlocks(acc, r, m, TWO128) == Horner(acc, r, m)
    decreases |m|
  {
    if m != [] {
      OneBeyond(m[..16]);
      Pow256Values();
      FoldIsHorner(Absorb(acc, LE(m[..16]) + TWO128, r), r, m[16..]);
    }
  }

  lemma OneBeyond(s: seq<Byte>)
    ensures LE(s + [1]) == LE(s) + Pow256(|s|)
  {
    var one: seq<Byte> := [1];
    assert LE(one) == 1 by { assert one[1..] == []; }
    hide LE, Pow256;
    LEAppend(s, one);
  }

  lemma {:induction false} LEZeros(s: seq<Byte>, n: nat)
    ensures LE(s + Zeros(n)) == LE(s)
    decreases n
  {
    if n == 0 {
      assert s + Zeros(0) == s;
    } else {
      LEZeros(s, n - 1);
      assert s + Zeros(n) == (s + Zeros(n - 1)) + [0];
      LEAppend(s + Zeros(n - 1), [0]);
    }
  }

  /** Reducing an operand first does not change a residue. */
  lemma ReduceFirst(v: nat, c: nat, r: nat, m: nat)
    requires m > 0
    ensures ((v % m + c) * r) % m == ((v + c) * r) % m
  {
    var q, x := v / m, (v % m + c) * r;
    assert (v + c) * r == x + m * (q * r) by {
      assert v + c == (v % m + c) + m * q;
      assert ((v % m + c) + m * q) * r == x + (m * q) * r;
      MulAssoc(m, q, r);
    }
    assert (v + c) * r == m * (q * r + x / m) + x % m;
    ModUnique((v + c) * r, m, q * r + x / m, x % m);
  }

  /** The limbs stand for the accumulator `acc`. */
  ghost predicate Holds(h: Limbs, acc: nat) {
    h.Reduced() && h.Value() % P == acc
  }

  lemma ZeroValue(h: Limbs)
    requires h == Limbs(0, 0, 0, 0, 0)
    ensures h.Value() == 0
  {}

  lemma ZeroHolds(h: Limbs, r: nat, msg: seq<Byte>)
    requires h == Limbs(0, 0, 0, 0, 0) && msg == []
    ensures Holds(h, Horner(0, r, msg))
  {
    hide LE, Absorb, Limbs.Value;
    ZeroValue(h);
  }

  /** One round of `process_blocks`: add a block, multiply by `r`, carry. */
  method AbsorbBlock(h: Limbs, r: Limbs, block: seq<Byte>, hibit: U32, ghost acc: nat) returns (h': Limbs)
    requires r.Tight() && Holds(h, acc) && |block| == 16
    requires hibit == 0 || hibit == 0x100_0000
    ensures Holds(h', Absorb(acc, LE(block) + (if hibit == 0 then 0 else TWO128), r.Value()))
  {
    hide LE, Limbs.Value, Columns.Value, Limbs.Tight, Limbs.Loose, Limbs.Reduced, Columns.Bounded, Products;
    ghost var chunk := LE(block) + if hibit == 0 then 0 else TWO128;
    ReduceFirst(h.Value(), chunk, r.Value(), P);
    var a := AddBlock(h, block, hibit);
    h' := Carry(Products(a, r));
  }

  /** A one-time authenticator. `key` and `fed` record what it was given. */
  class Poly1305 {
    var r: Limbs
    var h: Limbs
    var pad0: U32
    var pad1: U32
    var pad2: U32
    var pad3: U32
    var leftover: nat
    const buffer: array<Byte>
    ghost const key: seq<Byte>
    ghost var fed: seq<Byte>

    /** The parts that no update changes. */
    ghost predicate Keyed()
      reads this
    {
      && buffer.Length == 16 && |key| == 32
      && r.Tight() && r.Value() == LE(Clamp(key[..16]))
      && Value32(pad0, pad1, pad2, pad3) == LE(key[16..])
    }

    ghost predicate Valid()
      reads this, buffer
    {
      && Keyed() && leftover < 16 && leftover <= |fed| && (|fed| - leftover) % 16 == 0
      && Holds(h, Horner(0, r.Value(), fed[..|fed| - leftover]))
      && buffer[..leftover] == fed[|fed| - leftover..]
    }

    constructor (key: seq<Byte>)
      requires |key| == 32
      ensures Valid() && fresh(buffer) && this.key == key && fed == []
    {
      hide LE, Limbs.Value, Limbs.Tight, Value32, Clamp, Holds, Horner;
      var clamped := LoadKey(key[..16]);
      var p0, p1, p2, p3 := LoadPad(key[16..]);
      r, h := clamped, Limbs(0, 0, 0, 0, 0);
      pad0, pad1, pad2, pad3 := p0, p1, p2, p3;
      leftover := 0;
      buffer := new Byte[16](i => 0);
      this.key := key;
      fed := [];
      new;
      ZeroHolds(h, clamped.Value(), fed);
    }

    /** `process_blocks`: all whole blocks of `m`; a short rest is not looked at. */
    method ProcessBlocks(m: seq<Byte>, isFinal: bool, ghost acc: nat)
      requires r.Tight() && Holds(h, acc)
      modifies this`h
      ensures Holds(h, FoldBlocks(acc, r.Value(), m, if isFinal then 0 else TWO128))
    {
      ghost var at := acc;
      var hibit := if isFinal then 0 else 0x100_0000;
      ghost var hi := if isFinal then 0 else TWO128;
      var rest := m;
      while |rest| >= 16
        invariant Holds(h, at)
        invariant FoldBlocks(at, r.Value(), rest, hi) == FoldBlocks(acc, r.Value(), m, hi)
        decreases |rest|
      {
        h := AbsorbBlock(h, r, rest[..16], hibit, at);
        at := Absorb(at, LE(rest[..16]) + hi, r.Value());
        rest := rest[16..];
      }
    }

    /** Copies into the buffer from index `leftover` on. */
    method Fill(bytes: seq<Byte>)
      requires buffer.Length == 16 && leftover + |bytes| <= 16
      modifies this`leftover, buffer
      ensures leftover == old(leftover) + |bytes|
      ensures buffer[..leftover] == old(buffer[..leftover]) + bytes
    {
      var start := leftover;
      for i := 0 to |bytes|
        invariant buffer[..start + i] == old(buffer[..leftover]) + bytes[..i]
        modifies buffer
      {
        buffer[start + i] := bytes[i];
      }
      leftover := start + |bytes|;
    }

    /** Absorbs whole blocks after the bytes `done`. */
    method AbsorbWhole(m: seq<Byte>, ghost done: seq<Byte>)
      requires r.Tight() && |done| % 16 == 0 && |m| % 16 == 0
      requires Holds(h, Horner(0, r.Value(), done))
      modifies this`h
      ensures Holds(h, Horner(0, r.Value(), done + m))
    {
      ProcessBlocks(m, false, Horner(0, r.Value(), done));
      FoldIsHorner(Horner(0, r.Value(), done), r.Value(), m);
      HornerAppend(0, r.Value(), done, m);
    }

    /** The second half of `update`: whole blocks straight from the input, the rest into the buffer. */
    method UpdateAligned(rest: seq<Byte>, ghost done: seq<Byte>)
      requires Keyed() && leftover == 0 && fed == done + rest && |done| % 16 == 0
      requires Holds(h, Horner(0, r.Value(), done))
      modifies this`h, this`leftover, buffer
      ensures Valid()
    {
      hide LE, Limbs.Value, Limbs.Tight, Value32, Clamp, Holds, Horner;
      var full := |rest| - |rest| % 16;
      if full > 0 {
        AbsorbWhole(rest[..full], done);
      }
      assert done + rest[..full] == fed[..|fed| - |rest| % 16];
      assert done + rest[..0] == done;
      if full < |rest| {
        Fill(rest[full..]);
        assert buffer[..leftover] == rest[full..];
      }
    }

    method Update(msg: seq<Byte>)
      requires Valid()
      modifies this`h, this`leftover, this`fed, buffer
      ensures Valid() && fed == old(fed) + msg
    {
      hide LE, Limbs.Value, Limbs.Tight, Value32, Clamp, Holds, Horner;
      ghost var done := fed[..|fed| - leftover];
      fed := fed + msg;
      if leftover == 0 {
        UpdateAligned(msg, done);
      } else {
        var take := if |msg| < 16 - leftover then |msg| else 16 - leftover;
        Fill(msg[..take]);
        assert fed == done + buffer[..leftover] + msg[take..];
        if leftover < 16 {
          assert fed[..|fed| - leftover] == done;
        } else {
          AbsorbWhole(buffer[..], done);
          leftover := 0;
          UpdateAligned(msg[take..], done + buffer[..]);
        }
      }
    }

    /** `finalize` consumes the authenticator; the buffered short block gets its one bit explicitly. */
    method Finalize() returns (tag: seq<Byte>)
      requires Valid()
      modifies this`h
      ensures tag == Mac(key, fed)
    {
      hide LE, Limbs.Value, Limbs.Tight, Value32, Clamp, Holds, Horner, FoldBlocks, ToLE;
      ghost var done := fed[..|fed| - leftover];
      if leftover > 0 {
        var last := buffer[..leftover] + [1] + Zeros(15 - leftover);
        ProcessBlocks(last, true, Horner(0, r.Value(), done));
        LastBlock(Horner(0, r.Value(), done), r.Value(), buffer[..leftover]);
        HornerAppend(0, r.Value(), done, buffer[..leftover]);
        assert done + buffer[..leftover] == fed;
      } else {
        assert done == fed;
      }
      tag := Freeze(h, pad0, pad1, pad2, pad3, Horner(0, r.Value(), fed));
    }
  }

  /** The padded last block stands for the short chunk with its one bit. */
  lemma LastBlock(acc: nat, r: nat, s: seq<Byte>)
    requires 0 < |s| < 16
    ensures FoldBlocks(acc, r, s + [1] + Zeros(15 - |s|), 0) == Horner(acc, r, s)
  {
    hide Absorb, LE;
    var last := s + [1] + Zeros(15 - |s|);
    LEZeros(s + [1], 15 - |s|);
    assert last[..16] == last && |last[16..]| == 0 && s[..|s|] == s && s[|s|..] == [];
    var acc' := Absorb(acc, LE(last), r);
    assert FoldBlocks(acc', r, last[16..], 0) == acc';
    assert Horner(acc', r, s[|s|..]) == acc';
  }

  /** Full reduction, packing and the pad: the last part of `finalize`. */
  method Freeze(h: Limbs, p0: U32, p1: U32, p2: U32, p3: U32, ghost acc: nat) returns (tag: seq<Byte>)
    requires Holds(h, acc)
    ensures tag == ToLE((acc + Value32(p0, p1, p2, p3)) % TWO128, 16)
  {
    hide ToLE, Value32, Limbs.Value;
    var t := CarryPass(h);
    var u := Select(t);
    var w0, w1, w2, w3 := Pack(u);
    tag := AddPad(w0, w1, w2, w3, p0, p1, p2, p3);
    AddMod(acc, Value32(p0, p1, p2, p3));
  }

  lemma AddMod(a: nat, b: int)
    ensures (a % TWO128 + b) % TWO128 == (a + b) % TWO128
  {}

  /** `new`, any number of `update`s, `finalize`: only the concatenation of the chunks matters. */
  method MacOfChunks(key: seq<Byte>, chunks: seq<seq<Byte>>) returns (tag: seq<Byte>)
    requires |key| == 32
    ensures tag == Mac(key, Concat(chunks))
  {
    hide Mac;
    var poly := new Poly1305(key);
    for i := 0 to |chunks|
      invariant poly.Valid() && fresh(poly) && fresh(poly.buffer) && poly.key == key
      invariant poly.fed == Concat(chunks[..i])
    {
      assert chunks[..i + 1][..i] == chunks[..i];
      poly.Update(chunks[i]);
    }
    assert chunks[..|chunks|] == chunks;
    tag := poly.Finalize();
  }
}
