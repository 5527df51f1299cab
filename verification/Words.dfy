/**
  Machine words as bounded integers, the bitwise operators on them, and
  little-endian byte strings.

  Every operator of the source that may drop bits (`wrapping_add`, a narrowing
  cast, a left shift) is written out with its `%`, so a proof that nothing is
  lost is a proof about these functions.
*/
module Words {
  type Byte = x: int | 0 <= x < 0x100
  type U32 = x: int | 0 <= x < 0x1_0000_0000
  type U64 = x: int | 0 <= x < 0x1_0000_0000_0000_0000

  datatype Option<T> = None | Some(value: T)

  function WrapAdd32(a: U32, b: U32): U32 { (a + b) % 0x1_0000_0000 }

  function WrapSub32(a: U32, b: U32): U32 { (a - b) % 0x1_0000_0000 }

  function WrapMul32(a: U32, b: U32): U32 { (a * b) % 0x1_0000_0000 }

  function WrapAdd64(a: U64, b: U64): U64 { (a + b) % 0x1_0000_0000_0000_0000 }

  function WrapSub64(a: U64, b: U64): U64 { (a - b) % 0x1_0000_0000_0000_0000 }

  /** The narrowing cast `x as u32`. */
  function Low32(x: nat): U32 { x % 0x1_0000_0000 }

  function Pow2(n: nat): (r: nat)
    ensures r > 0
  {
    if n == 0 then 1 else 2 * Pow2(n - 1)
  }

  lemma {:induction false} Pow2Add(a: nat, b: nat)
    ensures Pow2(a + b) == Pow2(a) * Pow2(b)
  {
    if a > 0 {
      Pow2Add(a - 1, b);
      assert Pow2(a + b) == 2 * Pow2(a - 1 + b);
    }
  }

  lemma Pow2Values()
    ensures Pow2(6) == 0x40 && Pow2(8) == 0x100 && Pow2(12) == 0x1000 && Pow2(14) == 0x4000
    ensures Pow2(18) == 0x4_0000 && Pow2(20) == 0x10_0000 && Pow2(24) == 0x100_0000
    ensures Pow2(26) == 0x400_0000 && Pow2(32) == 0x1_0000_0000
  {
    assert Pow2(6) == 0x40 && Pow2(8) == 0x100;
    Pow2Add(6, 6);
    Pow2Add(8, 6);
    Pow2Add(12, 6);
    Pow2Add(12, 8);
    Pow2Add(12, 12);
    Pow2Add(20, 6);
    Pow2Add(20, 12);
  }

  lemma TwoTo64()
    ensures Pow2(64) == 0x1_0000_0000_0000_0000
  {
    hide Pow2;
    Pow2Values();
    Pow2Add(32, 32);
  }

  /** The exponent of a power of two, kept abstract: its digits are of no use to a proof. */
  lemma Log2(p: nat) returns (k: nat)
    requires p in [1, 4, 0x40, 0x100, 0x1000, 0x4000, 0x4_0000, 0x10_0000, 0x100_0000, 0x400_0000, 0x1_0000_0000]
    ensures Pow2(k) == p
  {
    Pow2Values();
    k := if p == 1 then 0 else if p == 4 then 2 else if p == 0x40 then 6 else if p == 0x100 then 8
         else if p == 0x1000 then 12 else if p == 0x4000 then 14 else if p == 0x4_0000 then 18
         else if p == 0x10_0000 then 20 else if p == 0x100_0000 then 24 else if p == 0x400_0000 then 26 else 32;
  }

  function Min(a: nat, b: nat): nat { if a < b then a else b }

  /** `x << k`, without a width. */
  function Shl(k: nat, x: nat): nat {
    if k == 0 then x else 2 * Shl(k - 1, x)
  }

  lemma {:induction false} ShlTimes(k: nat, x: nat)
    ensures Shl(k, x) == Pow2(k) * x
  {
    if k > 0 {
      ShlTimes(k - 1, x);
      MulAssoc(2, Pow2(k - 1), x);
    }
  }

  // Bitwise operators, bit by bit from the low end.

  function Bit(x: nat, i: nat): bool {
    if i == 0 then x % 2 == 1 else Bit(x / 2, i - 1)
  }

  function And(a: nat, b: nat): nat {
    if a == 0 then 0 else (if a % 2 == 1 && b % 2 == 1 then 1 else 0) + 2 * And(a / 2, b / 2)
  }

  function Or(a: nat, b: nat): nat
    decreases a + b
  {
    if a == 0 then b else if b == 0 then a
    else (if a % 2 == 1 || b % 2 == 1 then 1 else 0) + 2 * Or(a / 2, b / 2)
  }

  function Xor(a: nat, b: nat): nat
    decreases a + b
  {
    if a == 0 then b else if b == 0 then a
    else (a % 2 + b % 2) % 2 + 2 * Xor(a / 2, b / 2)
  }

  lemma {:induction false} AndShl(k: nat, a: nat, b: nat, c: nat, d: nat)
    requires a < Pow2(k) && c < Pow2(k)
    ensures And(a + Shl(k, b), c + Shl(k, d)) == And(a, c) + Shl(k, And(b, d))
    decreases k
  {
    hide And;
    if k == 0 {
      AndZero(0);
    } else {
      AndShl(k - 1, a / 2, b, c / 2, d);
      AndHalves(a, Shl(k - 1, b), c, Shl(k - 1, d));
      AndUnfold(a, c);
    }
  }

  /** A number is split by a bit position into a high and a low part. */
  lemma AndSplit(k: nat, p: nat, a: nat, b: nat, c: nat, d: nat)
    requires p == Pow2(k) && a < p && c < p
    ensures And(a + p * b, c + p * d) == And(a, c) + p * And(b, d)
  {
    AndShl(k, a, b, c, d);
    ShlTimes(k, b);
    ShlTimes(k, d);
    ShlTimes(k, And(b, d));
  }

  lemma AndUnfold(a: nat, b: nat)
    ensures And(a, b) == (if a % 2 == 1 && b % 2 == 1 then 1 else 0) + 2 * And(a / 2, b / 2)
  {}

  lemma AndHalves(a: nat, x: nat, c: nat, y: nat)
    ensures And(a + 2 * x, c + 2 * y) == (if a % 2 == 1 && c % 2 == 1 then 1 else 0) + 2 * And(a / 2 + x, c / 2 + y)
  {
    AndUnfold(a + 2 * x, c + 2 * y);
    assert (a + 2 * x) / 2 == a / 2 + x && (c + 2 * y) / 2 == c / 2 + y;
  }

  lemma MulAssoc(a: int, b: int, c: int)
    ensures (a * b) * c == a * (b * c)
  {}

  lemma MulAtLeast(m: int, k: int)
    requires m > 0
    ensures k >= 1 ==> m * k >= m
    ensures k <= -1 ==> m * k <= -m
  {
    if k >= 1 {
      assert m * (k - 1) >= 0;
      assert m * k == m * (k - 1) + m;
    } else if k <= -1 {
      assert m * (-k - 1) >= 0;
      assert m * k == -(m * (-k - 1)) - m;
    }
  }

  lemma {:induction false} AndZero(a: nat)
    ensures And(a, 0) == 0 && And(0, a) == 0
    decreases a
  {
    if a > 0 { AndZero(a / 2); }
  }

  lemma {:induction false} OrZero(a: nat)
    ensures Or(a, 0) == a && Or(0, a) == a
  {}

  /** Masking with the low `k` ones is the remainder. */
  lemma {:induction false} AndLowMask(k: nat, p: nat, x: nat)
    requires p == Pow2(k)
    ensures And(x, p - 1) == x % p
    decreases k
  {
    if k == 0 {
      AndZero(x);
    } else {
      var q := Pow2(k - 1);
      AndLowMask(k - 1, q, x / 2);
      AndUnfold(x, 2 * q - 1);
      assert (2 * q - 1) % 2 == 1 && (2 * q - 1) / 2 == q - 1;
      ModDouble(x, q);
    }
  }

  lemma ModDouble(x: nat, q: nat)
    requires q > 0
    ensures x % (2 * q) == x % 2 + 2 * ((x / 2) % q)
  {
    var h := x / 2;
    var d := h / q;
    assert h == q * d + h % q;
    assert x == (2 * q) * d + (x % 2 + 2 * (h % q));
    ModUnique(x, 2 * q, d, x % 2 + 2 * (h % q));
  }

  /** Quotient and remainder are unique. */
  lemma ModUnique(x: int, m: int, q: int, r: int)
    requires m > 0 && 0 <= r < m
    requires x == m * q + r
    ensures x / m == q && x % m == r
  {
    var k := x / m - q;
    assert x == m * (x / m) + x % m;
    assert m * k == m * (x / m) - m * q;
    MulAtLeast(m, k);
  }

  lemma {:induction false} OrShl(k: nat, a: nat, b: nat)
    requires a < Pow2(k)
    ensures Or(a, Shl(k, b)) == a + Shl(k, b)
    decreases k
  {
    if a > 0 && Shl(k, b) > 0 { OrShl(k - 1, a / 2, b); }
  }

  /** A remainder by a multiple of `m` first does not change the remainder by `m`. */
  lemma ModOfMod(x: int, w: int, m: int)
    requires m > 0 && w > 0 && w % m == 0
    ensures x % w % m == x % m
  {
    var q, d, r := x / w, w / m, x % w;
    assert w == m * d && x == w * q + r;
    MulAssoc(m, d, q);
    assert r == m * (r / m) + r % m;
    assert m * (d * q + r / m) == m * (d * q) + m * (r / m);
    ModUnique(x, m, d * q + r / m, r % m);
  }

  /** Words that share no bit are added by `|`. */
  lemma OrDisjoint(k: nat, p: nat, a: nat, b: nat)
    requires p == Pow2(k) && a < p
    ensures Or(a, p * b) == a + p * b
  {
    OrShl(k, a, b);
    ShlTimes(k, b);
  }

  lemma {:induction false} XorSelfInverse(a: nat, b: nat)
    ensures Xor(Xor(a, b), b) == a
    decreases a + b
  {
    hide Xor;
    if a == 0 {
      XorZero(b);
      XorSame(b);
    } else if b == 0 {
      XorZero(a);
    } else {
      XorSelfInverse(a / 2, b / 2);
      XorUnfold(a, b);
      XorUnfold(Xor(a, b), b);
    }
  }

  lemma XorZero(a: nat)
    ensures Xor(a, 0) == a && Xor(0, a) == a
  {}

  lemma XorUnfold(a: nat, b: nat)
    ensures Xor(a, b) == (a % 2 + b % 2) % 2 + 2 * Xor(a / 2, b / 2)
  {}

  lemma {:induction false} XorSame(a: nat)
    ensures Xor(a, a) == 0
  {
    if a > 0 { XorSame(a / 2); }
  }

  lemma {:induction false} BitOr(a: nat, b: nat, i: nat)
    ensures Bit(Or(a, b), i) <==> Bit(a, i) || Bit(b, i)
    decreases i
  {
    if a == 0 {
      BitZero(i);
      OrZero(b);
    } else if b == 0 {
      BitZero(i);
      OrZero(a);
    } else if i > 0 {
      BitOr(a / 2, b / 2, i - 1);
    }
  }

  lemma {:induction false} BitAnd(a: nat, b: nat, i: nat)
    ensures Bit(And(a, b), i) <==> Bit(a, i) && Bit(b, i)
    decreases i
  {
    if a == 0 {
      BitZero(i);
    } else if i > 0 {
      BitAnd(a / 2, b / 2, i - 1);
    }
  }

  lemma {:induction false} BitZero(i: nat)
    ensures !Bit(0, i)
  {
    if i > 0 { BitZero(i - 1); }
  }

  /** A single bit. */
  lemma {:induction false} BitOfShl(k: nat, i: nat)
    ensures Bit(Shl(k, 1), i) <==> i == k
    decreases k
  {
    if k == 0 {
      if i > 0 { BitZero(i - 1); }
    } else if i > 0 {
      BitOfShl(k - 1, i - 1);
    }
  }

  /** The complement within `k` bits. */
  lemma {:induction false} BitNot(k: nat, a: nat, i: nat)
    requires a < Pow2(k) && i < k
    ensures Bit(Pow2(k) - 1 - a, i) <==> !Bit(a, i)
    decreases k
  {
    var q := Pow2(k - 1);
    var x := 2 * q - 1 - a;
    if i == 0 {
      assert x % 2 == 1 - a % 2;
    } else {
      assert x / 2 == q - 1 - a / 2;
      BitNot(k - 1, a / 2, i - 1);
    }
  }

  /** Numbers of `k` bits with the same bits are the same. */
  lemma {:induction false} SameBits(k: nat, a: nat, b: nat)
    requires a < Pow2(k) && b < Pow2(k) && forall i :: 0 <= i < k ==> Bit(a, i) == Bit(b, i)
    ensures a == b
    decreases k
  {
    if k > 0 {
      forall i | 0 <= i < k - 1
        ensures Bit(a / 2, i) == Bit(b / 2, i)
      {
        assert Bit(a, i + 1) == Bit(b, i + 1);
      }
      SameBits(k - 1, a / 2, b / 2);
      assert Bit(a, 0) == Bit(b, 0);
    }
  }

  lemma {:induction false} OrBound(k: nat, a: nat, b: nat)
    requires a < Pow2(k) && b < Pow2(k)
    ensures Or(a, b) < Pow2(k)
    decreases k
  {
    if a > 0 && b > 0 { OrBound(k - 1, a / 2, b / 2); }
  }

  lemma {:induction false} XorComm(a: nat, b: nat)
    ensures Xor(a, b) == Xor(b, a)
    decreases a + b
  {
    if a > 0 && b > 0 { XorComm(a / 2, b / 2); }
  }

  lemma {:induction false} XorAssoc(a: nat, b: nat, c: nat)
    ensures Xor(Xor(a, b), c) == Xor(a, Xor(b, c))
    decreases a + b + c
  {
    hide Xor;
    if a == 0 {
      XorZero(b);
      XorZero(Xor(b, c));
    } else if b == 0 {
      XorZero(a);
      XorZero(c);
    } else {
      XorAssoc(a / 2, b / 2, c / 2);
      XorUnfold(a, b);
      XorUnfold(b, c);
      XorUnfold(Xor(a, b), c);
      XorUnfold(a, Xor(b, c));
    }
  }

  lemma {:induction false} XorShl(k: nat, a: nat, b: nat)
    requires a < Pow2(k)
    ensures Xor(a, Shl(k, b)) == a + Shl(k, b)
    decreases k
  {
    if a > 0 && Shl(k, b) > 0 { XorShl(k - 1, a / 2, b); }
  }

  /** `^` does not reach above the width of its operands. */
  lemma {:induction false} XorBound(k: nat, a: nat, b: nat)
    requires a < Pow2(k) && b < Pow2(k)
    ensures Xor(a, b) < Pow2(k)
    decreases k
  {
    if a > 0 && b > 0 { XorBound(k - 1, a / 2, b / 2); }
  }

  // The same on 32-bit words and on bytes.

  function And32(a: U32, b: U32): U32 {
    AndWidth(a, b);
    And(a, b)
  }

  lemma {:induction false} AndWidth(a: nat, b: nat)
    ensures And(a, b) <= b
  {
    if a > 0 { AndWidth(a / 2, b / 2); }
  }

  function Xor32(a: U32, b: U32): U32 {
    XorWidth(a, b);
    Xor(a, b)
  }

  lemma XorWidth(a: U32, b: U32)
    ensures Xor(a, b) < 0x1_0000_0000
  {
    hide Xor, Pow2;
    var k := Log2(0x1_0000_0000);
    XorBound(k, a, b);
  }

  /** `^` on bytes. */
  function XorByte(a: Byte, b: Byte): Byte {
    ByteWidth(a, b);
    Xor(a, b)
  }

  lemma ByteWidth(a: Byte, b: Byte)
    ensures Xor(a, b) < 0x100
  {
    hide Xor, Pow2;
    var k := Log2(0x100);
    XorBound(k, a, b);
  }

  function And64(a: U64, b: U64): U64 {
    AndWidth(a, b);
    And(a, b)
  }

  /** Masking off the low bits rounds down to a multiple. */
  lemma AndHigh(k: nat, p: nat, x: U64)
    requires p == Pow2(k) && k <= 64 && p <= 0x1_0000_0000_0000_0000
    ensures And64(x, 0x1_0000_0000_0000_0000 - p) == x - x % p
  {
    hide And, Pow2;
    var q := Pow2(64 - k);
    TwoTo64();
    Pow2Add(k, 64 - k);
    MaskParts(p, q);
    QuotientBound(x, p, q);
    AndSplit(k, p, x % p, x / p, 0, q - 1);
    AndZero(x % p);
    AndLowMask(64 - k, q, x / p);
    ModUnique(x / p, q, 0, x / p);
    assert x == x % p + p * (x / p);
  }

  lemma MaskParts(p: nat, q: nat)
    requires p > 0 && q > 0
    ensures p * q - p == 0 + p * (q - 1)
  {
  }

  lemma QuotientBound(x: nat, p: nat, q: nat)
    requires p > 0 && x < p * q
    ensures x / p < q
  {
    MulMonotone(p, q, x / p);
  }

  lemma MulMonotone(p: nat, q: nat, d: nat)
    ensures q <= d ==> p * q <= p * d
  {
  }

  // Little-endian byte strings.

  function LE(s: seq<Byte>): nat {
    if s == [] then 0 else s[0] + 0x100 * LE(s[1..])
  }

  function ToLE(x: nat, n: nat): (s: seq<Byte>)
    ensures |s| == n
  {
    if n == 0 then [] else [x % 0x100] + ToLE(x / 0x100, n - 1)
  }

  function Pow256(n: nat): (r: nat)
    ensures r > 0
  {
    if n == 0 then 1 else 0x100 * Pow256(n - 1)
  }

  /** `from_le_bytes` undoes `to_le_bytes`, up to the width. */
  lemma {:induction false} LEToLE(x: nat, n: nat)
    ensures LE(ToLE(x, n)) == x % Pow256(n)
    decreases n
  {
    if n > 0 {
      LEToLE(x / 0x100, n - 1);
      var s := ToLE(x, n);
      assert s[1..] == ToLE(x / 0x100, n - 1);
      var q := Pow256(n - 1);
      var d, r := (x / 0x100) / q, (x / 0x100) % q;
      assert x / 0x100 == q * d + r;
      assert x == (0x100 * q) * d + (x % 0x100 + 0x100 * r);
      ModUnique(x, 0x100 * q, d, x % 0x100 + 0x100 * r);
    }
  }

  /** `to_le_bytes` undoes `from_le_bytes`. */
  lemma {:induction false} ToLELE(s: seq<Byte>)
    ensures ToLE(LE(s), |s|) == s
  {
    if s != [] {
      ToLELE(s[1..]);
      assert LE(s) == s[0] + 0x100 * LE(s[1..]);
      hide LE;
      assert LE(s) % 0x100 == s[0] && LE(s) / 0x100 == LE(s[1..]);
      assert ToLE(LE(s), |s|) == [s[0]] + s[1..];
    }
  }

  lemma {:induction false} LEBound(s: seq<Byte>)
    ensures LE(s) < Pow256(|s|)
  {
    if s != [] { LEBound(s[1..]); }
  }

  lemma {:induction false} LEAppend(s: seq<Byte>, t: seq<Byte>)
    ensures LE(s + t) == LE(s) + Pow256(|s|) * LE(t)
  {
    if s == [] {
      assert s + t == t;
    } else {
      LEAppend(s[1..], t);
      assert (s + t)[1..] == s[1..] + t;
      MulAssoc(0x100, Pow256(|s| - 1), LE(t));
    }
  }

  lemma Pow256Values()
    ensures Pow256(4) == 0x1_0000_0000
    ensures Pow256(8) == 0x1_0000_0000_0000_0000
    ensures Pow256(16) == 0x1_0000_0000_0000_0000_0000_0000_0000_0000
  {
    assert Pow256(4) == 0x1_0000_0000;
    Pow256Add(4, 4);
    Pow256Add(8, 8);
  }

  lemma {:induction false} Pow256Add(a: nat, b: nat)
    ensures Pow256(a + b) == Pow256(a) * Pow256(b)
  {
    if a > 0 {
      Pow256Add(a - 1, b);
      MulAssoc(0x100, Pow256(a - 1), Pow256(b));
    }
  }

  /** A number of `n + m` bytes is its low `n` bytes followed by its high `m` bytes. */
  lemma {:induction false} ToLESplit(a: nat, b: nat, n: nat, m: nat)
    requires a < Pow256(n)
    ensures ToLE(a + Pow256(n) * b, n + m) == ToLE(a, n) + ToLE(b, m)
    decreases n
  {
    if n > 0 {
      var x := Pow256(n - 1) * b;
      MulAssoc(0x100, Pow256(n - 1), b);
      ToLESplit(a / 0x100, b, n - 1, m);
      assert (a + 0x100 * x) % 0x100 == a % 0x100 && (a + 0x100 * x) / 0x100 == a / 0x100 + x;
    }
  }

  lemma LE4(s: seq<Byte>)
    requires |s| == 4
    ensures LE(s) == s[0] as int + 0x100 * (s[1] as int) + 0x1_0000 * (s[2] as int) + 0x100_0000 * (s[3] as int)
  {
    assert LE(s[3..]) == s[3] + 0x100 * LE(s[4..]);
    assert s[2..][1..] == s[3..] && s[1..][1..] == s[2..];
    assert LE(s[2..]) == s[2] + 0x100 * LE(s[3..]);
    assert LE(s[1..]) == s[1] + 0x100 * LE(s[2..]);
  }

  lemma LE16(s: seq<Byte>)
    requires |s| == 16
    ensures LE(s) == LE(s[..4]) + 0x1_0000_0000 * LE(s[4..8]) + 0x1_0000_0000_0000_0000 * LE(s[8..12])
                     + 0x1_0000_0000_0000_0000_0000_0000 * LE(s[12..])
  {
    hide LE, Pow256;
    Pow256Values();
    LEAppend(s[..4], s[4..]);
    LEAppend(s[4..8], s[8..]);
    LEAppend(s[8..12], s[12..]);
    assert s == s[..4] + s[4..] && s[4..] == s[4..8] + s[8..] && s[8..] == s[8..12] + s[12..];
  }

  lemma LE32(x: U32)
    ensures LE(ToLE(x, 4)) == x
  {
    hide LE, ToLE, Pow256;
    Pow256Values();
    LEToLE(x, 4);
  }

  lemma LE64(x: U64)
    ensures LE(ToLE(x, 8)) == x
  {
    hide LE, ToLE, Pow256;
    Pow256Values();
    LEToLE(x, 8);
  }

  function Zeros(n: nat): (s: seq<Byte>)
    ensures |s| == n
  {
    seq(n, i => 0)
  }

  /** The pieces of a byte string, put together. */
  function Concat(chunks: seq<seq<Byte>>): seq<Byte> {
    if chunks == [] then [] else Concat(chunks[..|chunks| - 1]) + chunks[|chunks| - 1]
  }
}
