/**
  CRC-32C (petra/src/crypto/hash/crc32c.rs): the table-driven form, the bit-serial
  form, and the polynomial remainder that both compute (section 12.1 of RFC 3720
  names the polynomial).
*/
module Crc32c {
  import opened Words

  /** The Castagnoli polynomial without its leading term, bit-reflected. */
  const POLY: U32 := 0x82F63B78

  /** One division step: the low bit of the register is the leading coefficient. */
  function Step(c: U32): U32 {
    XorWidth(POLY, c / 2);
    if c % 2 == 1 then Xor(POLY, c / 2) else c / 2
  }

  function Steps(c: U32, n: nat): U32
    decreases n
  {
    if n == 0 then c else Steps(Step(c), n - 1)
  }

  /** A byte at a time, each byte as eight division steps. */
  function Crc(state: U32, data: seq<Byte>): U32 {
    if data == [] then state else Steps(Xor32(Crc(state, data[..|data| - 1]), data[|data| - 1]), 8)
  }

  // The division is linear.

  lemma StepLinear(a: U32, b: U32)
    ensures Step(Xor32(a, b)) == Xor32(Step(a), Step(b))
  {
    hide Xor;
    var x, y := a / 2, b / 2;
    XorUnfold(a, b);
    XorAssoc(POLY, x, y);
    XorAssoc(x, POLY, y);
    XorComm(x, POLY);
    XorAssoc(Xor(POLY, x), POLY, y);
    XorAssoc(POLY, POLY, x);
    XorSame(POLY);
    XorZero(x);
    XorComm(Xor(POLY, x), POLY);
  }

  lemma {:induction false} StepsLinear(a: U32, b: U32, n: nat)
    ensures Steps(Xor32(a, b), n) == Xor32(Steps(a, n), Steps(b, n))
    decreases n
  {
    hide Step, Xor;
    if n > 0 {
      StepLinear(a, b);
      StepsLinear(Step(a), Step(b), n - 1);
    }
  }

  lemma XorSwap(a: U32, b: U32, c: U32, d: U32)
    ensures Xor32(Xor32(a, b), Xor32(c, d)) == Xor32(Xor32(a, c), Xor32(b, d))
  {
    hide Xor;
    XorAssoc(a, b, Xor32(c, d));
    XorAssoc(b, c, d);
    XorComm(b, c);
    XorAssoc(c, b, d);
    XorAssoc(a, c, Xor32(b, d));
  }

  function XorBytes(a: seq<Byte>, b: seq<Byte>): (c: seq<Byte>)
    requires |a| == |b|
    ensures |c| == |a|
  {
    seq(|a|, i requires 0 <= i < |a| => XorByte(a[i], b[i]))
  }

  /** The checksum of a sum is the sum of the checksums. */
  lemma {:induction false} CrcLinear(s: U32, t: U32, a: seq<Byte>, b: seq<Byte>)
    requires |a| == |b|
    ensures Crc(Xor32(s, t), XorBytes(a, b)) == Xor32(Crc(s, a), Crc(t, b))
    decreases |a|
  {
    hide Steps, Xor;
    if a != [] {
      var n := |a| - 1;
      CrcLinear(s, t, a[..n], b[..n]);
      assert XorBytes(a, b)[..n] == XorBytes(a[..n], b[..n]);
      var x, y := Crc(s, a[..n]), Crc(t, b[..n]);
      XorSwap(x, y, a[n], b[n]);
      StepsLinear(Xor32(x, a[n]), Xor32(y, b[n]), 8);
    }
  }

  /** Checksums chain over concatenation. */
  lemma {:induction false} CrcChains(s: U32, a: seq<Byte>, b: seq<Byte>)
    ensures Crc(s, a + b) == Crc(Crc(s, a), b)
    decreases |b|
  {
    hide Steps, Xor32;
    if b == [] {
      assert a + b == a;
    } else {
      CrcChains(s, a, b[..|b| - 1]);
      assert (a + b)[..|a + b| - 1] == a + b[..|b| - 1];
    }
  }

  // The table.

  lemma {:induction false} ShiftOut(n: nat, h: nat)
    requires Shl(n, h) < 0x1_0000_0000
    ensures Steps(Shl(n, h), n) == h
  {
    if n > 0 { ShiftOut(n - 1, h); }
  }

  /** The low byte is looked up, the rest is shifted. */
  lemma TableStep(x: U32)
    ensures Steps(x, 8) == Xor32(x / 0x100, Steps(x % 0x100, 8))
  {
    hide Xor, Steps, Pow2;
    var k := 8;
    Pow2Values();
    var lo, hi := x % 0x100, x / 0x100;
    ShlTimes(k, hi);
    XorShl(k, lo, hi);
    ShiftOut(k, hi);
    StepsLinear(lo, Shl(k, hi), k);
    XorComm(Steps(lo, 8), hi);
  }

  /** `crc32c_table`. */
  method Table() returns (table: array<U32>)
    ensures fresh(table) && table.Length == 256
    ensures forall i :: 0 <= i < 256 ==> table[i] == Steps(i, 8)
  {
    hide Step;
    table := new U32[256](i => 0);
    for i := 0 to 256
      invariant forall k :: 0 <= k < i ==> table[k] == Steps(k, 8)
    {
      var c: U32 := i;
      for j := 0 to 8
        invariant Steps(c, 8 - j) == Steps(i, 8)
      {
        c := Step(c);
      }
      table[i] := c;
    }
  }

  /** `crc32c`: a table lookup per byte computes the division. */
  method Crc32c(state: U32, data: seq<Byte>) returns (r: U32)
    ensures r == Crc(state, data)
  {
    hide Steps, Xor32;
    var table := Table();
    r := state;
    for n := 0 to |data|
      invariant r == Crc(state, data[..n])
      invariant forall i :: 0 <= i < 256 ==> table[i] == Steps(i, 8)
    {
      var x := Xor32(r, data[n]);
      assert Crc(state, data[..n + 1]) == Steps(x, 8) by { assert data[..n + 1][..n] == data[..n]; }
      TableStep(x);
      LowByte(r, data[n]);
      r := Xor32(r / 0x100, table[x % 0x100]);
    }
    assert data[..|data|] == data;
  }

  /** The byte does not reach the bits that are shifted: the code shifts `state`, not `state ^ b`. */
  lemma LowByte(r: U32, b: Byte)
    ensures Xor32(r, b) / 0x100 == r / 0x100
  {
    hide Xor, Pow2;
    var lo, hi := r % 0x100, r / 0x100;
    Pow2Values();
    var k := 8;
    ShlTimes(k, hi);
    XorShl(k, lo, hi);
    XorComm(lo, Shl(k, hi));
    XorAssoc(Shl(k, hi), lo, b);
    ByteWidth(lo, b);
    XorComm(Shl(k, hi), Xor(lo, b));
    XorShl(k, Xor(lo, b), hi);
  }

  /** `crc32c_one`. */
  method Crc32cOne(data: seq<Byte>) returns (r: U32)
    ensures r == Xor32(Crc(0xffff_ffff, data), 0xffff_ffff)
  {
    var s := Crc32c(0xffff_ffff, data);
    r := Xor32(s, 0xffff_ffff);
  }

  // The remainder. A polynomial over GF(2) is the list of its coefficients, the highest first. The register,
  // low bit first, is such a list, and so are the bits of the message in the order in which they are sent.

  function XorBits(a: seq<bool>, b: seq<bool>): (c: seq<bool>)
    requires |a| == |b|
    ensures |c| == |a|
  {
    seq(|a|, i requires 0 <= i < |a| => a[i] != b[i])
  }

  function Zero(n: nat): (z: seq<bool>)
    ensures |z| == n
  {
    seq(n, i => false)
  }

  /** The bits of `x`, low bit first. */
  function Bits(x: nat, n: nat): (b: seq<bool>)
    ensures |b| == n
    decreases n
  {
    if n == 0 then [] else [x % 2 == 1] + Bits(x / 2, n - 1)
  }

  /** x^32 plus the polynomial: 33 coefficients. */
  function Castagnoli(): (p: seq<bool>)
    ensures |p| == 33
  {
    [true] + Bits(POLY, 32)
  }

  /** `q * p`, by the coefficients of `q`. */
  function Times(q: seq<bool>, p: seq<bool>): (r: seq<bool>)
    requires |p| == 33
    ensures |r| == |q| + 32
  {
    if q == [] then Zero(32)
    else
      var n := |q| - 1;
      XorBits(Times(q[..n], p) + [false], Zero(n) + (if q[n] then p else Zero(33)))
  }

  /** The bits of a message: bytes in order, each low bit first. */
  function MessageBits(data: seq<Byte>): seq<bool> {
    if data == [] then [] else MessageBits(data[..|data| - 1]) + Bits(data[|data| - 1], 8)
  }

  /** The register, fed one bit at a time. */
  function Serial(state: U32, bits: seq<bool>): U32 {
    if bits == [] then state
    else Step(Xor32(Serial(state, bits[..|bits| - 1]), if bits[|bits| - 1] then 1 else 0))
  }

  /** What is divided: the message times x^32, plus the initial register times x^n. */
  function Dividend(state: U32, bits: seq<bool>): (d: seq<bool>)
    ensures |d| == |bits| + 32
  {
    XorBits(bits + Zero(32), Bits(state, 32) + Zero(|bits|))
  }

  lemma {:induction false} BitsXor(a: nat, b: nat, n: nat)
    ensures Bits(Xor(a, b), n) == XorBits(Bits(a, n), Bits(b, n))
    decreases n
  {
    hide Xor;
    if n > 0 {
      XorUnfold(a, b);
      BitsXor(a / 2, b / 2, n - 1);
    }
  }

  lemma {:induction false} BitsOfZero(n: nat)
    ensures Bits(0, n) == Zero(n)
  {
    if n > 0 { BitsOfZero(n - 1); }
  }

  /** Shifting right drops the first coefficient; above the width there are only zeros. */
  lemma {:induction false} BitsHalf(x: nat, n: nat)
    requires x < Pow2(n + 1)
    ensures Bits(x / 2, n + 1) == Bits(x, n + 1)[1..] + [false]
    decreases n
  {
    if n == 0 {
      assert x / 2 == 0;
      BitsOfZero(1);
    } else {
      BitsHalf(x / 2, n - 1);
    }
  }

  lemma FirstBit(x: nat, n: nat)
    requires n > 0
    ensures Bits(x, n)[0] <==> x % 2 == 1
  {}

  lemma {:induction false} XorWithZero(a: seq<bool>)
    ensures XorBits(a, Zero(|a|)) == a
  {}

  /** One division step, on coefficients: the leading one, if it is set, takes the polynomial away. */
  lemma StepBits(c: U32)
    ensures Bits(Step(c), 32)
         == XorBits(Bits(c, 32)[1..] + [false], if Bits(c, 32)[0] then Bits(POLY, 32) else Zero(32))
  {
    hide Xor, Pow2, Bits, XorBits;
    Pow2Values();
    FirstBit(c, 32);
    BitsHalf(c, 31);
    var half := Bits(c, 32)[1..] + [false];
    if c % 2 == 1 {
      BitsXor(POLY, c / 2, 32);
      XorBitsComm(Bits(POLY, 32), half);
    } else {
      XorWithZero(half);
    }
  }

  lemma XorBitsComm(a: seq<bool>, b: seq<bool>)
    requires |a| == |b|
    ensures XorBits(a, b) == XorBits(b, a)
  {}

  /** Feeding one more bit, on coefficients. */
  lemma FeedBits(c: U32, bit: bool)
    ensures Bits(Step(Xor32(c, if bit then 1 else 0)), 32)
         == XorBits(Bits(c, 32)[1..] + [false], if Bits(c, 32)[0] != bit then Bits(POLY, 32) else Zero(32))
  {
    hide Xor, Bits, Step, XorBits;
    var b: U32 := if bit then 1 else 0;
    var x := Xor32(c, b);
    StepBits(x);
    BitsXor(c, b, 32);
    UnitBits(bit, 32);
    FlipFirst(Bits(c, 32), bit);
  }

  lemma UnitBits(bit: bool, n: nat)
    requires n > 0
    ensures Bits(if bit then 1 else 0, n) == [bit] + Zero(n - 1)
  {
    BitsOfZero(n - 1);
  }

  lemma FlipFirst(r: seq<bool>, bit: bool)
    requires |r| == 32
    ensures XorBits(r, [bit] + Zero(31)) == [r[0] != bit] + r[1..]
  {}

  /** One more bit of the dividend. */
  lemma DividendGrows(state: U32, bits: seq<bool>, i: nat)
    requires bits != [] && i < |bits| + 32
    ensures var n := |bits| - 1;
            Dividend(state, bits)[i] == ((i < n + 32 && Dividend(state, bits[..n])[i]) != (i == n && bits[n]))
  {
    hide Bits;
  }

  /** One step of long division, coefficient by coefficient. */
  lemma DivisionStep(d: seq<bool>, d': seq<bool>, t: seq<bool>, r: seq<bool>, low: seq<bool>, bit: bool, n: nat)
    requires |d| == n + 32 && |d'| == n + 33 && |t| == n + 32 && |r| == 32 && |low| == 32
    requires d == XorBits(t, Zero(n) + r)
    requires forall i :: 0 <= i < n + 33 ==> d'[i] == ((i < n + 32 && d[i]) != (i == n && bit))
    ensures var lead := r[0] != bit;
            var t' := XorBits(t + [false], Zero(n) + (if lead then [true] + low else Zero(33)));
            var r' := XorBits(r[1..] + [false], if lead then low else Zero(32));
            d' == XorBits(t', Zero(n + 1) + r')
  {
    var lead := r[0] != bit;
    var t' := XorBits(t + [false], Zero(n) + (if lead then [true] + low else Zero(33)));
    var r' := XorBits(r[1..] + [false], if lead then low else Zero(32));
    forall i | 0 <= i < n + 33
      ensures d'[i] == XorBits(t', Zero(n + 1) + r')[i]
    {
      if i < n {
      } else if i == n {
      } else {
        var k := i - n - 1;
        assert r'[k] == ((r[1..] + [false])[k] != (lead && low[k]));
        assert t'[i] == ((t + [false])[i] != (lead && low[k]));
      }
    }
  }

  /** Division with remainder: for every register and message there is a quotient. */
  lemma {:induction false} SerialIsRemainder(state: U32, bits: seq<bool>) returns (q: seq<bool>)
    ensures |q| == |bits|
    ensures Dividend(state, bits) == XorBits(Times(q, Castagnoli()), Zero(|bits|) + Bits(Serial(state, bits), 32))
    decreases |bits|
  {
    hide Step, Xor32, Bits, XorBits, Dividend;
    if bits == [] {
      q := [];
      EmptyDividend(state);
    } else {
      var n := |bits| - 1;
      var q0 := SerialIsRemainder(state, bits[..n]);
      var c := Serial(state, bits[..n]);
      var r := Bits(c, 32);
      FeedBits(c, bits[n]);
      q := q0 + [r[0] != bits[n]];
      assert q[..n] == q0;
      forall i | 0 <= i < n + 33 ensures Dividend(state, bits)[i]
         == ((i < n + 32 && Dividend(state, bits[..n])[i]) != (i == n && bits[n]))
      {
        DividendGrows(state, bits, i);
      }
      DivisionStep(Dividend(state, bits[..n]), Dividend(state, bits), Times(q0, Castagnoli()), r, Bits(POLY, 32),
                   bits[n], n);
    }
  }

  lemma EmptyDividend(state: U32)
    ensures Dividend(state, []) == XorBits(Zero(32), Zero(0) + Bits(state, 32))
  {
    hide Bits;
  }

  // The byte form feeds the same bits.

  lemma {:induction false} SerialAppend(state: U32, a: seq<bool>, b: seq<bool>)
    ensures Serial(state, a + b) == Serial(Serial(state, a), b)
    decreases |b|
  {
    hide Step, Xor32;
    if b == [] {
      assert a + b == a;
    } else {
      SerialAppend(state, a, b[..|b| - 1]);
      assert (a + b)[..|a + b| - 1] == a + b[..|b| - 1];
    }
  }

  /** Eight bits fed one by one are eight steps on the register with the byte added. */
  lemma {:induction false} ByteSerial(c: U32, b: U32, n: nat)
    requires b < Pow2(n)
    ensures Serial(c, Bits(b, n)) == Steps(Xor32(c, b), n)
    decreases n
  {
    hide Step, Xor32;
    if n == 0 {
      NothingAdded(c);
    } else {
      var bit := b % 2 == 1;
      var low: U32 := if bit then 1 else 0;
      var c1 := Step(Xor32(c, low));
      SerialAppend(c, [bit], Bits(b / 2, n - 1));
      assert Serial(c, [bit]) == c1 by { assert [bit][..0] == []; }
      ByteSerial(c1, b / 2, n - 1);
      FeedLow(c, b);
    }
  }

  /** The bits that wait are not touched by a step except for the shift. */
  lemma FeedLow(c: U32, b: U32)
    ensures Xor32(Step(Xor32(c, b % 2)), b / 2) == Step(Xor32(c, b))
  {
    hide Xor;
    var low := b % 2;
    assert Step(2 * (b / 2)) == b / 2;
    LowBit(b);
    XorAssoc(c, low, 2 * (b / 2));
    StepLinear(Xor32(c, low), 2 * (b / 2));
  }

  lemma NothingAdded(c: U32)
    ensures Xor32(c, 0) == c
  {
    XorZero(c);
  }

  lemma LowBit(b: U32)
    ensures Xor(b % 2, 2 * (b / 2)) == b
  {
    XorUnfold(b % 2, 2 * (b / 2));
    XorZero(b / 2);
  }

  lemma {:induction false} CrcIsSerial(state: U32, data: seq<Byte>)
    ensures Crc(state, data) == Serial(state, MessageBits(data))
    decreases |data|
  {
    hide Step, Steps, Xor32, Bits, Pow2;
    if data != [] {
      var n := |data| - 1;
      CrcIsSerial(state, data[..n]);
      SerialAppend(state, MessageBits(data[..n]), Bits(data[n], 8));
      Pow2Values();
      ByteSerial(Crc(state, data[..n]), data[n], 8);
    }
  }

  /** The register after a message is the remainder of the polynomial division, for every initial register. */
  lemma CrcIsRemainder(state: U32, data: seq<Byte>) returns (q: seq<bool>)
    ensures var bits := MessageBits(data);
            |q| == |bits|
            && Dividend(state, bits) == XorBits(Times(q, Castagnoli()), Zero(|bits|) + Bits(Crc(state, data), 32))
  {
    hide Dividend, Times, Bits, Serial, Crc;
    CrcIsSerial(state, data);
    q := SerialIsRemainder(state, MessageBits(data));
  }

  // There is only one remainder.

  lemma {:induction false} TimesLinear(a: seq<bool>, b: seq<bool>, p: seq<bool>)
    requires |a| == |b| && |p| == 33
    ensures Times(XorBits(a, b), p) == XorBits(Times(a, p), Times(b, p))
    decreases |a|
  {
    if a != [] {
      var n := |a| - 1;
      TimesLinear(a[..n], b[..n], p);
      assert XorBits(a, b)[..n] == XorBits(a[..n], b[..n]);
    }
  }

  /** The first set coefficient of `q` shows up in the product. */
  lemma {:induction false} LeadingTerm(q: seq<bool>, p: seq<bool>, j: nat)
    requires |p| == 33 && p[0] && j < |q| && q[j] && forall i :: 0 <= i < j ==> !q[i]
    ensures Times(q, p)[j]
    decreases |q|
  {
    var n := |q| - 1;
    if j < n {
      LeadingTerm(q[..n], p, j);
    } else {
      TimesZero(q[..n], p);
    }
  }

  lemma {:induction false} TimesZero(q: seq<bool>, p: seq<bool>)
    requires |p| == 33 && forall i :: 0 <= i < |q| ==> !q[i]
    ensures Times(q, p) == Zero(|q| + 32)
  {
    if q != [] { TimesZero(q[..|q| - 1], p); }
  }

  lemma {:induction false} FirstSet(q: seq<bool>) returns (j: nat)
    requires exists i :: 0 <= i < |q| && q[i]
    ensures j < |q| && q[j] && forall i :: 0 <= i < j ==> !q[i]
  {
    j := 0;
    while !q[j]
      invariant j < |q| && forall i :: 0 <= i < j ==> !q[i]
      decreases |q| - j
    {
      j := j + 1;
    }
  }

  /** Two divisions of the same dividend have the same quotient and the same remainder. */
  lemma RemainderIsUnique(q: seq<bool>, r: seq<bool>, q': seq<bool>, r': seq<bool>)
    requires |q| == |q'| && |r| == 32 && |r'| == 32
    requires XorBits(Times(q, Castagnoli()), Zero(|q|) + r) == XorBits(Times(q', Castagnoli()), Zero(|q|) + r')
    ensures q == q' && r == r'
  {
    hide Bits, Times, XorBits;
    var p := Castagnoli();
    var n := |q|;
    TimesLinear(q, q', p);
    SumsAgree(Times(q, p), Zero(n) + r, Times(q', p), Zero(n) + r');
    ZeroPrefix(r, r', n);
    NoQuotient(XorBits(q, q'), p, XorBits(r, r'));
    XorIsZero(q, q');
    SumsAgree(Times(q, p), Zero(n) + r, Times(q, p), Zero(n) + r');
    XorIsSame(Times(q, p));
    XorIsZero(Zero(n) + r, Zero(n) + r');
    assert r == (Zero(n) + r)[n..] && r' == (Zero(n) + r')[n..];
  }

  lemma ZeroPrefix(r: seq<bool>, r': seq<bool>, n: nat)
    requires |r| == |r'|
    ensures XorBits(Zero(n) + r, Zero(n) + r') == Zero(n) + XorBits(r, r')
  {}

  lemma XorIsSame(a: seq<bool>)
    ensures XorBits(a, a) == Zero(|a|)
  {}

  lemma XorIsZero(a: seq<bool>, b: seq<bool>)
    requires |a| == |b| && XorBits(a, b) == Zero(|a|)
    ensures a == b
  {
    forall i | 0 <= i < |a|
      ensures a[i] == b[i]
    {
      assert XorBits(a, b)[i] == Zero(|a|)[i];
    }
  }

  /** A product of low degree has no quotient. */
  lemma NoQuotient(x: seq<bool>, p: seq<bool>, d: seq<bool>)
    requires |p| == 33 && p[0] && |d| == 32 && Times(x, p) == Zero(|x|) + d
    ensures x == Zero(|x|)
  {
    hide Times;
    if exists i :: 0 <= i < |x| && x[i] {
      var j := FirstSet(x);
      LeadingTerm(x, p, j);
    }
  }

  lemma SumsAgree(t: seq<bool>, z: seq<bool>, t': seq<bool>, z': seq<bool>)
    requires |t| == |z| == |t'| == |z'| && XorBits(t, z) == XorBits(t', z')
    ensures XorBits(t, t') == XorBits(z, z')
  {
    forall i | 0 <= i < |t|
      ensures XorBits(t, t')[i] == XorBits(z, z')[i]
    {
      assert XorBits(t, z)[i] == XorBits(t', z')[i];
    }
  }
}
