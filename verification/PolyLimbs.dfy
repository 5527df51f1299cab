/**
  Arithmetic modulo 2^130 - 5 on five 26-bit limbs
  (petra/src/crypto/cipher/poly1305.rs): the multiplication with lazy carries and
  the final full reduction, against plain integers.
*/
module PolyLimbs {
  import opened Words

  /** The prime 2^130 - 5. */
  const P: nat := 0x3_ffff_ffff_ffff_ffff_ffff_ffff_ffff_fffb

  /** Five coefficients as one number, in base 2^26. */
  function Value26(a: int, b: int, c: int, d: int, e: int): int {
    a + 0x400_0000 * b + 0x10_0000_0000_0000 * c + 0x4000_0000_0000_0000_0000 * d
    + 0x100_0000_0000_0000_0000_0000_0000 * e
  }

  datatype Limbs = Limbs(l0: U32, l1: U32, l2: U32, l3: U32, l4: U32) {
    function Value(): nat { Value26(l0, l1, l2, l3, l4) }

    /** Every limb below 2^26. */
    predicate Tight() {
      l0 < 0x400_0000 && l1 < 0x400_0000 && l2 < 0x400_0000 && l3 < 0x400_0000 && l4 < 0x400_0000
    }

    /** The bounds between two blocks: `l1` may hold an unpropagated carry. */
    predicate Reduced() {
      l0 < 0x400_0000 && l1 < 0x400_0040 && l2 < 0x400_0000 && l3 < 0x400_0000 && l4 < 0x400_0000
    }

    /** The bounds once a block was added to a reduced accumulator. */
    predicate Loose() {
      l0 < 0x800_0000 && l1 < 0x800_0040 && l2 < 0x800_0000 && l3 < 0x800_0000 && l4 < 0x800_0000
    }
  }

  /** The five column sums of a product, before carries. */
  datatype Columns = Columns(d0: U64, d1: U64, d2: U64, d3: U64, d4: U64) {
    function Value(): nat { Value26(d0, d1, d2, d3, d4) }

    predicate Bounded() {
      && d0 <= 0x2a0_0004_03ff_fed5 && d1 <= 0x2a0_0004_03ff_fed5 && d2 <= 0x2a0_0004_03ff_fed5
      && d3 <= 0x2a0_0004_03ff_fed5 && d4 <= 0xa0_0000_c3ff_ffc5
    }
  }

  lemma Congruent(a: int, b: int, k: int)
    requires a == b + P * k
    ensures a % P == b % P
  {
    ModUnique(a, P, b / P + k, b % P);
  }

  lemma ProductBound(a: nat, b: nat, x: nat, y: nat)
    requires a <= x && b <= y
    ensures 0 <= a * b <= x * y
  {
    assert x * y - a * b == (x - a) * y + a * (y - b);
    assert (x - a) * y >= 0 && a * (y - b) >= 0;
  }

  /** No partial product and no column sum leaves 64 bits. */
  lemma ColumnBound(a0: nat, a1: nat, a2: nat, a3: nat, a4: nat,
                    b0: nat, b1: nat, b2: nat, b3: nat, b4: nat, y: nat)
    requires a0 < 0x800_0000 && a1 < 0x800_0040 && a2 < 0x800_0000 && a3 < 0x800_0000 && a4 < 0x800_0000
    requires b0 <= 0x3ff_ffff && b1 <= y && b2 <= y && b3 <= y && b4 <= y
    ensures 0 <= a0 * b0 + a1 * b1 + a2 * b2 + a3 * b3 + a4 * b4
              <= 0x1f_ffff_f400_0001 + 0x2000_003c * y
  {
    ProductBound(a0, b0, 0x7ff_ffff, 0x3ff_ffff);
    ProductBound(a1, b1, 0x800_003f, y);
    ProductBound(a2, b2, 0x7ff_ffff, y);
    ProductBound(a3, b3, 0x7ff_ffff, y);
    ProductBound(a4, b4, 0x7ff_ffff, y);
  }

  /** The 5x5 schoolbook product, with the columns above 2^130 folded back by 5. */
  function Products(a: Limbs, r: Limbs): (d: Columns)
    requires a.Loose() && r.Tight()
    ensures d.Bounded()
    ensures d.Value() % P == (a.Value() * r.Value()) % P
  {
    var s1, s2, s3, s4 := r.l1 * 5, r.l2 * 5, r.l3 * 5, r.l4 * 5;
    ColumnBound(a.l0, a.l1, a.l2, a.l3, a.l4, r.l0, s4, s3, s2, s1, 0x13ff_fffb);
    ColumnBound(a.l0, a.l1, a.l2, a.l3, a.l4, r.l1, r.l0, s4, s3, s2, 0x13ff_fffb);
    ColumnBound(a.l0, a.l1, a.l2, a.l3, a.l4, r.l2, r.l1, r.l0, s4, s3, 0x13ff_fffb);
    ColumnBound(a.l0, a.l1, a.l2, a.l3, a.l4, r.l3, r.l2, r.l1, r.l0, s4, 0x13ff_fffb);
    ColumnBound(a.l0, a.l1, a.l2, a.l3, a.l4, r.l4, r.l3, r.l2, r.l1, r.l0, 0x3ff_ffff);
    ProductValue(a, r);
    Columns(a.l0 * r.l0 + a.l1 * s4 + a.l2 * s3 + a.l3 * s2 + a.l4 * s1,
            a.l0 * r.l1 + a.l1 * r.l0 + a.l2 * s4 + a.l3 * s3 + a.l4 * s2,
            a.l0 * r.l2 + a.l1 * r.l1 + a.l2 * r.l0 + a.l3 * s4 + a.l4 * s3,
            a.l0 * r.l3 + a.l1 * r.l2 + a.l2 * r.l1 + a.l3 * r.l0 + a.l4 * s4,
            a.l0 * r.l4 + a.l1 * r.l3 + a.l2 * r.l2 + a.l3 * r.l1 + a.l4 * r.l0)
  }

  lemma ProductValue(a: Limbs, r: Limbs)
    ensures Value26(
      a.l0 * r.l0 + a.l1 * (r.l4 * 5) + a.l2 * (r.l3 * 5) + a.l3 * (r.l2 * 5) + a.l4 * (r.l1 * 5),
      a.l0 * r.l1 + a.l1 * r.l0 + a.l2 * (r.l4 * 5) + a.l3 * (r.l3 * 5) + a.l4 * (r.l2 * 5),
      a.l0 * r.l2 + a.l1 * r.l1 + a.l2 * r.l0 + a.l3 * (r.l4 * 5) + a.l4 * (r.l3 * 5),
      a.l0 * r.l3 + a.l1 * r.l2 + a.l2 * r.l1 + a.l3 * r.l0 + a.l4 * (r.l4 * 5),
      a.l0 * r.l4 + a.l1 * r.l3 + a.l2 * r.l2 + a.l3 * r.l1 + a.l4 * r.l0) % P
      == (a.Value() * r.Value()) % P
  {
    RowSum(a, r);
    FoldColumns(a.l0 * r.l0, a.l0 * r.l1, a.l0 * r.l2, a.l0 * r.l3, a.l0 * r.l4,
                a.l1 * r.l0, a.l1 * r.l1, a.l1 * r.l2, a.l1 * r.l3, a.l1 * r.l4,
                a.l2 * r.l0, a.l2 * r.l1, a.l2 * r.l2, a.l2 * r.l3, a.l2 * r.l4,
                a.l3 * r.l0, a.l3 * r.l1, a.l3 * r.l2, a.l3 * r.l3, a.l3 * r.l4,
                a.l4 * r.l0, a.l4 * r.l1, a.l4 * r.l2, a.l4 * r.l3, a.l4 * r.l4);
    Times5(a.l1, r.l4);
    Times5(a.l2, r.l3);
    Times5(a.l2, r.l4);
    Times5(a.l3, r.l2);
    Times5(a.l3, r.l3);
    Times5(a.l3, r.l4);
    Times5(a.l4, r.l1);
    Times5(a.l4, r.l2);
    Times5(a.l4, r.l3);
    Times5(a.l4, r.l4);
  }

  lemma RowSum(a: Limbs, r: Limbs)
    ensures a.Value() * r.Value() == Value26(
      Value26(a.l0 * r.l0, a.l0 * r.l1, a.l0 * r.l2, a.l0 * r.l3, a.l0 * r.l4),
      Value26(a.l1 * r.l0, a.l1 * r.l1, a.l1 * r.l2, a.l1 * r.l3, a.l1 * r.l4),
      Value26(a.l2 * r.l0, a.l2 * r.l1, a.l2 * r.l2, a.l2 * r.l3, a.l2 * r.l4),
      Value26(a.l3 * r.l0, a.l3 * r.l1, a.l3 * r.l2, a.l3 * r.l3, a.l3 * r.l4),
      Value26(a.l4 * r.l0, a.l4 * r.l1, a.l4 * r.l2, a.l4 * r.l3, a.l4 * r.l4))
  {
    Distribute(a.l0, a.l1, a.l2, a.l3, a.l4, r.Value());
    Row(a.l0, r);
    Row(a.l1, r);
    Row(a.l2, r);
    Row(a.l3, r);
    Row(a.l4, r);
  }

  lemma Times5(a: int, r: int)
    ensures a * (r * 5) == 5 * (a * r)
  {}

  lemma Distribute(a0: int, a1: int, a2: int, a3: int, a4: int, r: int)
    ensures Value26(a0, a1, a2, a3, a4) * r == Value26(a0 * r, a1 * r, a2 * r, a3 * r, a4 * r)
  {}

  lemma Row(x: int, r: Limbs)
    ensures x * r.Value() == Value26(x * r.l0, x * r.l1, x * r.l2, x * r.l3, x * r.l4)
  {}

  /** The 25 partial products, with 2^130 taken as 5: linear, so exact. */
  lemma FoldColumns(p00: int, p01: int, p02: int, p03: int, p04: int,
                   p10: int, p11: int, p12: int, p13: int, p14: int,
                   p20: int, p21: int, p22: int, p23: int, p24: int,
                   p30: int, p31: int, p32: int, p33: int, p34: int,
                   p40: int, p41: int, p42: int, p43: int, p44: int)
    ensures Value26(
      p00 + 5 * p14 + 5 * p23 + 5 * p32 + 5 * p41,
      p01 + p10 + 5 * p24 + 5 * p33 + 5 * p42,
      p02 + p11 + p20 + 5 * p34 + 5 * p43,
      p03 + p12 + p21 + p30 + 5 * p44,
      p04 + p13 + p22 + p31 + p40) % P
      == Value26(Value26(p00, p01, p02, p03, p04), Value26(p10, p11, p12, p13, p14),
                 Value26(p20, p21, p22, p23, p24), Value26(p30, p31, p32, p33, p34),
                 Value26(p40, p41, p42, p43, p44)) % P
  {
    Congruent(Value26(Value26(p00, p01, p02, p03, p04), Value26(p10, p11, p12, p13, p14),
                      Value26(p20, p21, p22, p23, p24), Value26(p30, p31, p32, p33, p34),
                      Value26(p40, p41, p42, p43, p44)),
              Value26(p00 + 5 * p14 + 5 * p23 + 5 * p32 + 5 * p41,
                      p01 + p10 + 5 * p24 + 5 * p33 + 5 * p42,
                      p02 + p11 + p20 + 5 * p34 + 5 * p43,
                      p03 + p12 + p21 + p30 + 5 * p44,
                      p04 + p13 + p22 + p31 + p40),
              Value26(p14 + p23 + p32 + p41, p24 + p33 + p42, p34 + p43, p44, 0));
  }

  /** `(d >> 26) as u32` and `(d & 0x3ffffff) as u32`: no bit of a bounded column is lost. */
  method SplitCarry(d: U64) returns (c: U32, m: U32)
    requires d < 0x400_0000_0000_0000
    ensures d == 0x400_0000 * c + m && m < 0x400_0000
  {
    hide And, Pow2;
    c := Low32(d / 0x400_0000);
    ghost var k := Log2(0x400_0000);
    AndLowMask(k, 0x400_0000, d);
    m := Low32(And(d, 0x3ff_ffff));
  }

  /** Moving carries up a limb keeps the value; out of the top limb and back it keeps it modulo P. */
  lemma CarryValue(d0: int, d1: int, d2: int, d3: int, d4: int,
                   m0: int, m1: int, m2: int, m3: int, m4: int,
                   c0: int, c1: int, c2: int, c3: int, c4: int, c: int, m: int)
    requires d0 == 0x400_0000 * c0 + m0
    requires d1 + c0 == 0x400_0000 * c1 + m1
    requires d2 + c1 == 0x400_0000 * c2 + m2
    requires d3 + c2 == 0x400_0000 * c3 + m3
    requires d4 + c3 == 0x400_0000 * c4 + m4
    requires m0 + 5 * c4 == 0x400_0000 * c + m
    ensures Value26(m, m1 + c, m2, m3, m4) % P == Value26(d0, d1, d2, d3, d4) % P
  {
    Congruent(Value26(d0, d1, d2, d3, d4), Value26(m, m1 + c, m2, m3, m4), c4);
  }

  /** The carry out of the top limb stands for 2^130, so it comes back at the bottom times 5. */
  method FoldTop(h0: U32, c4: U32) returns (c: U32, m: U32)
    requires h0 < 0x400_0000 && c4 <= 0x2808_0000
    ensures h0 + 5 * c4 == 0x400_0000 * c + m && m < 0x400_0000 && c < 64
  {
    var t := WrapAdd32(h0, WrapMul32(c4, 5));
    assert t == h0 + 5 * c4;
    c, m := SplitCarry(t);
  }

  /** The lazy carry pass after a product; the top carry comes back in times 5. */
  method Carry(d: Columns) returns (h: Limbs)
    requires d.Bounded()
    ensures h.Reduced()
    ensures h.Value() % P == d.Value() % P
  {
    var c0, h0 := SplitCarry(d.d0);
    var c1, h1 := SplitCarry(d.d1 + c0);
    var c2, h2 := SplitCarry(d.d2 + c1);
    var c3, h3 := SplitCarry(d.d3 + c2);
    var c4, h4 := SplitCarry(d.d4 + c3);
    var c, m := FoldTop(h0, c4);
    var u := WrapAdd32(h1, c);
    assert u == h1 + c;
    h := Limbs(m, u, h2, h3, h4);
    CarryValue(d.d0, d.d1, d.d2, d.d3, d.d4, h0, h1, h2, h3, h4, c0, c1, c2, c3, c4, c, m);
  }

  /** One step of the final carry pass: `l + c`, split again; a carry of at most one stays so. */
  method PassCarry(l: U32, c: U32) returns (c': U32, m: U32)
    requires l < 0x400_0000 && c <= 1
    ensures l + c == 0x400_0000 * c' + m && m < 0x400_0000 && c' <= c
  {
    c', m := SplitCarry(WrapAdd32(l, c));
  }

  /** `finalize` first pushes the pending carry of `l1` through all limbs. */
  method CarryPass(h: Limbs) returns (t: Limbs)
    requires h.Reduced()
    ensures t.Tight()
    ensures t.Value() % P == h.Value() % P
  {
    var c1, h1 := SplitCarry(h.l1);
    assert c1 <= 1 && (c1 == 1 ==> h1 < 64);
    var c2, h2 := PassCarry(h.l2, c1);
    var c3, h3 := PassCarry(h.l3, c2);
    var c4, h4 := PassCarry(h.l4, c3);
    var c, m := FoldTop(h.l0, c4);
    var u := WrapAdd32(h1, c);
    assert u == h1 + c;
    t := Limbs(m, u, h2, h3, h4);
    CarryValue(h.l0, h.l1, h.l2, h.l3, h.l4, h.l0, h1, h2, h3, h4, 0, c1, c2, c3, c4, c, m);
  }

  /** `x & mask` for an all-zeros or all-ones mask. */
  method MaskWord(x: U32, mask: U32) returns (r: U32)
    requires mask == 0 || mask == 0xffff_ffff
    ensures r == if mask == 0 then 0 else x
  {
    hide And, Pow2;
    if mask == 0 {
      AndZero(x);
    } else {
      ghost var k := Log2(0x1_0000_0000);
      AndLowMask(k, 0x1_0000_0000, x);
    }
    r := And(x, mask);
  }

  /** `(h & !mask) | (g & mask)` for one limb. */
  method Choose(mask: U32, h: U32, g: U32) returns (r: U32)
    requires mask == 0 || mask == 0xffff_ffff
    ensures r == if mask == 0 then h else g
  {
    var a := MaskWord(h, 0xffff_ffff - mask);
    var b := MaskWord(g, mask);
    OrZero(a);
    OrZero(b);
    r := Or(a, b);
  }

  /** `g4` and the mask made of its sign bit. */
  method SignMask(top: U32) returns (g4: U32, mask: U32)
    requires top <= 0x400_0000
    ensures top < 0x400_0000 ==> mask == 0
    ensures top == 0x400_0000 ==> mask == 0xffff_ffff && g4 == 0
  {
    g4 := WrapSub32(top, 0x400_0000);
    mask := WrapSub32(g4 / 0x8000_0000, 1);
  }

  lemma PlusFive(h: Limbs, g0: int, g1: int, g2: int, g3: int, c0: int, c1: int, c2: int, c3: int)
    requires h.l0 + 5 == 0x400_0000 * c0 + g0
    requires h.l1 + c0 == 0x400_0000 * c1 + g1
    requires h.l2 + c1 == 0x400_0000 * c2 + g2
    requires h.l3 + c2 == 0x400_0000 * c3 + g3
    requires h.Tight() && 0 <= g0 < 0x400_0000 && 0 <= g1 < 0x400_0000 && 0 <= g2 < 0x400_0000 && 0 <= g3 < 0x400_0000
    ensures h.l4 + c3 < 0x400_0000 ==> h.Value() % P == h.Value()
    ensures h.l4 + c3 == 0x400_0000 ==> h.Value() % P == Value26(g0, g1, g2, g3, 0)
  {
    var v := h.Value();
    assert v + 5 == Value26(g0, g1, g2, g3, h.l4 + c3);
    if h.l4 + c3 < 0x400_0000 {
      ModUnique(v, P, 0, v);
    } else if h.l4 + c3 == 0x400_0000 {
      assert Value26(g0, g1, g2, g3, 0x400_0000) == Value26(g0, g1, g2, g3, 0) + P + 5;
      ModUnique(v, P, 1, Value26(g0, g1, g2, g3, 0));
    }
  }

  /** Branch-free choice between `h` and `h + 5 - 2^130`: the canonical residue. */
  method Select(h: Limbs) returns (t: Limbs)
    requires h.Tight()
    ensures t.Tight()
    ensures t.Value() == h.Value() % P
  {
    var c0, g0 := SplitCarry(WrapAdd32(h.l0, 5));
    var c1, g1 := PassCarry(h.l1, c0);
    var c2, g2 := PassCarry(h.l2, c1);
    var c3, g3 := PassCarry(h.l3, c2);
    PlusFive(h, g0, g1, g2, g3, c0, c1, c2, c3);
    var g4, mask := SignMask(WrapAdd32(h.l4, c3));
    var t0 := Choose(mask, h.l0, g0);
    var t1 := Choose(mask, h.l1, g1);
    var t2 := Choose(mask, h.l2, g2);
    var t3 := Choose(mask, h.l3, g3);
    var t4 := Choose(mask, h.l4, g4);
    t := Limbs(t0, t1, t2, t3, t4);
  }

  // Packing limbs into 32-bit words, and bytes into limbs.

  lemma ShiftMod(b: nat, p: nat, q: nat)
    requires p > 0 && q > 0
    ensures (b * p) % (q * p) == (b % q) * p
  {
    var d, m := b / q, b % q;
    assert b == q * d + m;
    assert b * p == (q * p) * d + m * p by {
      assert (q * d + m) * p == (q * d) * p + m * p;
      assert (q * d) * p == (q * p) * d;
    }
    ProductBound(m, p, q - 1, p);
    assert (q - 1) * p == q * p - p;
    ModUnique(b * p, q * p, d, m * p);
  }

  /** `a | (b << k)`, whose shift drops the bits of `b` above 32. */
  method ShlOr(a: U32, b: U32, p: nat, q: nat, ghost k: nat) returns (r: U32)
    requires p == Pow2(k) && q > 0 && q * p == 0x1_0000_0000 && a < p
    ensures r == a + p * (b % q)
  {
    ShiftMod(b, p, q);
    assert (b % q) * p == p * (b % q);
    OrDisjoint(k, p, a, b % q);
    ProductBound(b % q, p, q - 1, p);
    assert (q - 1) * p == q * p - p;
    r := Or(a, (b * p) % 0x1_0000_0000);
  }

  function Value32(w0: int, w1: int, w2: int, w3: int): int {
    w0 + 0x1_0000_0000 * w1 + 0x1_0000_0000_0000_0000 * w2 + 0x1_0000_0000_0000_0000_0000_0000 * w3
  }

  /** The low 128 bits of the limbs as four words. */
  method Pack(h: Limbs) returns (w0: U32, w1: U32, w2: U32, w3: U32)
    requires h.Tight()
    ensures Value32(w0, w1, w2, w3) == h.Value() % 0x1_0000_0000_0000_0000_0000_0000_0000_0000
  {
    ghost var k0 := Log2(0x400_0000);
    ghost var k1 := Log2(0x10_0000);
    ghost var k2 := Log2(0x4000);
    ghost var k3 := Log2(0x100);
    w0 := ShlOr(h.l0, h.l1, 0x400_0000, 0x40, k0);
    w1 := ShlOr(h.l1 / 0x40, h.l2, 0x10_0000, 0x1000, k1);
    w2 := ShlOr(h.l2 / 0x1000, h.l3, 0x4000, 0x4_0000, k2);
    w3 := ShlOr(h.l3 / 0x4_0000, h.l4, 0x100, 0x100_0000, k3);
    PackValue(h, w0, w1, w2, w3);
  }

  lemma PackValue(h: Limbs, w0: U32, w1: U32, w2: U32, w3: U32)
    requires w0 == h.l0 + 0x400_0000 * (h.l1 % 0x40)
    requires w1 == h.l1 / 0x40 + 0x10_0000 * (h.l2 % 0x1000)
    requires w2 == h.l2 / 0x1000 + 0x4000 * (h.l3 % 0x4_0000)
    requires w3 == h.l3 / 0x4_0000 + 0x100 * (h.l4 % 0x100_0000)
    ensures Value32(w0, w1, w2, w3) == h.Value() % 0x1_0000_0000_0000_0000_0000_0000_0000_0000
  {
    var v := Value32(w0, w1, w2, w3);
    assert h.l1 == 0x40 * (h.l1 / 0x40) + h.l1 % 0x40;
    assert h.l2 == 0x1000 * (h.l2 / 0x1000) + h.l2 % 0x1000;
    assert h.l3 == 0x4_0000 * (h.l3 / 0x4_0000) + h.l3 % 0x4_0000;
    assert h.l4 == 0x100_0000 * (h.l4 / 0x100_0000) + h.l4 % 0x100_0000;
    ModUnique(h.Value(), 0x1_0000_0000_0000_0000_0000_0000_0000_0000, h.l4 / 0x100_0000, v);
  }

  /** One 64-bit sum of the pad addition: the low word goes out, the rest is the carry. */
  method AddWord(w: U32, p: U32, carry: nat) returns (low: U32, c: nat)
    requires carry <= 1
    ensures w + p + carry == 0x1_0000_0000 * c + low && c <= 1
  {
    var f: U64 := w + p + carry;
    low, c := Low32(f), f / 0x1_0000_0000;
  }

  /** `h + pad` modulo 2^128, as 16 little-endian bytes. */
  method AddPad(w0: U32, w1: U32, w2: U32, w3: U32, p0: U32, p1: U32, p2: U32, p3: U32) returns (out: seq<Byte>)
    ensures out == ToLE((Value32(w0, w1, w2, w3) + Value32(p0, p1, p2, p3))
                        % 0x1_0000_0000_0000_0000_0000_0000_0000_0000, 16)
  {
    var f0, c0 := AddWord(w0, p0, 0);
    var f1, c1 := AddWord(w1, p1, c0);
    var f2, c2 := AddWord(w2, p2, c1);
    var f3, c3 := AddWord(w3, p3, c2);
    out := ToLE(f0, 4) + (ToLE(f1, 4) + (ToLE(f2, 4) + ToLE(f3, 4)));
    Pow256Values();
    WordsToLE(f0, f1, f2, f3, 4);
    ModUnique(Value32(w0, w1, w2, w3) + Value32(p0, p1, p2, p3),
              0x1_0000_0000_0000_0000_0000_0000_0000_0000, c3, Value32(f0, f1, f2, f3));
  }

  lemma WordsToLE(w0: U32, w1: U32, w2: U32, w3: U32, n: nat)
    requires Pow256(n) == 0x1_0000_0000
    ensures ToLE(Value32(w0, w1, w2, w3), n + (n + (n + n)))
         == ToLE(w0, n) + (ToLE(w1, n) + (ToLE(w2, n) + ToLE(w3, n)))
  {
    var x2 := w2 + 0x1_0000_0000 * w3;
    var x1 := w1 + 0x1_0000_0000 * x2;
    assert Value32(w0, w1, w2, w3) == w0 + 0x1_0000_0000 * x1;
    ToLESplit(w0, x1, n, n + (n + n));
    ToLESplit(w1, x2, n, n + n);
    ToLESplit(w2, w3, n, n);
  }
}
