/**
  ChaCha20-Poly1305 authenticated encryption (petra/src/crypto/cipher/aead.rs),
  against sections 2.6 and 2.8 of RFC 8439.
*/
module Aead {
  import opened Words
  import opened ChaCha20
  import opened Poly1305Mac

  /** Section 2.6: the first half of block 0 is the Poly1305 key. */
  function OneTimeKey(key: seq<Byte>, nonce: seq<Byte>): (k: seq<Byte>)
    requires |key| == 32 && |nonce| == 12
    ensures |k| == 32
  {
    seq(32, i requires 0 <= i < 32 => KeyStream(key, nonce, 0, i))
  }

  /** As many zeros as bring `n` bytes to a multiple of 16. */
  function Pad16(n: nat): seq<Byte> { Zeros((16 - n % 16) % 16) }

  /** Section 2.8: what the tag is computed over. */
  function MacData(aad: seq<Byte>, ciphertext: seq<Byte>): seq<Byte> {
    aad + Pad16(|aad|) + ciphertext + Pad16(|ciphertext|) + ToLE(|aad|, 8) + ToLE(|ciphertext|, 8)
  }

  function Tag(key: seq<Byte>, nonce: seq<Byte>, aad: seq<Byte>, ciphertext: seq<Byte>): seq<Byte>
    requires |key| == 32 && |nonce| == 12
  {
    Mac(OneTimeKey(key, nonce), MacData(aad, ciphertext))
  }

  /** Ciphertext and tag. */
  function Seal(key: seq<Byte>, nonce: seq<Byte>, aad: seq<Byte>, plaintext: seq<Byte>): (seq<Byte>, seq<Byte>)
    requires |key| == 32 && |nonce| == 12
  {
    var ciphertext := Crypt(key, nonce, 1, plaintext);
    (ciphertext, Tag(key, nonce, aad, ciphertext))
  }

  function Open(key: seq<Byte>, nonce: seq<Byte>, aad: seq<Byte>, ciphertext: seq<Byte>, tag: seq<Byte>)
    : Option<seq<Byte>>
    requires |key| == 32 && |nonce| == 12
  {
    if tag == Tag(key, nonce, aad, ciphertext) then Some(Crypt(key, nonce, 1, ciphertext)) else None
  }

  /** Whatever was sealed opens again, to itself. */
  lemma OpenSeal(key: seq<Byte>, nonce: seq<Byte>, aad: seq<Byte>, plaintext: seq<Byte>)
    requires |key| == 32 && |nonce| == 12
    ensures var (ciphertext, tag) := Seal(key, nonce, aad, plaintext);
            Open(key, nonce, aad, ciphertext, tag) == Some(plaintext)
  {
    hide Crypt, Tag;
    CryptInvolution(key, nonce, 1, plaintext);
  }

  /** The tagged string determines its two parts, so no other pair has the same one. */
  lemma MacDataInjective(a: seq<Byte>, c: seq<Byte>, a': seq<Byte>, c': seq<Byte>)
    requires |a| < 0x1_0000_0000_0000_0000 && |c| < 0x1_0000_0000_0000_0000
    requires |a'| < 0x1_0000_0000_0000_0000 && |c'| < 0x1_0000_0000_0000_0000
    requires MacData(a, c) == MacData(a', c')
    ensures a == a' && c == c'
  {
    hide ToLE, LE;
    var m, m' := MacData(a, c), MacData(a', c');
    var n := |m|;
    assert m[n - 16..n - 8] == ToLE(|a|, 8) && m[n - 8..] == ToLE(|c|, 8);
    assert m'[n - 16..n - 8] == ToLE(|a'|, 8) && m'[n - 8..] == ToLE(|c'|, 8);
    SameLength(|a|, |a'|);
    SameLength(|c|, |c'|);
    var start := |a| + |Pad16(|a|)|;
    assert m[..|a|] == a && m'[..|a|] == a';
    assert m[start..start + |c|] == c && m'[start..start + |c|] == c';
  }

  lemma SameLength(x: U64, y: U64)
    requires ToLE(x, 8) == ToLE(y, 8)
    ensures x == y
  {
    hide ToLE, LE, Pow256;
    Pow256Values();
    LEToLE(x, 8);
    LEToLE(y, 8);
  }

  // The code.

  /** `poly1305_key`. */
  method Poly1305Key(key: seq<Byte>, nonce: seq<Byte>) returns (otk: seq<Byte>)
    requires |key| == 32 && |nonce| == 12
    ensures otk == OneTimeKey(key, nonce)
  {
    hide BlockByte;
    var state := LoadState(key, nonce, 0);
    var block := Block(state);
    otk := block[0..32];
  }

  /** Zeros up to the next multiple of 16, if there are any to feed. */
  method UpdatePad(poly: Poly1305, n: nat)
    requires poly.Valid()
    modifies poly`h, poly`leftover, poly`fed, poly.buffer
    ensures poly.Valid() && poly.fed == old(poly.fed) + Pad16(n)
  {
    hide Poly1305.Valid;
    if n % 16 != 0 {
      poly.Update(Zeros(16 - n % 16));
    }
  }

  /** `compute_mac`: six updates, the paddings only when they are needed. */
  method ComputeMac(otk: seq<Byte>, aad: seq<Byte>, ciphertext: seq<Byte>) returns (tag: seq<Byte>)
    requires |otk| == 32
    ensures tag == Mac(otk, MacData(aad, ciphertext))
  {
    hide Mac, ToLE, Pad16, Poly1305.Valid;
    var poly := new Poly1305(otk);
    poly.Update(aad);
    assert poly.fed == aad;
    UpdatePad(poly, |aad|);
    poly.Update(ciphertext);
    UpdatePad(poly, |ciphertext|);
    poly.Update(ToLE(|aad|, 8));
    poly.Update(ToLE(|ciphertext|, 8));
    tag := poly.Finalize();
  }

  /** `encrypt_in_place`. */
  method EncryptInPlace(key: seq<Byte>, nonce: seq<Byte>, aad: seq<Byte>, data: array<Byte>) returns (tag: seq<Byte>)
    requires |key| == 32 && |nonce| == 12
    modifies data
    ensures (data[..], tag) == Seal(key, nonce, aad, old(data[..]))
  {
    hide Crypt, OneTimeKey, MacData, Mac;
    var otk := Poly1305Key(key, nonce);
    CryptInPlace(key, nonce, 1, data);
    tag := ComputeMac(otk, aad, data[..]);
  }

  lemma {:induction false} OrIsZero(a: nat, b: nat)
    ensures Or(a, b) == 0 <==> a == 0 && b == 0
    decreases a + b
  {
    if a > 0 && b > 0 { OrIsZero(a / 2, b / 2); }
  }

  lemma {:induction false} XorIsZero(a: nat, b: nat)
    ensures Xor(a, b) == 0 <==> a == b
  {
    if a == b { XorSame(a); }
    if Xor(a, b) == 0 {
      XorSelfInverse(a, b);
      XorZero(b);
    }
  }

  /** The constant-time comparison: the differences of all bytes are collected, none is branched on. */
  method SameTag(a: seq<Byte>, b: seq<Byte>) returns (same: bool)
    requires |a| == 16 && |b| == 16
    ensures same <==> a == b
  {
    hide Or, Xor;
    var diff: nat := 0;
    for i := 0 to 16
      invariant diff == 0 <==> a[..i] == b[..i]
    {
      XorIsZero(a[i], b[i]);
      OrIsZero(diff, Xor(a[i], b[i]));
      assert a[..i + 1] == a[..i] + [a[i]] && b[..i + 1] == b[..i] + [b[i]];
      diff := Or(diff, Xor(a[i], b[i]));
    }
    assert a[..16] == a && b[..16] == b;
    same := diff == 0;
  }

  /** `decrypt_in_place`: a wrong tag leaves the data as it is. */
  method DecryptInPlace(key: seq<Byte>, nonce: seq<Byte>, aad: seq<Byte>, data: array<Byte>, expected: seq<Byte>)
    returns (ok: bool)
    requires |key| == 32 && |nonce| == 12 && |expected| == 16
    modifies data
    ensures ok ==> Open(key, nonce, aad, old(data[..]), expected) == Some(data[..])
    ensures !ok ==> Open(key, nonce, aad, old(data[..]), expected) == None && data[..] == old(data[..])
  {
    hide Crypt, OneTimeKey, MacData;
    var otk := Poly1305Key(key, nonce);
    var computed := ComputeMac(otk, aad, data[..]);
    ok := SameTag(computed, expected);
    if ok {
      CryptInPlace(key, nonce, 1, data);
    }
  }
}
