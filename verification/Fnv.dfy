/** The snapshot checksum: 64-bit FNV-1a, as section 2 of draft-eastlake-fnv defines it. */
module Fnv {
  import opened Base
  import Bits

  const Basis: Hash := 0xcbf29ce484222325
  const Prime: nat := 0x100000001b3

  /** The inverse of the prime modulo 2^64, and the quotient that shows it. */
  const Inverse: nat := 0xce965057aff6957b
  const Quotient: nat := 887285111055

  function Times(x: nat): (h: Hash) { (x * Prime) % Bits.Word }

  /** One step: xor in a byte, multiply by the prime, keep 64 bits. */
  function Mix(h: Hash, b: Byte): Hash { Times(Bits.Xor(h, Ord(b))) }

  function Checksum(data: Bytes): Hash {
    if data == [] then Basis else Mix(Checksum(data[..|data| - 1]), data[|data| - 1])
  }

  method ChecksumOf(data: Bytes, length: nat) returns (hash: Hash)
    requires length <= |data|
    ensures hash == Checksum(data[..length])
  {
    hide Mix;
    hash := Basis;
    var i := 0;
    while i < length
      invariant 0 <= i <= length && hash == Checksum(data[..i])
    {
      assert data[..i + 1][..i] == data[..i];
      hash := Mix(hash, data[i]);
      i := i + 1;
    }
  }

  // ---------------------------------------------------------------- one step loses nothing

  lemma {:induction false} XorBound(a: nat, b: nat, k: nat)
    requires a < Bits.Pow2(k) && b < Bits.Pow2(k)
    ensures Bits.Xor(a, b) < Bits.Pow2(k)
    decreases k
  {
    if a != 0 && b != 0 { XorBound(a / 2, b / 2, k - 1); }
  }

  /** Xor with the same number twice gives the first one back. */
  lemma {:induction false} XorTwice(a: nat, b: nat)
    ensures Bits.Xor(Bits.Xor(a, b), b) == a
    decreases a + b
  {
    if a == 0 {
      XorSelf(b);
    } else if b != 0 {
      XorTwice(a / 2, b / 2);
      XorTwiceStep(a, b);
    }
  }

  lemma XorTwiceStep(a: nat, b: nat)
    requires Bits.Xor(Bits.Xor(a / 2, b / 2), b / 2) == a / 2
    ensures Bits.Xor(Bits.Xor(a, b), b) == a
  {
    hide Bits.Xor;
    var x := Bits.Xor(a, b);
    XorHalves(a, b);
    XorHalves(x, b);
    ParityBack(a, b, x);
  }

  lemma ParityBack(a: nat, b: nat, x: nat)
    requires x % 2 == (a + b) % 2
    ensures 2 * (a / 2) + (x + b) % 2 == a
  {
  }

  lemma {:induction false} XorSelf(b: nat)
    ensures Bits.Xor(b, b) == 0
  {
    if b != 0 { XorSelf(b / 2); }
  }

  lemma XorHalves(a: nat, b: nat)
    ensures Bits.Xor(a, b) / 2 == Bits.Xor(a / 2, b / 2) && Bits.Xor(a, b) % 2 == (a + b) % 2
    ensures Bits.Xor(a, b) == 2 * Bits.Xor(a / 2, b / 2) + (a + b) % 2
  {
    if a == 0 || b == 0 {
      XorZero(a + b);
      XorZero((a + b) / 2);
    } else {
      var h, bit := Bits.Xor(a / 2, b / 2), (a + b) % 2;
      assert Bits.Xor(a, b) == 2 * h + bit;
      hide Bits.Xor;
      Halves(h, bit);
    }
  }

  lemma XorZero(a: nat)
    ensures Bits.Xor(0, a) == a && Bits.Xor(a, 0) == a
  {
  }

  lemma Halves(h: nat, bit: nat)
    requires bit < 2
    ensures (2 * h + bit) / 2 == h && (2 * h + bit) % 2 == bit
  {
  }

  lemma {:induction false} XorComm(a: nat, b: nat)
    ensures Bits.Xor(a, b) == Bits.Xor(b, a)
    decreases a + b
  {
    if a != 0 && b != 0 { XorComm(a / 2, b / 2); }
  }

  /** Multiplying by a number that has an inverse modulo w can be undone. */
  lemma Unmultiply(x: nat, p: nat, inv: nat, t: nat, w: nat)
    requires 1 <= w && x < w && p * inv == t * w + 1
    ensures (((x * p) % w) * inv) % w == x
  {
    var q, r := (x * p) / w, (x * p) % w;
    assert x * p == q * w + r;
    calc {
      r * inv;
      (x * p - q * w) * inv;
      { Bits.Distribute(x * p, q * w, inv); }
      x * p * inv - q * w * inv;
      { assert x * p * inv == x * (p * inv) == x * (t * w + 1) == x * t * w + x; }
      x * t * w + x - q * w * inv;
      { assert q * w * inv == q * inv * w; Bits.Distribute(x * t, q * inv, w); }
      (x * t - q * inv) * w + x;
    }
    Bits.ModUnique(r * inv, w, x * t - q * inv, x);
  }

  lemma TimesInjective(x: Hash, y: Hash)
    requires Times(x) == Times(y)
    ensures x == y
  {
    assert Prime * Inverse == Quotient * Bits.Word + 1;
    Unmultiply(x, Prime, Inverse, Quotient, Bits.Word);
    Unmultiply(y, Prime, Inverse, Quotient, Bits.Word);
  }

  lemma XorByteBound(h: Hash, b: Byte)
    ensures Bits.Xor(h, Ord(b)) < Bits.Word
  {
    Bits.WordIsPow2();
    XorBound(h, Ord(b), 64);
  }

  /** A step is injective in the state and in the byte. */
  lemma MixInjective(h: Hash, b: Byte, h': Hash, b': Byte)
    requires Mix(h, b) == Mix(h', b')
    ensures b == b' ==> h == h'
    ensures h == h' ==> b == b'
  {
    hide Times, Bits.Xor;
    XorByteBound(h, b);
    XorByteBound(h', b');
    TimesInjective(Bits.Xor(h, Ord(b)), Bits.Xor(h', Ord(b')));
    XorTwice(h, Ord(b));
    XorTwice(h', Ord(b'));
    XorComm(h, Ord(b));
    XorComm(h', Ord(b'));
    XorTwice(Ord(b), h);
    XorTwice(Ord(b'), h');
  }

  /** Two byte strings that differ in exactly one place have different checksums. */
  lemma {:induction false} OneByteDetected(data: Bytes, i: nat, b: Byte)
    requires i < |data| && b != data[i]
    ensures Checksum(data[i := b]) != Checksum(data)
  {
    hide Mix;
    var n := |data| - 1;
    var other := data[i := b];
    if i == n {
      assert other[..n] == data[..n];
      if Mix(Checksum(data[..n]), b) == Mix(Checksum(data[..n]), data[n]) {
        MixInjective(Checksum(data[..n]), b, Checksum(data[..n]), data[n]);
      }
    } else {
      assert other[..n] == data[..n][i := b];
      OneByteDetected(data[..n], i, b);
      if Mix(Checksum(other[..n]), data[n]) == Mix(Checksum(data[..n]), data[n]) {
        MixInjective(Checksum(other[..n]), data[n], Checksum(data[..n]), data[n]);
      }
    }
  }

  // ---------------------------------------------------------------- a test vector

  lemma XorOfA()
    ensures Bits.Xor(0xcbf29ce484222325, 97) == 0xcbf29ce484222344
  {
    hide Bits.Xor;
    XorNothing(0x197e539c9084446);
    XorNext(0x197e539c9084446, 0, 0, 1, 0x197e539c9084446);
    XorNext(0x32fca739210888c, 1, 1, 1, 0x32fca739210888d);
    XorNext(0x65f94e724211119, 3, 0, 0, 0x65f94e72421111a);
    XorNext(0xcbf29ce48422232, 6, 0, 0, 0xcbf29ce48422234);
    XorNext(0x197e539c90844464, 12, 1, 0, 0x197e539c90844468);
    XorNext(0x32fca739210888c9, 24, 0, 0, 0x32fca739210888d1);
    XorNext(0x65f94e7242111192, 48, 1, 1, 0x65f94e72421111a2);
  }

  lemma XorNext(a: nat, b: nat, p: nat, q: nat, x: nat)
    requires p < 2 && q < 2 && Bits.Xor(a, b) == x
    ensures Bits.Xor(2 * a + p, 2 * b + q) == 2 * x + if p == q then 0 else 1
  {
    hide Bits.Xor;
    XorHalves(2 * a + p, 2 * b + q);
  }

  lemma XorNothing(a: nat)
    ensures Bits.Xor(a, 0) == a
  {
  }

  /** The published value of 64-bit FNV-1a for the one-letter text. */
  lemma TestVector()
    ensures Checksum("a") == 0xaf63dc4c8601ec8c
  {
    hide Bits.Xor;
    XorOfA();
    var text: Bytes := "a";
    assert text[..0] == [];
    assert Checksum(text) == Mix(Checksum(text[..0]), 'a');
  }
}
