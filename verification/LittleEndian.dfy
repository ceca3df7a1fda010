/** Fixed-width little-endian numbers, as the snapshot stores them. */
module LittleEndian {
  import opened Base
  import Bits

  /** The low w bytes of n, lowest first. */
  function LE(n: nat, w: nat): (s: Bytes)
    ensures |s| == w
  {
    if w == 0 then [] else [Chr(n % 256)] + LE(n / 256, w - 1)
  }

  function Value(s: Bytes): nat {
    if s == [] then 0 else Ord(s[0]) + 256 * Value(s[1..])
  }

  function Pow256(w: nat): (p: nat)
    ensures p >= 1
  {
    if w == 0 then 1 else 256 * Pow256(w - 1)
  }

  lemma {:induction false} ValueBound(s: Bytes)
    ensures Value(s) < Pow256(|s|)
  {
    if s != [] { ValueBound(s[1..]); }
  }

  /** Writing a number that fits and reading it back gives the number. */
  lemma {:induction false} ReadWritten(n: nat, w: nat)
    requires n < Pow256(w)
    ensures Value(LE(n, w)) == n
  {
    if w > 0 {
      ReadWritten(n / 256, w - 1);
      assert LE(n, w)[1..] == LE(n / 256, w - 1);
    }
  }

  /** Reading bytes and writing the number again gives the bytes. */
  lemma {:induction false} WriteRead(s: Bytes)
    ensures LE(Value(s), |s|) == s
  {
    if s != [] {
      WriteRead(s[1..]);
      assert Value(s) % 256 == Ord(s[0]) && Value(s) / 256 == Value(s[1..]);
      assert Chr(Ord(s[0])) == s[0];
    }
  }

  // ---------------------------------------------------------------- the loops

  lemma {:induction false} LEAt(n: nat, w: nat, i: nat)
    requires i < w
    ensures LE(n, w)[i] == Chr(Bits.And(Bits.Shr(n, 8 * i), 0xff))
  {
    if i == 0 {
      assert LE(n, w)[0] == Chr(n % 256) && Bits.Shr(n, 0) == n;
      hide LE, Bits.And, Bits.Shr;
      LowByte(n);
    } else {
      assert LE(n, w)[i] == LE(n / 256, w - 1)[i - 1];
      hide LE, Bits.And, Bits.Shr;
      LEAt(n / 256, w - 1, i - 1);
      ShrByte(n, 8 * (i - 1));
      assert 8 * (i - 1) + 8 == 8 * i;
    }
  }

  lemma LowByte(n: nat)
    ensures Bits.And(n, 0xff) == n % 256
  {
    hide Bits.And, Bits.Pow2;
    Pow8();
    Bits.AndMask(n, 8);
  }

  lemma Pow8()
    ensures Bits.Pow2(8) == 256
  {
    assert Bits.Pow2(4) == 16;
    Bits.Pow2Add(4, 4);
  }

  lemma ShrByte(n: nat, s: nat)
    ensures Bits.Shr(n, s + 8) == Bits.Shr(n / 256, s)
  {
    hide Bits.Shr, Bits.Pow2;
    ShrTwice(n, 8, s);
    Pow8();
    Bits.ShrBounds(n, 8);
  }

  lemma {:induction false} ShrTwice(n: nat, a: nat, b: nat)
    ensures Bits.Shr(n, a + b) == Bits.Shr(Bits.Shr(n, a), b)
    decreases a
  {
    if a > 0 { ShrTwice(n / 2, a - 1, b); }
  }

  method AppendLE(out: Bytes, value: nat, byteCount: nat) returns (result: Bytes)
    ensures result == out + LE(value, byteCount)
  {
    result := out;
    var i := 0;
    while i < byteCount
      invariant 0 <= i <= byteCount && result == out + LE(value, byteCount)[..i]
    {
      LEAt(value, byteCount, i);
      result := result + [Chr(Bits.And(Bits.Shr(value, 8 * i), 0xff))];
      i := i + 1;
    }
  }

  lemma Scale(b: nat, p: nat)
    ensures 256 * (b * p) == b * (256 * p)
  {
  }

  lemma {:induction false} ValueAppend(s: Bytes, b: Byte)
    ensures Value(s + [b]) == Value(s) + Ord(b) * Pow256(|s|)
  {
    if s == [] {
      assert s + [b] == [b];
    } else {
      ValueAppend(s[1..], b);
      assert (s + [b])[1..] == s[1..] + [b];
      Scale(Ord(b), Pow256(|s| - 1));
    }
  }

  lemma {:induction false} Pow256IsPow2(w: nat)
    ensures Pow256(w) == Bits.Pow2(8 * w)
  {
    if w > 0 {
      Pow256IsPow2(w - 1);
      Pow8();
      Bits.Pow2Add(8, 8 * (w - 1));
    }
  }

  lemma {:induction false} OrComm(a: nat, b: nat)
    ensures Bits.Or(a, b) == Bits.Or(b, a)
    decreases a + b
  {
    if a != 0 && b != 0 { OrComm(a / 2, b / 2); }
  }

  /** A byte shifted above everything read so far adds its weight. */
  lemma OrAbove(v: nat, b: nat, w: nat)
    requires v < Pow256(w)
    ensures Bits.Or(v, b * Pow256(w)) == v + b * Pow256(w)
  {
    Pow256IsPow2(w);
    hide Bits.Or, Bits.Pow2, Pow256;
    OrComm(v, b * Pow256(w));
    Bits.OrHigh(b, 0, v, 8 * w);
    OrZero(v);
  }

  lemma OrZero(v: nat)
    ensures Bits.Or(0, v) == v
  {
  }

  /** Reads byteCount bytes, or fails when the data ends first. */
  method ReadLE(data: Bytes, offset: nat, byteCount: nat) returns (ok: bool, value: nat, next: nat)
    ensures ok == (offset + byteCount <= |data|)
    ensures ok ==> value == Value(data[offset..offset + byteCount]) && next == offset + byteCount
  {
    hide Bits.Or, Pow256;
    value, next := 0, offset;
    if offset + byteCount > |data| {
      return false, 0, offset;
    }
    var i := 0;
    while i < byteCount
      invariant 0 <= i <= byteCount && value == Value(data[offset..offset + i])
    {
      var s := data[offset..offset + i];
      assert data[offset..offset + (i + 1)] == s + [data[offset + i]];
      ValueAppend(s, data[offset + i]);
      ValueBound(s);
      OrAbove(value, Ord(data[offset + i]), i);
      value := Bits.Or(value, Ord(data[offset + i]) * Pow256(i));
      i := i + 1;
    }
    return true, value, offset + byteCount;
  }
}
