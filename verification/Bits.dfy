/** Powers of two, the bitwise operators on naturals, and the two power-of-two round-ups. */
module Bits {

  function Pow2(k: nat): (p: nat)
    ensures p >= 1
  {
    if k == 0 then 1 else 2 * Pow2(k - 1)
  }

  ghost predicate IsPow2(n: nat) {
    exists k: nat :: n == Pow2(k)
  }

  function And(a: nat, b: nat): (r: nat)
    ensures r <= a && r <= b
    decreases a
  {
    if a == 0 || b == 0 then 0 else 2 * And(a / 2, b / 2) + (if a % 2 == 1 && b % 2 == 1 then 1 else 0)
  }

  function Or(a: nat, b: nat): nat
    decreases a + b
  {
    if a == 0 then b else if b == 0 then a
    else 2 * Or(a / 2, b / 2) + (if a % 2 == 1 || b % 2 == 1 then 1 else 0)
  }

  function Xor(a: nat, b: nat): nat
    decreases a + b
  {
    if a == 0 then b else if b == 0 then a
    else 2 * Xor(a / 2, b / 2) + (a + b) % 2
  }

  lemma {:induction false} Pow2Add(a: nat, b: nat)
    ensures Pow2(a + b) == Pow2(a) * Pow2(b)
  {
    if a > 0 { Pow2Add(a - 1, b); }
  }

  lemma {:induction false} Pow2Mono(a: nat, b: nat)
    requires a <= b
    ensures Pow2(a) <= Pow2(b)
    ensures a < b ==> 2 * Pow2(a) <= Pow2(b)
    decreases b
  {
    if a < b { Pow2Mono(a, b - 1); }
  }

  lemma HalfMod(h: nat, m: nat)
    requires m >= 1
    ensures h % (2 * m) == 2 * ((h / 2) % m) + h % 2
  {
    var q, r := (h / 2) / m, (h / 2) % m;
    assert h == 2 * (q * m + r) + h % 2;
    assert 2 * (q * m + r) == q * (2 * m) + 2 * r;
    ModUnique(h, 2 * m, q, 2 * r + h % 2);
  }

  lemma MulMono(a: int, b: int, m: nat)
    ensures a <= b ==> a * m <= b * m
  {
  }

  lemma ModUnique(x: int, m: nat, q: int, r: nat)
    requires m >= 1 && r < m && x == q * m + r
    ensures x % m == r && x / m == q
  {
    var q', r' := x / m, x % m;
    assert x == q' * m + r';
    assert (q - q') * m == r' - r;
    MulMono(1, q - q', m);
    MulMono(q - q', -1, m);
  }

  /** Masking with a power of two less one keeps the low bits: the bucket index is a remainder. */
  lemma AndMask(h: nat, k: nat)
    ensures And(h, Pow2(k) - 1) == h % Pow2(k)
  {
    hide And, Pow2;
    MaskLow(h, k);
  }

  /** The remainder by m, named so that proofs can pass it on unopened. */
  function Low(h: nat, m: nat): nat
    requires m >= 1
  {
    h % m
  }

  lemma {:induction false} MaskLow(h: nat, k: nat)
    ensures And(h, Pow2(k) - 1) == Low(h, Pow2(k))
  {
    if k == 0 {
      assert And(h, 0) == 0 && Pow2(0) == 1;
    } else {
      var m := Pow2(k - 1);
      assert Pow2(k) == 2 * m;
      hide And, Pow2, Low;
      MaskLow(h / 2, k - 1);
      MaskStep(h, m);
    }
  }

  lemma MaskStep(h: nat, m: nat)
    requires m >= 1 && And(h / 2, m - 1) == Low(h / 2, m)
    ensures And(h, 2 * m - 1) == Low(h, 2 * m)
  {
    hide And;
    AndOdd(h, m - 1);
    HalfMod(h, m);
  }

  lemma AndOdd(h: nat, m: nat)
    ensures And(h, 2 * m + 1) == 2 * And(h / 2, m) + h % 2
  {
    assert (2 * m + 1) / 2 == m;
  }

  lemma {:induction false} OrBounds(a: nat, b: nat, k: nat)
    requires a < Pow2(k) && b < Pow2(k)
    ensures a <= Or(a, b) < Pow2(k) && b <= Or(a, b)
    decreases k
  {
    if a != 0 && b != 0 {
      OrBounds(a / 2, b / 2, k - 1);
    }
  }

  /** The left shift `a << k`. */
  function Shl(a: nat, k: nat): nat { if k == 0 then a else 2 * Shl(a, k - 1) }

  lemma {:induction false} ShlTimes(a: nat, k: nat)
    ensures Shl(a, k) == a * Pow2(k)
  {
    if k > 0 {
      ShlTimes(a, k - 1);
      Double(a, Pow2(k - 1));
    }
  }

  lemma {:induction false} OrShl(a: nat, r: nat, x: nat, k: nat)
    requires r < Pow2(k) && x < Pow2(k)
    ensures Or(Shl(a, k) + r, x) == Shl(a, k) + Or(r, x)
    decreases k
  {
    if k > 0 {
      var m, p := Shl(a, k - 1), Pow2(k - 1);
      assert Shl(a, k) == 2 * m && Pow2(k) == 2 * p;
      hide Or, Shl, Pow2;
      assert r / 2 < p && x / 2 < p;
      OrShl(a, r / 2, x / 2, k - 1);
      OrAboveHalf(m, r, x);
    }
  }

  /** High bits above position k pass through an `or` whose other operand lies below it. */
  lemma OrHigh(a: nat, r: nat, x: nat, k: nat)
    requires r < Pow2(k) && x < Pow2(k)
    ensures Or(a * Pow2(k) + r, x) == a * Pow2(k) + Or(r, x)
  {
    hide Or, Shl, Pow2;
    OrShl(a, r, x, k);
    ShlTimes(a, k);
  }

  lemma OrAboveHalf(m: nat, r: nat, x: nat)
    requires Or(m + r / 2, x / 2) == m + Or(r / 2, x / 2)
    ensures Or(2 * m + r, x) == 2 * m + Or(r, x)
  {
    hide Or;
    OrHalves(2 * m + r, x);
    OrHalves(r, x);
  }

  lemma OrHalves(a: nat, b: nat)
    ensures Or(a, b) == 2 * Or(a / 2, b / 2) + if a % 2 == 1 || b % 2 == 1 then 1 else 0
  {
    if a == 0 {
      assert Or(0, b / 2) == b / 2;
    } else if b == 0 {
      assert Or(a / 2, 0) == a / 2;
    }
  }

  /** The number of bits needed to write n. */
  function Width(n: nat): (w: nat)
    ensures n < Pow2(w) && (n > 0 ==> w > 0 && Pow2(w - 1) <= n)
  {
    if n == 0 then 0 else 1 + Width(n / 2)
  }

  lemma WidthUnique(n: nat, w: nat)
    requires n < Pow2(w) && n > 0 && w > 0 && Pow2(w - 1) <= n
    ensures w == Width(n)
  {
    if w < Width(n) { Pow2Mono(w, Width(n) - 1); }
    if Width(n) < w { Pow2Mono(Width(n), w - 1); }
  }

  /** The least power of two that is at least n. */
  function RoundUp(n: nat): (p: nat)
    ensures p >= 1
  {
    if n <= 1 then 1 else Pow2(Width(n - 1))
  }

  lemma RoundUpIsLeast(n: nat)
    ensures IsPow2(RoundUp(n)) && n <= RoundUp(n)
    ensures forall k: nat :: n <= Pow2(k) ==> RoundUp(n) <= Pow2(k)
  {
    assert Pow2(0) == 1;
    assert IsPow2(RoundUp(n));
    forall k: nat | n <= Pow2(k)
      ensures RoundUp(n) <= Pow2(k)
    {
      if n > 1 {
        var w := Width(n - 1);
        if k < w { Pow2Mono(k, w - 1); } else { Pow2Mono(w, k); }
      }
    }
  }

  /** The right shift `n >> s`. */
  function Shr(n: nat, s: nat): (q: nat)
    ensures q <= n
  {
    if s == 0 then n else Shr(n / 2, s - 1)
  }

  /** A right shift is the quotient by the power of two. */
  lemma {:induction false} ShrBounds(n: nat, s: nat)
    ensures Shr(n, s) * Pow2(s) <= n < (Shr(n, s) + 1) * Pow2(s)
  {
    if s > 0 {
      var q, p := Shr(n / 2, s - 1), Pow2(s - 1);
      ShrBounds(n / 2, s - 1);
      Double(q, p);
      Double(q + 1, p);
    }
  }

  lemma Double(q: nat, p: nat)
    ensures q * (2 * p) == 2 * (q * p)
  {
  }

  /** One smearing step: `n |= n >> s`. */
  function Smear(n: nat, s: nat): nat { Or(n, Shr(n, s)) }

  /** The top t of the w bits of n are ones. */
  ghost predicate TopOnes(n: nat, w: nat, t: nat) {
    n < Pow2(w) && t <= w && Pow2(w) <= n + Pow2(w - t)
  }

  /** The shifted copy of n fills the bits just below the top t. */
  lemma ShiftedBounds(n: nat, w: nat, t: nat)
    requires TopOnes(n, w, t)
    ensures Shr(n, t) < Pow2(w - t)
    ensures 2 * t <= w ==> Pow2(w - t) <= Shr(n, t) + Pow2(w - 2 * t)
    ensures 2 * t > w ==> Pow2(w - t) <= Shr(n, t) + 1
  {
    hide Shr, Pow2;
    var lo, d := w - t, Pow2(t);
    Pow2Add(t, lo);
    ShrBelow(n, t, Pow2(lo));
    if 2 * t <= w {
      Pow2Add(t, lo - t);
      Pow2Mono(lo - t, lo);
      Distribute(Pow2(lo), Pow2(lo - t), d);
      ShrAtLeast(n, t, Pow2(lo) - Pow2(lo - t));
    } else {
      Pow2Mono(lo, t);
      Distribute(Pow2(lo), 1, d);
      ShrAtLeast(n, t, Pow2(lo) - 1);
    }
  }

  lemma Distribute(a: int, b: int, d: int)
    ensures (a - b) * d == d * a - d * b == a * d - b * d
  {
  }

  lemma ShrBelow(n: nat, s: nat, q: nat)
    requires n < q * Pow2(s)
    ensures Shr(n, s) < q
  {
    ShrBounds(n, s);
    MulMono(q, Shr(n, s), Pow2(s));
  }

  lemma ShrAtLeast(n: nat, s: nat, q: nat)
    requires q * Pow2(s) <= n
    ensures Shr(n, s) >= q
  {
    ShrBounds(n, s);
    MulMono(Shr(n, s) + 1, q, Pow2(s));
  }

  /** A shifted copy of x lies under the ones of n, so the `or` keeps the ones and gains x. */
  lemma OrTopOnes(n: nat, w: nat, t: nat, x: nat)
    requires TopOnes(n, w, t) && x < Pow2(w - t)
    ensures Pow2(w) - Pow2(w - t) + x <= Or(n, x) < Pow2(w)
  {
    hide Or, Pow2;
    var lo := w - t;
    var p := Pow2(lo);
    var r := n + p - Pow2(w);
    Pow2Add(t, lo);
    Distribute(Pow2(t), 1, p);
    OrHigh(Pow2(t) - 1, r, x, lo);
    OrBounds(r, x, lo);
  }

  lemma SmearDoubles(n: nat, w: nat, t: nat)
    requires TopOnes(n, w, t)
    ensures 2 * t <= w ==> TopOnes(Smear(n, t), w, 2 * t)
    ensures 2 * t > w ==> TopOnes(Smear(n, t), w, w)
  {
    ShiftedBounds(n, w, t);
    OrTopOnes(n, w, t, Shr(n, t));
  }

  lemma SmearFull(n: nat, w: nat, s: nat)
    requires TopOnes(n, w, w)
    ensures Smear(n, s) == n
  {
    OrBounds(n, Shr(n, s), w);
  }

  /** Repeated smearing, with the known run of ones capped at the width. */
  lemma SmearStep(n: nat, w: nat, s: nat)
    requires TopOnes(n, w, if s <= w then s else w)
    ensures TopOnes(Smear(n, s), w, if 2 * s <= w then 2 * s else w)
  {
    if s <= w {
      SmearDoubles(n, w, s);
    } else {
      SmearFull(n, w, s);
    }
  }

  const Word: nat := 0x1_0000_0000_0000_0000

  /** The six smearing steps of a 64-bit word. */
  function SmearAll(m: nat): nat {
    var a := Smear(m, 1);
    var b := Smear(a, 2);
    var c := Smear(b, 4);
    var d := Smear(c, 8);
    var e := Smear(d, 16);
    Smear(e, 32)
  }

  /** HashTable's bit-smearing round-up on a 64-bit `size_t`, whose final increment wraps. */
  function SmearRoundUp(n: nat): nat
    requires n < Word
  {
    if n <= 1 then 1 else (SmearAll(n - 1) + 1) % Word
  }

  lemma WordIsPow2()
    ensures Word == Pow2(64)
  {
    assert Pow2(2) == 4;
    hide Pow2;
    Pow2Square(2, 4);
    Pow2Square(4, 0x10);
    Pow2Square(8, 0x100);
    Pow2Square(16, 0x1_0000);
    Pow2Square(32, 0x1_0000_0000);
  }

  lemma Pow2Square(k: nat, p: nat)
    requires Pow2(k) == p
    ensures Pow2(2 * k) == p * p
  {
    Pow2Add(k, k);
  }

  /** Six smearing steps fill every bit below the top one of a word of at most 64 bits. */
  lemma SmearsFill(m: nat)
    requires 0 < m < Pow2(64)
    ensures SmearAll(m) + 1 == Pow2(Width(m))
  {
    var w := Width(m);
    if w > 64 { Pow2Mono(64, w - 1); }
    var a := Smear(m, 1);
    var b := Smear(a, 2);
    var c := Smear(b, 4);
    var d := Smear(c, 8);
    var e := Smear(d, 16);
    SmearStep(m, w, 1);
    SmearStep(a, w, 2);
    SmearStep(b, w, 4);
    SmearStep(c, w, 8);
    SmearStep(d, w, 16);
    SmearStep(e, w, 32);
  }

  lemma ModWord(p: nat)
    ensures p < Word ==> p % Word == p
    ensures Word % Word == 0
  {
  }

  /** The smearing round-up is the least power of two wherever that fits in 64 bits, and 0 elsewhere. */
  lemma SmearRoundUpExact(n: nat)
    requires n < Word
    ensures n <= Pow2(63) ==> SmearRoundUp(n) == RoundUp(n)
    ensures n > Pow2(63) ==> SmearRoundUp(n) == 0
  {
    hide SmearAll, Width, Pow2;
    WordIsPow2();
    if n > 1 {
      SmearsFill(n - 1);
      WidthAtWord(n - 1);
      ModWord(SmearAll(n - 1) + 1);
    }
  }

  lemma WidthAtWord(m: nat)
    requires 0 < m < Pow2(64)
    ensures m < Pow2(63) ==> Pow2(Width(m)) < Pow2(64)
    ensures m >= Pow2(63) ==> Width(m) == 64
  {
    var w := Width(m);
    if m < Pow2(63) {
      if w > 63 { Pow2Mono(63, w - 1); }
      Pow2Mono(w, 63);
    } else {
      if w < 64 { Pow2Mono(w, 63); }
      if w > 64 { Pow2Mono(64, w - 1); }
    }
  }

  /** Database's doubling loop. */
  method DoublingRoundUp(n: nat) returns (result: nat)
    ensures result == RoundUp(n)
  {
    result := 1;
    ghost var k: nat := 0;
    while result < n
      invariant result == Pow2(k)
      invariant k > 0 ==> Pow2(k - 1) < n
    {
      result := result * 2;
      k := k + 1;
    }
    if n > 1 { WidthUnique(n - 1, k); }
  }

  lemma Pow2Double(n: nat)
    requires IsPow2(n)
    ensures IsPow2(2 * n)
  {
    var k: nat :| n == Pow2(k);
    assert 2 * n == Pow2(k + 1);
  }

  lemma RoundUpFixed(n: nat)
    requires IsPow2(n)
    ensures RoundUp(n) == n
  {
    var k: nat :| n == Pow2(k);
    if k > 0 { WidthUnique(n - 1, k); }
  }
}
