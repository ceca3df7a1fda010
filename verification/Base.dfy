/** Types shared by every part of the model. */
module Base {

  /** A byte of a `std::string`; written as a character so that text literals can be used. */
  type Byte = c: char | c as int < 256 witness 'a'
  type Bytes = seq<Byte>

  type Key = Bytes

  /** A 64-bit hash value. */
  type Hash = h: nat | h < 0x1_0000_0000_0000_0000

  datatype Option<+T> = None | Some(value: T)

  function Ord(b: Byte): (n: nat)
    ensures n < 256
  {
    b as int
  }

  function Chr(n: nat): (b: Byte)
    requires n < 256
    ensures Ord(b) == n
  {
    n as char
  }

  function Min(a: nat, b: nat): nat { if a <= b then a else b }

  function Max(a: nat, b: nat): nat { if a <= b then b else a }

  /** An even share, rounded down. */
  function Share(total: nat, n: nat): (s: nat)
    requires n >= 1
    ensures s * n <= total
  {
    total / n
  }

  ghost predicate Distinct<T>(s: seq<T>) {
    forall i, j :: 0 <= i < j < |s| ==> s[i] != s[j]
  }

  ghost function Elements<T>(s: seq<T>): set<T> {
    set x | x in s
  }

  /** A distinct sequence has as many elements as positions. */
  lemma {:induction false} DistinctLength<T>(s: seq<T>)
    requires Distinct(s)
    ensures |Elements(s)| == |s|
  {
    if s != [] {
      var t := s[..|s| - 1];
      DistinctLength(t);
      assert s == t + [s[|s| - 1]];
      assert Elements(s) == Elements(t) + {s[|s| - 1]};
    }
  }
}
