/**
 Why lengths must fit their four bytes. The encoder writes the length of a key modulo 2^32,
 so a snapshot with a key of 4 GiB can be one byte for byte with a snapshot of other
 records, and is then loaded as those without any error.
 */
module Giant {
  import opened Base
  import opened LittleEndian
  import opened Codec
  import TS = TableSpec

  const Wrap: nat := 0x1_0000_0000
  const Size: nat := 512 * 1024 * 1024

  function Zeros(n: nat): (s: Bytes)
    ensures |s| == n && forall i :: 0 <= i < n ==> s[i] == Chr(0)
  {
    seq(n, _ => Chr(0))
  }

  // ---------------------------------------------------------------- the pieces

  /** A length beyond the prefix is written as its remainder. */
  lemma {:induction false} LEWraps(n: nat, w: nat)
    ensures LE(n + Pow256(w), w) == LE(n, w)
  {
    if w > 0 {
      var m := n + Pow256(w);
      assert m % 256 == n % 256 && m / 256 == n / 256 + Pow256(w - 1);
      LEWraps(n / 256, w - 1);
    }
  }

  lemma {:induction false} LEZero(w: nat)
    ensures LE(0, w) == Zeros(w)
  {
    if w > 0 {
      LEZero(w - 1);
      assert LE(0, w) == [Chr(0)] + LE(0, w - 1);
    }
  }

  lemma WrapIsPow()
    ensures Pow256(4) == Wrap
  {
    assert Pow256(2) == 65536;
    assert Pow256(4) == 256 * (256 * Pow256(2));
  }

  lemma RecordLength(r: Record)
    ensures |EncodeRecord(r)| == 16 + |r.key| + |r.value|
  {
  }

  lemma {:induction false} RecordsLength(rs: seq<Record>, n: nat)
    requires forall i :: 0 <= i < |rs| ==> |EncodeRecord(rs[i])| == n
    ensures |EncodeRecords(rs)| == |rs| * n
  {
    hide EncodeRecord;
    if rs != [] { RecordsLength(rs[1..], n); }
  }

  const Blank: Record := Record([], [], 0)

  lemma BlankZeros()
    ensures EncodeRecord(Blank) == Zeros(16)
  {
    LEZero(4);
    LEZero(8);
    hide LE;
    assert EncodeRecord(Blank) == Zeros(4) + [] + Zeros(4) + [] + Zeros(8);
  }

  lemma {:induction false} BlanksZeros(n: nat)
    ensures EncodeRecords(seq(n, _ => Blank)) == Zeros(16 * n)
  {
    var s := seq(n, _ => Blank);
    if n > 0 {
      assert s[0] == Blank && s[1..] == seq(n - 1, _ => Blank);
      BlanksZeros(n - 1);
      BlankZeros();
      assert Zeros(16) + Zeros(16 * (n - 1)) == Zeros(16 * n);
    }
  }

  // ---------------------------------------------------------------- the two snapshots

  /** Eight records of exactly 512 MiB once encoded, 4 GiB together. */
  function Bulk(): (rs: seq<Record>)
    ensures |rs| == 8
  {
    [Record(Zeros(16), Zeros(Size - 32), 0)] + seq(7, _ => Record([], Zeros(Size - 16), 0))
  }

  /** A record whose value holds the end of another snapshot. */
  function Last(): Record { Record([], Zeros(144), 0) }

  /** What is read: nine records with no field over 512 MiB. */
  function Short(): (rs: seq<Record>)
    ensures |rs| == 9
  {
    Bulk() + [Last()]
  }

  function Bytes9(): Bytes { EncodeRecords(Short()) }

  /** What is written: a key of 4 GiB and 16 bytes, which swallows the eight, and eight blank records. */
  ghost function Long(): (rs: seq<Record>)
    ensures |rs| == 9
  {
    BytesLength();
    [Record(Bytes9()[4..Wrap + 20], [], 0)] + seq(8, _ => Blank)
  }

  lemma BulkLength()
    ensures |EncodeRecords(Bulk())| == Wrap
  {
    var rs := Bulk();
    forall i | 0 <= i < |rs|
      ensures |EncodeRecord(rs[i])| == Size
    {
      RecordLength(rs[i]);
    }
    hide EncodeRecord;
    RecordsLength(rs, Size);
  }

  lemma BytesLength()
    ensures Bytes9() == EncodeRecords(Bulk()) + EncodeRecord(Last())
    ensures |EncodeRecords(Bulk())| == Wrap && |EncodeRecord(Last())| == 160 && |Bytes9()| == Wrap + 160
  {
    hide EncodeRecords;
    RecordsJoin(Bulk(), [Last()]);
    OneRecord(Last());
    BulkLength();
    RecordLength(Last());
  }

  /** The first length of the short snapshot is that of a key of 16 bytes. */
  lemma Prefix()
    ensures |Bytes9()| >= 4 && Bytes9()[..4] == LE(16, 4)
  {
    BytesLength();
    BulkFirst();
    var first, others, last := Bulk()[0], EncodeRecords(Bulk()[1..]), EncodeRecord(Last());
    hide LE, EncodeRecords, EncodeRecord, Bulk, Last, Bytes9;
    TS.Associate(EncodeRecord(first), others, last);
    Opens(first, others + last);
  }

  lemma BulkFirst()
    ensures |Bulk()[0].key| == 16
    ensures EncodeRecords(Bulk()) == EncodeRecord(Bulk()[0]) + EncodeRecords(Bulk()[1..])
  {
    var first, others := Bulk()[0], Bulk()[1..];
    assert Bulk() == [first] + others && |first.key| == 16;
    hide EncodeRecords, EncodeRecord, Bulk;
    RecordsFirst(first, others);
  }

  lemma Opens(r: Record, rest: Bytes)
    ensures (EncodeRecord(r) + rest)[..4] == LE(|r.key|, 4)
  {
    hide LE;
  }

  /** And its last 140 bytes are zero. */
  lemma Suffix()
    ensures |Bytes9()| == Wrap + 160 && Bytes9()[Wrap + 20..] == Zeros(140)
  {
    BytesLength();
    LastTail();
    hide EncodeRecord, EncodeRecords;
    assert Bytes9()[Wrap + 20..] == EncodeRecord(Last())[20..];
  }

  lemma LastTail()
    ensures |EncodeRecord(Last())| == 160 && EncodeRecord(Last())[20..] == Zeros(140)
  {
    LEZero(8);
    ZerosJoin(144, 8);
    hide LE, Zeros;
    var head: Bytes := LE(0, 4) + LE(144, 4);
    assert EncodeRecord(Last()) == head + (Zeros(144) + Zeros(8));
    AfterHead(head);
  }

  lemma ZerosJoin(a: nat, b: nat)
    ensures Zeros(a) + Zeros(b) == Zeros(a + b)
  {
  }

  lemma AfterHead(head: Bytes)
    requires |head| == 8
    ensures (head + Zeros(152))[20..] == Zeros(140)
  {
  }

  lemma RecordsFirst(r: Record, rs: seq<Record>)
    ensures EncodeRecords([r] + rs) == EncodeRecord(r) + EncodeRecords(rs)
  {
    assert ([r] + rs)[1..] == rs;
  }

  /** The giant key, its wrapped length and its empty value are the same bytes. */
  lemma GiantRecord(b: Bytes)
    requires |b| == Wrap + 160 && b[..4] == LE(16, 4) && b[Wrap + 20..] == Zeros(140)
    ensures EncodeRecord(Record(b[4..Wrap + 20], [], 0)) == b[..Wrap + 32]
  {
    var key := b[4..Wrap + 20];
    WrapIsPow();
    LEWraps(16, 4);
    LEZero(4);
    LEZero(8);
    assert |key| == 16 + Pow256(4);
    hide LE, Pow256;
    assert EncodeRecord(Record(key, [], 0)) == b[..4] + key + (Zeros(4) + Zeros(8));
    Cuts(b);
  }

  lemma Cuts(b: Bytes)
    requires |b| == Wrap + 160 && b[Wrap + 20..] == Zeros(140)
    ensures b[..4] + b[4..Wrap + 20] + (Zeros(4) + Zeros(8)) == b[..Wrap + 32]
    ensures b[..Wrap + 32] + Zeros(128) == b
  {
    var z := b[Wrap + 20..];
    assert b[Wrap + 20..Wrap + 32] == z[..12] && b[Wrap + 32..] == z[12..];
    assert z[..12] == Zeros(4) + Zeros(8) && z[12..] == Zeros(128);
    assert b[..Wrap + 32] == b[..4] + b[4..Wrap + 20] + b[Wrap + 20..Wrap + 32];
    assert b == b[..Wrap + 32] + b[Wrap + 32..];
  }

  lemma SameBytes()
    ensures EncodeRecords(Long()) == EncodeRecords(Short())
  {
    Prefix();
    Suffix();
    var b := Bytes9();
    hide EncodeRecord, EncodeRecords, Bulk, Last;
    GiantRecord(b);
    BlanksZeros(8);
    RecordsFirst(Record(b[4..Wrap + 20], [], 0), seq(8, _ => Blank));
    Cuts(b);
  }

  /** A snapshot with a key of 4 GiB is read without complaint, as records that were never saved. */
  lemma GiantMisread()
    ensures Decode(Encode(Long())) == Some(Short()) && Long() != Short()
  {
    SameBytes();
    assert Payload(Long()) == Payload(Short());
    assert AllStorable(Short()) by { ShortStorable(); }
    hide Encode, Decode, EncodeRecords;
    DecodeEncode(Short());
    assert |Long()[0].key| != |Short()[0].key| by { BytesLength(); }
  }

  lemma ShortStorable()
    ensures AllStorable(Short())
  {
    NineFits();
    ZerosStorable(16, Size - 32);
    ZerosStorable(0, Size - 16);
    ZerosStorable(0, 144);
    assert Zeros(0) == [];
    hide Pow256, Storable, Zeros;
    var rs := Short();
    forall i | 0 <= i < |rs|
      ensures Storable(rs[i])
    {
      assert rs[i] == if i == 0 then Record(Zeros(16), Zeros(Size - 32), 0)
                      else if i < 8 then Record([], Zeros(Size - 16), 0) else Last();
    }
  }

  lemma ZerosStorable(k: nat, v: nat)
    requires k <= MaxField && v <= MaxField
    ensures Storable(Record(Zeros(k), Zeros(v), 0))
  {
    hide Pow256;
  }

  lemma NineFits()
    ensures Pow256(8) > 9
  {
    assert Pow256(1) == 256;
    Grows(1, 8);
  }

  lemma {:induction false} Grows(v: nat, w: nat)
    requires v <= w
    ensures Pow256(v) <= Pow256(w)
    decreases w
  {
    if v < w { Grows(v, w - 1); }
  }
}
