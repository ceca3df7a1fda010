/**
 The snapshot file: a header, length-prefixed records and a checksum over everything
 before it. A record carries the expiry as the raw 64-bit number of the file; 0 means
 that the key never expires.
 */
module Codec {
  import opened Base
  import opened LittleEndian
  import Fnv

  const Magic: Bytes := "VCACHE"
  const FormatVersion: nat := 1
  const MaxField: nat := 512 * 1024 * 1024
  const HeaderLength: nat := 16
  const ChecksumLength: nat := 8

  datatype Record = Record(key: Bytes, value: Bytes, expiry: nat)

  // ---------------------------------------------------------------- writing

  function EncodeRecord(r: Record): Bytes {
    LE(|r.key|, 4) + r.key + LE(|r.value|, 4) + r.value + LE(r.expiry, 8)
  }

  function EncodeRecords(rs: seq<Record>): Bytes {
    if rs == [] then [] else EncodeRecord(rs[0]) + EncodeRecords(rs[1..])
  }

  function Payload(rs: seq<Record>): Bytes {
    Magic + LE(FormatVersion, 2) + LE(|rs|, 8) + EncodeRecords(rs)
  }

  function Encode(rs: seq<Record>): Bytes {
    Payload(rs) + LE(Fnv.Checksum(Payload(rs)), 8)
  }

  // ---------------------------------------------------------------- reading

  /** The number in w bytes at the offset, or nothing when the file ends first. */
  function Read(data: Bytes, offset: nat, w: nat): Option<nat> {
    if offset + w > |data| then None else Some(Value(data[offset..offset + w]))
  }

  /** A length-prefixed field: its bytes and the offset behind it. */
  function ParseField(data: Bytes, payload: nat, offset: nat): (r: Option<(Bytes, nat)>)
    requires payload <= |data|
    ensures r.Some? ==> offset + 4 <= r.value.1 <= payload
  {
    var n := Read(data, offset, 4);
    if n == None || n.value > MaxField || offset + 4 + n.value > payload then None
    else Some((data[offset + 4..offset + 4 + n.value], offset + 4 + n.value))
  }

  function ParseRecord(data: Bytes, payload: nat, offset: nat): (r: Option<(Record, nat)>)
    requires payload <= |data|
    ensures r.Some? ==> offset + 16 <= r.value.1
  {
    var k := ParseField(data, payload, offset);
    if k == None then None else
      var v := ParseField(data, payload, k.value.1);
      if v == None then None else
        var e := Read(data, v.value.1, 8);
        if e == None then None else Some((Record(k.value.0, v.value.0, e.value), v.value.1 + 8))
  }

  /** The next n records and the offset behind them. */
  function ParseRecords(data: Bytes, payload: nat, offset: nat, n: nat): (r: Option<(seq<Record>, nat)>)
    requires payload <= |data|
    ensures r.Some? ==> offset <= r.value.1 && |r.value.0| == n
    decreases n
  {
    if n == 0 then Some(([], offset)) else
      var first := ParseRecord(data, payload, offset);
      if first == None then None else
        var rest := ParseRecords(data, payload, first.value.1, n - 1);
        if rest == None then None else Some(([first.value.0] + rest.value.0, rest.value.1))
  }

  function Decode(data: Bytes): Option<seq<Record>> {
    if |data| < HeaderLength + ChecksumLength || data[..6] != Magic then None
    else
      var payload := |data| - ChecksumLength;
      if Value(data[payload..]) != Fnv.Checksum(data[..payload]) || Value(data[6..8]) != FormatVersion then None
      else
        var r := ParseRecords(data, payload, HeaderLength, Value(data[8..16]));
        if r == None || r.value.1 != payload then None else Some(r.value.0)
  }

  // ---------------------------------------------------------------- what can be stored

  predicate Storable(r: Record) {
    |r.key| <= MaxField && |r.value| <= MaxField && r.expiry < Pow256(8)
  }

  ghost predicate AllStorable(rs: seq<Record>) {
    |rs| < Pow256(8) && forall i :: 0 <= i < |rs| ==> Storable(rs[i])
  }

  lemma FieldFits()
    ensures MaxField < Pow256(4) && FormatVersion < Pow256(2)
  {
  }

  // ---------------------------------------------------------------- where everything is

  /** Where record i begins. */
  function Begins(rs: seq<Record>, i: nat): nat
    requires i <= |rs|
  {
    if i == 0 then 16 else Begins(rs, i - 1) + (4 + |rs[i - 1].key| + 4 + |rs[i - 1].value| + 8)
  }

  lemma {:induction false} RecordsJoin(a: seq<Record>, b: seq<Record>)
    ensures EncodeRecords(a + b) == EncodeRecords(a) + EncodeRecords(b)
  {
    hide EncodeRecord;
    if a == [] {
      assert a + b == b;
    } else {
      var all := a + b;
      RecordsJoin(a[1..], b);
      assert all[1..] == a[1..] + b && all[0] == a[0];
      assert EncodeRecords(all) == EncodeRecord(all[0]) + EncodeRecords(all[1..]);
    }
  }

  lemma {:induction false} PrefixLength(rs: seq<Record>, i: nat)
    requires i <= |rs|
    ensures 16 + |EncodeRecords(rs[..i])| == Begins(rs, i)
  {
    hide LE;
    if i > 0 {
      PrefixLength(rs, i - 1);
      assert rs[..i] == rs[..i - 1] + [rs[i - 1]];
      RecordsJoin(rs[..i - 1], [rs[i - 1]]);
      assert EncodeRecords([rs[i - 1]]) == EncodeRecord(rs[i - 1]);
    }
  }

  lemma RecordAt(rs: seq<Record>, i: nat)
    requires i < |rs|
    ensures var p, a, b := Payload(rs), Begins(rs, i), Begins(rs, i + 1);
            16 <= a <= b <= |p| == Begins(rs, |rs|) && p[a..b] == EncodeRecord(rs[i])
  {
    hide EncodeRecord, EncodeRecords, LE;
    var before, after := rs[..i], rs[i + 1..];
    assert rs == rs[..i + 1] + after && rs[..i + 1] == before + [rs[i]] && rs[..|rs|] == rs;
    RecordsJoin(rs[..i + 1], after);
    RecordsJoin(before, [rs[i]]);
    PrefixLength(rs, i);
    PrefixLength(rs, i + 1);
    PrefixLength(rs, |rs|);
    OneRecord(rs[i]);
    var all := EncodeRecords(rs);
    assert Payload(rs)[16..] == all;
    assert all == EncodeRecords(before) + EncodeRecord(rs[i]) + EncodeRecords(after);
  }

  lemma OneRecord(r: Record)
    ensures EncodeRecords([r]) == EncodeRecord(r)
  {
    hide EncodeRecord;
    assert [r][1..] == [];
  }

  /** Every field of every record, and what stands around the records. */
  lemma FileExactly(rs: seq<Record>, i: nat)
    requires i < |rs|
    ensures var d, n := Encode(rs), Begins(rs, |rs|);
            && |d| == n + 8 && n >= 16
            && d[..6] == "VCACHE" && d[6..8] == LE(1, 2) && d[8..16] == LE(|rs|, 8)
            && d[n..] == LE(Fnv.Checksum(d[..n]), 8)
    ensures var d, a, b := Encode(rs), Begins(rs, i), Begins(rs, i + 1);
            var k := a + 4 + |rs[i].key|;
            var v := k + 4 + |rs[i].value|;
            && 16 <= a < b == v + 8 <= |d| - 8
            && d[a..a + 4] == LE(|rs[i].key|, 4) && d[a + 4..k] == rs[i].key
            && d[k..k + 4] == LE(|rs[i].value|, 4) && d[k + 4..v] == rs[i].value
            && d[v..b] == LE(rs[i].expiry, 8)
  {
    hide EncodeRecords, LE, Fnv.Checksum, EncodeRecord, Begins;
    RecordAt(rs, i);
    Around(rs);
    var p, d, a, b := Payload(rs), Encode(rs), Begins(rs, i), Begins(rs, i + 1);
    assert d[a..b] == p[a..b];
    FieldsAt(d, a, b, rs[i]);
  }

  lemma Around(rs: seq<Record>)
    ensures var d, n := Encode(rs), |Payload(rs)|;
            && |d| == n + 8 && n >= 16
            && d[..6] == "VCACHE" && d[6..8] == LE(1, 2) && d[8..16] == LE(|rs|, 8)
            && d[n..] == LE(Fnv.Checksum(d[..n]), 8)
  {
    hide EncodeRecords, LE, Fnv.Checksum;
    var p, d := Payload(rs), Encode(rs);
    assert d[..|p|] == p;
    assert p[..6] == Magic && p[6..8] == LE(1, 2) && p[8..16] == LE(|rs|, 8);
  }

  lemma FieldsAt(d: Bytes, a: nat, b: nat, r: Record)
    requires a <= b <= |d| && d[a..b] == EncodeRecord(r)
    ensures var k := a + 4 + |r.key|; var v := k + 4 + |r.value|;
            && b == v + 8
            && d[a..a + 4] == LE(|r.key|, 4) && d[a + 4..k] == r.key
            && d[k..k + 4] == LE(|r.value|, 4) && d[k + 4..v] == r.value
            && d[v..b] == LE(r.expiry, 8)
  {
    hide LE, HasAt;
    var k := a + 4 + |r.key|;
    assert b == k + 4 + |r.value| + 8;
    hide EncodeRecord;
    SpanHas(d, a, b, EncodeRecord(r));
    PartsAt(d, a, r);
    PrefixedAt(d, a, LE(|r.key|, 4), r.key);
    PrefixedAt(d, k, LE(|r.value|, 4), r.value);
    BytesAt(d, k + 4 + |r.value|, LE(r.expiry, 8));
  }

  lemma SpanHas(d: Bytes, a: nat, b: nat, s: Bytes)
    requires a <= b <= |d| && d[a..b] == s
    ensures HasAt(d, a, s)
  {
  }

  lemma PartsAt(d: Bytes, a: nat, r: Record)
    requires HasAt(d, a, EncodeRecord(r))
    ensures var k := a + 4 + |r.key|;
            && HasAt(d, a, LE(|r.key|, 4) + r.key) && HasAt(d, k, LE(|r.value|, 4) + r.value)
            && HasAt(d, k + 4 + |r.value|, LE(r.expiry, 8))
  {
    hide LE, EncodeRecord, HasAt;
    var key, value, expiry := LE(|r.key|, 4) + r.key, LE(|r.value|, 4) + r.value, LE(r.expiry, 8);
    RecordParts(r, key, value, expiry);
    HasParts(d, a, key, value + expiry);
    HasParts(d, a + |key|, value, expiry);
  }

  lemma RecordParts(r: Record, key: Bytes, value: Bytes, expiry: Bytes)
    requires key == LE(|r.key|, 4) + r.key && value == LE(|r.value|, 4) + r.value && expiry == LE(r.expiry, 8)
    ensures EncodeRecord(r) == key + (value + expiry)
  {
    hide LE;
  }

  lemma PrefixedAt(d: Bytes, a: nat, n: Bytes, s: Bytes)
    requires HasAt(d, a, n + s) && |n| == 4
    ensures a + 4 + |s| <= |d| && d[a..a + 4] == n && d[a + 4..a + 4 + |s|] == s
  {
    hide HasAt;
    HasParts(d, a, n, s);
    BytesAt(d, a, n);
    BytesAt(d, a + 4, s);
  }

  // ---------------------------------------------------------------- reading back what was written

  /** data holds the bytes s at the offset. */
  ghost predicate HasAt(data: Bytes, offset: nat, s: Bytes) {
    offset + |s| <= |data| && data[offset..offset + |s|] == s
  }

  lemma HasParts(data: Bytes, offset: nat, a: Bytes, b: Bytes)
    requires HasAt(data, offset, a + b)
    ensures HasAt(data, offset, a) && HasAt(data, offset + |a|, b)
  {
    var s := data[offset..offset + |a + b|];
    assert s[..|a|] == a && s[|a|..] == b;
    assert data[offset..offset + |a|] == s[..|a|];
    assert data[offset + |a|..offset + |a| + |b|] == s[|a|..];
  }

  lemma ReadBack(data: Bytes, offset: nat, n: nat, w: nat)
    requires HasAt(data, offset, LE(n, w)) && n < Pow256(w)
    ensures Read(data, offset, w) == Some(n)
  {
    ReadWritten(n, w);
  }

  lemma FieldBack(data: Bytes, payload: nat, offset: nat, s: Bytes)
    requires payload <= |data| && HasAt(data, offset, LE(|s|, 4) + s) && |s| <= MaxField
    requires offset + 4 + |s| <= payload
    ensures ParseField(data, payload, offset) == Some((s, offset + 4 + |s|))
  {
    hide Pow256, LE, Read, HasAt;
    HasParts(data, offset, LE(|s|, 4), s);
    FieldFits();
    ReadBack(data, offset, |s|, 4);
    assert data[offset + 4..offset + 4 + |s|] == s by { BytesAt(data, offset + 4, s); }
  }

  lemma BytesAt(data: Bytes, offset: nat, s: Bytes)
    requires HasAt(data, offset, s)
    ensures offset + |s| <= |data| && data[offset..offset + |s|] == s
  {
  }

  lemma RecordBack(data: Bytes, payload: nat, offset: nat, r: Record)
    requires payload <= |data| && HasAt(data, offset, EncodeRecord(r)) && Storable(r)
    requires offset + |EncodeRecord(r)| <= payload
    ensures ParseRecord(data, payload, offset) == Some((r, offset + |EncodeRecord(r)|))
  {
    hide Pow256, LE, HasAt, ParseField, Read;
    var k, v, e := LE(|r.key|, 4) + r.key, LE(|r.value|, 4) + r.value, LE(r.expiry, 8);
    assert EncodeRecord(r) == k + (v + e);
    HasParts(data, offset, k, v + e);
    HasParts(data, offset + |k|, v, e);
    FieldBack(data, payload, offset, r.key);
    FieldBack(data, payload, offset + |k|, r.value);
    ReadBack(data, offset + |k| + |v|, r.expiry, 8);
  }

  lemma {:induction false} RecordsBack(data: Bytes, payload: nat, offset: nat, rs: seq<Record>)
    requires payload <= |data| && HasAt(data, offset, EncodeRecords(rs))
    requires forall i :: 0 <= i < |rs| ==> Storable(rs[i])
    requires offset + |EncodeRecords(rs)| <= payload
    ensures ParseRecords(data, payload, offset, |rs|) == Some((rs, offset + |EncodeRecords(rs)|))
    decreases |rs|
  {
    hide EncodeRecord, ParseRecord, HasAt, Storable;
    if rs != [] {
      HasParts(data, offset, EncodeRecord(rs[0]), EncodeRecords(rs[1..]));
      RecordBack(data, payload, offset, rs[0]);
      RecordsBack(data, payload, offset + |EncodeRecord(rs[0])|, rs[1..]);
      assert [rs[0]] + rs[1..] == rs;
    }
  }

  lemma ChecksumFits(h: Hash)
    ensures h < Pow256(8)
  {
    assert Pow256(4) == 0x1_0000_0000;
    assert Pow256(8) == 256 * 256 * 256 * 256 * Pow256(4);
  }

  /** What the encoder writes, the decoder reads back. */
  lemma DecodeEncode(rs: seq<Record>)
    requires AllStorable(rs)
    ensures Decode(Encode(rs)) == Some(rs)
  {
    hide Pow256, LE, EncodeRecords, ParseRecords, Value, Fnv.Checksum;
    var data, p := Encode(rs), Payload(rs);
    var payload, sum := |p|, Fnv.Checksum(p);
    assert data[..payload] == p;
    assert data[payload..] == LE(sum, 8);
    ChecksumFits(sum);
    ReadWritten(sum, 8);
    assert data[..6] == Magic;
    assert data[6..8] == LE(FormatVersion, 2);
    FieldFits();
    ReadWritten(FormatVersion, 2);
    assert data[8..16] == LE(|rs|, 8);
    ReadWritten(|rs|, 8);
    assert data[16..16 + |EncodeRecords(rs)|] == EncodeRecords(rs);
    RecordsBack(data, payload, HeaderLength, rs);
  }

  // ---------------------------------------------------------------- only what was written is read

  /** data[offset..next] is exactly s. */
  ghost predicate Spans(data: Bytes, offset: nat, next: nat, s: Bytes) {
    offset <= next <= |data| && data[offset..next] == s
  }

  lemma SpansJoin(data: Bytes, a: nat, b: nat, c: nat, s: Bytes, u: Bytes)
    requires Spans(data, a, b, s) && Spans(data, b, c, u)
    ensures Spans(data, a, c, s + u)
  {
    assert data[a..c] == data[a..b] + data[b..c];
  }

  lemma ReadSpans(data: Bytes, offset: nat, w: nat)
    requires Read(data, offset, w).Some?
    ensures Spans(data, offset, offset + w, LE(Read(data, offset, w).value, w))
    ensures Read(data, offset, w).value < Pow256(w)
  {
    WriteRead(data[offset..offset + w]);
    ValueBound(data[offset..offset + w]);
  }

  lemma FieldSpans(data: Bytes, payload: nat, offset: nat)
    requires payload <= |data| && ParseField(data, payload, offset).Some?
    ensures var (s, next) := ParseField(data, payload, offset).value;
            |s| <= MaxField && Spans(data, offset, next, LE(|s|, 4) + s)
  {
    hide Read, LE;
    var (s, next) := ParseField(data, payload, offset).value;
    ReadSpans(data, offset, 4);
    assert Spans(data, offset + 4, next, s);
    SpansJoin(data, offset, offset + 4, next, LE(|s|, 4), s);
  }

  lemma RecordSpans(data: Bytes, payload: nat, offset: nat)
    requires payload <= |data| && ParseRecord(data, payload, offset).Some?
    ensures var (r, next) := ParseRecord(data, payload, offset).value;
            Storable(r) && Spans(data, offset, next, EncodeRecord(r))
  {
    hide Read, LE, ParseField, Spans, Pow256;
    var (r, next) := ParseRecord(data, payload, offset).value;
    var a := ParseField(data, payload, offset).value.1;
    var b := ParseField(data, payload, a).value.1;
    FieldSpans(data, payload, offset);
    FieldSpans(data, payload, a);
    ReadSpans(data, b, 8);
    var k, v, e := LE(|r.key|, 4) + r.key, LE(|r.value|, 4) + r.value, LE(r.expiry, 8);
    SpansJoin(data, a, b, next, v, e);
    SpansJoin(data, offset, a, next, k, v + e);
    assert EncodeRecord(r) == k + (v + e);
  }

  lemma {:induction false} RecordsSpan(data: Bytes, payload: nat, offset: nat, n: nat)
    requires payload <= |data| && offset <= |data| && ParseRecords(data, payload, offset, n).Some?
    ensures var (rs, next) := ParseRecords(data, payload, offset, n).value;
            && (forall i :: 0 <= i < |rs| ==> Storable(rs[i]))
            && Spans(data, offset, next, EncodeRecords(rs))
    decreases n
  {
    hide ParseRecord, EncodeRecord, Storable;
    if n > 0 {
      var (r, mid) := ParseRecord(data, payload, offset).value;
      RecordSpans(data, payload, offset);
      RecordsSpan(data, payload, mid, n - 1);
      var (rest, next) := ParseRecords(data, payload, mid, n - 1).value;
      SpansJoin(data, offset, mid, next, EncodeRecord(r), EncodeRecords(rest));
      assert ([r] + rest)[1..] == rest;
    }
  }

  /** Whatever the decoder accepts is the encoding of what it returns. */
  lemma EncodeDecode(data: Bytes, rs: seq<Record>)
    requires Decode(data) == Some(rs)
    ensures AllStorable(rs) && data == Encode(rs)
  {
    hide LE, EncodeRecords, ParseRecords, Value, Fnv.Checksum, Storable;
    var payload := |data| - ChecksumLength;
    var count := Value(data[8..16]);
    RecordsSpan(data, payload, HeaderLength, count);
    ValueBound(data[8..16]);
    WriteRead(data[8..16]);
    WriteRead(data[6..8]);
    WriteRead(data[payload..]);
    assert data[..payload] == data[..6] + data[6..8] + data[8..16] + data[16..payload];
    assert data == data[..payload] + data[payload..];
  }

  /** The decoder accepts a byte string exactly when it is the encoding of storable records. */
  lemma DecodeExact(data: Bytes, rs: seq<Record>)
    ensures Decode(data) == Some(rs) <==> AllStorable(rs) && data == Encode(rs)
  {
    hide Decode, Encode, AllStorable;
    if Decode(data) == Some(rs) { EncodeDecode(data, rs); }
    if AllStorable(rs) && data == Encode(rs) { DecodeEncode(rs); }
  }

  // ---------------------------------------------------------------- corruption

  lemma ValueInjective(s: Bytes, u: Bytes)
    requires |s| == |u| && Value(s) == Value(u)
    ensures s == u
  {
    WriteRead(s);
    WriteRead(u);
  }

  /** Changing any one byte of a valid snapshot, wherever it lies, makes it unreadable. */
  lemma OneByteRejected(data: Bytes, i: nat, b: Byte)
    requires Decode(data).Some? && i < |data| && b != data[i]
    ensures Decode(data[i := b]) == None
  {
    hide ParseRecords, Value, Fnv.Checksum;
    var bad, payload := data[i := b], |data| - ChecksumLength;
    if i < payload {
      assert bad[payload..] == data[payload..];
      assert bad[..payload] == data[..payload][i := b];
      Fnv.OneByteDetected(data[..payload], i, b);
    } else {
      assert bad[..payload] == data[..payload];
      assert bad[payload..][i - payload] != data[payload..][i - payload];
      if Value(bad[payload..]) == Value(data[payload..]) { ValueInjective(bad[payload..], data[payload..]); }
    }
  }

  // ---------------------------------------------------------------- oversized fields

  /** The lengths fit the 32-bit prefixes, though they may pass the decoder's limit. */
  ghost predicate Writable(rs: seq<Record>) {
    |rs| < Pow256(8) && forall i :: 0 <= i < |rs| ==>
      |rs[i].key| < Pow256(4) && |rs[i].value| < Pow256(4) && rs[i].expiry < Pow256(8)
  }

  lemma SplitEqual(a: Bytes, x: Bytes, b: Bytes, y: Bytes)
    requires a + x == b + y && |a| == |b|
    ensures a == b && x == y
  {
    assert (a + x)[..|a|] == a && (b + y)[..|b|] == b;
    assert (a + x)[|a|..] == x && (b + y)[|b|..] == y;
  }

  lemma LengthInjective(a: nat, b: nat, w: nat)
    requires a < Pow256(w) && b < Pow256(w) && LE(a, w) == LE(b, w)
    ensures a == b
  {
    hide LE, Pow256, Value;
    ReadWritten(a, w);
    ReadWritten(b, w);
  }

  lemma FieldInjective(s: Bytes, x: Bytes, u: Bytes, y: Bytes)
    requires |s| < Pow256(4) && |u| < Pow256(4) && LE(|s|, 4) + (s + x) == LE(|u|, 4) + (u + y)
    ensures s == u && x == y
  {
    hide LE, Pow256;
    SplitEqual(LE(|s|, 4), s + x, LE(|u|, 4), u + y);
    LengthInjective(|s|, |u|, 4);
    SplitEqual(s, x, u, y);
  }

  /** A record and what follows it, bracketed from the right. */
  lemma RecordShape(r: Record, x: Bytes)
    ensures EncodeRecord(r) + x
         == LE(|r.key|, 4) + (r.key + (LE(|r.value|, 4) + (r.value + (LE(r.expiry, 8) + x))))
  {
    var a, b, c, d, e := LE(|r.key|, 4), r.key, LE(|r.value|, 4), r.value, LE(r.expiry, 8);
    hide LE;
    Reassociate(a, b, c, d, e, x);
  }

  lemma Reassociate(a: Bytes, b: Bytes, c: Bytes, d: Bytes, e: Bytes, x: Bytes)
    ensures a + b + c + d + e + x == a + (b + (c + (d + (e + x))))
  {
    assert a + b + c + d + e + x == a + b + c + d + (e + x);
    assert a + b + c + d + (e + x) == a + b + c + (d + (e + x));
    assert a + b + c + (d + (e + x)) == a + b + (c + (d + (e + x)));
  }

  lemma RecordInjective(r: Record, x: Bytes, u: Record, y: Bytes)
    requires Writable([r]) && Writable([u]) && EncodeRecord(r) + x == EncodeRecord(u) + y
    ensures r == u && x == y
  {
    assert [r][0] == r && [u][0] == u;
    hide LE, Pow256, EncodeRecord;
    RecordShape(r, x);
    RecordShape(u, y);
    var e, f := LE(r.expiry, 8), LE(u.expiry, 8);
    FieldInjective(r.key, LE(|r.value|, 4) + (r.value + (e + x)), u.key, LE(|u.value|, 4) + (u.value + (f + y)));
    FieldInjective(r.value, e + x, u.value, f + y);
    SplitEqual(e, x, f, y);
    LengthInjective(r.expiry, u.expiry, 8);
  }

  lemma {:induction false} RecordsInjective(rs: seq<Record>, us: seq<Record>)
    requires Writable(rs) && Writable(us) && |rs| == |us| && EncodeRecords(rs) == EncodeRecords(us)
    ensures rs == us
    decreases |rs|
  {
    hide EncodeRecord, Pow256;
    if rs != [] {
      assert [rs[0]][0] == rs[0] && [us[0]][0] == us[0];
      RecordInjective(rs[0], EncodeRecords(rs[1..]), us[0], EncodeRecords(us[1..]));
      RecordsInjective(rs[1..], us[1..]);
      assert rs == [rs[0]] + rs[1..] && us == [us[0]] + us[1..];
    }
  }

  lemma EncodeInjective(rs: seq<Record>, us: seq<Record>)
    requires Writable(rs) && Writable(us) && Encode(rs) == Encode(us)
    ensures rs == us
  {
    hide LE, Pow256, EncodeRecords, Fnv.Checksum;
    SplitEqual(Payload(rs), LE(Fnv.Checksum(Payload(rs)), 8), Payload(us), LE(Fnv.Checksum(Payload(us)), 8));
    SplitEqual(Magic + LE(FormatVersion, 2) + LE(|rs|, 8), EncodeRecords(rs),
               Magic + LE(FormatVersion, 2) + LE(|us|, 8), EncodeRecords(us));
    SplitEqual(Magic + LE(FormatVersion, 2), LE(|rs|, 8), Magic + LE(FormatVersion, 2), LE(|us|, 8));
    LengthInjective(|rs|, |us|, 8);
    RecordsInjective(rs, us);
  }

  /** Any records at all are read back as they were exactly when they are storable. */
  lemma ReadBackExactly(rs: seq<Record>)
    ensures Decode(Encode(rs)) == Some(rs) <==> AllStorable(rs)
  {
    hide Decode, Encode, AllStorable;
    DecodeExact(Encode(rs), rs);
  }

  /** A snapshot whose lengths fit their prefixes can be read at all exactly when no field passes 512 MiB. */
  lemma ReadableExactly(rs: seq<Record>)
    requires Writable(rs)
    ensures Decode(Encode(rs)).Some? <==>
              forall i :: 0 <= i < |rs| ==> |rs[i].key| <= MaxField && |rs[i].value| <= MaxField
  {
    hide Decode, Encode, Pow256;
    if Decode(Encode(rs)).Some? {
      var us := Decode(Encode(rs)).value;
      EncodeDecode(Encode(rs), us);
      FieldFits();
      EncodeInjective(rs, us);
    } else if AllStorable(rs) {
      DecodeEncode(rs);
    }
  }

  /** One key of a byte more than that is written, and makes the whole snapshot unreadable. */
  lemma OversizedUnreadable()
    ensures var big := seq(MaxField + 1, _ => 'k'); Decode(Encode([Record(big, [], 0)])) == None
  {
    hide Decode, Encode;
    var rs := [Record(seq(MaxField + 1, _ => 'k'), [], 0)];
    assert Writable(rs) by { Prefixes(); }
    ReadableExactly(rs);
    assert |rs[0].key| > MaxField;
  }

  lemma Prefixes()
    ensures MaxField + 1 < Pow256(4) && 1 < Pow256(8)
  {
    assert Pow256(2) == 65536;
    assert Pow256(4) == 256 * (256 * Pow256(2));
    assert Pow256(8) == 256 * (256 * (256 * (256 * Pow256(4))));
  }
}
