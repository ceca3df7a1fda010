/**
 Saving and loading a keyspace: the conversion between the steady clock that deadlines
 live on and the wall clock the file uses, and the trip through the snapshot format.
 Steady time is in nanoseconds; the wall clock ticks every `tick` nanoseconds.
 */
module Persistence {
  import opened Base
  import opened LittleEndian
  import opened Codec
  import TS = TableSpec
  import Fnv
  import Bits

  type Entry = TS.Entry
  type Time = TS.Time

  const Milli: nat := 1_000_000

  /** A reading of both clocks. perMilli ticks of the wall clock make a millisecond. */
  datatype Clock = Clock(steady: Time, wall: int, tick: nat, perMilli: nat)

  ghost predicate ClockOk(c: Clock) {
    c.tick >= 1 && c.perMilli >= 1 && c.tick * c.perMilli == Milli
  }

  /** Division as duration_cast does it: towards zero. */
  function Trunc(a: int, b: nat): int
    requires b >= 1
  {
    if a >= 0 then a / b else -((-a) / b)
  }

  function ToWallMillis(deadline: Time, c: Clock): int
    requires c.tick >= 1 && c.perMilli >= 1
  {
    Trunc(c.wall + Trunc(deadline - c.steady, c.tick), c.perMilli)
  }

  /** The deadline on this run's steady clock, or nothing if that moment has passed. */
  function FromWallMillis(millis: int, c: Clock): Option<Time> {
    var remaining := millis * c.perMilli - c.wall;
    if remaining <= 0 then None else Some(c.steady + remaining * c.tick)
  }

  /** The wall-clock moment, in nanoseconds, that a steady deadline stands for. */
  function WallMoment(deadline: Time, c: Clock): int { c.wall * c.tick + (deadline - c.steady) }

  // ---------------------------------------------------------------- deadlines

  lemma FloorBounds(a: int, b: nat)
    requires a >= 0 && b >= 1
    ensures Trunc(a, b) * b <= a < (Trunc(a, b) + 1) * b
  {
  }

  /** Two truncations in a row lose less than the larger unit. */
  lemma TruncTwice(wall: int, remaining: int, tick: nat, per: nat)
    requires tick >= 1 && per >= 1 && remaining >= 0 && wall >= 0
    ensures var ms := Trunc(wall + Trunc(remaining, tick), per); var moment := wall * tick + remaining;
            ms * (tick * per) <= moment < (ms + 1) * (tick * per)
  {
    var w := wall + Trunc(remaining, tick);
    var ms := Trunc(w, per);
    hide Trunc;
    FloorBounds(remaining, tick);
    assert Trunc(remaining, tick) >= 0 by { Nonneg(remaining, tick); }
    FloorBounds(w, per);
    Bits.Distribute(wall, -Trunc(remaining, tick), tick);
    Bits.Distribute(wall, -Trunc(remaining, tick) - 1, tick);
    Bits.MulMono(ms * per, w, tick);
    Bits.MulMono(w + 1, (ms + 1) * per, tick);
    Regroup(ms, tick, per);
    Regroup(ms + 1, tick, per);
  }

  lemma Nonneg(a: int, b: nat)
    requires a >= 0 && b >= 1
    ensures Trunc(a, b) >= 0
  {
  }

  lemma Regroup(a: int, tick: nat, per: nat)
    ensures a * per * tick == a * (tick * per)
  {
  }

  /**
   An unexpired deadline carried through a file never moves later, and moves earlier by
   less than a millisecond; if the moment in the file has passed, the key is dropped.
   */
  lemma DeadlineCarried(deadline: Time, c: Clock, c': Clock)
    requires ClockOk(c) && ClockOk(c') && c.wall >= 0 && deadline >= c.steady
    ensures var ms := ToWallMillis(deadline, c); var loaded := FromWallMillis(ms, c');
            && WallMoment(deadline, c) - 1_000_000 < ms * 1_000_000 <= WallMoment(deadline, c)
            && (loaded.Some? ==> WallMoment(loaded.value, c') == ms * 1_000_000)
            && (loaded.Some? <==> ms * 1_000_000 > WallMoment(c'.steady, c'))
  {
    var ms := ToWallMillis(deadline, c);
    hide Trunc;
    TruncTwice(c.wall, deadline - c.steady, c.tick, c.perMilli);
    var remaining := ms * c'.perMilli - c'.wall;
    Bits.Distribute(ms * c'.perMilli, c'.wall, c'.tick);
    Regroup(ms, c'.tick, c'.perMilli);
    Bits.MulMono(1, remaining, c'.tick);
    Bits.MulMono(remaining, 0, c'.tick);
  }

  // ---------------------------------------------------------------- records

  const Half: int := 0x8000_0000_0000_0000

  /** A signed 64-bit number in the file's unsigned field, and back. */
  function ToRaw(n: int): nat
    requires -Half <= n < Half
  {
    if n >= 0 then n else n + Bits.Word
  }

  function FromRaw(n: nat): int { if n < Half then n else n - Bits.Word }

  predicate InRange(e: Entry, c: Clock)
    requires c.tick >= 1 && c.perMilli >= 1
  {
    e.expiration.Some? ==> -Half <= ToWallMillis(e.expiration.value, c) < Half
  }

  function Freeze(e: Entry, c: Clock): Record
    requires c.tick >= 1 && c.perMilli >= 1 && InRange(e, c)
  {
    Record(e.key, e.value, if e.expiration.Some? then ToRaw(ToWallMillis(e.expiration.value, c)) else 0)
  }

  /** The entry a record stands for at load time, unless it has lapsed. */
  function Thaw(r: Record, c: Clock): Option<Entry> {
    if FromRaw(r.expiry) == 0 then Some(TS.Entry(r.key, r.value, None))
    else
      var d := FromWallMillis(FromRaw(r.expiry), c);
      if d == None || d.value <= c.steady then None else Some(TS.Entry(r.key, r.value, d))
  }

  function FreezeAll(es: seq<Entry>, c: Clock): (rs: seq<Record>)
    requires c.tick >= 1 && c.perMilli >= 1 && forall i :: 0 <= i < |es| ==> InRange(es[i], c)
  {
    if es == [] then []
    else
      var before := FreezeAll(es[..|es| - 1], c);
      var e := es[|es| - 1];
      if TS.ExpiredAt(e, c.steady) then before else before + [Freeze(e, c)]
  }

  /** A record is saved exactly when it is that of an entry without a deadline, or with one still to come. */
  lemma {:induction false} SavedExactly(es: seq<Entry>, c: Clock, r: Record)
    requires c.tick >= 1 && c.perMilli >= 1 && forall i :: 0 <= i < |es| ==> InRange(es[i], c)
    ensures r in FreezeAll(es, c) <==>
              exists i :: 0 <= i < |es| && r.key == es[i].key && r.value == es[i].value
                          && match es[i].expiration
                             case None => r.expiry == 0
                             case Some(d) => d > c.steady && r.expiry == ToRaw(ToWallMillis(d, c))
  {
    if es != [] {
      hide ToWallMillis, ToRaw;
      var past := es[..|es| - 1];
      SavedExactly(past, c, r);
      assert forall i :: 0 <= i < |past| ==> past[i] == es[i];
    }
  }

  function ThawAll(rs: seq<Record>, c: Clock): seq<Entry> {
    if rs == [] then []
    else
      var before := ThawAll(rs[..|rs| - 1], c);
      var e := Thaw(rs[|rs| - 1], c);
      if e == None then before else before + [e.value]
  }

  // ---------------------------------------------------------------- the loops

  method AppendRecord(out: Bytes, r: Record) returns (result: Bytes)
    ensures result == out + EncodeRecord(r)
  {
    hide LE;
    result := AppendField(out, r.key);
    result := AppendField(result, r.value);
    result := AppendLE(result, r.expiry, 8);
    ghost var k, v, e := LE(|r.key|, 4) + r.key, LE(|r.value|, 4) + r.value, LE(r.expiry, 8);
    assert EncodeRecord(r) == k + v + e;
  }

  method AppendField(out: Bytes, field: Bytes) returns (result: Bytes)
    ensures result == out + (LE(|field|, 4) + field)
  {
    result := AppendLE(out, |field|, 4);
    result := result + field;
  }

  method EncodeEntries(entries: seq<Entry>, c: Clock) returns (out: Bytes)
    requires ClockOk(c) && forall i :: 0 <= i < |entries| ==> InRange(entries[i], c)
    ensures out == Encode(FreezeAll(entries, c))
  {
    hide EncodeRecord, LE, InRange, Freeze, Fnv.Checksum;
    var live: seq<Record> := [];
    var i := 0;
    while i < |entries|
      invariant 0 <= i <= |entries| && live == FreezeAll(entries[..i], c)
    {
      assert entries[..i + 1][..i] == entries[..i];
      if !TS.ExpiredAt(entries[i], c.steady) {
        live := live + [Freeze(entries[i], c)];
      }
      i := i + 1;
    }
    assert entries[..i] == entries;
    out := AppendLE(Magic, FormatVersion, 2);
    out := AppendLE(out, |live|, 8);
    ghost var header := out;
    i := 0;
    while i < |live|
      invariant 0 <= i <= |live| && out == header + EncodeRecords(live[..i])
    {
      assert live[..i + 1] == live[..i] + [live[i]];
      RecordsJoin(live[..i], [live[i]]);
      OneRecord(live[i]);
      out := AppendRecord(out, live[i]);
      i := i + 1;
    }
    assert live[..i] == live;
    var sum := Fnv.ChecksumOf(out, |out|);
    assert out[..|out|] == out;
    out := AppendLE(out, sum, 8);
  }

  /** Reads one length-prefixed field. */
  method ReadField(data: Bytes, payload: nat, offset: nat) returns (field: Option<(Bytes, nat)>)
    requires payload <= |data|
    ensures field == ParseField(data, payload, offset)
  {
    var ok, length, next := ReadLE(data, offset, 4);
    if !ok || length > MaxField || next + length > payload {
      return None;
    }
    field := Some((data[next..next + length], next + length));
  }

  method ReadRecord(data: Bytes, payload: nat, offset: nat) returns (record: Option<(Record, nat)>)
    requires payload <= |data|
    ensures record == ParseRecord(data, payload, offset)
  {
    hide ParseField;
    var k := ReadField(data, payload, offset);
    if k == None {
      return None;
    }
    var v := ReadField(data, payload, k.value.1);
    if v == None {
      return None;
    }
    var ok, expiry, next := ReadLE(data, v.value.1, 8);
    record := if ok then Some((Record(k.value.0, v.value.0, expiry), next)) else None;
  }

  /** What the rest of the file must still yield, after the records already read. */
  ghost predicate Resumes(data: Bytes, payload: nat, n: nat, done: seq<Record>, offset: nat)
    requires payload <= |data| && |done| <= n
  {
    ParseRecords(data, payload, HeaderLength, n) ==
      var rest := ParseRecords(data, payload, offset, n - |done|);
      if rest == None then None else Some((done + rest.value.0, rest.value.1))
  }

  lemma ResumeNext(data: Bytes, payload: nat, n: nat, done: seq<Record>, offset: nat)
    requires payload <= |data| && |done| < n && Resumes(data, payload, n, done, offset)
    ensures var r := ParseRecord(data, payload, offset);
            if r == None then ParseRecords(data, payload, HeaderLength, n) == None
            else Resumes(data, payload, n, done + [r.value.0], r.value.1)
  {
    hide ParseRecord;
    var r := ParseRecord(data, payload, offset);
    if r.Some? {
      var rest := ParseRecords(data, payload, r.value.1, n - |done| - 1);
      if rest.Some? { assert done + ([r.value.0] + rest.value.0) == (done + [r.value.0]) + rest.value.0; }
    }
  }

  /** The header checks, in the order the source makes them. */
  method CheckHeader(data: Bytes) returns (ok: bool)
    ensures ok == (|data| >= HeaderLength + ChecksumLength && data[..6] == Magic
                   && Value(data[|data| - 8..]) == Fnv.Checksum(data[..|data| - 8])
                   && Value(data[6..8]) == FormatVersion)
  {
    hide Value, Fnv.Checksum;
    if |data| < HeaderLength + ChecksumLength || data[..6] != Magic {
      return false;
    }
    var payload := |data| - ChecksumLength;
    var ok1, stored, _ := ReadLE(data, payload, 8);
    assert data[payload..payload + 8] == data[payload..];
    var sum := Fnv.ChecksumOf(data, payload);
    if stored != sum {
      return false;
    }
    var ok2, version, _ := ReadLE(data, 6, 2);
    return version == FormatVersion;
  }

  method DecodeEntries(data: Bytes, c: Clock) returns (entries: Option<seq<Entry>>)
    ensures entries == if Decode(data) == None then None else Some(ThawAll(Decode(data).value, c))
  {
    hide ParseRecord, ParseRecords, Value, Fnv.Checksum, Thaw, ThawAll, Resumes;
    var ok := CheckHeader(data);
    if !ok {
      return None;
    }
    var payload := |data| - ChecksumLength;
    var _, count, offset := ReadLE(data, 8, 8);
    var result: seq<Entry> := [];
    ghost var done: seq<Record> := [];
    var i := 0;
    StartResumes(data, payload, count);
    ThawNone(c);
    while i < count
      invariant 0 <= i <= count && |done| == i
      invariant Resumes(data, payload, count, done, offset) && result == ThawAll(done, c)
    {
      ResumeNext(data, payload, count, done, offset);
      var r := ReadRecord(data, payload, offset);
      if r == None {
        return None;
      }
      ThawNext(done, r.value.0, c);
      var e := Thaw(r.value.0, c);
      result := if e == None then result else result + [e.value];
      done, offset, i := done + [r.value.0], r.value.1, i + 1;
    }
    ResumesEnd(data, payload, count, done, offset);
    entries := if offset != payload then None else Some(result);
  }

  lemma ThawNone(c: Clock)
    ensures ThawAll([], c) == []
  {
  }

  lemma ThawNext(rs: seq<Record>, r: Record, c: Clock)
    ensures ThawAll(rs + [r], c) == ThawAll(rs, c) + if Thaw(r, c) == None then [] else [Thaw(r, c).value]
  {
    hide Thaw;
    assert (rs + [r])[..|rs|] == rs;
  }

  lemma ResumesEnd(data: Bytes, payload: nat, n: nat, done: seq<Record>, offset: nat)
    requires payload <= |data| && |done| == n && Resumes(data, payload, n, done, offset)
    ensures ParseRecords(data, payload, HeaderLength, n) == Some((done, offset))
  {
    assert done + [] == done;
  }

  lemma StartResumes(data: Bytes, payload: nat, n: nat)
    requires payload <= |data|
    ensures Resumes(data, payload, n, [], HeaderLength)
  {
    var rest := ParseRecords(data, payload, HeaderLength, n);
    if rest.Some? { assert [] + rest.value.0 == rest.value.0; }
  }
}
