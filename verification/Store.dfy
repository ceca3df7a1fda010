/** The snapshot store's two operations on a database, apart from the file steps of a save. */
module Store {
  import opened Base
  import opened LittleEndian
  import opened Codec
  import opened Persistence
  import TS = TableSpec
  import D = DatabaseSpec
  import DB = Database
  import Bits
  import opened RoundTrip

  datatype Outcome = Loaded(count: nat) | NotFound | Failed

  /** Everything an unexpired entry needs for its deadline to fit the file. */
  ghost predicate Fits(db: D.Db, c: Clock) {
    ClockOk(c) && forall i, k :: 0 <= i < |db.shards| && k in db.shards[i].table.entries ==>
      InRange(db.shards[i].table.entries[k], c)
  }

  /** The data encodes a listing, in some order, of exactly the live entries. */
  ghost predicate SnapshotOf(cfg: TS.Config, db: D.Db, c: Clock, data: Bytes)
    requires |db.shards| >= 1 && c.tick >= 1 && c.perMilli >= 1
  {
    exists es: seq<Entry> :: DB.LiveListing(cfg, db, c.steady, es) && Encodes(es, c, data)
  }

  ghost predicate Encodes(es: seq<Entry>, c: Clock, data: Bytes)
    requires c.tick >= 1 && c.perMilli >= 1
  {
    (forall i :: 0 <= i < |es| ==> InRange(es[i], c)) && data == Encode(FreezeAll(es, c))
  }

  /** The bytes a save writes. */
  method Contents(db: DB.Database, c: Clock) returns (data: Bytes)
    requires db.Valid() && Fits(db.view, c)
    ensures |db.view.shards| >= 1 && SnapshotOf(db.cfg, db.view, c, data)
  {
    hide Encode, FreezeAll, InRange, D.ShardIndex, DB.ShardsAt, TS.KeysDistinct;
    var entries := db.Snapshot(c.steady);
    forall i | 0 <= i < |entries|
      ensures InRange(entries[i], c)
    {
      assert entries[i] in entries;
      assert DB.Holds(db.cfg, db.view, entries[i], c.steady);
    }
    data := EncodeEntries(entries, c);
    assert Encodes(entries, c, data);
  }

  /** Loads a file into the database; anything unreadable leaves the database as it was. */
  method Load(db: DB.Database, file: Option<Bytes>, readOk: bool, c: Clock) returns (outcome: Outcome)
    requires db.Valid()
    modifies DB.All(db.repr), db`view, db`repr
    ensures db.Valid()
    ensures outcome == NotFound <==> file == None
    ensures outcome == Failed <==> file.Some? && (!readOk || Decode(file.value) == None)
    ensures !outcome.Loaded? ==> db.view == old(db.view)
    ensures outcome.Loaded? ==>
              var loaded := ThawAll(Decode(file.value).value, c);
              && |old(db.view).shards| >= 1
              && db.view == D.Restore(db.cfg, old(db.view), loaded, c.steady)
              && outcome.count == DB.Unexpired(loaded, c.steady)
  {
    if file == None {
      return NotFound;
    }
    if !readOk {
      return Failed;
    }
    var entries := DecodeEntries(file.value, c);
    if entries == None {
      return Failed;
    }
    var n := db.Restore(entries.value, c.steady);
    return Loaded(n);
  }

  // ---------------------------------------------------------------- save, then load

  /** The live keys and values are short enough for the decoder. */
  ghost predicate Modest(cfg: TS.Config, db: D.Db, now: TS.Time)
    requires |db.shards| >= 1
  {
    forall k: Key :: var m := D.At(cfg, db, k).table.entries;
      D.LiveIn(m, k, now) ==> |k| <= MaxField && |m[k].value| <= MaxField
  }

  /** The number of entries fits the header, and live keys and values fit their length prefixes. */
  ghost predicate Prefixed(cfg: TS.Config, db: D.Db, now: TS.Time)
    requires |db.shards| >= 1
  {
    && DB.Stored(db.shards) < Pow256(8)
    && forall k: Key :: var m := D.At(cfg, db, k).table.entries;
         D.LiveIn(m, k, now) ==> |k| < Pow256(4) && |m[k].value| < Pow256(4)
  }

  /** Unexpired entries are all written, in order. */
  lemma {:induction false} FreezeAt(es: seq<Entry>, c: Clock)
    requires ClockOk(c) && forall i :: 0 <= i < |es| ==> InRange(es[i], c) && !TS.ExpiredAt(es[i], c.steady)
    ensures |FreezeAll(es, c)| == |es| && forall i :: 0 <= i < |es| ==> FreezeAll(es, c)[i] == Freeze(es[i], c)
  {
    hide Freeze, InRange;
    if es != [] { FreezeAt(es[..|es| - 1], c); }
  }

  lemma RawFits()
    ensures Pow256(8) == Bits.Word
  {
    Pow256IsPow2(8);
    Bits.WordIsPow2();
  }

  lemma FreezeFits(e: Entry, c: Clock)
    requires ClockOk(c) && InRange(e, c)
    ensures var r := Freeze(e, c); r.key == e.key && r.value == e.value && r.expiry < Pow256(8)
  {
    hide ToWallMillis, Pow256;
    RawFits();
  }

  /** A listing of live entries is no longer than the number of entries stored. */
  lemma ListingShort(cfg: TS.Config, db: D.Db, now: TS.Time, es: seq<Entry>)
    requires D.Ok(cfg, db) && DB.LiveListing(cfg, db, now, es)
    ensures |es| <= DB.Stored(db.shards)
  {
    hide D.ShardIndex, D.Ok;
    var keys := seq(|es|, i requires 0 <= i < |es| => es[i].key);
    DistinctLength(keys);
    forall k | k in keys
      ensures k in DB.KeysOf(db.shards)
    {
      var i :| 0 <= i < |es| && es[i].key == k;
      assert es[i] in es && DB.Holds(cfg, db, es[i], now);
      DB.KeysOfMember(db.shards, k);
    }
    TS.CardSubset(Elements(keys), DB.KeysOf(db.shards));
    DB.SizeIsDomain(cfg, db);
  }

  /** The records of a listing carry the fields of the live entries and nothing else. */
  lemma ListingFields(cfg: TS.Config, db: D.Db, c: Clock, es: seq<Entry>)
    requires D.Ok(cfg, db) && ClockOk(c) && DB.LiveListing(cfg, db, c.steady, es)
    requires (forall i :: 0 <= i < |es| ==> InRange(es[i], c)) && Prefixed(cfg, db, c.steady)
    ensures Savable(es, c) && Writable(FreezeAll(es, c))
    ensures Modest(cfg, db, c.steady) <==>
              forall i :: 0 <= i < |FreezeAll(es, c)| ==>
                |FreezeAll(es, c)[i].key| <= MaxField && |FreezeAll(es, c)[i].value| <= MaxField
  {
    hide InRange, D.ShardIndex, D.ShardOk, FreezeAll, Freeze, Pow256;
    forall i | 0 <= i < |es|
      ensures D.LiveIn(D.At(cfg, db, es[i].key).table.entries, es[i].key, c.steady)
      ensures D.At(cfg, db, es[i].key).table.entries[es[i].key] == es[i] && !TS.ExpiredAt(es[i], c.steady)
    {
      assert es[i] in es && DB.Holds(cfg, db, es[i], c.steady);
    }
    FreezeAt(es, c);
    ListingShort(cfg, db, c.steady, es);
    forall i | 0 <= i < |es|
      ensures var r := FreezeAll(es, c)[i]; r.key == es[i].key && r.value == es[i].value && r.expiry < Pow256(8)
    {
      FreezeFits(es[i], c);
    }
    forall k: Key | D.LiveIn(D.At(cfg, db, k).table.entries, k, c.steady)
      ensures exists i :: 0 <= i < |es| && es[i] == D.At(cfg, db, k).table.entries[k] && es[i].key == k
    {
      DB.LiveKeysExact(cfg, db, c.steady, k);
      var e := D.At(cfg, db, k).table.entries[k];
      assert DB.Holds(cfg, db, e, c.steady) && e in es;
    }
  }

  /** What a save writes can be read back exactly when no live key or value passes the decoder's limit. */
  lemma SavedReadableExactly(cfg: TS.Config, db: D.Db, c: Clock, data: Bytes)
    requires D.Ok(cfg, db) && ClockOk(c) && Prefixed(cfg, db, c.steady) && SnapshotOf(cfg, db, c, data)
    ensures Decode(data).Some? <==> Modest(cfg, db, c.steady)
  {
    hide Encode, Decode, FreezeAll, InRange, D.ShardIndex, D.ShardOk, Modest, Writable, Prefixed;
    var es: seq<Entry> :| DB.LiveListing(cfg, db, c.steady, es) && Encodes(es, c, data);
    ListingFields(cfg, db, c, es);
    ReadableExactly(FreezeAll(es, c));
  }

  /**
   What a save writes can be loaded by any other process, with other shards, another hash
   and other clocks: it then holds the same live map, up to the keys that lapsed in
   between, and reports as many entries as it stores.
   */
  lemma SavedThenLoaded(cfg: TS.Config, db: D.Db, c: Clock, data: Bytes, cfg': TS.Config, db': D.Db, c': Clock)
    requires D.Ok(cfg, db) && D.Ok(cfg', db') && ClockOk(c) && ClockOk(c')
    requires Prefixed(cfg, db, c.steady) && Modest(cfg, db, c.steady) && SnapshotOf(cfg, db, c, data)
    ensures Decode(data).Some?
    ensures var loaded := ThawAll(Decode(data).value, c');
            var r := D.Restore(cfg', db', loaded, c'.steady);
            && (forall k: Key ::
                  var m, m' := D.At(cfg, db, k).table.entries, D.At(cfg', r, k).table.entries;
                  && (D.LiveIn(m', k, c'.steady) <==> D.LiveIn(m, k, c.steady) && Carried(m[k], c, c').Some?)
                  && (D.LiveIn(m', k, c'.steady) ==> m'[k] == Carried(m[k], c, c').value))
            && DB.Unexpired(loaded, c'.steady) == DB.Stored(r.shards)
  {
    hide Encode, Decode, FreezeAll, ThawAll, InRange, Carried, D.ShardIndex, D.ShardOk, D.Restore, DB.Stored,
         DB.Unexpired, Modest, Prefixed, Pow256;
    var es: seq<Entry> :| DB.LiveListing(cfg, db, c.steady, es) && Encodes(es, c, data);
    ListingFields(cfg, db, c, es);
    SavedAndLoaded(cfg, db, es, c, cfg', db', c');
  }
}
