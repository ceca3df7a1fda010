/**
 When a restore keeps the memory bound. It never evicts, so the bound holds afterwards
 exactly when the entries routed to each shard fit its slice, which a caller can tell from
 the entries alone.
 */
module Restoring {
  import opened Base
  import opened TableSpec
  import opened DatabaseSpec
  import opened DatabaseRuns
  import opened Eviction

  /** The entry is restored into shard i of n. */
  predicate Lands(cfg: Config, e: Entry, n: nat, i: nat, now: Time)
    requires n >= 1
  {
    !ExpiredAt(e, now) && ShardIndex(cfg, e.key, n) == i
  }

  /** How many keys outside `seen` the entries bring to shard i. */
  function Arrivals(cfg: Config, es: seq<Entry>, n: nat, i: nat, now: Time, seen: set<Key>): nat
    requires n >= 1
  {
    if es == [] then 0
    else
      var rest, e := es[..|es| - 1], es[|es| - 1];
      if Lands(cfg, e, n, i, now) && e.key !in seen then 1 + Arrivals(cfg, rest, n, i, now, seen + {e.key})
      else Arrivals(cfg, rest, n, i, now, seen)
  }

  /** And how many bytes; of several entries under one key the last one counts. */
  function Weight(cfg: Config, es: seq<Entry>, n: nat, i: nat, now: Time, seen: set<Key>): nat
    requires n >= 1
  {
    if es == [] then 0
    else
      var rest, e := es[..|es| - 1], es[|es| - 1];
      if Lands(cfg, e, n, i, now) && e.key !in seen then
        Footprint(cfg, e.key, e.value) + Weight(cfg, rest, n, i, now, seen + {e.key})
      else Weight(cfg, rest, n, i, now, seen)
  }

  /** The bytes shard i takes once the entries are restored. */
  function RestoredBytes(cfg: Config, db: Db, es: seq<Entry>, now: Time, i: nat): nat
    requires i < |db.shards| && db.shards[i].table.buckets >= 1
  {
    var n := |db.shards|;
    Weight(cfg, es, n, i, now, {}) + Fitted(db.shards[i].table.buckets, Arrivals(cfg, es, n, i, now, {})) * SlotBytes
  }

  /** What shard i is given fits its slice, or is at most one entry, or there is no slice. */
  predicate Roomy(cfg: Config, db: Db, es: seq<Entry>, now: Time, i: nat)
    requires i < |db.shards| && db.shards[i].table.buckets >= 1
  {
    || db.shards[i].slice == 0
    || Arrivals(cfg, es, |db.shards|, i, now, {}) <= 1
    || RestoredBytes(cfg, db, es, now, i) <= db.shards[i].slice
  }

  // ---------------------------------------------------------------- one table

  ghost function Without(m: map<Key, Entry>, ks: set<Key>): map<Key, Entry> { m - ks }

  /** The table without the given keys holds this many keys and bytes. */
  ghost predicate Measures(cfg: Config, t: Table, seen: set<Key>, keys: nat, bytes: nat) {
    |Without(t.entries, seen)| == keys && BytesOf(cfg, Without(t.entries, seen), Drop(t.order, seen)) == bytes
  }

  lemma FrontDrop(s: seq<Key>, k: Key, seen: set<Key>)
    ensures Drop([k] + Drop(s, {k}), seen) == if k in seen then Drop(s, seen) else [k] + Drop(s, seen + {k})
  {
    DropTwice(s, {k}, seen);
    assert {k} + seen == seen + {k};
    assert k in seen ==> seen + {k} == seen;
    DropAppend([k], Drop(s, {k}), seen);
    assert [k][1..] == [];
  }

  lemma OverwrittenAgain(cfg: Config, t: Table, e: Entry, seen: set<Key>, keys: nat, bytes: nat)
    requires e.key in seen && Measures(cfg, t, seen, keys, bytes)
    ensures Measures(cfg, PutBack(t, e), seen, keys, bytes)
  {
    hide BytesOf, PutBack, Drop, Without;
    PutBackParts(t, e);
    FrontDrop(t.order, e.key, seen);
    UpdateWithout(t.entries, e, seen);
  }

  lemma PutMeasures(cfg: Config, t: Table, e: Entry, seen: set<Key>, keys: nat, bytes: nat)
    requires Listed(t) && e.key !in seen && Measures(cfg, t, seen + {e.key}, keys, bytes)
    ensures Measures(cfg, PutBack(t, e), seen, keys + 1, bytes + Footprint(cfg, e.key, e.value))
  {
    hide Footprint, PutBack, Drop, BytesOf, Listed, Without;
    var m, rest := Without(t.entries, seen + {e.key}), Drop(t.order, seen + {e.key});
    RestWithin(t, seen, e.key);
    BytesFront(cfg, m, e, rest);
    PutBackParts(t, e);
    FrontDrop(t.order, e.key, seen);
    UpdateWithout(t.entries, e, seen);
    PutSize(m, e.key, e);
  }

  lemma RestWithin(t: Table, seen: set<Key>, k: Key)
    requires Listed(t)
    ensures forall x :: x in Drop(t.order, seen + {k}) ==> x in Without(t.entries, seen + {k}) && x != k
  {
    DropElements(t.order, seen + {k});
    assert forall x :: x in Drop(t.order, seen + {k}) ==> x in Elements(Drop(t.order, seen + {k}));
  }

  lemma UpdateWithout(m: map<Key, Entry>, e: Entry, seen: set<Key>)
    ensures e.key in seen ==> Without(m[e.key := e], seen) == Without(m, seen)
    ensures e.key !in seen ==> Without(m[e.key := e], seen) == Without(m, seen + {e.key})[e.key := e]
    ensures e.key !in Without(m, seen + {e.key})
  {
  }

  lemma BytesFront(cfg: Config, m: map<Key, Entry>, e: Entry, rest: seq<Key>)
    requires forall x :: x in rest ==> x in m && x != e.key
    ensures BytesOf(cfg, m[e.key := e], [e.key] + rest) == Footprint(cfg, e.key, e.value) + BytesOf(cfg, m, rest)
  {
    BytesSame(cfg, m, m[e.key := e], rest);
    assert ([e.key] + rest)[1..] == rest;
  }

  /** Doubling as entries arrive ends at the size that a table for all of them needs. */
  lemma GrowthFits(b: nat, size: nat)
    requires b >= 1
    ensures 4 * size <= 3 * Fitted(b, size)
    ensures Fitted(b, size + 1) == Grown(Fitted(b, size), size + 1)
    decreases 4 * size - 3 * b
  {
    if 4 * size > 3 * b { GrowthFits(2 * b, size); }
  }

  // ---------------------------------------------------------------- one shard

  /** What one more entry does to the table of shard i. */
  lemma ShardStep(cfg: Config, db: Db, es: seq<Entry>, now: Time, i: nat)
    requires es != [] && i < |db.shards|
    ensures var n, before, after := |db.shards|, RestoreAll(cfg, db, es[..|es| - 1], now), RestoreAll(cfg, db, es, now);
            && |before.shards| == |after.shards| == n
            && (Lands(cfg, es[|es| - 1], n, i, now) ==>
                  after.shards[i] == RestoreShard(before.shards[i], es[|es| - 1]))
            && (!Lands(cfg, es[|es| - 1], n, i, now) ==> after.shards[i] == before.shards[i])
  {
    hide ShardIndex, Put, Expire;
  }

  /** The measure of a table agrees with what the entries bring. */
  ghost predicate Agrees(cfg: Config, t: Table, es: seq<Entry>, n: nat, i: nat, now: Time, seen: set<Key>)
    requires n >= 1
  {
    Measures(cfg, t, seen, Arrivals(cfg, es, n, i, now, seen), Weight(cfg, es, n, i, now, seen))
  }

  lemma AgreesNext(cfg: Config, t: Table, es: seq<Entry>, n: nat, i: nat, now: Time, seen: set<Key>)
    requires n >= 1 && es != [] && Listed(t)
    requires var rest, e := es[..|es| - 1], es[|es| - 1];
             Agrees(cfg, t, rest, n, i, now,
                    if Lands(cfg, e, n, i, now) && e.key !in seen then seen + {e.key} else seen)
    ensures var e := es[|es| - 1];
            Agrees(cfg, if Lands(cfg, e, n, i, now) then PutBack(t, e) else t, es, n, i, now, seen)
  {
    hide Measures, ShardIndex, Footprint, PutBack, ExpiredAt, Listed;
    var rest, e := es[..|es| - 1], es[|es| - 1];
    if Lands(cfg, e, n, i, now) && e.key !in seen {
      var seen' := seen + {e.key};
      PutMeasures(cfg, t, e, seen, Arrivals(cfg, rest, n, i, now, seen'), Weight(cfg, rest, n, i, now, seen'));
    } else if Lands(cfg, e, n, i, now) {
      OverwrittenAgain(cfg, t, e, seen, Arrivals(cfg, rest, n, i, now, seen), Weight(cfg, rest, n, i, now, seen));
    }
  }

  lemma {:induction false} ShardMeasures(cfg: Config, db: Db, es: seq<Entry>, now: Time, i: nat, seen: set<Key>)
    requires Ok(cfg, db) && i < |db.shards| && db.shards[i].table.entries == map[] && db.shards[i].table.order == []
    ensures Agrees(cfg, RestoreAll(cfg, db, es, now).shards[i].table, es, |db.shards|, i, now, seen)
  {
    if es == [] {
      var none: map<Key, Entry> := map[];
      assert none - seen == none;
    } else {
      hide Agrees, Lands, PutBack, RestoreAll, Ok, Listed;
      var rest, e, n := es[..|es| - 1], es[|es| - 1], |db.shards|;
      ShardStep(cfg, db, es, now, i);
      RestoredListed(cfg, db, rest, now, i);
      ShardMeasures(cfg, db, rest, now, i, if Lands(cfg, e, n, i, now) && e.key !in seen then seen + {e.key} else seen);
      AgreesNext(cfg, RestoreAll(cfg, db, rest, now).shards[i].table, es, n, i, now, seen);
    }
  }

  lemma RestoredListed(cfg: Config, db: Db, es: seq<Entry>, now: Time, i: nat)
    requires Ok(cfg, db) && i < |db.shards|
    ensures Listed(RestoreAll(cfg, db, es, now).shards[i].table)
  {
    RestoreOk(cfg, db, es, now);
    Parts(cfg, RestoreAll(cfg, db, es, now));
  }

  lemma {:induction false} ShardBuckets(cfg: Config, db: Db, es: seq<Entry>, now: Time, i: nat)
    requires Ok(cfg, db) && i < |db.shards| && db.shards[i].table.entries == map[]
    ensures var s := RestoreAll(cfg, db, es, now).shards[i];
            s.table.buckets == Fitted(db.shards[i].table.buckets, |s.table.entries|) && s.slice == db.shards[i].slice
  {
    if es != [] {
      hide ShardIndex, Ok;
      var rest, e := es[..|es| - 1], es[|es| - 1];
      var t := RestoreAll(cfg, db, rest, now).shards[i].table;
      ShardBuckets(cfg, db, rest, now, i);
      ShardStep(cfg, db, es, now, i);
      RestoreOk(cfg, db, rest, now);
      Parts(cfg, RestoreAll(cfg, db, rest, now));
      Parts(cfg, db);
      GrowthFits(db.shards[i].table.buckets, |t.entries|);
      PutSize(t.entries, e.key, e);
      PutBackSize(t, e);
    }
  }

  lemma PutBackSize(t: Table, e: Entry)
    ensures |PutBack(t, e).entries| == if e.key in t.entries then |t.entries| else |t.entries| + 1
    ensures PutBack(t, e).buckets == if e.key in t.entries then t.buckets else Grown(t.buckets, |t.entries| + 1)
  {
    assert PutBack(t, e).entries == t.entries[e.key := e];
    PutSize(t.entries, e.key, e);
  }

  /** A restored shard holds what it was given, and takes the bytes that were foreseen. */
  lemma RestoredUsage(cfg: Config, db: Db, es: seq<Entry>, now: Time, i: nat)
    requires Ok(cfg, db) && i < |db.shards|
    ensures db.shards[i].table.buckets >= 1
    ensures var s := Restore(cfg, db, es, now).shards[i];
            && Usage(cfg, s.table) == RestoredBytes(cfg, db, es, now, i)
            && |s.table.entries| == Arrivals(cfg, es, |db.shards|, i, now, {})
            && s.slice == db.shards[i].slice
  {
    hide ShardIndex, Fitted, Arrivals, Weight, BytesOf;
    var db0 := ClearAll(db);
    ClearOk(cfg, db);
    Parts(cfg, db);
    ShardMeasures(cfg, db0, es, now, i, {});
    ShardBuckets(cfg, db0, es, now, i);
    var t := RestoreAll(cfg, db0, es, now).shards[i].table;
    assert t.entries - {} == t.entries;
    DropNothing(t.order, {});
  }

  /** A restored shard is within its bound exactly when it was given no more than its slice holds. */
  lemma ShardBoundedExactly(cfg: Config, db: Db, es: seq<Entry>, now: Time, i: nat)
    requires Ok(cfg, db) && i < |db.shards|
    ensures db.shards[i].table.buckets >= 1
    ensures Bounded(cfg, Restore(cfg, db, es, now).shards[i]) <==> Roomy(cfg, db, es, now, i)
  {
    hide Restore, RestoredBytes, Arrivals, Usage, Ok;
    RestoredUsage(cfg, db, es, now, i);
  }

  /**
   A restore leaves the whole database within its memory bound exactly when the entries,
   which it does not trim, leave every shard room.
   */
  lemma RestoreBoundedExactly(cfg: Config, db: Db, es: seq<Entry>, now: Time)
    requires Ok(cfg, db) && Sliced(db)
    ensures forall i :: 0 <= i < |db.shards| ==> db.shards[i].table.buckets >= 1
    ensures AllBounded(cfg, Restore(cfg, db, es, now)) <==>
              forall i :: 0 <= i < |db.shards| ==> Roomy(cfg, db, es, now, i)
  {
    hide Roomy, Bounded, ShardIndex, Slice;
    Parts(cfg, db);
    RestoreSliced(cfg, ClearAll(db), es, now);
    forall i | 0 <= i < |db.shards|
      ensures Bounded(cfg, Restore(cfg, db, es, now).shards[i]) <==> Roomy(cfg, db, es, now, i)
    {
      ShardBoundedExactly(cfg, db, es, now, i);
    }
  }
}
