/**
 The reference behaviour of the sharded database: each shard a table with a sweep cursor,
 an eviction counter and its slice of the memory budget. Time is passed to each call.
 */
module DatabaseSpec {
  import opened Base
  import opened TableSpec
  import Bits

  datatype Shard = Shard(table: Table, cursor: nat, evicted: nat, slice: nat)

  datatype Db = Db(shards: seq<Shard>, limit: nat)

  datatype SetOutcome = Inserted | Updated | Rejected

  // ---------------------------------------------------------------- routing

  /** The shard of a key among n: its top bits, or 0 when there is one shard. */
  function ShardIndex(cfg: Config, k: Key, n: nat): (i: nat)
    requires n >= 1
    ensures i < n
  {
    if n == 1 then 0 else Bits.And(Bits.Shr(cfg.hash(k), 64 - Min(64, Log2(n))), n - 1)
  }

  /** The number of doublings from 1 to n or beyond. */
  function Log2(n: nat): nat { if n <= 1 then 0 else Bits.Width(n - 1) }

  method Log2OfPowerOfTwo(n: nat) returns (bits: nat)
    ensures bits == Log2(n)
  {
    bits := 0;
    while Bits.Pow2(bits) < n
      invariant bits > 0 ==> Bits.Pow2(bits - 1) < n
      decreases n - Bits.Pow2(bits)
    {
      bits := bits + 1;
    }
    if n > 1 { Bits.WidthUnique(n - 1, bits); }
  }

  /** Masking after the shift changes nothing: the shard is exactly the top bits of the hash. */
  lemma ShardIsTopBits(cfg: Config, k: Key, bits: nat)
    requires 1 <= bits <= 64
    ensures ShardIndex(cfg, k, Bits.Pow2(bits)) == Bits.Shr(cfg.hash(k), 64 - bits)
  {
    hide Bits.Pow2, Bits.Shr, Bits.And, Log2;
    LogPow2(bits);
    var x := Bits.Shr(cfg.hash(k), 64 - bits);
    TopBitsBelow(cfg.hash(k), bits);
    Bits.AndMask(x, bits);
    SmallMod(x, Bits.Pow2(bits));
  }

  lemma TopBitsBelow(h: Hash, bits: nat)
    requires 1 <= bits <= 64
    ensures Bits.Shr(h, 64 - bits) < Bits.Pow2(bits)
  {
    hide Bits.Pow2, Bits.Shr;
    Bits.WordIsPow2();
    Bits.Pow2Add(bits, 64 - bits);
    Bits.ShrBelow(h, 64 - bits, Bits.Pow2(bits));
  }

  lemma LogPow2(bits: nat)
    requires 1 <= bits
    ensures Bits.Pow2(bits) >= 2 && Log2(Bits.Pow2(bits)) == bits
  {
    hide Bits.Pow2, Bits.Width;
    TwoPowers(bits);
    var p := Bits.Pow2(bits - 1);
    assert p >= 1;
    Bits.WidthUnique(2 * p - 1, bits);
  }

  lemma TwoPowers(bits: nat)
    requires bits >= 1
    ensures Bits.Pow2(bits) == 2 * Bits.Pow2(bits - 1)
  {
  }

  lemma SmallMod(x: nat, n: nat)
    requires x < n
    ensures x % n == x
  {
  }

  // ---------------------------------------------------------------- invariants

  /** Every key is stored in the shard it routes to. */
  ghost predicate Routed(cfg: Config, db: Db) {
    && |db.shards| >= 1
    && forall i, k :: 0 <= i < |db.shards| && k in db.shards[i].table.entries ==> ShardIndex(cfg, k, |db.shards|) == i
  }

  ghost predicate ShardOk(s: Shard) {
    WellFormed(s.table) && s.cursor < s.table.buckets
  }

  ghost predicate Ok(cfg: Config, db: Db) {
    && Routed(cfg, db)
    && forall i :: 0 <= i < |db.shards| ==> ShardOk(db.shards[i])
  }

  function NewShard(buckets: nat): Shard { Shard(Empty(buckets), 0, 0, 0) }

  function Fresh(initialBuckets: nat, shardCount: nat): Db {
    var n := Bits.RoundUp(Max(shardCount, 1));
    Db(seq(n, _ => NewShard(Max(Share(initialBuckets, n), 1))), 0)
  }

  // ---------------------------------------------------------------- one shard

  /** Oldest entries go until the shard is inside its slice or holds a single entry. */
  ghost function EvictToFit(cfg: Config, s: Shard): Shard
    requires WellFormed(s.table)
    decreases |s.table.order|
  {
    if s.slice != 0 && Usage(cfg, s.table) > s.slice && |s.table.entries| > 1 then
      EvictShrinks(s.table);
      EvictToFit(cfg, s.(table := EvictOldest(s.table), evicted := s.evicted + 1))
    else s
  }

  lemma EvictShrinks(t: Table)
    requires WellFormed(t) && |t.entries| > 0
    ensures t.order != []
    ensures EvictOldest(t) == Table(t.entries - {t.order[|t.order| - 1]}, t.order[..|t.order| - 1], t.buckets)
    ensures WellFormed(EvictOldest(t))
  {
    hide Drop;
    DistinctLength(t.order);
    var n := |t.order| - 1;
    DropAt(t.order, n);
    assert t.order[..n] + t.order[n + 1..] == t.order[..n];
    RemoveAllWellFormed(t, {t.order[n]});
  }

  /** Whether an entry is stored and unexpired. */
  predicate LiveIn(m: map<Key, Entry>, k: Key, now: Time) {
    k in m && !ExpiredAt(m[k], now)
  }

  ghost function SetShard(cfg: Config, s: Shard, k: Key, v: Bytes, deadline: Option<Time>): Shard
    requires WellFormed(s.table)
  {
    PutWellFormed(s.table, k, v);
    var t := Put(s.table, k, v);
    ExpireWellFormed(t, k, deadline);
    EvictToFit(cfg, s.(table := Expire(t, k, deadline)))
  }

  function GetShard(s: Shard, k: Key, now: Time): Shard {
    if LiveIn(s.table.entries, k, now) && s.slice != 0 then s.(table := Touch(s.table, k)) else s
  }

  function DelShard(s: Shard, k: Key): Shard { s.(table := Remove(s.table, k)) }

  /** One pass of the incremental sweep over a shard. */
  ghost function SweepShard(cfg: Config, s: Shard, scan: nat, now: Time): Shard
    requires s.table.buckets >= 1
  {
    var first := if s.cursor >= s.table.buckets then 0 else s.cursor;
    var scanned := Min(scan, s.table.buckets);
    s.(table := RemoveIf(cfg, s.table, first, scanned, DeadAt(now)),
       cursor := (first + scanned) % s.table.buckets)
  }

  ghost function LimitShard(cfg: Config, s: Shard, slice: nat): Shard
    requires WellFormed(s.table)
  {
    EvictToFit(cfg, s.(slice := slice))
  }

  function ClearShard(s: Shard): Shard { s.(table := Clear(s.table), cursor := 0) }

  /** One entry of a snapshot goes back, without evicting. */
  function RestoreShard(s: Shard, e: Entry): Shard { s.(table := PutBack(s.table, e)) }

  // ---------------------------------------------------------------- the database

  function At(cfg: Config, db: Db, k: Key): Shard
    requires |db.shards| >= 1
  {
    db.shards[ShardIndex(cfg, k, |db.shards|)]
  }

  function With(cfg: Config, db: Db, k: Key, s: Shard): Db
    requires |db.shards| >= 1
  {
    db.(shards := db.shards[ShardIndex(cfg, k, |db.shards|) := s])
  }

  /** Rejection is judged against the whole limit. */
  predicate Fits(cfg: Config, db: Db, k: Key, v: Bytes) {
    db.limit == 0 || Footprint(cfg, k, v) <= db.limit
  }

  ghost function Set(cfg: Config, db: Db, k: Key, v: Bytes, deadline: Option<Time>): (Db, SetOutcome)
    requires Ok(cfg, db)
  {
    if !Fits(cfg, db, k, v) then (db, Rejected)
    else (With(cfg, db, k, SetShard(cfg, At(cfg, db, k), k, v, deadline)),
          if k in At(cfg, db, k).table.entries then Updated else Inserted)
  }

  function Get(cfg: Config, db: Db, k: Key, now: Time): (Db, Option<Bytes>)
    requires |db.shards| >= 1
  {
    var s := At(cfg, db, k);
    (With(cfg, db, k, GetShard(s, k, now)),
     if LiveIn(s.table.entries, k, now) then Some(s.table.entries[k].value) else None)
  }

  function Del(cfg: Config, db: Db, k: Key, now: Time): (Db, bool)
    requires |db.shards| >= 1
  {
    var s := At(cfg, db, k);
    (With(cfg, db, k, DelShard(s, k)), LiveIn(s.table.entries, k, now))
  }

  function Exists(cfg: Config, db: Db, k: Key, now: Time): bool
    requires |db.shards| >= 1
  {
    LiveIn(At(cfg, db, k).table.entries, k, now)
  }

  /** The buckets one sweep may scan in each shard. */
  function SweepBudget(maxBuckets: nat, shards: nat): nat
    requires shards >= 1
  {
    Max(Share(maxBuckets, shards), 1)
  }

  ghost function RemoveExpired(cfg: Config, db: Db, maxBuckets: nat, now: Time): Db
    requires Ok(cfg, db)
  {
    if maxBuckets == 0 then db
    else db.(shards := seq(|db.shards|, i requires 0 <= i < |db.shards| =>
                             SweepShard(cfg, db.shards[i], SweepBudget(maxBuckets, |db.shards|), now)))
  }

  /** Each shard's share of the budget. */
  function Slice(bytes: nat, shards: nat): nat
    requires shards >= 1
  {
    if bytes == 0 then 0 else Max(Share(bytes, shards), 1)
  }

  ghost function SetMaxMemory(cfg: Config, db: Db, bytes: nat): Db
    requires Ok(cfg, db)
  {
    Db(seq(|db.shards|, i requires 0 <= i < |db.shards| =>
             LimitShard(cfg, db.shards[i], Slice(bytes, |db.shards|))), bytes)
  }

  function ClearAll(db: Db): Db {
    db.(shards := seq(|db.shards|, i requires 0 <= i < |db.shards| => ClearShard(db.shards[i])))
  }

  /** Puts one unexpired entry back, without evicting. */
  function RestoreEntry(cfg: Config, db: Db, e: Entry): Db
    requires |db.shards| >= 1
  {
    With(cfg, db, e.key, RestoreShard(At(cfg, db, e.key), e))
  }

  function RestoreAll(cfg: Config, db: Db, entries: seq<Entry>, now: Time): (r: Db)
    requires |db.shards| >= 1
    ensures |r.shards| == |db.shards|
  {
    if entries == [] then db
    else
      var before := RestoreAll(cfg, db, entries[..|entries| - 1], now);
      var e := entries[|entries| - 1];
      if ExpiredAt(e, now) then before else RestoreEntry(cfg, before, e)
  }

  function Restore(cfg: Config, db: Db, entries: seq<Entry>, now: Time): Db
    requires |db.shards| >= 1
  {
    RestoreAll(cfg, ClearAll(db), entries, now)
  }
}
