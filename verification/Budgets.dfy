/**
 How the database divides what it is given: shards, buckets, memory and sweeps. Every
 division is stated by the inequalities it must meet.
 */
module Budgets {
  import opened Base
  import opened TableSpec
  import opened DatabaseSpec
  import opened DatabaseRuns
  import opened Eviction
  import Bits

  /** The whole part of total divided by n, but never less than one. */
  ghost predicate EvenShare(s: nat, total: nat, n: nat) {
    if total < n then s == 1 else s * n <= total < (s + 1) * n
  }

  /** The least power of two that is at least n. */
  ghost predicate LeastPower(p: nat, n: nat) {
    Bits.IsPow2(p) && n <= p && forall k: nat :: n <= Bits.Pow2(k) ==> p <= Bits.Pow2(k)
  }

  lemma ShareWhole(total: nat, n: nat)
    requires n >= 1
    ensures Share(total, n) * n <= total < (Share(total, n) + 1) * n
  {
    var q := total / n;
    assert total == q * n + total % n;
  }

  lemma ShareEven(total: nat, n: nat)
    requires n >= 1
    ensures EvenShare(Max(Share(total, n), 1), total, n)
  {
    hide Share;
    ShareWhole(total, n);
    var q := Share(total, n);
    Bits.MulMono(1, q, n);
    Bits.MulMono(q + 1, 1, n);
  }

  /** At most one number is the even share. */
  lemma EvenOnce(s: nat, s': nat, total: nat, n: nat)
    requires EvenShare(s, total, n) && EvenShare(s', total, n)
    ensures s == s'
  {
    Bits.MulMono(s + 1, s', n);
    Bits.MulMono(s' + 1, s, n);
  }

  // ---------------------------------------------------------------- a new database

  /**
   A new database has the least power of two of shards that is at least the number asked
   for, each empty, with the least power of two of buckets that is at least its share.
   */
  lemma FreshExactly(buckets: nat, shards: nat)
    ensures var db := Fresh(buckets, shards);
            && LeastPower(|db.shards|, shards) && db.limit == 0
            && forall i, share :: 0 <= i < |db.shards| && EvenShare(share, buckets, |db.shards|) ==>
                 var s := db.shards[i];
                 && s.table.entries == map[] && s.table.order == [] && LeastPower(s.table.buckets, share)
                 && s.cursor == s.evicted == s.slice == 0
  {
    hide Bits.RoundUp, LeastPower, EvenShare, Share;
    var n := Bits.RoundUp(Max(shards, 1));
    LeastRoundUp(Max(shards, 1));
    LeastOfOne(n, shards);
    forall share | EvenShare(share, buckets, n)
      ensures LeastPower(Bits.RoundUp(Max(Share(buckets, n), 1)), share)
    {
      ShareEven(buckets, n);
      EvenOnce(share, Max(Share(buckets, n), 1), buckets, n);
      LeastRoundUp(share);
    }
  }

  lemma LeastRoundUp(n: nat)
    ensures LeastPower(Bits.RoundUp(n), n)
  {
    hide Bits.RoundUp;
    Bits.RoundUpIsLeast(n);
  }

  lemma LeastOfOne(p: nat, n: nat)
    requires LeastPower(p, Max(n, 1))
    ensures LeastPower(p, n)
  {
    hide Bits.Pow2, Bits.IsPow2;
  }

  // ---------------------------------------------------------------- the slices

  lemma SliceExactly(limit: nat, n: nat)
    requires n >= 1
    ensures var s := Slice(limit, n); if limit == 0 then s == 0 else s > 0 && EvenShare(s, limit, n)
  {
    hide EvenShare, Share;
    ShareEven(limit, n);
  }

  /** In every run every shard's slice is 0 without a limit, and otherwise an even share of it, rounded down. */
  lemma RunShares(cfg: Config, buckets: nat, shards: nat, calls: seq<Call>, i: nat)
    requires i < |Run(cfg, buckets, shards, calls).shards|
    ensures var db, limit := Run(cfg, buckets, shards, calls), LimitAfter(calls);
            var n, s := |db.shards|, db.shards[i].slice;
            && LeastPower(n, shards)
            && (limit == 0 <==> s == 0)
            && (limit >= n ==> s * n <= limit < (s + 1) * n)
            && (0 < limit < n ==> s == 1)
  {
    hide Run, Slice, LeastPower, Fresh;
    var db, limit := Run(cfg, buckets, shards, calls), LimitAfter(calls);
    RunSliced(cfg, buckets, shards, calls);
    FreshExactly(buckets, shards);
    SliceExactly(limit, |db.shards|);
    assert db.shards[i].slice == Slice(limit, |db.shards|);
  }

  /**
   In every run without a restore a shard holds one entry at most, or the bytes of its
   entries and of its buckets, times the number of shards, stay within the limit last set.
   */
  lemma RunWithinShare(cfg: Config, buckets: nat, shards: nat, calls: seq<Call>, i: nat)
    requires i < |Run(cfg, buckets, shards, calls).shards|
    requires forall j :: 0 <= j < |calls| ==> !calls[j].op.RestoreOp?
    ensures var db, limit := Run(cfg, buckets, shards, calls), LimitAfter(calls);
            var t := db.shards[i].table;
            || limit == 0 || |t.entries| <= 1
            || (BytesOf(cfg, t.entries, t.order) + 8 * t.buckets) * |db.shards| <= limit
  {
    hide Run, LeastPower, BytesOf;
    var db, limit := Run(cfg, buckets, shards, calls), LimitAfter(calls);
    RunShares(cfg, buckets, shards, calls, i);
    RunBounded(cfg, buckets, shards, calls);
    Parts(cfg, db);
    var s := db.shards[i];
    assert Bounded(cfg, s);
    assert limit != 0 && |s.table.entries| > 1 ==> Usage(cfg, s.table) <= s.slice;
    Bits.MulMono(Usage(cfg, s.table), s.slice, |db.shards|);
  }

  // ---------------------------------------------------------------- evictions

  /** The shard after a write, before anything is evicted. */
  function Stored(t: Table, k: Key, v: Bytes, deadline: Option<Time>): Table {
    var more := k !in t.entries && 4 * (|t.entries| + 1) > 3 * t.buckets;
    Table(t.entries[k := Entry(k, v, deadline)], [k] + Drop(t.order, {k}), if more then 2 * t.buckets else t.buckets)
  }

  /**
   An accepted write stores the entry in its shard and then evicts there exactly as many of
   the least recently used entries as the slice asks for; no other shard changes.
   */
  lemma SetEvicts(cfg: Config, db: Db, k: Key, v: Bytes, ttl: Option<nat>, now: Time, i: nat)
    requires Ok(cfg, db) && i < |db.shards| && (db.limit == 0 || cfg.overhead + |k| + |v| <= db.limit)
    ensures var db' := Step(cfg, db, Call(SetOp(k, v, ttl), now)).0;
            var deadline := if ttl.Some? then Some(now + ttl.value) else None;
            && |db'.shards| == |db.shards|
            && if i != ShardIndex(cfg, k, |db.shards|) then db'.shards[i] == db.shards[i]
               else EvictedTo(cfg, db.shards[i].(table := Stored(db.shards[i].table, k, v, deadline)), db'.shards[i])
  {
    hide Ok, ShardOk, ShardIndex, EvictedTo, SetShard, Stored;
    Parts(cfg, db);
    SetShardEvicts(cfg, At(cfg, db, k), k, v, Deadline(ttl, now));
  }

  lemma SetShardEvicts(cfg: Config, s: Shard, k: Key, v: Bytes, deadline: Option<Time>)
    requires WellFormed(s.table)
    ensures EvictedTo(cfg, s.(table := Stored(s.table, k, v, deadline)), SetShard(cfg, s, k, v, deadline))
  {
    hide WellFormed, EvictToFit, EvictedTo, Drop;
    PutWellFormed(s.table, k, v);
    ExpireWellFormed(Put(s.table, k, v), k, deadline);
    assert Expire(Put(s.table, k, v), k, deadline) == Stored(s.table, k, v, deadline);
    EvictExact(cfg, s.(table := Stored(s.table, k, v, deadline)));
  }

  /** A new limit gives every shard its share and evicts down to it, no further; without a limit nothing goes. */
  lemma LimitEvicts(cfg: Config, db: Db, bytes: nat, now: Time, i: nat, share: nat)
    requires Ok(cfg, db) && i < |db.shards| && if bytes == 0 then share == 0 else EvenShare(share, bytes, |db.shards|)
    ensures var db' := Step(cfg, db, Call(LimitOp(bytes), now)).0;
            && |db'.shards| == |db.shards| && db'.limit == bytes
            && EvictedTo(cfg, db.shards[i].(slice := share), db'.shards[i])
            && (bytes == 0 ==> db'.shards[i].table == db.shards[i].table)
  {
    hide Ok, ShardOk, EvictedTo, EvenShare, EvictToFit, WellFormed, Slice;
    Parts(cfg, db);
    SliceExactly(bytes, |db.shards|);
    if bytes != 0 { EvenOnce(share, Slice(bytes, |db.shards|), bytes, |db.shards|); }
    EvictExact(cfg, db.shards[i].(slice := share));
    NothingEvicted(cfg, db.shards[i].(slice := share));
  }

  /** Every shard has its share of the new limit and has evicted down to it. */
  ghost predicate Limited(cfg: Config, db: Db, db': Db, bytes: nat) {
    && |db'.shards| == |db.shards| && db'.limit == bytes
    && forall i :: 0 <= i < |db.shards| ==>
         && EvictedTo(cfg, db.shards[i].(slice := db'.shards[i].slice), db'.shards[i])
         && if bytes == 0 then db'.shards[i].slice == 0 else EvenShare(db'.shards[i].slice, bytes, |db.shards|)
  }

  lemma LimitLimits(cfg: Config, db: Db, bytes: nat)
    requires Ok(cfg, db)
    ensures Limited(cfg, db, SetMaxMemory(cfg, db, bytes), bytes)
  {
    hide Ok, ShardOk, EvictedTo, EvenShare, LimitShard, Slice;
    Parts(cfg, db);
    var share := Slice(bytes, |db.shards|);
    SliceExactly(bytes, |db.shards|);
    forall i | 0 <= i < |db.shards|
      ensures EvictedTo(cfg, db.shards[i].(slice := share), LimitShard(cfg, db.shards[i], share))
      ensures LimitShard(cfg, db.shards[i], share).slice == share
    {
      LimitOk(cfg, db.shards[i], share);
      LimitEvicts(cfg, db, bytes, 0, i, share);
    }
  }

  lemma NothingEvicted(cfg: Config, s: Shard)
    requires WellFormed(s.table)
    ensures s.slice == 0 ==> EvictToFit(cfg, s).table == s.table
  {
    hide WellFormed, Usage;
  }

  // ---------------------------------------------------------------- the sweep

  /** How far the bucket is ahead of the cursor, going round. */
  function Ahead(b: nat, cursor: nat, n: nat): int { if cursor <= b then b - cursor else b + n - cursor }

  lemma WindowAhead(b: nat, cursor: nat, count: nat, n: nat)
    requires b < n && cursor < n && count <= n
    ensures InWindow(b, cursor, count, n) <==> Ahead(b, cursor, n) < count
  {
    var o := Ahead(b, cursor, n);
    WrapAt(cursor, o, n);
    if o < count { assert Wrap(cursor, o, n) == b; }
    if InWindow(b, cursor, count, n) {
      var o' : nat :| o' < count && Wrap(cursor, o', n) == b;
      WrapAt(cursor, o', n);
    }
  }

  lemma WrapAt(cursor: nat, o: nat, n: nat)
    requires cursor < n && o < n
    ensures Wrap(cursor, o, n) == if cursor + o < n then cursor + o else cursor + o - n
  {
    if cursor + o < n {
      Bits.ModUnique(cursor + o, n, 0, cursor + o);
    } else {
      Bits.ModUnique(cursor + o, n, 1, cursor + o - n);
    }
  }

  lemma SlotIsRemainder(cfg: Config, k: Key, n: nat)
    requires Bits.IsPow2(n)
    ensures n >= 1 && Slot(cfg, k, n) == cfg.hash(k) % n
  {
    var j: nat :| n == Bits.Pow2(j);
    hide Bits.Pow2, Bits.And;
    Bits.AndMask(cfg.hash(k), j);
  }

  lemma PassExactly(cfg: Config, s: Shard, scan: nat, now: Time, k: Key)
    requires ShardOk(s)
    ensures var r, n := SweepShard(cfg, s, scan, now), s.table.buckets;
            && (k in r.table.entries <==>
                  && k in s.table.entries
                  && !(ExpiredAt(s.table.entries[k], now) && Ahead(cfg.hash(k) % n, s.cursor, n) < scan))
            && (k in r.table.entries ==> r.table.entries[k] == s.table.entries[k])
            && r.cursor == (s.cursor + Min(scan, n)) % n
            && r.table.buckets == n && r.slice == s.slice && r.evicted == s.evicted
  {
    var n := s.table.buckets;
    SlotIsRemainder(cfg, k, n);
    hide Slot, InWindow, Drop, Ahead, Bits.IsPow2;
    var b := Slot(cfg, k, n);
    WindowAhead(b, s.cursor, Min(scan, n), n);
    AheadBelow(b, s.cursor, n);
  }

  lemma AheadBelow(b: nat, cursor: nat, n: nat)
    requires b < n && cursor < n
    ensures 0 <= Ahead(b, cursor, n) < n
  {
  }

  /**
   One sweep of so many buckets scans an even share of them in each shard, on from where the
   last sweep stopped. A key goes exactly when its deadline is past and its bucket is among
   them; the rest of the shard stays, and the cursor moves on. A sweep of none does nothing.
   */
  lemma SweepExactly(cfg: Config, db: Db, maxBuckets: nat, now: Time, i: nat, share: nat, k: Key)
    requires Ok(cfg, db) && i < |db.shards| && maxBuckets > 0 && EvenShare(share, maxBuckets, |db.shards|)
    ensures Step(cfg, db, Call(SweepOp(0), now)).0 == db
    ensures db.shards[i].table.buckets >= 1
    ensures var db' := Step(cfg, db, Call(SweepOp(maxBuckets), now)).0;
            && |db'.shards| == |db.shards| && db'.limit == db.limit
            && var s, r, n := db.shards[i], db'.shards[i], db.shards[i].table.buckets;
            && (k in r.table.entries <==>
                  && k in s.table.entries
                  && !(&& s.table.entries[k].expiration.Some? && s.table.entries[k].expiration.value <= now
                       && Ahead(cfg.hash(k) % n, s.cursor, n) < share))
            && (k in r.table.entries ==> r.table.entries[k] == s.table.entries[k])
            && r.cursor == (s.cursor + if share < n then share else n) % n
            && r.table.buckets == n && r.slice == s.slice && r.evicted == s.evicted
  {
    hide Ok, ShardOk, SweepShard, EvenShare, Share, Ahead;
    Parts(cfg, db);
    ShareEven(maxBuckets, |db.shards|);
    EvenOnce(share, SweepBudget(maxBuckets, |db.shards|), maxBuckets, |db.shards|);
    Buckets(db.shards[i]);
    PassExactly(cfg, db.shards[i], share, now, k);
  }

  lemma Buckets(s: Shard)
    requires ShardOk(s)
    ensures s.table.buckets >= 1
  {
  }

  // ---------------------------------------------------------------- clearing

  /** Clearing empties every shard and starts its sweep over; buckets, slices, counters and the limit stay. */
  lemma ClearExactly(cfg: Config, db: Db, now: Time, i: nat)
    requires Ok(cfg, db) && i < |db.shards|
    ensures var db' := Step(cfg, db, Call(ClearOp, now)).0;
            && |db'.shards| == |db.shards| && db'.limit == db.limit
            && var s, r := db.shards[i], db'.shards[i];
            && r.table.entries == map[] && r.table.order == [] && r.table.buckets == s.table.buckets
            && r.cursor == 0 && r.evicted == s.evicted && r.slice == s.slice
  {
  }
}
