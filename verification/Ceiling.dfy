/**
 What holds of memory in every run, restores included: when a shard is within its bound,
 and when the configured limit is kept outright. Each condition looks only at the last call
 that decided it, and can be told before that call is made.
 */
module Ceiling {
  import opened Base
  import opened TableSpec
  import opened DatabaseSpec
  import opened DatabaseRuns
  import opened Eviction
  import opened Restoring
  import Bits

  /** The call is a write that shard i accepts. */
  ghost predicate WritesTo(cfg: Config, db: Db, c: Call, i: nat)
    requires |db.shards| >= 1
  {
    c.op.SetOp? && Fits(cfg, db, c.op.key, c.op.value) && ShardIndex(cfg, c.op.key, |db.shards|) == i
  }

  // ---------------------------------------------------------------- the bound of a shard

  /** Since the last restore that left shard i too full, if any, it was written, limited or cleared. */
  ghost predicate Settled(cfg: Config, buckets: nat, shards: nat, calls: seq<Call>, i: nat)
    requires i < |Fresh(buckets, shards).shards|
  {
    calls == [] ||
    var past, c := calls[..|calls| - 1], calls[|calls| - 1];
    var db := Run(cfg, buckets, shards, past);
    RunParts(cfg, buckets, shards, past);
    if c.op.RestoreOp? then Roomy(cfg, db, c.op.entries, c.now, i)
    else c.op.LimitOp? || c.op.ClearOp? || WritesTo(cfg, db, c, i) || Settled(cfg, buckets, shards, past, i)
  }

  lemma RunParts(cfg: Config, buckets: nat, shards: nat, calls: seq<Call>)
    ensures var db := Run(cfg, buckets, shards, calls);
            |db.shards| == |Fresh(buckets, shards).shards| >= 1 && Sliced(db)
            && forall i :: 0 <= i < |db.shards| ==> ShardOk(db.shards[i]) && db.shards[i].table.buckets >= 1
  {
    hide Run, Fresh, Sliced;
    RunSliced(cfg, buckets, shards, calls);
    Parts(cfg, Run(cfg, buckets, shards, calls));
  }

  /** A call that does not decide anything about shard i keeps its bound. */
  lemma KeepsBound(cfg: Config, db: Db, c: Call, i: nat)
    requires Ok(cfg, db) && i < |db.shards| && !c.op.RestoreOp?
    requires c.op.LimitOp? || c.op.ClearOp? || WritesTo(cfg, db, c, i) || Bounded(cfg, db.shards[i])
    ensures i < |Step(cfg, db, c).0.shards| && Bounded(cfg, Step(cfg, db, c).0.shards[i])
  {
    hide Ok, ShardOk, SetShard, LimitShard, GetShard, ShardIndex, Bounded, Usage, RemoveAll, Swept, SweepShard,
         LiveKeys;
    Parts(cfg, db);
    var s := db.shards[i];
    match c.op
    case SetOp(k, v, ttl) => SetStores(cfg, At(cfg, db, k), k, v, Deadline(ttl, c.now));
    case GetOp(k) => if ShardIndex(cfg, k, |db.shards|) == i { GetBounded(cfg, s, k, c.now); }
    case DelOp(k) => if ShardIndex(cfg, k, |db.shards|) == i { BoundedLess(cfg, s, {k}, s.cursor); }
    case SweepOp(n) => if n != 0 { SweepBounded(cfg, s, SweepBudget(n, |db.shards|), c.now); }
    case LimitOp(bytes) => LimitOk(cfg, s, Slice(bytes, |db.shards|));
    case ClearOp => ClearBounded(cfg, s);
    case _ =>
  }

  /**
   In every run a shard is inside its slice or down to one entry, unless its last restore
   left it too full and it was neither written nor limited nor cleared since.
   */
  lemma {:induction false} RunSettled(cfg: Config, buckets: nat, shards: nat, calls: seq<Call>, i: nat)
    requires i < |Fresh(buckets, shards).shards| && Settled(cfg, buckets, shards, calls, i)
    ensures |Run(cfg, buckets, shards, calls).shards| == |Fresh(buckets, shards).shards|
    ensures Bounded(cfg, Run(cfg, buckets, shards, calls).shards[i])
  {
    RunParts(cfg, buckets, shards, calls);
    if calls == [] {
      FreshBounded(cfg, buckets, shards, i);
    } else {
      RunLast(cfg, buckets, shards, calls);
      hide Fresh, Bounded, Roomy, WritesTo, Ok, Run, Sliced, ShardOk, Step;
      var past, c := calls[..|calls| - 1], calls[|calls| - 1];
      RunParts(cfg, buckets, shards, past);
      if !c.op.RestoreOp? && Settled(cfg, buckets, shards, past, i) { RunSettled(cfg, buckets, shards, past, i); }
      CallSettles(cfg, Run(cfg, buckets, shards, past), c, i);
    }
  }

  lemma FreshBounded(cfg: Config, buckets: nat, shards: nat, i: nat)
    requires i < |Fresh(buckets, shards).shards|
    ensures Bounded(cfg, Fresh(buckets, shards).shards[i])
  {
    hide Bits.RoundUp, Empty, Usage;
  }

  /** A roomy restore, a deciding call, or any other call on a bounded shard. */
  lemma CallSettles(cfg: Config, db: Db, c: Call, i: nat)
    requires Ok(cfg, db) && i < |db.shards| && db.shards[i].table.buckets >= 1
    requires if c.op.RestoreOp? then Roomy(cfg, db, c.op.entries, c.now, i)
             else c.op.LimitOp? || c.op.ClearOp? || WritesTo(cfg, db, c, i) || Bounded(cfg, db.shards[i])
    ensures i < |Step(cfg, db, c).0.shards| && Bounded(cfg, Step(cfg, db, c).0.shards[i])
  {
    if c.op.RestoreOp? {
      hide Ok, Bounded, Roomy, Restore;
      ShardBoundedExactly(cfg, db, c.op.entries, c.now, i);
      RestoreCount(cfg, db, c.op.entries, c.now);
    } else {
      hide Step, Bounded, WritesTo, Ok;
      KeepsBound(cfg, db, c, i);
    }
  }

  // ---------------------------------------------------------------- the limit itself

  /** The shard is inside its slice, or has none. */
  ghost predicate Under(cfg: Config, s: Shard) { s.slice == 0 || Usage(cfg, s.table) <= s.slice }

  /** Nothing that eviction cannot free takes shard i over a slice: judged before the call. */
  ghost predicate Affords(cfg: Config, db: Db, c: Call, i: nat)
    requires Ok(cfg, db) && i < |db.shards|
  {
    var s := db.shards[i];
    assert ShardOk(s);
    match c.op
    case SetOp(k, v, _) =>
      s.slice == 0 || Footprint(cfg, k, v) + Put(s.table, k, v).buckets * SlotBytes <= s.slice
    case LimitOp(bytes) => bytes == 0 || Least(cfg, s.table) <= Slice(bytes, |db.shards|)
    case ClearOp => s.slice == 0 || s.table.buckets * SlotBytes <= s.slice
    case RestoreOp(es) => s.slice == 0 || RestoredBytes(cfg, db, es, c.now, i) <= s.slice
    case _ => true
  }

  /** The call decides by itself whether shard i ends inside its slice. */
  ghost predicate Decides(cfg: Config, db: Db, c: Call, i: nat)
    requires |db.shards| >= 1
  {
    c.op.LimitOp? || c.op.ClearOp? || c.op.RestoreOp? || WritesTo(cfg, db, c, i)
  }

  /** Such a call ends inside the slice exactly when the shard affords it. */
  lemma DecidedExactly(cfg: Config, db: Db, c: Call, i: nat)
    requires Ok(cfg, db) && i < |db.shards| && Decides(cfg, db, c, i)
    ensures i < |Step(cfg, db, c).0.shards|
    ensures Under(cfg, Step(cfg, db, c).0.shards[i]) <==> Affords(cfg, db, c, i)
  {
    hide ShardOk, SetShard, LimitShard, ShardIndex, Usage, Least, Put, RestoredBytes, Footprint, Restore;
    Parts(cfg, db);
    var s := db.shards[i];
    match c.op
    case SetOp(k, v, ttl) =>
      SetSlice(cfg, s, k, v, Deadline(ttl, c.now));
      if s.slice != 0 { SetCeiling(cfg, s, k, v, Deadline(ttl, c.now)); }
    case LimitOp(bytes) => LimitExactly(cfg, s, Slice(bytes, |db.shards|));
    case ClearOp => ClearUsage(cfg, s);
    case RestoreOp(es) =>
      RestoredUsage(cfg, db, es, c.now, i);
      RestoreCount(cfg, db, es, c.now);
  }

  lemma LimitExactly(cfg: Config, s: Shard, slice: nat)
    requires ShardOk(s)
    ensures WellFormed(s.table) && Listed(s.table)
    ensures Under(cfg, LimitShard(cfg, s, slice)) <==> slice == 0 || Least(cfg, s.table) <= slice
  {
    hide Usage, Least, EvictToFit, Listed, Sized;
    LimitSlice(cfg, s, slice);
    if slice != 0 { EvictCeiling(cfg, s.(slice := slice)); }
  }

  lemma LimitSlice(cfg: Config, s: Shard, slice: nat)
    requires ShardOk(s)
    ensures LimitShard(cfg, s, slice).slice == slice
  {
    hide LimitShard;
    LimitOk(cfg, s, slice);
  }

  lemma ClearUsage(cfg: Config, s: Shard)
    ensures Usage(cfg, ClearShard(s).table) == s.table.buckets * SlotBytes && ClearShard(s).slice == s.slice
  {
  }

  lemma RestoreCount(cfg: Config, db: Db, es: seq<Entry>, now: Time)
    requires |db.shards| >= 1
    ensures |Restore(cfg, db, es, now).shards| == |db.shards|
  {
  }

  /** A call that does not decide about shard i never takes it out of its slice. */
  lemma KeepsUnder(cfg: Config, db: Db, c: Call, i: nat)
    requires Ok(cfg, db) && i < |db.shards| && !Decides(cfg, db, c, i) && Under(cfg, db.shards[i])
    ensures i < |Step(cfg, db, c).0.shards| && Under(cfg, Step(cfg, db, c).0.shards[i])
  {
    hide Ok, ShardOk, SetShard, GetShard, ShardIndex, Usage, RemoveAll, Swept, SweepShard, LiveKeys;
    Parts(cfg, db);
    var s := db.shards[i];
    match c.op
    case GetOp(k) => GetOk(cfg, s, k, c.now);
    case DelOp(k) => RemoveUses(cfg, s.table, {k});
    case SweepOp(n) => if n != 0 { SweepUnder(cfg, s, SweepBudget(n, |db.shards|), c.now); }
    case _ =>
  }

  lemma SweepUnder(cfg: Config, s: Shard, scan: nat, now: Time)
    requires ShardOk(s) && Under(cfg, s)
    ensures Under(cfg, SweepShard(cfg, s, scan, now))
  {
    hide Usage, RemoveAll, Swept;
    var first := if s.cursor >= s.table.buckets then 0 else s.cursor;
    var scanned := Min(Min(scan, s.table.buckets), s.table.buckets);
    RemoveUses(cfg, s.table, Swept(cfg, s.table, first, scanned, DeadAt(now)));
  }

  /** The last call that decided about shard i was one it could afford. */
  ghost predicate Afforded(cfg: Config, buckets: nat, shards: nat, calls: seq<Call>, i: nat)
    requires i < |Fresh(buckets, shards).shards|
  {
    calls == [] ||
    var past, c := calls[..|calls| - 1], calls[|calls| - 1];
    var db := Run(cfg, buckets, shards, past);
    RunParts(cfg, buckets, shards, past);
    if Decides(cfg, db, c, i) then Affords(cfg, db, c, i) else Afforded(cfg, buckets, shards, past, i)
  }

  lemma {:induction false} RunUnder(cfg: Config, buckets: nat, shards: nat, calls: seq<Call>, i: nat)
    requires i < |Fresh(buckets, shards).shards| && Afforded(cfg, buckets, shards, calls, i)
    ensures |Run(cfg, buckets, shards, calls).shards| == |Fresh(buckets, shards).shards|
    ensures Under(cfg, Run(cfg, buckets, shards, calls).shards[i])
  {
    RunParts(cfg, buckets, shards, calls);
    if calls == [] {
      hide Bits.RoundUp, Empty, Usage;
    } else {
      RunLast(cfg, buckets, shards, calls);
      hide Fresh, Under, Decides, Affords, Ok, Run, Step, Sliced, ShardOk;
      var past, c := calls[..|calls| - 1], calls[|calls| - 1];
      var db := Run(cfg, buckets, shards, past);
      RunParts(cfg, buckets, shards, past);
      if Decides(cfg, db, c, i) {
        DecidedExactly(cfg, db, c, i);
      } else {
        RunUnder(cfg, buckets, shards, past, i);
        KeepsUnder(cfg, db, c, i);
      }
    }
  }

  /** In every run in which every shard afforded what it was last asked to hold, the limit is kept. */
  lemma RunWithinLimit(cfg: Config, buckets: nat, shards: nat, calls: seq<Call>)
    requires forall i :: 0 <= i < |Fresh(buckets, shards).shards| ==> Afforded(cfg, buckets, shards, calls, i)
    ensures var db := Run(cfg, buckets, shards, calls); db.limit == 0 || TotalUsage(cfg, db.shards) <= db.limit
  {
    hide Fresh, Run, Afforded;
    RunParts(cfg, buckets, shards, calls);
    var db := Run(cfg, buckets, shards, calls);
    forall i | 0 <= i < |db.shards|
      ensures Under(cfg, db.shards[i])
    {
      RunUnder(cfg, buckets, shards, calls, i);
    }
    if db.limit != 0 { TotalWithinLimit(cfg, db); }
  }

  /** The limit can be passed: one accepted entry as large as the limit leaves no room for the bucket array. */
  lemma LimitExceeded(cfg: Config, now: Time)
    ensures var calls := [Call(LimitOp(cfg.overhead + 1), now), Call(SetOp("a", "", None), now)];
            var db := Run(cfg, 1, 1, calls);
            db.limit == cfg.overhead + 1 && TotalUsage(cfg, db.shards) > db.limit
  {
    var calls := [Call(LimitOp(cfg.overhead + 1), now), Call(SetOp("a", "", None), now)];
    var past := calls[..1];
    RunParts(cfg, 1, 1, past);
    RunParts(cfg, 1, 1, calls);
    RunSliced(cfg, 1, 1, past);
    RunSliced(cfg, 1, 1, calls);
    OneFresh();
    hide Fresh, Run, SetShard, Usage;
    var db := Run(cfg, 1, 1, past);
    assert past[..0] == [];
    assert LimitAfter(past) == cfg.overhead + 1 && LimitAfter(calls) == cfg.overhead + 1;
    assert Run(cfg, 1, 1, calls) == Step(cfg, db, calls[1]).0 by { RunLast(cfg, 1, 1, calls); }
    DecidedExactly(cfg, db, calls[1], 0);
    assert !Affords(cfg, db, calls[1], 0);
    OneTotal(cfg, Run(cfg, 1, 1, calls).shards);
  }

  lemma OneTotal(cfg: Config, shards: seq<Shard>)
    requires |shards| == 1
    ensures TotalUsage(cfg, shards) == Usage(cfg, shards[0].table)
  {
    assert shards[..0] == [];
  }
}
