/**
 How far successive sweeps reach. Each sweep scans a bounded window of every shard, from
 where the last one stopped, while clients go on using the database.
 */
module Coverage {
  import opened Base
  import opened TableSpec
  import opened DatabaseSpec
  import opened DatabaseRuns
  import opened Eviction
  import opened Scan
  import R = Restoring
  import Bits

  // ---------------------------------------------------------------- windows

  lemma WrapShift(first: nat, x: nat, offset: nat, n: nat)
    requires n >= 1
    ensures Wrap(Wrap(first, x, n), offset, n) == Wrap(first, x + offset, n)
  {
    var q, r := (first + x) / n, (first + x) % n;
    var q', r' := (r + offset) / n, (r + offset) % n;
    assert first + x == q * n + r && r + offset == q' * n + r';
    Bits.Distribute(q, -q', n);
    Bits.ModUnique(first + (x + offset), n, q + q', r');
  }

  /** Two adjoining windows make one. */
  lemma WindowJoin(b: nat, first: nat, x: nat, y: nat, n: nat)
    requires n >= 1 && (InWindow(b, first, x, n) || InWindow(b, Wrap(first, x, n), y, n))
    ensures InWindow(b, first, x + y, n)
  {
    if InWindow(b, first, x, n) {
      var o: nat :| o < x && Wrap(first, o, n) == b;
      assert o < x + y;
    } else {
      var o: nat :| o < y && Wrap(Wrap(first, x, n), o, n) == b;
      WrapShift(first, x, o, n);
      assert x + o < x + y;
    }
  }

  lemma WindowSplit(b: nat, first: nat, x: nat, y: nat, n: nat)
    requires n >= 1 && InWindow(b, first, x + y, n)
    ensures InWindow(b, first, x, n) || InWindow(b, Wrap(first, x, n), y, n)
  {
    var o: nat :| o < x + y && Wrap(first, o, n) == b;
    if o >= x {
      WrapShift(first, x, o - x, n);
      assert o - x < y;
    }
  }

  /** A window as long as the table covers every bucket. */
  lemma WindowFull(b: nat, first: nat, count: nat, n: nat)
    requires b < n <= count
    ensures InWindow(b, first, count, n)
  {
    var f := first % n;
    var o := if b >= f then b - f else b + n - f;
    Bits.ModUnique(first + o, n, first / n + (if b >= f then 0 else 1), b) by {
      assert first == (first / n) * n + f;
      Bits.Distribute(first / n, -1, n);
    }
    assert Wrap(first, o, n) == b;
  }

  // ---------------------------------------------------------------- passes

  /** A pass takes the key out if its bucket is scanned, and otherwise leaves it where it was. */
  lemma PassTakes(cfg: Config, s: Shard, scan: nat, now: Time, k: Key)
    requires ShardOk(s)
    ensures var r := SweepShard(cfg, s, scan, now); var step := Min(scan, s.table.buckets);
            && ShardOk(r) && r.table.buckets == s.table.buckets
            && r.cursor == Wrap(s.cursor, step, s.table.buckets)
            && (k in r.table.entries ==> k in s.table.entries && r.table.entries[k] == s.table.entries[k])
            && (k in s.table.entries && ExpiredAt(s.table.entries[k], now) ==>
                  InWindow(Slot(cfg, k, s.table.buckets), s.cursor, step, s.table.buckets) ==> k !in r.table.entries)
            && (k in s.table.entries && !ExpiredAt(s.table.entries[k], now) ==> k in r.table.entries)
  {
    hide Slot, InWindow;
    var n := Min(scan, s.table.buckets);
    RemoveAllWellFormed(s.table, Swept(cfg, s.table, s.cursor, n, DeadAt(now)));
  }

  /** An expired key that a pass leaves behind lies in what remains of the window. */
  lemma PassNarrows(cfg: Config, s: Shard, scan: nat, now: Time, k: Key, ahead: nat)
    requires ShardOk(s)
    requires k in s.table.entries ==>
               && ExpiredAt(s.table.entries[k], now)
               && InWindow(Slot(cfg, k, s.table.buckets), s.cursor, ahead, s.table.buckets)
    ensures var r := SweepShard(cfg, s, scan, now); var step := Min(scan, s.table.buckets);
            && ShardOk(r) && r.table.buckets == s.table.buckets
            && (k in r.table.entries ==>
                  && k in s.table.entries && r.table.entries[k] == s.table.entries[k]
                  && ahead > step && InWindow(Slot(cfg, k, r.table.buckets), r.cursor, ahead - step, r.table.buckets))
  {
    hide Slot, SweepShard, InWindow;
    PassTakes(cfg, s, scan, now, k);
    if k in s.table.entries {
      var step, n := Min(scan, s.table.buckets), s.table.buckets;
      if ahead <= step {
        WindowJoin(Slot(cfg, k, n), s.cursor, ahead, step - ahead, n);
      } else {
        WindowSplit(Slot(cfg, k, n), s.cursor, step, ahead - step, n);
      }
    }
  }

  lemma NoWindow(b: nat, first: nat, n: nat)
    requires n >= 1
    ensures !InWindow(b, first, 0, n)
  {
  }

  // ---------------------------------------------------------------- the calls in between

  /** The key is gone, or it is where and what it was, and the sweep is where it was. */
  ghost predicate Undisturbed(s: Shard, s': Shard, k: Key) {
    k in s'.table.entries ==>
      s'.cursor == s.cursor && k in s.table.entries && s'.table.entries[k] == s.table.entries[k]
  }

  /** The call stores the key anew. */
  predicate Rewrites(c: Call, k: Key) {
    match c.op
    case SetOp(key, _, _) => key == k
    case RestoreOp(es) => exists i :: 0 <= i < |es| && es[i].key == k && !ExpiredAt(es[i], c.now)
    case _ => false
  }

  lemma {:induction false} NotRestored(cfg: Config, db: Db, es: seq<Entry>, now: Time, k: Key)
    requires |db.shards| >= 1 && k !in At(cfg, db, k).table.entries
    requires forall i :: 0 <= i < |es| && es[i].key == k ==> ExpiredAt(es[i], now)
    ensures k !in At(cfg, RestoreAll(cfg, db, es, now), k).table.entries
  {
    if es != [] {
      hide ShardIndex, PutBack;
      var rest, e := es[..|es| - 1], es[|es| - 1];
      NotRestored(cfg, db, rest, now, k);
      R.ShardStep(cfg, db, es, now, ShardIndex(cfg, k, |db.shards|));
      PutBackParts(RestoreAll(cfg, db, rest, now).shards[ShardIndex(cfg, k, |db.shards|)].table, e);
    }
  }

  /** Every call but a sweep leaves a key alone that it does not write. */
  lemma CallUndisturbed(cfg: Config, db: Db, c: Call, k: Key)
    requires Ok(cfg, db) && !c.op.SweepOp? && !Rewrites(c, k)
    ensures |Step(cfg, db, c).0.shards| == |db.shards|
    ensures Undisturbed(At(cfg, db, k), At(cfg, Step(cfg, db, c).0, k), k)
  {
    hide Ok, ShardOk, SetShard, GetShard, LimitShard, ShardIndex, LiveKeys;
    StepShards(cfg, db, c);
    Parts(cfg, db);
    var s := At(cfg, db, k);
    match c.op
    case SetOp(j, v, ttl) => SetUndisturbed(cfg, At(cfg, db, j), j, v, Deadline(ttl, c.now), k);
    case GetOp(j) => GetUndisturbed(At(cfg, db, j), j, c.now, k);
    case LimitOp(bytes) => LimitUndisturbed(cfg, s, Slice(bytes, |db.shards|), k);
    case RestoreOp(es) => NotRestored(cfg, ClearAll(db), es, c.now, k);
    case _ =>
  }

  lemma SetUndisturbed(cfg: Config, s: Shard, j: Key, v: Bytes, deadline: Option<Time>, k: Key)
    requires ShardOk(s) && j != k
    ensures Undisturbed(s, SetShard(cfg, s, j, v, deadline), k)
  {
    hide SetShard, WellFormed, Bounded;
    SetStores(cfg, s, j, v, deadline);
  }

  lemma GetUndisturbed(s: Shard, j: Key, now: Time, k: Key)
    ensures Undisturbed(s, GetShard(s, j, now), k)
  {
  }

  lemma LimitUndisturbed(cfg: Config, s: Shard, slice: nat, k: Key)
    requires ShardOk(s)
    ensures Undisturbed(s, LimitShard(cfg, s, slice), k)
  {
    hide EvictToFit, Usage, Listed, Sized;
    EvictExact(cfg, s.(slice := slice));
  }

  // ---------------------------------------------------------------- runs

  /** The buckets of a table of b that one call scans. */
  function Scans(c: Call, shards: nat, b: nat): nat
    requires shards >= 1
  {
    if c.op.SweepOp? && c.op.maxBuckets != 0 then Min(SweepBudget(c.op.maxBuckets, shards), b) else 0
  }

  function Reach(calls: seq<Call>, shards: nat, b: nat): nat
    requires shards >= 1
  {
    if calls == [] then 0 else Reach(calls[..|calls| - 1], shards, b) + Scans(calls[|calls| - 1], shards, b)
  }

  /** If the key is still there, it is in the next `ahead` buckets of a table that has b. */
  ghost predicate Pending(cfg: Config, s: Shard, k: Key, deadline: Time, b: nat, ahead: nat) {
    k in s.table.entries ==>
      && s.table.entries[k].expiration == Some(deadline)
      && s.table.buckets == b >= 1 && InWindow(Slot(cfg, k, b), s.cursor, ahead, b)
  }

  /** The call does not write the key, and does not grow its table while the key is there. */
  ghost predicate Leaves(cfg: Config, db: Db, c: Call, k: Key)
    requires Ok(cfg, db)
  {
    StepShards(cfg, db, c);
    && !Rewrites(c, k)
    && (k in At(cfg, Step(cfg, db, c).0, k).table.entries ==>
          At(cfg, Step(cfg, db, c).0, k).table.buckets == At(cfg, db, k).table.buckets)
  }

  /** What is left of a distance after going so far. */
  function Left(ahead: nat, step: nat): nat { if ahead <= step then 0 else ahead - step }

  /** A sweep brings a pending key nearer or takes it; other calls change nothing. */
  lemma StepPending(cfg: Config, db: Db, c: Call, k: Key, deadline: Time, b: nat, ahead: nat)
    requires Ok(cfg, db) && Leaves(cfg, db, c, k) && deadline <= c.now
    requires Pending(cfg, At(cfg, db, k), k, deadline, b, ahead)
    ensures |Step(cfg, db, c).0.shards| == |db.shards|
    ensures Pending(cfg, At(cfg, Step(cfg, db, c).0, k), k, deadline, b, Left(ahead, Scans(c, |db.shards|, b)))
  {
    StepShards(cfg, db, c);
    if c.op.SweepOp? {
      hide Ok, ShardIndex, SweepShard, Slot, InWindow, SweepBudget, ShardOk;
      Parts(cfg, db);
      if c.op.maxBuckets != 0 {
        PassPending(cfg, At(cfg, db, k), SweepBudget(c.op.maxBuckets, |db.shards|), c.now, k, deadline, b, ahead);
      }
    } else {
      hide Ok, Step, Slot, InWindow, ShardIndex;
      CallUndisturbed(cfg, db, c, k);
    }
  }

  lemma PassPending(cfg: Config, s: Shard, scan: nat, now: Time, k: Key, deadline: Time, b: nat, ahead: nat)
    requires ShardOk(s) && Pending(cfg, s, k, deadline, b, ahead) && deadline <= now
    ensures Pending(cfg, SweepShard(cfg, s, scan, now), k, deadline, b, Left(ahead, Min(scan, b)))
  {
    hide Slot, SweepShard, InWindow;
    PassNarrows(cfg, s, scan, now, k, ahead);
  }

  /** No call of the run writes the key or grows its table while the key is there. */
  ghost predicate Untouched(cfg: Config, db: Db, calls: seq<Call>, k: Key)
    requires Ok(cfg, db)
  {
    forall i :: 0 <= i < |calls| ==> Leaves(cfg, Later(cfg, db, calls[..i]), calls[i], k)
  }

  lemma {:induction false} Narrows(cfg: Config, db: Db, calls: seq<Call>, k: Key, deadline: Time, b: nat)
    requires Ok(cfg, db) && Untouched(cfg, db, calls, k)
    requires forall i :: 0 <= i < |calls| ==> deadline <= calls[i].now
    requires Pending(cfg, At(cfg, db, k), k, deadline, b, b)
    ensures Pending(cfg, At(cfg, Later(cfg, db, calls), k), k, deadline, b, Left(b, Reach(calls, |db.shards|, b)))
  {
    hide Pending, Leaves, Step, Scans, ShardIndex, Ok;
    if calls != [] {
      var past, c := calls[..|calls| - 1], calls[|calls| - 1];
      forall i | 0 <= i < |past|
        ensures Leaves(cfg, Later(cfg, db, past[..i]), past[i], k)
      {
        assert past[..i] == calls[..i] && past[i] == calls[i];
      }
      Narrows(cfg, db, past, k, deadline, b);
      StepPending(cfg, Later(cfg, db, past), c, k, deadline, b, Left(b, Reach(past, |db.shards|, b)));
    }
  }

  /**
   Sweeps that together scan as many buckets of a shard as it has reclaim every entry of it
   that was expired at the first call, whatever clients do in between, as long as they do
   not write that key or grow the table under it.
   */
  lemma SweepsReclaim(cfg: Config, db: Db, calls: seq<Call>, k: Key)
    requires Ok(cfg, db) && k in At(cfg, db, k).table.entries
    requires Monotone(calls) && calls != [] && ExpiredAt(At(cfg, db, k).table.entries[k], calls[0].now)
    requires Untouched(cfg, db, calls, k)
    requires var b := At(cfg, db, k).table.buckets; Reach(calls, |db.shards|, b) >= b
    ensures k !in At(cfg, Later(cfg, db, calls), k).table.entries
  {
    hide InWindow, Slot, ShardIndex, Untouched, Reach;
    Parts(cfg, db);
    var s := At(cfg, db, k);
    var b, deadline := s.table.buckets, s.table.entries[k].expiration.value;
    WindowFull(Slot(cfg, k, b), s.cursor, b, b);
    Narrows(cfg, db, calls, k, deadline, b);
    NoWindow(Slot(cfg, k, b), At(cfg, Later(cfg, db, calls), k).cursor, b);
  }
}
