/**
 What a client may rely on under any memory limits. A memo keeps the last accepted write of
 every key and forgets nothing; in every run the database holds part of it, unchanged, and
 what it no longer holds was evicted under a limit or reclaimed after its deadline.
 */
module CacheRuns {
  import opened Base
  import opened TableSpec
  import opened DatabaseSpec
  import opened DatabaseRuns
  import opened Eviction
  import opened Replies
  import Bits

  /** The last accepted write of each key: its value and its deadline. */
  type Memo = map<Key, (Bytes, Option<Time>)>

  /** The entries of a snapshot whose deadline is to come, later ones winning. */
  function Remembered(es: seq<Entry>, now: Time): Memo {
    if es == [] then map[]
    else
      var before, e := Remembered(es[..|es| - 1], now), es[|es| - 1];
      if Lasts(e.expiration, now) then before[e.key := (e.value, e.expiration)] else before
  }

  /** One call, when the limit in force is the given one. */
  function Recall(m: Memo, c: Call, overhead: nat, limit: nat): Memo {
    match c.op
    case SetOp(k, v, ttl) =>
      if limit != 0 && overhead + |k| + |v| > limit then m
      else m[k := (v, if ttl.Some? then Some(c.now + ttl.value) else None)]
    case DelOp(k) => m - {k}
    case ClearOp => map[]
    case RestoreOp(es) => Remembered(es, c.now)
    case _ => m
  }

  function MemoOf(calls: seq<Call>, overhead: nat): Memo {
    if calls == [] then map[]
    else
      var past := calls[..|calls| - 1];
      Recall(MemoOf(past, overhead), calls[|calls| - 1], overhead, LimitAfter(past))
  }

  /** Everything the database holds is in the memo, as it is there. */
  ghost predicate PartOf(db: Db, m: Memo) {
    forall k, v, d :: Held(db, k, v, d) ==> k in m && m[k] == (v, d)
  }

  // ---------------------------------------------------------------- one call

  lemma SetPart(cfg: Config, db: Db, m: Memo, c: Call)
    requires Ok(cfg, db) && PartOf(db, m) && c.op.SetOp?
    ensures PartOf(Step(cfg, db, c).0, Recall(m, c, cfg.overhead, db.limit))
  {
    hide Ok, Held, Step;
    var (db', r) := Step(cfg, db, c);
    var k, deadline := c.op.key, if c.op.ttl.Some? then Some(c.now + c.op.ttl.value) else None;
    SetExactly(cfg, db, k, c.op.value, c.op.ttl, c.now);
    if r == OK { WrittenPart(cfg, db, db', m, k, c.op.value, deadline); }
  }

  lemma WrittenPart(cfg: Config, db: Db, db': Db, m: Memo, k: Key, v: Bytes, deadline: Option<Time>)
    requires Ok(cfg, db') && PartOf(db, m) && Held(db', k, v, deadline)
    requires forall j, u, d :: Held(db', j, u, d) && j != k ==> Held(db, j, u, d)
    ensures PartOf(db', m[k := (v, deadline)])
  {
    hide Ok, Held;
    forall j, u, d | Held(db', j, u, d)
      ensures var m' := m[k := (v, deadline)]; j in m' && m'[j] == (u, d)
    {
      if j == k { HeldOnce(cfg, db', k, u, d, v, deadline); }
    }
  }

  /** A sweep or a new limit only takes entries away. */
  lemma ShrinkPart(db: Db, db': Db, m: Memo)
    requires PartOf(db, m) && |db'.shards| == |db.shards|
    requires forall i, k, v, d :: 0 <= i < |db.shards| ==>
               HeldIn(db'.shards[i], k, v, d) ==> HeldIn(db.shards[i], k, v, d)
    ensures PartOf(db', m)
  {
    hide HeldIn;
    forall k, v, d | Held(db', k, v, d)
      ensures Held(db, k, v, d)
    {
      var i :| 0 <= i < |db'.shards| && HeldIn(db'.shards[i], k, v, d);
      assert HeldIn(db.shards[i], k, v, d);
    }
  }

  lemma LimitKeeps(cfg: Config, s: Shard, slice: nat, k: Key, v: Bytes, d: Option<Time>)
    requires ShardOk(s)
    ensures HeldIn(LimitShard(cfg, s, slice), k, v, d) ==> HeldIn(s, k, v, d)
  {
    hide EvictToFit, Usage, Listed, Sized;
    EvictExact(cfg, s.(slice := slice));
  }

  lemma SweepKeeps(cfg: Config, s: Shard, scan: nat, now: Time, k: Key, v: Bytes, d: Option<Time>)
    requires ShardOk(s)
    ensures HeldIn(SweepShard(cfg, s, scan, now), k, v, d) ==> HeldIn(s, k, v, d)
    ensures HeldIn(s, k, v, d) && Lasts(d, now) ==> HeldIn(SweepShard(cfg, s, scan, now), k, v, d)
  {
    hide InWindow, Slot, Drop;
  }

  lemma ShrinkStep(cfg: Config, db: Db, c: Call, m: Memo)
    requires Ok(cfg, db) && PartOf(db, m) && (c.op.SweepOp? || c.op.LimitOp?)
    ensures PartOf(Step(cfg, db, c).0, m)
  {
    Parts(cfg, db);
    var db' := Step(cfg, db, c).0;
    hide Ok, ShardOk, HeldIn, SweepShard, LimitShard, PartOf;
    forall i, k, v, d | 0 <= i < |db.shards| && HeldIn(db'.shards[i], k, v, d)
      ensures HeldIn(db.shards[i], k, v, d)
    {
      match c.op
      case SweepOp(n) =>
        if n != 0 { SweepKeeps(cfg, db.shards[i], SweepBudget(n, |db.shards|), c.now, k, v, d); }
      case LimitOp(bytes) => LimitKeeps(cfg, db.shards[i], Slice(bytes, |db.shards|), k, v, d);
    }
    ShrinkPart(db, db', m);
  }

  lemma NothingHeld(db: Db)
    ensures forall k, v, d :: !Held(ClearAll(db), k, v, d)
  {
  }

  lemma {:induction false} RestorePart(cfg: Config, db: Db, es: seq<Entry>, now: Time)
    requires Ok(cfg, db) && forall k, v, d :: !Held(db, k, v, d)
    ensures forall k, v, d :: Held(RestoreAll(cfg, db, es, now), k, v, d) <==>
              k in Remembered(es, now) && Remembered(es, now)[k] == (v, d)
  {
    if es != [] {
      var rest, e := es[..|es| - 1], es[|es| - 1];
      RestorePart(cfg, db, rest, now);
      RestoreOk(cfg, db, rest, now);
      hide Ok, Held;
      var before := RestoreAll(cfg, db, rest, now);
      if Lasts(e.expiration, now) {
        forall k, v, d
          ensures Held(RestoreEntry(cfg, before, e), k, v, d) <==>
                    if k == e.key then v == e.value && d == e.expiration else Held(before, k, v, d)
        {
          RestoreHolds(cfg, before, e, k, v, d);
        }
      }
    }
  }

  lemma RestoreHolds(cfg: Config, db: Db, e: Entry, k: Key, v: Bytes, d: Option<Time>)
    requires Ok(cfg, db)
    ensures Held(RestoreEntry(cfg, db, e), k, v, d) <==>
              if k == e.key then v == e.value && d == e.expiration else Held(db, k, v, d)
  {
    RestoreEntryOk(cfg, db, e);
    HeldAt(cfg, db, k, v, d);
    HeldAt(cfg, RestoreEntry(cfg, db, e), k, v, d);
    Parts(cfg, db);
    PutBackParts(At(cfg, db, e.key).table, e);
    hide Ok, Held, ShardIndex, PutBack;
  }

  lemma StepPart(cfg: Config, db: Db, m: Memo, c: Call)
    requires Ok(cfg, db) && PartOf(db, m)
    ensures PartOf(Step(cfg, db, c).0, Recall(m, c, cfg.overhead, db.limit))
  {
    hide Ok, Held, Step;
    match c.op
    case SetOp(_, _, _) => SetPart(cfg, db, m, c);
    case GetOp(k) => GetExactly(cfg, db, k, c.now);
    case DelOp(k) => DelExactly(cfg, db, k, c.now);
    case ExistsOp(k) => ExistsExactly(cfg, db, k, c.now);
    case KeysOp => KeysExactly(cfg, db, c.now);
    case SweepOp(_) => ShrinkStep(cfg, db, c, m);
    case LimitOp(_) => ShrinkStep(cfg, db, c, m);
    case ClearOp => ClearPart(cfg, db, c, map[]);
    case RestoreOp(es) =>
      forall k, v, d
        ensures var m' := Remembered(es, c.now); Held(Step(cfg, db, c).0, k, v, d) <==> k in m' && m'[k] == (v, d)
      {
        RestoreHeld(cfg, db, c, k, v, d);
      }
  }

  lemma ClearPart(cfg: Config, db: Db, c: Call, m: Memo)
    requires Ok(cfg, db) && c.op.ClearOp?
    ensures PartOf(Step(cfg, db, c).0, m)
  {
    hide Held, ClearAll;
    NothingHeld(db);
  }

  // ---------------------------------------------------------------- whole runs

  lemma {:induction false} RunPart(cfg: Config, buckets: nat, shards: nat, calls: seq<Call>)
    ensures PartOf(Run(cfg, buckets, shards, calls), MemoOf(calls, cfg.overhead))
  {
    if calls == [] {
      hide Bits.RoundUp;
    } else {
      hide Step, PartOf, Recall, Ok;
      var past := calls[..|calls| - 1];
      RunPart(cfg, buckets, shards, past);
      RunSliced(cfg, buckets, shards, past);
      StepPart(cfg, Run(cfg, buckets, shards, past), MemoOf(past, cfg.overhead), calls[|calls| - 1]);
    }
  }

  /**
   In every run, under any limits, a GET answers nil or the last accepted write of the key,
   and that only before its deadline. It answers nil before the deadline only when the
   database no longer holds the key.
   */
  lemma GetNeverLies(cfg: Config, buckets: nat, shards: nat, calls: seq<Call>, k: Key, now: Time)
    ensures var db, m := Run(cfg, buckets, shards, calls), MemoOf(calls, cfg.overhead);
            var r := Step(cfg, db, Call(GetOp(k), now)).1;
            && (r == Nil || (k in m && Lasts(m[k].1, now) && r == Value(m[k].0)))
            && (k in m && Lasts(m[k].1, now) && r == Nil ==> forall v, d :: !Held(db, k, v, d))
  {
    var db, m := Run(cfg, buckets, shards, calls), MemoOf(calls, cfg.overhead);
    RunPart(cfg, buckets, shards, calls);
    GetExactly(cfg, db, k, now);
    hide Run, Step, Held, Ok, MemoOf;
    var r := Step(cfg, db, Call(GetOp(k), now)).1;
    if r.Value? {
      var d :| Held(db, k, r.bytes, d) && Lasts(d, now);
    } else if k in m && Lasts(m[k].1, now) {
      var last := m[k];
      forall v, d
        ensures !Held(db, k, v, d)
      {
        assert Held(db, k, v, d) ==> (v, d) == last;
        assert r == Value(v) <==> exists d' :: Held(db, k, v, d') && Lasts(d', now);
      }
    }
  }

  /** In every run, SET is refused exactly when the entry alone is over the limit last set, and answers OK otherwise. */
  lemma SetAnswers(cfg: Config, buckets: nat, shards: nat, calls: seq<Call>,
                   k: Key, v: Bytes, ttl: Option<nat>, now: Time)
    ensures var r := Step(cfg, Run(cfg, buckets, shards, calls), Call(SetOp(k, v, ttl), now)).1;
            r == if LimitAfter(calls) != 0 && cfg.overhead + |k| + |v| > LimitAfter(calls) then TooLarge else OK
  {
    var db := Run(cfg, buckets, shards, calls);
    RunSliced(cfg, buckets, shards, calls);
    SetExactly(cfg, db, k, v, ttl, now);
    hide Run, Step, Held, Ok, Sliced, Fresh;
  }

  /**
   A key the database held, and that the memo still has unchanged, is lost only to a sweep
   after its deadline, or to the eviction of a write or of a new limit.
   */
  lemma LostOnlyTo(cfg: Config, db: Db, m: Memo, c: Call, k: Key, v: Bytes, d: Option<Time>)
    requires Ok(cfg, db) && Sliced(db) && PartOf(db, m) && Held(db, k, v, d) && !Held(Step(cfg, db, c).0, k, v, d)
    requires var m' := Recall(m, c, cfg.overhead, db.limit); k in m' && m'[k] == (v, d)
    ensures || (c.op.SweepOp? && !Lasts(d, c.now))
            || (c.op.SetOp? && c.op.key != k && db.limit != 0)
            || (c.op.LimitOp? && c.op.bytes != 0)
  {
    hide Ok, Held, Step, Sliced, PartOf;
    match c.op
    case SetOp(j, u, ttl) =>
      SetExactly(cfg, db, j, u, ttl, c.now);
      if db.limit == 0 && j != k { SetLosesNothing(cfg, db, c, k, v, d); }
    case GetOp(j) => GetExactly(cfg, db, j, c.now);
    case DelOp(j) => DelExactly(cfg, db, j, c.now);
    case ExistsOp(j) => ExistsExactly(cfg, db, j, c.now);
    case KeysOp => KeysExactly(cfg, db, c.now);
    case SweepOp(n) => if Lasts(d, c.now) { SweepLosesNothing(cfg, db, c, k, v, d); }
    case LimitOp(bytes) => if bytes == 0 { LimitLosesNothing(cfg, db, c, k, v, d); }
    case RestoreOp(es) => RestoreHeld(cfg, db, c, k, v, d);
    case ClearOp =>
  }

  lemma RestoreHeld(cfg: Config, db: Db, c: Call, k: Key, v: Bytes, d: Option<Time>)
    requires Ok(cfg, db) && c.op.RestoreOp?
    ensures var m := Remembered(c.op.entries, c.now);
            Held(Step(cfg, db, c).0, k, v, d) <==> k in m && m[k] == (v, d)
  {
    ClearOk(cfg, db);
    NothingHeld(db);
    hide Held, Ok, ClearAll, RestoreAll, Remembered;
    RestorePart(cfg, ClearAll(db), c.op.entries, c.now);
  }

  lemma SetLosesNothing(cfg: Config, db: Db, c: Call, k: Key, v: Bytes, d: Option<Time>)
    requires Ok(cfg, db) && Sliced(db) && db.limit == 0 && c.op.SetOp? && c.op.key != k && Held(db, k, v, d)
    ensures Held(Step(cfg, db, c).0, k, v, d)
  {
    hide Ok, ShardIndex, SetShard, ShardOk, Held;
    Parts(cfg, db);
    var s, deadline := At(cfg, db, c.op.key), Deadline(c.op.ttl, c.now);
    Unlimited(cfg, s, c.op.key, c.op.value, deadline);
    WithHolds(cfg, db, c.op.key, SetShard(cfg, s, c.op.key, c.op.value, deadline), k, v, d);
  }

  lemma WithHolds(cfg: Config, db: Db, j: Key, s: Shard, k: Key, v: Bytes, d: Option<Time>)
    requires |db.shards| >= 1 && Held(db, k, v, d) && (HeldIn(At(cfg, db, j), k, v, d) ==> HeldIn(s, k, v, d))
    ensures Held(With(cfg, db, j, s), k, v, d)
  {
    hide ShardIndex, HeldIn;
    var i :| 0 <= i < |db.shards| && HeldIn(db.shards[i], k, v, d);
    assert HeldIn(With(cfg, db, j, s).shards[i], k, v, d);
  }

  lemma Unlimited(cfg: Config, s: Shard, k: Key, v: Bytes, deadline: Option<Time>)
    requires ShardOk(s) && s.slice == 0
    ensures SetShard(cfg, s, k, v, deadline).table.entries == s.table.entries[k := Entry(k, v, deadline)]
  {
    hide WellFormed, Drop, Usage;
    PutWellFormed(s.table, k, v);
    ExpireWellFormed(Put(s.table, k, v), k, deadline);
  }

  lemma SweepLosesNothing(cfg: Config, db: Db, c: Call, k: Key, v: Bytes, d: Option<Time>)
    requires Ok(cfg, db) && c.op.SweepOp? && Held(db, k, v, d) && Lasts(d, c.now)
    ensures Held(Step(cfg, db, c).0, k, v, d)
  {
    hide Ok, ShardOk, SweepShard, HeldIn, SweepBudget;
    Parts(cfg, db);
    var i :| 0 <= i < |db.shards| && HeldIn(db.shards[i], k, v, d);
    SweepKeeps(cfg, db.shards[i], SweepBudget(c.op.maxBuckets, |db.shards|), c.now, k, v, d);
    var s' := Step(cfg, db, c).0.shards[i];
    assert HeldIn(s', k, v, d);
  }

  lemma LimitLosesNothing(cfg: Config, db: Db, c: Call, k: Key, v: Bytes, d: Option<Time>)
    requires Ok(cfg, db) && c.op == LimitOp(0) && Held(db, k, v, d)
    ensures Held(Step(cfg, db, c).0, k, v, d)
  {
    hide Ok, ShardOk, Usage;
    Parts(cfg, db);
    var i :| 0 <= i < |db.shards| && HeldIn(db.shards[i], k, v, d);
    assert LimitShard(cfg, db.shards[i], 0).table == db.shards[i].table;
    assert HeldIn(SetMaxMemory(cfg, db, 0).shards[i], k, v, d);
  }

  // ---------------------------------------------------------------- why an answer is nil

  /** The call at position p took the key away, by a sweep after its deadline or by an eviction. */
  ghost predicate LostAt(cfg: Config, buckets: nat, shards: nat, calls: seq<Call>, p: nat,
                         k: Key, v: Bytes, d: Option<Time>) {
    && p < |calls|
    && Held(Run(cfg, buckets, shards, calls[..p]), k, v, d)
    && !Held(Run(cfg, buckets, shards, calls[..p + 1]), k, v, d)
    && var c := calls[p];
    || (c.op.SweepOp? && !Lasts(d, c.now))
    || (c.op.SetOp? && c.op.key != k && LimitAfter(calls[..p]) != 0)
    || (c.op.LimitOp? && c.op.bytes != 0)
  }

  /** A call that puts a write into the memo stores it. */
  lemma NewIsHeld(cfg: Config, db: Db, m: Memo, c: Call, k: Key, v: Bytes, d: Option<Time>)
    requires Ok(cfg, db) && !(k in m && m[k] == (v, d))
    requires var m' := Recall(m, c, cfg.overhead, db.limit); k in m' && m'[k] == (v, d)
    ensures Held(Step(cfg, db, c).0, k, v, d)
  {
    hide Ok, Held, Step;
    match c.op
    case SetOp(j, u, ttl) => SetExactly(cfg, db, j, u, ttl, c.now);
    case RestoreOp(es) => RestoreHeld(cfg, db, c, k, v, d);
    case _ =>
  }

  lemma {:induction false} LossFound(cfg: Config, buckets: nat, shards: nat, calls: seq<Call>,
                                     k: Key, v: Bytes, d: Option<Time>) returns (p: nat)
    requires var m := MemoOf(calls, cfg.overhead); k in m && m[k] == (v, d)
    requires !Held(Run(cfg, buckets, shards, calls), k, v, d)
    ensures LostAt(cfg, buckets, shards, calls, p, k, v, d)
  {
    hide Ok, Held, Step, Run, PartOf, Sliced, Recall, Fresh, LostAt, MemoOf, LimitAfter;
    MemoLast(calls, cfg.overhead);
    var past, c := calls[..|calls| - 1], calls[|calls| - 1];
    var db := Run(cfg, buckets, shards, past);
    assert calls == past + [c];
    RunLast(cfg, buckets, shards, calls);
    RunPart(cfg, buckets, shards, past);
    RunSliced(cfg, buckets, shards, past);
    if Held(db, k, v, d) {
      LostOnlyTo(cfg, db, MemoOf(past, cfg.overhead), c, k, v, d);
      LostLast(cfg, buckets, shards, past, c, k, v, d);
      p := |past|;
    } else {
      KnownBefore(cfg, db, MemoOf(past, cfg.overhead), c, k, v, d);
      p := LossFound(cfg, buckets, shards, past, k, v, d);
      LostEarlier(cfg, buckets, shards, past, c, p, k, v, d);
    }
  }

  lemma MemoLast(calls: seq<Call>, overhead: nat)
    ensures MemoOf(calls, overhead).Keys != {} ==> calls != []
    ensures calls != [] ==>
              var past := calls[..|calls| - 1];
              MemoOf(calls, overhead) == Recall(MemoOf(past, overhead), calls[|calls| - 1], overhead, LimitAfter(past))
  {
  }

  lemma KnownBefore(cfg: Config, db: Db, m: Memo, c: Call, k: Key, v: Bytes, d: Option<Time>)
    requires Ok(cfg, db) && !Held(Step(cfg, db, c).0, k, v, d)
    requires var m' := Recall(m, c, cfg.overhead, db.limit); k in m' && m'[k] == (v, d)
    ensures k in m && m[k] == (v, d)
  {
    hide Ok, Held, Step, Recall;
    if !(k in m && m[k] == (v, d)) { NewIsHeld(cfg, db, m, c, k, v, d); }
  }

  lemma LostLast(cfg: Config, buckets: nat, shards: nat, past: seq<Call>, c: Call, k: Key, v: Bytes, d: Option<Time>)
    requires Held(Run(cfg, buckets, shards, past), k, v, d) && !Held(Run(cfg, buckets, shards, past + [c]), k, v, d)
    requires || (c.op.SweepOp? && !Lasts(d, c.now))
             || (c.op.SetOp? && c.op.key != k && LimitAfter(past) != 0)
             || (c.op.LimitOp? && c.op.bytes != 0)
    ensures LostAt(cfg, buckets, shards, past + [c], |past|, k, v, d)
  {
    hide Held, Run, LimitAfter;
    var calls := past + [c];
    assert calls[..|past|] == past && calls[..|past| + 1] == calls;
  }

  lemma LostEarlier(cfg: Config, buckets: nat, shards: nat, past: seq<Call>, c: Call, p: nat,
                    k: Key, v: Bytes, d: Option<Time>)
    requires LostAt(cfg, buckets, shards, past, p, k, v, d)
    ensures LostAt(cfg, buckets, shards, past + [c], p, k, v, d)
  {
    hide Held, Run, LimitAfter;
    var calls := past + [c];
    assert calls[..p] == past[..p] && calls[..p + 1] == past[..p + 1];
  }

  /**
   A key with a live write that GET answers nil was evicted: at some earlier call a limit was
   in force or was set, the database held that very write before the call, and not after it.
   */
  lemma NilMeansEvicted(cfg: Config, buckets: nat, shards: nat, calls: seq<Call>, k: Key, now: Time) returns (p: nat)
    requires Monotone(calls + [Call(GetOp(k), now)])
    requires var m := MemoOf(calls, cfg.overhead); k in m && Lasts(m[k].1, now)
    requires Step(cfg, Run(cfg, buckets, shards, calls), Call(GetOp(k), now)).1 == Nil
    ensures var (v, d) := MemoOf(calls, cfg.overhead)[k];
            && LostAt(cfg, buckets, shards, calls, p, k, v, d) && !calls[p].op.SweepOp?
  {
    hide Ok, Held, Step, Run, MemoOf;
    GetNeverLies(cfg, buckets, shards, calls, k, now);
    var (v, d) := MemoOf(calls, cfg.overhead)[k];
    p := LossFound(cfg, buckets, shards, calls, k, v, d);
    var all := calls + [Call(GetOp(k), now)];
    assert all[p] == calls[p] && all[|calls|].now == now;
  }
}
