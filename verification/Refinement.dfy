/**
 Without a memory limit, the sharded database with its incremental sweeps answers every
 client exactly as one plain map would. The answers therefore depend neither on the shard
 and bucket counts nor on when, or whether, expired entries are reclaimed.
 */
module Refinement {
  import opened Base
  import opened TableSpec
  import opened DatabaseSpec
  import opened DatabaseRuns
  import opened Eviction
  import Bits

  type Plain = map<Key, Entry>

  /** Puts the unexpired entries back, later ones winning. */
  function PlainRestore(entries: seq<Entry>, now: Time): Plain {
    if entries == [] then map[]
    else
      var before := PlainRestore(entries[..|entries| - 1], now);
      var e := entries[|entries| - 1];
      if ExpiredAt(e, now) then before else before[e.key := e]
  }

  /** One call against a map that never reclaims anything and knows no limit. */
  function PlainStep(m: Plain, c: Call): (Plain, Reply) {
    match c.op
    case SetOp(k, v, ttl) => (m[k := Entry(k, v, Deadline(ttl, c.now))], OK)
    case GetOp(k) => (m, if LiveIn(m, k, c.now) then Value(m[k].value) else Nil)
    case DelOp(k) => (m - {k}, Number(if LiveIn(m, k, c.now) then 1 else 0))
    case ExistsOp(k) => (m, Number(if LiveIn(m, k, c.now) then 1 else 0))
    case KeysOp => (m, Keys(set k | k in m && !ExpiredAt(m[k], c.now)))
    case SweepOp(_) => (m, Silent)
    case LimitOp(_) => (m, Silent)
    case ClearOp => (map[], Silent)
    case RestoreOp(entries) => (PlainRestore(entries, c.now), Silent)
  }

  /** The two maps agree on what is alive for this key from now on. */
  predicate SameFor(a: map<Key, Entry>, b: map<Key, Entry>, k: Key, now: Time) {
    && (LiveIn(a, k, now) <==> LiveIn(b, k, now))
    && (LiveIn(a, k, now) ==> a[k] == b[k])
  }

  ghost predicate NoLimit(db: Db) {
    db.limit == 0 && forall i :: 0 <= i < |db.shards| ==> db.shards[i].slice == 0
  }

  /** The database holds the same live entries as the map. */
  ghost predicate Same(cfg: Config, db: Db, m: Plain, now: Time) {
    && Ok(cfg, db)
    && forall k: Key :: SameFor(At(cfg, db, k).table.entries, m, k, now)
  }

  /** Agreement now is agreement later. */
  lemma SameLater(cfg: Config, db: Db, m: Plain, now: Time, later: Time)
    requires Same(cfg, db, m, now) && now <= later
    ensures Same(cfg, db, m, later)
  {
    hide Ok, ShardIndex;
    Parts(cfg, db);
    forall k: Key
      ensures SameFor(At(cfg, db, k).table.entries, m, k, later)
    {
      assert SameFor(At(cfg, db, k).table.entries, m, k, now);
    }
  }

  /** A shard that changed for one key only. */
  lemma WithSame(cfg: Config, db: Db, m: Plain, now: Time, k: Key, s: Shard, m': Plain)
    requires Same(cfg, db, m, now) && Ok(cfg, With(cfg, db, k, s))
    requires forall j: Key :: j != k ==> SameFor(s.table.entries, At(cfg, db, k).table.entries, j, now)
    requires forall j: Key :: j != k ==> SameFor(m', m, j, now)
    requires SameFor(s.table.entries, m', k, now)
    ensures Same(cfg, With(cfg, db, k, s), m', now)
  {
    hide Ok, ShardIndex;
    Parts(cfg, db);
    var db' := With(cfg, db, k, s);
    forall j: Key
      ensures SameFor(At(cfg, db', j).table.entries, m', j, now)
    {
      assert SameFor(At(cfg, db, j).table.entries, m, j, now);
      if j != k {
        assert SameFor(m', m, j, now);
        if ShardIndex(cfg, j, |db.shards|) == ShardIndex(cfg, k, |db.shards|) {
          assert SameFor(s.table.entries, At(cfg, db, k).table.entries, j, now);
        }
      }
    }
  }

  lemma SetSame(cfg: Config, db: Db, m: Plain, now: Time, k: Key, v: Bytes, deadline: Option<Time>)
    requires Same(cfg, db, m, now) && NoLimit(db)
    ensures Fits(cfg, db, k, v)
    ensures Ok(cfg, Set(cfg, db, k, v, deadline).0) ==>
              Same(cfg, Set(cfg, db, k, v, deadline).0, m[k := Entry(k, v, deadline)], now)
  {
    hide Ok, ShardIndex, Put;
    Parts(cfg, db);
    var s := At(cfg, db, k);
    var r := SetShard(cfg, s, k, v, deadline);
    SetUnlimited(cfg, s, k, v, deadline);
    if Ok(cfg, With(cfg, db, k, r)) {
      WithSame(cfg, db, m, now, k, r, m[k := Entry(k, v, deadline)]);
    }
  }

  lemma SetUnlimited(cfg: Config, s: Shard, k: Key, v: Bytes, deadline: Option<Time>)
    requires WellFormed(s.table) && s.slice == 0
    ensures var r := SetShard(cfg, s, k, v, deadline);
            r.slice == 0 && r.table.entries == s.table.entries[k := Entry(k, v, deadline)]
  {
  }

  lemma SweepSame(cfg: Config, s: Shard, scan: nat, now: Time, k: Key)
    requires ShardOk(s)
    ensures SameFor(SweepShard(cfg, s, scan, now).table.entries, s.table.entries, k, now)
  {
  }

  /** Every shard replaced by one with the same live entries. */
  lemma PointwiseSame(cfg: Config, db: Db, m: Plain, now: Time, db': Db)
    requires Same(cfg, db, m, now) && Ok(cfg, db') && |db'.shards| == |db.shards|
    requires forall i, k: Key :: 0 <= i < |db.shards| ==>
               SameFor(db'.shards[i].table.entries, db.shards[i].table.entries, k, now)
    ensures Same(cfg, db', m, now)
  {
    hide Ok, ShardIndex;
    Parts(cfg, db);
    forall k: Key
      ensures SameFor(At(cfg, db', k).table.entries, m, k, now)
    {
      var i := ShardIndex(cfg, k, |db.shards|);
      assert SameFor(db'.shards[i].table.entries, db.shards[i].table.entries, k, now);
      assert SameFor(At(cfg, db, k).table.entries, m, k, now);
    }
  }

  lemma ClearSame(cfg: Config, db: Db, now: Time)
    requires Ok(cfg, db)
    ensures Same(cfg, ClearAll(db), map[], now)
  {
    ClearOk(cfg, db);
    hide Ok;
  }

  lemma {:induction false} RestoreSame(cfg: Config, db: Db, entries: seq<Entry>, now: Time)
    requires Same(cfg, db, map[], now)
    ensures Same(cfg, RestoreAll(cfg, db, entries, now), PlainRestore(entries, now), now)
  {
    if entries != [] {
      var past, e := entries[..|entries| - 1], entries[|entries| - 1];
      RestoreSame(cfg, db, past, now);
      if !ExpiredAt(e, now) {
        RestoreEntrySame(cfg, RestoreAll(cfg, db, past, now), PlainRestore(past, now), now, e);
      }
    }
  }

  lemma RestoreEntrySame(cfg: Config, db: Db, m: Plain, now: Time, e: Entry)
    requires Same(cfg, db, m, now)
    ensures Same(cfg, RestoreEntry(cfg, db, e), m[e.key := e], now)
  {
    RestoreEntryOk(cfg, db, e);
    var s := At(cfg, db, e.key);
    PutBackParts(s.table, e);
    UpdateSame(s.table.entries, RestoreShard(s, e).table.entries, e, now);
    UpdateSame(m, m[e.key := e], e, now);
    BothUpdated(s.table.entries, m, e, now);
    hide Ok, ShardIndex, PutBack, Same, SameFor;
    Parts(cfg, db);
    WithSame(cfg, db, m, now, e.key, RestoreShard(s, e), m[e.key := e]);
  }

  lemma UpdateSame(a: map<Key, Entry>, b: map<Key, Entry>, e: Entry, now: Time)
    requires b == a[e.key := e]
    ensures forall j: Key :: j != e.key ==> SameFor(b, a, j, now)
  {
  }

  lemma BothUpdated(a: map<Key, Entry>, b: map<Key, Entry>, e: Entry, now: Time)
    ensures SameFor(a[e.key := e], b[e.key := e], e.key, now)
  {
  }

  lemma KeysSame(cfg: Config, db: Db, m: Plain, now: Time)
    requires Same(cfg, db, m, now)
    ensures LiveKeys(db, now) == set k | k in m && !ExpiredAt(m[k], now)
  {
    hide ShardOk, ShardIndex;
    forall k | k in LiveKeys(db, now)
      ensures LiveIn(m, k, now)
    {
      assert SameFor(At(cfg, db, k).table.entries, m, k, now);
    }
    forall k | k in m && !ExpiredAt(m[k], now)
      ensures k in LiveKeys(db, now)
    {
      assert SameFor(At(cfg, db, k).table.entries, m, k, now);
      var i := ShardIndex(cfg, k, |db.shards|);
      assert k in db.shards[i].table.entries;
    }
  }

  lemma SweepAllSame(cfg: Config, db: Db, m: Plain, n: nat, now: Time)
    requires Same(cfg, db, m, now) && Ok(cfg, RemoveExpired(cfg, db, n, now))
    ensures Same(cfg, RemoveExpired(cfg, db, n, now), m, now)
  {
    hide Ok, ShardOk, SweepShard, ShardIndex, SameFor;
    Parts(cfg, db);
    if n != 0 {
      var scan := SweepBudget(n, |db.shards|);
      forall i, k: Key | 0 <= i < |db.shards|
        ensures SameFor(SweepShard(cfg, db.shards[i], scan, now).table.entries, db.shards[i].table.entries, k, now)
      {
        SweepSame(cfg, db.shards[i], scan, now, k);
      }
      PointwiseSame(cfg, db, m, now, RemoveExpired(cfg, db, n, now));
    }
  }

  lemma GetSame(cfg: Config, db: Db, m: Plain, k: Key, now: Time)
    requires Same(cfg, db, m, now) && NoLimit(db)
    ensures Get(cfg, db, k, now).0 == db
    ensures Get(cfg, db, k, now).1 == if LiveIn(m, k, now) then Some(m[k].value) else None
    ensures Exists(cfg, db, k, now) == LiveIn(m, k, now)
  {
    hide Ok, ShardIndex;
    Parts(cfg, db);
    assert SameFor(At(cfg, db, k).table.entries, m, k, now);
  }

  lemma DelSame(cfg: Config, db: Db, m: Plain, k: Key, now: Time)
    requires Same(cfg, db, m, now) && Ok(cfg, Del(cfg, db, k, now).0)
    ensures Same(cfg, Del(cfg, db, k, now).0, m - {k}, now)
    ensures Del(cfg, db, k, now).1 == LiveIn(m, k, now)
  {
    var s := At(cfg, db, k);
    assert SameFor(s.table.entries, m, k, now);
    assert LiveIn(s.table.entries, k, now) == LiveIn(m, k, now);
    hide Same, Ok, ShardIndex, SameFor;
    MinusSame(s.table.entries, k, now);
    MinusSame(m, k, now);
    MinusBoth(s.table.entries, m, k, now);
    WithSame(cfg, db, m, now, k, DelShard(s, k), m - {k});
  }

  lemma MinusSame(a: map<Key, Entry>, k: Key, now: Time)
    ensures forall j: Key :: j != k ==> SameFor(a - {k}, a, j, now)
  {
  }

  lemma MinusBoth(a: map<Key, Entry>, b: map<Key, Entry>, k: Key, now: Time)
    ensures SameFor(a - {k}, b - {k}, k, now)
  {
  }

  lemma SameOk(cfg: Config, db: Db, m: Plain, now: Time)
    requires Same(cfg, db, m, now)
    ensures Ok(cfg, db)
  {
  }

  /** The call sets a memory limit; a limit of 0 is none. */
  predicate Limits(c: Call) { c.op.LimitOp? && c.op.bytes != 0 }

  /** Saying again that there is no limit changes nothing. */
  lemma StaysUnlimited(cfg: Config, db: Db)
    requires Ok(cfg, db) && NoLimit(db)
    ensures SetMaxMemory(cfg, db, 0) == db
  {
    Parts(cfg, db);
    hide ShardOk, Usage;
    assert forall i :: 0 <= i < |db.shards| ==> LimitShard(cfg, db.shards[i], 0) == db.shards[i];
    assert SetMaxMemory(cfg, db, 0).shards == db.shards;
  }

  /** One call keeps the agreement and gets the same answer. */
  lemma StepSame(cfg: Config, db: Db, m: Plain, c: Call)
    requires Same(cfg, db, m, c.now) && NoLimit(db) && !Limits(c)
    ensures Ok(cfg, db) && Same(cfg, Step(cfg, db, c).0, PlainStep(m, c).0, c.now)
    ensures Step(cfg, db, c).1 == PlainStep(m, c).1
  {
    hide Same, Ok, Set, Get, Del, Exists, RemoveExpired, ClearAll, RestoreAll, LiveKeys, LiveIn, Fits, NoLimit,
         SetMaxMemory;
    SameOk(cfg, db, m, c.now);
    Parts(cfg, db);
    StepOk(cfg, db, c);
    match c.op
    case SetOp(k, v, ttl) =>
      SetSame(cfg, db, m, c.now, k, v, Deadline(ttl, c.now));
      SetAnswer(cfg, db, k, v, Deadline(ttl, c.now));
    case GetOp(k) => GetSame(cfg, db, m, k, c.now);
    case DelOp(k) => DelSame(cfg, db, m, k, c.now);
    case ExistsOp(k) => GetSame(cfg, db, m, k, c.now);
    case KeysOp => KeysSame(cfg, db, m, c.now);
    case SweepOp(n) => SweepAllSame(cfg, db, m, n, c.now);
    case LimitOp(_) => StaysUnlimited(cfg, db);
    case ClearOp => ClearSame(cfg, db, c.now);
    case RestoreOp(entries) =>
      ClearSame(cfg, db, c.now);
      RestoreSame(cfg, ClearAll(db), entries, c.now);
  }

  lemma StepNoLimit(cfg: Config, db: Db, c: Call)
    requires Ok(cfg, db) && NoLimit(db) && !Limits(c)
    ensures NoLimit(Step(cfg, db, c).0)
  {
    hide ShardOk, SetShard, SweepShard, LimitShard, ShardIndex, LiveKeys;
    Parts(cfg, db);
    match c.op
    case SetOp(k, v, ttl) => SetUnlimited(cfg, At(cfg, db, k), k, v, Deadline(ttl, c.now));
    case SweepOp(n) =>
      if n != 0 {
        forall i | 0 <= i < |db.shards| { SweepOk(cfg, db.shards[i], SweepBudget(n, |db.shards|), c.now); }
      }
    case RestoreOp(entries) => RestoreNoLimit(cfg, ClearAll(db), entries, c.now);
    case LimitOp(_) => StaysUnlimited(cfg, db);
    case _ =>
  }

  lemma {:induction false} RestoreNoLimit(cfg: Config, db: Db, entries: seq<Entry>, now: Time)
    requires |db.shards| >= 1 && NoLimit(db)
    ensures NoLimit(RestoreAll(cfg, db, entries, now))
  {
    hide ShardIndex;
    if entries != [] { RestoreNoLimit(cfg, db, entries[..|entries| - 1], now); }
  }

  lemma SetAnswer(cfg: Config, db: Db, k: Key, v: Bytes, deadline: Option<Time>)
    requires Ok(cfg, db)
    ensures Set(cfg, db, k, v, deadline).1 == Rejected <==> !Fits(cfg, db, k, v)
  {
  }

  // ---------------------------------------------------------------- whole runs

  ghost predicate Unlimited(calls: seq<Call>) {
    forall i :: 0 <= i < |calls| ==> !Limits(calls[i])
  }

  /** The calls with every sweep left out. */
  function Erase(calls: seq<Call>): seq<Call> {
    if calls == [] then []
    else if calls[|calls| - 1].op.SweepOp? then Erase(calls[..|calls| - 1])
    else Erase(calls[..|calls| - 1]) + [calls[|calls| - 1]]
  }

  /** What the clients are told, in order; a sweep tells nobody anything. */
  ghost function Answers(cfg: Config, buckets: nat, shards: nat, calls: seq<Call>): seq<Reply> {
    if calls == [] then []
    else
      var past, c := calls[..|calls| - 1], calls[|calls| - 1];
      Answers(cfg, buckets, shards, past)
      + if c.op.SweepOp? then [] else [Step(cfg, Run(cfg, buckets, shards, past), c).1]
  }

  function PlainRun(calls: seq<Call>): Plain {
    if calls == [] then map[] else PlainStep(PlainRun(calls[..|calls| - 1]), calls[|calls| - 1]).0
  }

  function PlainAnswers(calls: seq<Call>): seq<Reply> {
    if calls == [] then []
    else PlainAnswers(calls[..|calls| - 1]) + [PlainStep(PlainRun(calls[..|calls| - 1]), calls[|calls| - 1]).1]
  }

  lemma {:induction false} RunSame(cfg: Config, buckets: nat, shards: nat, calls: seq<Call>, now: Time)
    requires Monotone(calls) && Unlimited(calls)
    requires forall i :: 0 <= i < |calls| ==> calls[i].now <= now
    ensures Same(cfg, Run(cfg, buckets, shards, calls), PlainRun(Erase(calls)), now)
    ensures NoLimit(Run(cfg, buckets, shards, calls))
    ensures Answers(cfg, buckets, shards, calls) == PlainAnswers(Erase(calls))
  {
    hide Step, PlainStep, Ok, Same, NoLimit;
    if calls == [] {
      FreshSame(cfg, buckets, shards, now);
    } else {
      var past, c := calls[..|calls| - 1], calls[|calls| - 1];
      RunSame(cfg, buckets, shards, past, c.now);
      var db, m := Run(cfg, buckets, shards, past), PlainRun(Erase(past));
      StepSame(cfg, db, m, c);
      StepNoLimit(cfg, db, c);
      SameLater(cfg, Step(cfg, db, c).0, PlainStep(m, c).0, c.now, now);
      if c.op.SweepOp? {
        PlainSweep(m, c);
      } else {
        assert Erase(calls)[..|Erase(calls)| - 1] == Erase(past);
      }
    }
  }

  lemma PlainSweep(m: Plain, c: Call)
    requires c.op.SweepOp?
    ensures PlainStep(m, c).0 == m
  {
  }

  lemma FreshSame(cfg: Config, buckets: nat, shards: nat, now: Time)
    ensures Same(cfg, Fresh(buckets, shards), map[], now) && NoLimit(Fresh(buckets, shards))
  {
    FreshOk(cfg, buckets, shards);
    hide Ok, Bits.RoundUp;
  }

  /** Without a limit the sharded, swept database answers exactly as one plain map does. */
  lemma AnswersArePlain(cfg: Config, buckets: nat, shards: nat, calls: seq<Call>)
    requires Monotone(calls) && Unlimited(calls)
    ensures Answers(cfg, buckets, shards, calls) == PlainAnswers(Erase(calls))
  {
    var now := if calls == [] then 0 else calls[|calls| - 1].now;
    RunSame(cfg, buckets, shards, calls, now);
  }

  /**
   No client can tell apart two databases with any shard counts, bucket counts and hash
   functions, whatever sweeps either of them runs in between.
   */
  lemma Indistinguishable(cfg: Config, buckets: nat, shards: nat, calls: seq<Call>,
                          cfg': Config, buckets': nat, shards': nat, calls': seq<Call>)
    requires Monotone(calls) && Unlimited(calls) && Monotone(calls') && Unlimited(calls')
    requires Erase(calls) == Erase(calls')
    ensures Answers(cfg, buckets, shards, calls) == Answers(cfg', buckets', shards', calls')
  {
    AnswersArePlain(cfg, buckets, shards, calls);
    AnswersArePlain(cfg', buckets', shards', calls');
  }
}
