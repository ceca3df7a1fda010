/**
 In every run, whatever limits are set and lifted and whatever is restored, each shard
 keeps its keys in order of last use, and what an eviction takes was used longer ago than
 anything it leaves. Reads count as uses only while a limit is in force; restored entries
 count as written in the order of the snapshot.
 */
module LruRuns {
  import opened Base
  import opened TableSpec
  import opened DatabaseSpec
  import opened DatabaseRuns
  import opened Eviction
  import opened Recency
  import R = Restoring

  /** What a history records: a call with its answer, or one entry that came back from a snapshot. */
  datatype Event = Answered(call: Call, reply: Reply, limited: bool) | Restored(entry: Entry)

  /** The key was used: a SET of it was accepted, a GET found it under a limit, or it was restored. */
  predicate Used(e: Event, k: Key) {
    match e
    case Answered(call, reply, limited) =>
      (match call.op
       case SetOp(key, _, _) => key == k && reply == OK
       case GetOp(key) => key == k && reply.Value? && limited
       case _ => false)
    case Restored(entry) => entry.key == k
  }

  /** The entries a restore stores, in order. */
  function Puts(es: seq<Entry>, now: Time): seq<Event> {
    if es == [] then []
    else Puts(es[..|es| - 1], now) + if ExpiredAt(es[|es| - 1], now) then [] else [Restored(es[|es| - 1])]
  }

  /** What one call adds to the history. */
  ghost function Events(cfg: Config, db: Db, c: Call, limited: bool): seq<Event>
    requires Ok(cfg, db)
  {
    if c.op.RestoreOp? then Puts(c.op.entries, c.now) else [Answered(c, Step(cfg, db, c).1, limited)]
  }

  ghost function Trace(cfg: Config, buckets: nat, shards: nat, calls: seq<Call>): seq<Event> {
    if calls == [] then []
    else
      var past, c := calls[..|calls| - 1], calls[|calls| - 1];
      Trace(cfg, buckets, shards, past) + Events(cfg, Run(cfg, buckets, shards, past), c, LimitAfter(past) != 0)
  }

  // ---------------------------------------------------------------- one shard

  /** The table a write leaves before it evicts. */
  ghost predicate WrittenTo(s: Shard, k: Key, r: Shard, t: Table) {
    && t.order == [k] + Drop(s.table.order, {k})
    && Listed(t) && t.entries.Keys == s.table.entries.Keys + {k}
    && KeptFrom(t, r.table)
  }

  /** r is what is left of t after evictions. */
  ghost predicate KeptFrom(t: Table, r: Table) {
    |r.order| <= |t.order| && r == Keep(t, |r.order|)
  }

  lemma SetOrder(cfg: Config, s: Shard, k: Key, v: Bytes, deadline: Option<Time>) returns (t: Table)
    requires ShardOk(s)
    ensures WrittenTo(s, k, SetShard(cfg, s, k, v, deadline), t)
  {
    hide WellFormed, Usage, Keep, Drop, EvictToFit, Put, Bounded, Listed;
    t := WrittenTable(s.table, k, v, deadline);
    EvictExact(cfg, s.(table := t));
  }

  lemma WrittenTable(t0: Table, k: Key, v: Bytes, deadline: Option<Time>) returns (t: Table)
    requires WellFormed(t0)
    ensures k in Put(t0, k, v).entries && t == Expire(Put(t0, k, v), k, deadline) && WellFormed(t) && Listed(t)
    ensures t.order == [k] + Drop(t0.order, {k}) && t.entries.Keys == t0.entries.Keys + {k}
  {
    hide Drop, Listed, Sized;
    PutWellFormed(t0, k, v);
    t := Expire(Put(t0, k, v), k, deadline);
    ExpireWellFormed(Put(t0, k, v), k, deadline);
    assert t.entries.Keys == t0.entries.Keys + {k};
  }

  lemma SetByRecency(cfg: Config, s: Shard, k: Key, v: Bytes, deadline: Option<Time>, past: seq<Event>, e: Event)
    requires ShardOk(s) && ByRecency(Used, s.table.order, past) && Used(e, k) && forall x :: x != k ==> !Used(e, x)
    ensures ByRecency(Used, SetShard(cfg, s, k, v, deadline).table.order, past + [e])
  {
    hide Used, LastUse, SetShard, WellFormed, Drop, Listed;
    var t := SetOrder(cfg, s, k, v, deadline);
    UsedFirst(Used, s.table.order, past, e, k);
    PrefixByRecency(Used, t.order, |SetShard(cfg, s, k, v, deadline).table.order|, past + [e]);
  }

  lemma GetByRecency(s: Shard, k: Key, now: Time, past: seq<Event>, e: Event)
    requires ByRecency(Used, s.table.order, past)
    requires Used(e, k) <==> LiveIn(s.table.entries, k, now) && s.slice != 0
    requires forall x :: x != k ==> !Used(e, x)
    ensures ByRecency(Used, GetShard(s, k, now).table.order, past + [e])
  {
    hide Used, LastUse, Drop;
    if LiveIn(s.table.entries, k, now) && s.slice != 0 {
      UsedFirst(Used, s.table.order, past, e, k);
    } else {
      SameRecency(Used, s.table.order, past, e);
    }
  }

  lemma LimitByRecency(cfg: Config, s: Shard, past: seq<Event>, slice: nat)
    requires ShardOk(s) && ByRecency(Used, s.table.order, past)
    ensures ByRecency(Used, LimitShard(cfg, s, slice).table.order, past)
  {
    hide Used, LastUse, EvictToFit, Usage, WellFormed, Bounded;
    EvictExact(cfg, s.(slice := slice));
    PrefixByRecency(Used, s.table.order, |LimitShard(cfg, s, slice).table.order|, past);
  }

  // ---------------------------------------------------------------- one step

  /** Shard i lists its keys by last use. */
  ghost predicate InOrder(db: Db, past: seq<Event>, i: nat) {
    i < |db.shards| && ByRecency(Used, db.shards[i].table.order, past)
  }

  /** A use of a key that is not in this shard leaves its order alone. */
  lemma Elsewhere(cfg: Config, db: Db, past: seq<Event>, e: Event, i: nat)
    requires Ok(cfg, db) && InOrder(db, past, i)
    requires forall x :: Used(e, x) ==> ShardIndex(cfg, x, |db.shards|) != i
    ensures ByRecency(Used, db.shards[i].table.order, past + [e])
  {
    hide Used, LastUse, ShardIndex, Sized;
    forall x | x in db.shards[i].table.order
      ensures !Used(e, x)
    {
      assert ShardOk(db.shards[i]) && x in Elements(db.shards[i].table.order);
      assert x in db.shards[i].table.entries;
    }
    SameRecency(Used, db.shards[i].table.order, past, e);
  }

  lemma StepInOrder(cfg: Config, db: Db, c: Call, past: seq<Event>, i: nat)
    requires Ok(cfg, db) && Sliced(db) && InOrder(db, past, i)
    ensures InOrder(Step(cfg, db, c).0, past + Events(cfg, db, c, db.limit != 0), i)
  {
    hide Ok, Sliced, InOrder, Step, Events;
    if c.op.RestoreOp? {
      RestoreCallInOrder(cfg, db, c, past, i);
    } else if c.op.SetOp? || c.op.GetOp? {
      ClientInOrder(cfg, db, c, past, i);
    } else {
      QuietInOrder(cfg, db, c, past, i);
    }
  }

  /** SET and GET, the calls that can use a key. */
  lemma ClientInOrder(cfg: Config, db: Db, c: Call, past: seq<Event>, i: nat)
    requires Ok(cfg, db) && Sliced(db) && InOrder(db, past, i) && (c.op.SetOp? || c.op.GetOp?)
    ensures InOrder(Step(cfg, db, c).0, past + Events(cfg, db, c, db.limit != 0), i)
  {
    hide Ok, ShardOk, LastUse, Drop, SetShard, GetShard, ShardIndex, ByRecency;
    Parts(cfg, db);
    var e, s, k := Answered(c, Step(cfg, db, c).1, db.limit != 0), db.shards[i], c.op.key;
    if ShardIndex(cfg, k, |db.shards|) != i || e.reply == TooLarge {
      Elsewhere(cfg, db, past, e, i);
    } else if c.op.SetOp? {
      SetByRecency(cfg, s, k, c.op.value, Deadline(c.op.ttl, c.now), past, e);
    } else {
      GetByRecency(s, k, c.now, past, e);
    }
  }

  /** The other calls use nothing and keep the order of what they leave. */
  lemma QuietInOrder(cfg: Config, db: Db, c: Call, past: seq<Event>, i: nat)
    requires Ok(cfg, db) && InOrder(db, past, i) && !c.op.SetOp? && !c.op.GetOp? && !c.op.RestoreOp?
    ensures InOrder(Step(cfg, db, c).0, past + Events(cfg, db, c, db.limit != 0), i)
  {
    hide Ok, ShardOk, LastUse, Drop, LimitShard, ShardIndex, Swept, ByRecency, LiveKeys;
    Parts(cfg, db);
    var e, s := Answered(c, Step(cfg, db, c).1, db.limit != 0), db.shards[i];
    SameRecency(Used, s.table.order, past, e);
    match c.op
    case DelOp(k) => DropByRecency(Used, s.table.order, {k}, past + [e]);
    case SweepOp(n) =>
      if n != 0 { SweepByRecency(cfg, s, SweepBudget(n, |db.shards|), c.now, past + [e]); }
    case LimitOp(bytes) => LimitByRecency(cfg, s, past + [e], Slice(bytes, |db.shards|));
    case ClearOp => NothingByRecency(past + [e]);
    case _ =>
  }

  lemma NothingByRecency(past: seq<Event>)
    ensures ByRecency(Used, [], past)
  {
  }

  lemma SweepByRecency(cfg: Config, s: Shard, scan: nat, now: Time, past: seq<Event>)
    requires ShardOk(s) && ByRecency(Used, s.table.order, past)
    ensures ByRecency(Used, SweepShard(cfg, s, scan, now).table.order, past)
  {
    hide LastUse, Drop, Swept, ByRecency;
    var first := if s.cursor >= s.table.buckets then 0 else s.cursor;
    var scanned := Min(Min(scan, s.table.buckets), s.table.buckets);
    DropByRecency(Used, s.table.order, Swept(cfg, s.table, first, scanned, DeadAt(now)), past);
  }

  // ---------------------------------------------------------------- restoring

  lemma ClearedInOrder(cfg: Config, db: Db, past: seq<Event>, i: nat)
    requires Ok(cfg, db) && i < |db.shards|
    ensures Ok(cfg, ClearAll(db)) && InOrder(ClearAll(db), past, i)
  {
    ClearOk(cfg, db);
    NothingByRecency(past);
  }

  lemma {:induction false} RestoreInOrder(cfg: Config, db: Db, es: seq<Entry>, now: Time, past: seq<Event>, i: nat)
    requires Ok(cfg, db) && InOrder(db, past, i)
    ensures InOrder(RestoreAll(cfg, db, es, now), past + Puts(es, now), i)
  {
    if es == [] {
      assert past + Puts(es, now) == past;
    } else {
      hide Ok, LastUse, ByRecency, ShardIndex, RestoreShard;
      var rest, e := es[..|es| - 1], es[|es| - 1];
      RestoreInOrder(cfg, db, rest, now, past, i);
      RestoreOk(cfg, db, rest, now);
      R.ShardStep(cfg, db, es, now, i);
      if ExpiredAt(e, now) {
        assert Puts(es, now) == Puts(rest, now);
      } else {
        assert past + Puts(es, now) == past + Puts(rest, now) + [Restored(e)];
        PutBackInOrder(cfg, RestoreAll(cfg, db, rest, now), e, past + Puts(rest, now), i);
      }
    }
  }

  lemma RestoreCallInOrder(cfg: Config, db: Db, c: Call, past: seq<Event>, i: nat)
    requires Ok(cfg, db) && InOrder(db, past, i) && c.op.RestoreOp?
    ensures InOrder(Step(cfg, db, c).0, past + Events(cfg, db, c, db.limit != 0), i)
  {
    assert i < |db.shards|;
    hide Ok, InOrder, ClearAll, RestoreAll, Puts;
    ClearedInOrder(cfg, db, past, i);
    RestoreInOrder(cfg, ClearAll(db), c.op.entries, c.now, past, i);
  }

  lemma PutBackInOrder(cfg: Config, db: Db, e: Entry, past: seq<Event>, i: nat)
    requires Ok(cfg, db) && InOrder(db, past, i)
    ensures var s := db.shards[i];
            ByRecency(Used, (if ShardIndex(cfg, e.key, |db.shards|) == i then RestoreShard(s, e) else s).table.order,
                      past + [Restored(e)])
  {
    hide Ok, LastUse, ByRecency, ShardIndex, PutBack, Drop;
    if ShardIndex(cfg, e.key, |db.shards|) == i {
      PutBackParts(db.shards[i].table, e);
      UsedFirst(Used, db.shards[i].table.order, past, Restored(e), e.key);
    } else {
      Elsewhere(cfg, db, past, Restored(e), i);
    }
  }

  // ---------------------------------------------------------------- whole runs

  /** In every state of every run each shard's recency order is by last use, as the history defines it. */
  lemma {:induction false} LruOrder(cfg: Config, buckets: nat, shards: nat, calls: seq<Call>, i: nat)
    requires i < |Fresh(buckets, shards).shards|
    ensures InOrder(Run(cfg, buckets, shards, calls), Trace(cfg, buckets, shards, calls), i)
  {
    if calls == [] {
      hide LastUse;
    } else {
      hide Fresh, LastUse, Step, InOrder, Ok, Sliced, Events;
      var past, c := calls[..|calls| - 1], calls[|calls| - 1];
      LruOrder(cfg, buckets, shards, past, i);
      RunSliced(cfg, buckets, shards, past);
      StepInOrder(cfg, Run(cfg, buckets, shards, past), c, Trace(cfg, buckets, shards, past), i);
    }
  }

  /** Of a table in order, evictions take only keys used longer ago than any they leave. */
  lemma LostIsOlder(t: Table, r: Table, past: seq<Event>, x: Key, y: Key)
    requires Listed(t) && KeptFrom(t, r) && ByRecency(Used, t.order, past)
    requires x in t.entries && x !in r.entries && y in r.entries
    ensures LastUse(Used, past, x) < LastUse(Used, past, y)
  {
    hide Used, LastUse, Distinct;
    var m := |r.order|;
    var a := IndexIn(t.order[m..], x);
    assert t.order[m + a] == x;
    assert y in Elements(t.order);
    var b := IndexIn(t.order, y);
    assert y !in Elements(t.order[m..]);
    assert b < m by { Suffix(t.order, m, b); }
  }

  lemma IndexIn(s: seq<Key>, x: Key) returns (i: nat)
    requires x in Elements(s)
    ensures i < |s| && s[i] == x
  {
    i :| 0 <= i < |s| && s[i] == x;
  }

  lemma Suffix(s: seq<Key>, m: nat, b: nat)
    requires m <= |s| && b < |s|
    ensures b >= m ==> s[b] in Elements(s[m..])
  {
    assert s == s[..m] + s[m..];
  }

  /** A write or a new limit, the calls that evict. */
  predicate Evicts(op: Op) { op.SetOp? || op.LimitOp? }

  /** Whatever a write or a new limit evicts was used longer ago than anything its shard keeps. */
  lemma EvictsLru(cfg: Config, buckets: nat, shards: nat, calls: seq<Call>, c: Call, x: Key, y: Key)
    requires Evicts(c.op)
    requires var db := Run(cfg, buckets, shards, calls); var db' := Step(cfg, db, c).0;
             var i := ShardIndex(cfg, x, |db.shards|);
             && |db'.shards| == |db.shards|
             && x in db.shards[i].table.entries && x !in db'.shards[i].table.entries && y in db'.shards[i].table.entries
    ensures var trace := Trace(cfg, buckets, shards, calls + [c]);
            LastUse(Used, trace, x) < LastUse(Used, trace, y)
  {
    hide Fresh, LastUse, ShardIndex, Run, Step, Sliced, InOrder, Events;
    var db, past := Run(cfg, buckets, shards, calls), Trace(cfg, buckets, shards, calls);
    var i := ShardIndex(cfg, x, |db.shards|);
    RunSliced(cfg, buckets, shards, calls);
    LruOrder(cfg, buckets, shards, calls, i);
    assert (calls + [c])[..|calls|] == calls;
    StepEvictsLru(cfg, db, c, past, i, x, y);
  }

  lemma StepEvictsLru(cfg: Config, db: Db, c: Call, past: seq<Event>, i: nat, x: Key, y: Key)
    requires Ok(cfg, db) && Sliced(db) && InOrder(db, past, i) && Evicts(c.op)
    requires |Step(cfg, db, c).0.shards| == |db.shards|
    requires x in db.shards[i].table.entries && x !in Step(cfg, db, c).0.shards[i].table.entries
    requires y in Step(cfg, db, c).0.shards[i].table.entries
    ensures var now := past + Events(cfg, db, c, db.limit != 0); LastUse(Used, now, x) < LastUse(Used, now, y)
  {
    hide Ok, ShardOk, LastUse, SetShard, LimitShard, ShardIndex, ByRecency;
    Parts(cfg, db);
    var e, s := Answered(c, Step(cfg, db, c).1, db.limit != 0), db.shards[i];
    if c.op.SetOp? {
      SetEvictsLru(cfg, s, c.op.key, c.op.value, Deadline(c.op.ttl, c.now), past, e, x, y);
    } else {
      SameRecency(Used, s.table.order, past, e);
      LimitEvictsLru(cfg, s, Slice(c.op.bytes, |db.shards|), past + [e], x, y);
    }
  }

  lemma SetEvictsLru(cfg: Config, s: Shard, k: Key, v: Bytes, deadline: Option<Time>,
                     past: seq<Event>, e: Event, x: Key, y: Key)
    requires ShardOk(s) && ByRecency(Used, s.table.order, past) && Used(e, k) && forall z :: z != k ==> !Used(e, z)
    requires x in s.table.entries && x !in SetShard(cfg, s, k, v, deadline).table.entries
    requires y in SetShard(cfg, s, k, v, deadline).table.entries
    ensures LastUse(Used, past + [e], x) < LastUse(Used, past + [e], y)
  {
    hide Used, LastUse, SetShard, WellFormed, Drop, Listed, KeptFrom, ByRecency;
    var t := SetOrder(cfg, s, k, v, deadline);
    UsedFirst(Used, s.table.order, past, e, k);
    assert x in t.entries.Keys;
    LostIsOlder(t, SetShard(cfg, s, k, v, deadline).table, past + [e], x, y);
  }

  lemma LimitEvictsLru(cfg: Config, s: Shard, slice: nat, past: seq<Event>, x: Key, y: Key)
    requires ShardOk(s) && ByRecency(Used, s.table.order, past)
    requires x in s.table.entries && x !in LimitShard(cfg, s, slice).table.entries
    requires y in LimitShard(cfg, s, slice).table.entries
    ensures LastUse(Used, past, x) < LastUse(Used, past, y)
  {
    hide Used, LastUse, EvictToFit, Usage, Listed, Sized, Bounded, Keep, ByRecency;
    EvictExact(cfg, s.(slice := slice));
    LostIsOlder(s.table, LimitShard(cfg, s, slice).table, past, x, y);
  }
}
