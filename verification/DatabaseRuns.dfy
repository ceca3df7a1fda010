/** What holds in every state the database can reach. */
module DatabaseRuns {
  import opened Base
  import opened TableSpec
  import opened DatabaseSpec
  import opened Eviction
  import Bits

  /** A lifetime counts ticks of the clock. */
  datatype Op =
    | SetOp(key: Key, value: Bytes, ttl: Option<nat>)
    | GetOp(key: Key)
    | DelOp(key: Key)
    | ExistsOp(key: Key)
    | KeysOp
    | SweepOp(maxBuckets: nat)
    | LimitOp(bytes: nat)
    | ClearOp
    | RestoreOp(entries: seq<Entry>)

  /** An operation and the clock reading it sees. */
  datatype Call = Call(op: Op, now: Time)

  /** Time never runs backwards. */
  ghost predicate Monotone(calls: seq<Call>) {
    forall i, j :: 0 <= i < j < |calls| ==> calls[i].now <= calls[j].now
  }

  /** What a client is told. SET answers OK whether or not the key was new; KEYS has no order. */
  datatype Reply = OK | TooLarge | Value(bytes: Bytes) | Nil | Number(n: nat) | Keys(keys: set<Key>) | Silent

  function Deadline(ttl: Option<nat>, now: Time): Option<Time> {
    if ttl.Some? then Some(now + ttl.value) else None
  }

  ghost function LiveKeys(db: Db, now: Time): set<Key> {
    set i, k | 0 <= i < |db.shards| && k in db.shards[i].table.entries
               && !ExpiredAt(db.shards[i].table.entries[k], now) :: k
  }

  ghost function Step(cfg: Config, db: Db, c: Call): (Db, Reply)
    requires Ok(cfg, db)
  {
    match c.op
    case SetOp(k, v, ttl) =>
      var (db', outcome) := Set(cfg, db, k, v, Deadline(ttl, c.now));
      (db', if outcome == Rejected then TooLarge else OK)
    case GetOp(k) =>
      var (db', v) := Get(cfg, db, k, c.now);
      (db', if v.Some? then Value(v.value) else Nil)
    case DelOp(k) =>
      var (db', live) := Del(cfg, db, k, c.now);
      (db', Number(if live then 1 else 0))
    case ExistsOp(k) => (db, Number(if Exists(cfg, db, k, c.now) then 1 else 0))
    case KeysOp => (db, Keys(LiveKeys(db, c.now)))
    case SweepOp(n) => (RemoveExpired(cfg, db, n, c.now), Silent)
    case LimitOp(bytes) => (SetMaxMemory(cfg, db, bytes), Silent)
    case ClearOp => (ClearAll(db), Silent)
    case RestoreOp(entries) => (Restore(cfg, db, entries, c.now), Silent)
  }

  // ---------------------------------------------------------------- well-formedness

  /** One shard replaced by a sound one that holds no foreign key. */
  lemma WithOk(cfg: Config, db: Db, k: Key, s: Shard)
    requires Ok(cfg, db) && ShardOk(s)
    requires forall j :: j in s.table.entries ==> j == k || j in At(cfg, db, k).table.entries
    ensures Ok(cfg, With(cfg, db, k, s))
  {
    hide ShardOk, ShardIndex;
  }

  /** Every shard replaced by a sound one that holds no new key. */
  lemma PointwiseOk(cfg: Config, db: Db, db': Db)
    requires Ok(cfg, db) && |db'.shards| == |db.shards|
    requires forall i :: 0 <= i < |db.shards| ==>
               ShardOk(db'.shards[i]) && db'.shards[i].table.entries.Keys <= db.shards[i].table.entries.Keys
    ensures Ok(cfg, db')
  {
    hide ShardOk, ShardIndex;
  }

  lemma SweepOk(cfg: Config, s: Shard, scan: nat, now: Time)
    requires ShardOk(s)
    ensures var r := SweepShard(cfg, s, scan, now);
            ShardOk(r) && r.table.entries.Keys <= s.table.entries.Keys
            && r.slice == s.slice && r.table.buckets == s.table.buckets
  {
    var n := Min(scan, s.table.buckets);
    RemoveAllWellFormed(s.table, Swept(cfg, s.table, s.cursor, Min(n, s.table.buckets), DeadAt(now)));
    RemoveAllWellFormed(s.table, Swept(cfg, s.table, 0, Min(n, s.table.buckets), DeadAt(now)));
  }

  lemma LimitOk(cfg: Config, s: Shard, slice: nat)
    requires ShardOk(s)
    ensures var r := LimitShard(cfg, s, slice);
            ShardOk(r) && r.table.entries.Keys <= s.table.entries.Keys && Bounded(cfg, r) && r.slice == slice
  {
    EvictExact(cfg, s.(slice := slice));
  }

  lemma SetOk(cfg: Config, s: Shard, k: Key, v: Bytes, deadline: Option<Time>)
    requires ShardOk(s)
    ensures ShardOk(SetShard(cfg, s, k, v, deadline))
  {
    hide SetShard;
    SetStores(cfg, s, k, v, deadline);
  }

  lemma GetOk(cfg: Config, s: Shard, k: Key, now: Time)
    requires ShardOk(s)
    ensures var r := GetShard(s, k, now);
            && ShardOk(r) && r.slice == s.slice && r.table.entries == s.table.entries
            && Usage(cfg, r.table) == Usage(cfg, s.table)
  {
    hide Listed, EntryBytes, Drop;
    TouchListed(cfg, s.table, k);
  }

  lemma {:induction false} RestoreOk(cfg: Config, db: Db, entries: seq<Entry>, now: Time)
    requires Ok(cfg, db)
    ensures Ok(cfg, RestoreAll(cfg, db, entries, now))
  {
    if entries != [] {
      var e := entries[|entries| - 1];
      RestoreOk(cfg, db, entries[..|entries| - 1], now);
      var before := RestoreAll(cfg, db, entries[..|entries| - 1], now);
      if !ExpiredAt(e, now) { RestoreEntryOk(cfg, before, e); }
    }
  }

  lemma RestoreEntryOk(cfg: Config, db: Db, e: Entry)
    requires Ok(cfg, db)
    ensures Ok(cfg, RestoreEntry(cfg, db, e))
  {
    var s := At(cfg, db, e.key);
    RestoreShardOk(s, e);
    hide Ok, ShardOk, ShardIndex, RestoreShard;
    assert Ok(cfg, With(cfg, db, e.key, RestoreShard(s, e))) by { WithOk(cfg, db, e.key, RestoreShard(s, e)); }
  }

  lemma RestoreShardOk(s: Shard, e: Entry)
    requires ShardOk(s)
    ensures ShardOk(RestoreShard(s, e))
    ensures forall k :: k in RestoreShard(s, e).table.entries ==> k == e.key || k in s.table.entries
  {
    hide WellFormed, Drop;
    PutWellFormed(s.table, e.key, e.value);
    ExpireWellFormed(Put(s.table, e.key, e.value), e.key, e.expiration);
    PutBackParts(s.table, e);
  }

  lemma ClearOk(cfg: Config, db: Db)
    requires Ok(cfg, db)
    ensures Ok(cfg, ClearAll(db))
  {
    PointwiseOk(cfg, db, ClearAll(db));
  }

  lemma GetAllOk(cfg: Config, db: Db, k: Key, now: Time)
    requires Ok(cfg, db)
    ensures Ok(cfg, Get(cfg, db, k, now).0)
  {
    GetOk(cfg, At(cfg, db, k), k, now);
    hide Ok, ShardIndex, GetShard, ShardOk;
    WithOk(cfg, db, k, GetShard(At(cfg, db, k), k, now));
  }

  lemma DelAllOk(cfg: Config, db: Db, k: Key, now: Time)
    requires Ok(cfg, db)
    ensures Ok(cfg, Del(cfg, db, k, now).0)
  {
    DelOk(At(cfg, db, k), k);
    hide Ok, ShardIndex, DelShard, ShardOk;
    WithOk(cfg, db, k, DelShard(At(cfg, db, k), k));
  }

  lemma SetAllOk(cfg: Config, db: Db, k: Key, v: Bytes, deadline: Option<Time>)
    requires Ok(cfg, db)
    ensures Ok(cfg, Set(cfg, db, k, v, deadline).0)
  {
    hide Ok, ShardOk, SetShard, ShardIndex;
    Parts(cfg, db);
    if Fits(cfg, db, k, v) {
      var s := At(cfg, db, k);
      SetOk(cfg, s, k, v, deadline);
      SetKeys(cfg, s, k, v, deadline);
      WithOk(cfg, db, k, SetShard(cfg, s, k, v, deadline));
    }
  }

  lemma SweepAllOk(cfg: Config, db: Db, n: nat, now: Time)
    requires Ok(cfg, db)
    ensures Ok(cfg, RemoveExpired(cfg, db, n, now))
  {
    hide Ok, ShardOk, SweepShard;
    Parts(cfg, db);
    if n != 0 {
      forall i | 0 <= i < |db.shards| { SweepOk(cfg, db.shards[i], SweepBudget(n, |db.shards|), now); }
      PointwiseOk(cfg, db, RemoveExpired(cfg, db, n, now));
    }
  }

  lemma LimitAllOk(cfg: Config, db: Db, bytes: nat)
    requires Ok(cfg, db)
    ensures Ok(cfg, SetMaxMemory(cfg, db, bytes))
  {
    hide Ok, ShardOk, LimitShard;
    Parts(cfg, db);
    forall i | 0 <= i < |db.shards| { LimitOk(cfg, db.shards[i], Slice(bytes, |db.shards|)); }
    PointwiseOk(cfg, db, SetMaxMemory(cfg, db, bytes));
  }

  lemma StepOk(cfg: Config, db: Db, c: Call)
    requires Ok(cfg, db)
    ensures Ok(cfg, Step(cfg, db, c).0)
  {
    hide Ok, Set, Get, Del, RemoveExpired, SetMaxMemory, RestoreAll, ClearAll;
    Parts(cfg, db);
    match c.op
    case SetOp(k, v, ttl) => SetAllOk(cfg, db, k, v, Deadline(ttl, c.now));
    case GetOp(k) => GetAllOk(cfg, db, k, c.now);
    case DelOp(k) => DelAllOk(cfg, db, k, c.now);
    case SweepOp(n) => SweepAllOk(cfg, db, n, c.now);
    case LimitOp(bytes) => LimitAllOk(cfg, db, bytes);
    case ClearOp => ClearOk(cfg, db);
    case RestoreOp(entries) =>
      ClearOk(cfg, db);
      RestoreOk(cfg, ClearAll(db), entries, c.now);
    case _ =>
  }

  lemma Parts(cfg: Config, db: Db)
    requires Ok(cfg, db)
    ensures |db.shards| >= 1
    ensures forall i :: 0 <= i < |db.shards| ==> ShardOk(db.shards[i]) && WellFormed(db.shards[i].table)
  {
  }

  lemma SetKeys(cfg: Config, s: Shard, k: Key, v: Bytes, deadline: Option<Time>)
    requires ShardOk(s)
    ensures forall j :: j in SetShard(cfg, s, k, v, deadline).table.entries ==> j == k || j in s.table.entries
  {
    hide SetShard;
    SetStores(cfg, s, k, v, deadline);
  }

  lemma DelOk(s: Shard, k: Key)
    requires ShardOk(s)
    ensures ShardOk(DelShard(s, k)) && DelShard(s, k).table.entries.Keys == s.table.entries.Keys - {k}
  {
    RemoveAllWellFormed(s.table, {k});
    assert (s.table.entries - {k}).Keys == s.table.entries.Keys - {k};
  }

  /** The state after the calls, starting from a new database. */
  ghost function Run(cfg: Config, buckets: nat, shards: nat, calls: seq<Call>): (db: Db)
    ensures Ok(cfg, db)
  {
    if calls == [] then
      FreshOk(cfg, buckets, shards);
      Fresh(buckets, shards)
    else
      var before := Run(cfg, buckets, shards, calls[..|calls| - 1]);
      StepOk(cfg, before, calls[|calls| - 1]);
      Step(cfg, before, calls[|calls| - 1]).0
  }

  lemma RunLast(cfg: Config, buckets: nat, shards: nat, calls: seq<Call>)
    requires calls != []
    ensures Run(cfg, buckets, shards, calls)
         == Step(cfg, Run(cfg, buckets, shards, calls[..|calls| - 1]), calls[|calls| - 1]).0
  {
    hide Step;
  }

  lemma FreshOk(cfg: Config, buckets: nat, shards: nat)
    ensures Ok(cfg, Fresh(buckets, shards))
  {
    hide Bits.RoundUp;
    var n := Bits.RoundUp(Max(shards, 1));
    Bits.RoundUpIsLeast(Max(Share(buckets, n), 1));
  }

  // ---------------------------------------------------------------- the memory bound

  /** The slices are the shares of the configured limit. */
  ghost predicate Sliced(db: Db) {
    |db.shards| >= 1 && forall i :: 0 <= i < |db.shards| ==> db.shards[i].slice == Slice(db.limit, |db.shards|)
  }

  /** The limit in force after the calls: the last one set, or none. */
  function LimitAfter(calls: seq<Call>): nat {
    if calls == [] then 0
    else if calls[|calls| - 1].op.LimitOp? then calls[|calls| - 1].op.bytes
    else LimitAfter(calls[..|calls| - 1])
  }

  lemma {:induction false} RestoreSliced(cfg: Config, db: Db, entries: seq<Entry>, now: Time)
    requires Sliced(db)
    ensures Sliced(RestoreAll(cfg, db, entries, now)) && RestoreAll(cfg, db, entries, now).limit == db.limit
  {
    hide ShardIndex, Slice;
    if entries != [] { RestoreSliced(cfg, db, entries[..|entries| - 1], now); }
  }

  lemma StepSliced(cfg: Config, db: Db, c: Call)
    requires Ok(cfg, db) && Sliced(db)
    ensures var db' := Step(cfg, db, c).0;
            Sliced(db') && |db'.shards| == |db.shards| && db'.limit == if c.op.LimitOp? then c.op.bytes else db.limit
  {
    hide Ok, Sliced, ShardOk, SetShard, GetShard, DelShard, SweepShard, LimitShard, ClearShard, ShardIndex, Slice,
         LiveKeys, RestoreAll;
    Parts(cfg, db);
    match c.op
    case SetOp(k, v, ttl) =>
      if Fits(cfg, db, k, v) {
        SetSlice(cfg, At(cfg, db, k), k, v, Deadline(ttl, c.now));
        WithSliced(cfg, db, k, SetShard(cfg, At(cfg, db, k), k, v, Deadline(ttl, c.now)));
      }
    case GetOp(k) =>
      GetSlice(At(cfg, db, k), k, c.now);
      WithSliced(cfg, db, k, GetShard(At(cfg, db, k), k, c.now));
    case DelOp(k) =>
      DelSlice(At(cfg, db, k), k);
      WithSliced(cfg, db, k, DelShard(At(cfg, db, k), k));
    case SweepOp(n) => if n != 0 { SweepSliced(cfg, db, n, c.now); }
    case LimitOp(bytes) => LimitSliced(cfg, db, bytes);
    case ClearOp => ClearSliced(db);
    case RestoreOp(entries) =>
      ClearSliced(db);
      RestoreSliced(cfg, ClearAll(db), entries, c.now);
    case _ =>
  }

  lemma WithSliced(cfg: Config, db: Db, k: Key, s: Shard)
    requires Sliced(db) && s.slice == At(cfg, db, k).slice
    ensures Sliced(With(cfg, db, k, s))
  {
    hide ShardIndex, Slice;
  }

  lemma GetSlice(s: Shard, k: Key, now: Time)
    ensures GetShard(s, k, now).slice == s.slice
  {
  }

  lemma DelSlice(s: Shard, k: Key)
    ensures DelShard(s, k).slice == s.slice
  {
  }

  lemma SweepSliced(cfg: Config, db: Db, n: nat, now: Time)
    requires Ok(cfg, db) && Sliced(db)
    ensures Sliced(RemoveExpired(cfg, db, n, now))
  {
    hide Slice, SweepBudget, RemoveIf, ShardIndex;
  }

  lemma LimitSliced(cfg: Config, db: Db, bytes: nat)
    requires Ok(cfg, db)
    ensures Sliced(SetMaxMemory(cfg, db, bytes))
  {
    hide ShardOk, LimitShard, Slice, Ok;
    Parts(cfg, db);
    forall i | 0 <= i < |db.shards| { LimitOk(cfg, db.shards[i], Slice(bytes, |db.shards|)); }
  }

  lemma ClearSliced(db: Db)
    requires Sliced(db)
    ensures Sliced(ClearAll(db)) && ClearAll(db).limit == db.limit
  {
    hide Slice;
  }

  lemma SetSlice(cfg: Config, s: Shard, k: Key, v: Bytes, deadline: Option<Time>)
    requires ShardOk(s)
    ensures SetShard(cfg, s, k, v, deadline).slice == s.slice
  {
    hide SetShard;
    SetStores(cfg, s, k, v, deadline);
  }

  /** In every state the limit is the last one set, and every shard has its share of it. */
  lemma {:induction false} RunSliced(cfg: Config, buckets: nat, shards: nat, calls: seq<Call>)
    ensures var db := Run(cfg, buckets, shards, calls);
            Sliced(db) && |db.shards| == |Fresh(buckets, shards).shards| && db.limit == LimitAfter(calls)
  {
    if calls == [] {
      hide Bits.RoundUp;
    } else {
      hide Step, Ok, Fresh, Sliced;
      var past := calls[..|calls| - 1];
      RunSliced(cfg, buckets, shards, past);
      StepSliced(cfg, Run(cfg, buckets, shards, past), calls[|calls| - 1]);
    }
  }

  /** Every shard respects its slice. */
  ghost predicate AllBounded(cfg: Config, db: Db) {
    Sliced(db) && forall i :: 0 <= i < |db.shards| ==> Bounded(cfg, db.shards[i])
  }

  lemma RemoveUses(cfg: Config, t: Table, ks: set<Key>)
    requires Listed(t)
    ensures Usage(cfg, RemoveAll(t, ks)) <= Usage(cfg, t)
    ensures |RemoveAll(t, ks).entries| <= |t.entries|
  {
    BytesLess(cfg, t.entries, t.order, ks);
    assert (t.entries - ks).Keys == t.entries.Keys - ks;
    CardSubset((t.entries - ks).Keys, t.entries.Keys);
  }

  lemma {:induction false} BytesLess(cfg: Config, m: map<Key, Entry>, s: seq<Key>, ks: set<Key>)
    ensures BytesOf(cfg, m - ks, Drop(s, ks)) <= BytesOf(cfg, m, s)
  {
    if s != [] { BytesLess(cfg, m, s[1..], ks); }
  }

  lemma BoundedLess(cfg: Config, s: Shard, ks: set<Key>, cursor: nat)
    requires ShardOk(s) && Bounded(cfg, s)
    ensures Bounded(cfg, s.(table := RemoveAll(s.table, ks), cursor := cursor))
  {
    hide Usage, RemoveAll;
    RemoveUses(cfg, s.table, ks);
  }

  /** No operation but a restore can take a shard out of its bound. */
  lemma StepBounded(cfg: Config, db: Db, c: Call)
    requires Ok(cfg, db) && AllBounded(cfg, db) && !c.op.RestoreOp?
    ensures AllBounded(cfg, Step(cfg, db, c).0)
  {
    hide Ok, ShardOk, SetShard, LimitShard, ShardIndex, Bounded, Usage, RemoveAll, Swept;
    Parts(cfg, db);
    match c.op
    case SetOp(k, v, ttl) =>
      if Fits(cfg, db, k, v) { SetStores(cfg, At(cfg, db, k), k, v, Deadline(ttl, c.now)); }
    case GetOp(k) => GetBounded(cfg, At(cfg, db, k), k, c.now);
    case DelOp(k) => BoundedLess(cfg, At(cfg, db, k), {k}, At(cfg, db, k).cursor);
    case SweepOp(n) =>
      forall i | 0 <= i < |db.shards|
        ensures n != 0 ==> Bounded(cfg, SweepShard(cfg, db.shards[i], SweepBudget(n, |db.shards|), c.now))
      {
        SweepBounded(cfg, db.shards[i], SweepBudget(n, |db.shards|), c.now);
      }
    case LimitOp(bytes) =>
      forall i | 0 <= i < |db.shards| { LimitOk(cfg, db.shards[i], Slice(bytes, |db.shards|)); }
    case ClearOp => forall i | 0 <= i < |db.shards| { ClearBounded(cfg, db.shards[i]); }
    case _ =>
  }

  lemma GetBounded(cfg: Config, s: Shard, k: Key, now: Time)
    requires ShardOk(s) && Bounded(cfg, s)
    ensures Bounded(cfg, GetShard(s, k, now)) && GetShard(s, k, now).slice == s.slice
  {
    hide Usage, GetShard;
    GetOk(cfg, s, k, now);
  }

  lemma SweepBounded(cfg: Config, s: Shard, scan: nat, now: Time)
    requires ShardOk(s) && Bounded(cfg, s)
    ensures Bounded(cfg, SweepShard(cfg, s, scan, now))
  {
    hide Bounded, RemoveAll, Swept;
    var first := if s.cursor >= s.table.buckets then 0 else s.cursor;
    var scanned := Min(scan, s.table.buckets);
    BoundedLess(cfg, s, Swept(cfg, s.table, first, Min(scanned, s.table.buckets), DeadAt(now)),
                (first + scanned) % s.table.buckets);
  }

  lemma ClearBounded(cfg: Config, s: Shard)
    ensures Bounded(cfg, ClearShard(s))
  {
  }

  /** Over every run without a restore, every shard is inside its slice or holds one entry. */
  lemma {:induction false} RunBounded(cfg: Config, buckets: nat, shards: nat, calls: seq<Call>)
    requires forall i :: 0 <= i < |calls| ==> !calls[i].op.RestoreOp?
    ensures AllBounded(cfg, Run(cfg, buckets, shards, calls))
  {
    hide Step, Bits.RoundUp;
    if calls != [] {
      var past := calls[..|calls| - 1];
      RunBounded(cfg, buckets, shards, past);
      StepBounded(cfg, Run(cfg, buckets, shards, past), calls[|calls| - 1]);
    }
  }

  ghost function TotalUsage(cfg: Config, shards: seq<Shard>): nat {
    if shards == [] then 0
    else TotalUsage(cfg, shards[..|shards| - 1]) + Usage(cfg, shards[|shards| - 1].table)
  }

  lemma {:induction false} TotalAtMost(cfg: Config, shards: seq<Shard>, bound: nat)
    requires forall i :: 0 <= i < |shards| ==> Usage(cfg, shards[i].table) <= bound
    ensures TotalUsage(cfg, shards) <= bound * |shards|
  {
    hide Usage;
    if shards != [] {
      TotalAtMost(cfg, shards[..|shards| - 1], bound);
      Bits.Distribute(|shards|, 1, bound);
    }
  }

  /** When every shard is inside its slice the whole database is inside the configured limit. */
  lemma TotalWithinLimit(cfg: Config, db: Db)
    requires Sliced(db) && db.limit != 0
    requires forall i :: 0 <= i < |db.shards| ==>
               db.shards[i].table.buckets >= 1 && Usage(cfg, db.shards[i].table) <= db.shards[i].slice
    ensures TotalUsage(cfg, db.shards) <= db.limit
  {
    var n, share := |db.shards|, Share(db.limit, |db.shards|);
    assert db.shards[0].slice >= SlotBytes;
    hide Usage;
    assert share >= 1;
    TotalAtMost(cfg, db.shards, share);
  }

  /** A restore does not evict: with a limit of one byte it leaves two entries in the one shard. */
  lemma RestoreExceeds(cfg: Config, now: Time)
    ensures Ok(cfg, Fresh(1, 1))
    ensures var db := SetMaxMemory(cfg, Fresh(1, 1), 1);
            && |db.shards| == 1
            && !AllBounded(cfg, Restore(cfg, db, [Entry("a", "", None), Entry("b", "", None)], now))
  {
    FreshOk(cfg, 1, 1);
    OneFresh();
    hide Fresh, SetMaxMemory, Ok, Sliced, AllBounded, Restore;
    var db := SetMaxMemory(cfg, Fresh(1, 1), 1);
    LimitAllOk(cfg, Fresh(1, 1), 1);
    LimitSliced(cfg, Fresh(1, 1), 1);
    OneSlice(cfg, Fresh(1, 1));
    Parts(cfg, db);
    RestoreTwo(cfg, db, now);
  }

  lemma OneFresh()
    ensures |Fresh(1, 1).shards| == 1
  {
  }

  lemma OneSlice(cfg: Config, db: Db)
    requires Ok(cfg, db) && |db.shards| == 1 && Sliced(SetMaxMemory(cfg, db, 1))
    ensures |SetMaxMemory(cfg, db, 1).shards| == 1 && SetMaxMemory(cfg, db, 1).shards[0].slice == 1
  {
    hide LimitShard, Ok;
  }

  lemma RestoreTwo(cfg: Config, db: Db, now: Time)
    requires |db.shards| == 1 && db.shards[0].slice == 1 && db.shards[0].table.buckets >= 1
    ensures !AllBounded(cfg, Restore(cfg, db, [Entry("a", "", None), Entry("b", "", None)], now))
  {
    var entries := [Entry("a", "", None), Entry("b", "", None)];
    var one := RestoreEntry(cfg, ClearAll(db), entries[0]);
    assert entries[..1] == [entries[0]] && entries[..1][..0] == [];
    assert RestoreAll(cfg, ClearAll(db), entries[..1], now) == one;
    var r := RestoreEntry(cfg, one, entries[1]);
    assert Restore(cfg, db, entries, now) == r;
    var m := r.shards[0].table.entries;
    assert "a" in m && "b" in m;
    CardSubset({"a", "b"}, m.Keys);
    assert Usage(cfg, r.shards[0].table) >= r.shards[0].table.buckets * SlotBytes;
  }
}
