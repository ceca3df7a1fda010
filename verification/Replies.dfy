/**
 What the database answers, in terms of the entries its shards hold and nothing else. These
 statements hold under any memory limit; they use neither the routing nor the operations
 they are about.
 */
module Replies {
  import opened Base
  import opened TableSpec
  import opened DatabaseSpec
  import opened DatabaseRuns
  import opened Eviction

  ghost predicate HeldIn(s: Shard, k: Key, v: Bytes, d: Option<Time>) {
    k in s.table.entries && s.table.entries[k].value == v && s.table.entries[k].expiration == d
  }

  /** Some shard holds the key with this value and this deadline. */
  ghost predicate Held(db: Db, k: Key, v: Bytes, d: Option<Time>) {
    exists i :: 0 <= i < |db.shards| && HeldIn(db.shards[i], k, v, d)
  }

  /** The deadline, if any, is still to come. */
  predicate Lasts(d: Option<Time>, now: Time) { d == None || now < d.value }

  /** Some shard holds the key, and not past its deadline. */
  ghost predicate Live(db: Db, k: Key, now: Time) {
    exists v, d :: Held(db, k, v, d) && Lasts(d, now)
  }

  /** Both hold the same, for every key but one. */
  ghost predicate SameBut(db: Db, db': Db, k: Key) {
    forall j, v, d :: j != k ==> (Held(db', j, v, d) <==> Held(db, j, v, d))
  }

  // ---------------------------------------------------------------- one shard holds a key

  lemma HeldAt(cfg: Config, db: Db, k: Key, v: Bytes, d: Option<Time>)
    requires Ok(cfg, db)
    ensures Held(db, k, v, d) <==> HeldIn(At(cfg, db, k), k, v, d)
  {
    hide ShardIndex, ShardOk;
  }

  /** A key is held in one way at most. */
  lemma HeldOnce(cfg: Config, db: Db, k: Key, v: Bytes, d: Option<Time>, v': Bytes, d': Option<Time>)
    requires Ok(cfg, db) && Held(db, k, v, d) && Held(db, k, v', d')
    ensures v == v' && d == d'
  {
    hide ShardIndex, ShardOk;
    HeldAt(cfg, db, k, v, d);
    HeldAt(cfg, db, k, v', d');
  }

  lemma LiveWhere(cfg: Config, db: Db, k: Key, now: Time)
    requires Ok(cfg, db)
    ensures Live(db, k, now) <==> LiveIn(At(cfg, db, k).table.entries, k, now)
  {
    hide ShardIndex, Ok;
    Parts(cfg, db);
    var m := At(cfg, db, k).table.entries;
    if LiveIn(m, k, now) {
      HeldAt(cfg, db, k, m[k].value, m[k].expiration);
      assert Held(db, k, m[k].value, m[k].expiration) && Lasts(m[k].expiration, now);
    }
    if Live(db, k, now) {
      var v, d :| Held(db, k, v, d) && Lasts(d, now);
      HeldAt(cfg, db, k, v, d);
    }
  }

  // ---------------------------------------------------------------- GET and EXISTS

  /** GET answers a value exactly when a shard holds the key with it and its deadline is to come. */
  lemma GetExactly(cfg: Config, db: Db, k: Key, now: Time)
    requires Ok(cfg, db)
    ensures var (db', r) := Step(cfg, db, Call(GetOp(k), now));
            && (r == Nil || r.Value?)
            && (forall v :: r == Value(v) <==> exists d :: Held(db, k, v, d) && Lasts(d, now))
            && Ok(cfg, db') && forall j, v, d :: Held(db', j, v, d) <==> Held(db, j, v, d)
  {
    var (db', r) := Step(cfg, db, Call(GetOp(k), now));
    forall v
      ensures r == Value(v) <==> exists d :: Held(db, k, v, d) && Lasts(d, now)
    {
      GetValue(cfg, db, k, now, v);
    }
    StepOk(cfg, db, Call(GetOp(k), now));
    forall j, v, d
      ensures Held(db', j, v, d) <==> Held(db, j, v, d)
    {
      GetHolds(cfg, db, k, now, j, v, d);
    }
  }

  lemma GetValue(cfg: Config, db: Db, k: Key, now: Time, v: Bytes)
    requires Ok(cfg, db)
    ensures Step(cfg, db, Call(GetOp(k), now)).1 == Value(v) <==> exists d :: Held(db, k, v, d) && Lasts(d, now)
  {
    hide ShardIndex, Ok, GetShard;
    Parts(cfg, db);
    var m := At(cfg, db, k).table.entries;
    if LiveIn(m, k, now) && m[k].value == v {
      HeldAt(cfg, db, k, v, m[k].expiration);
      assert Held(db, k, v, m[k].expiration) && Lasts(m[k].expiration, now);
    }
    if d :| Held(db, k, v, d) && Lasts(d, now) {
      HeldAt(cfg, db, k, v, d);
    }
  }

  lemma GetHolds(cfg: Config, db: Db, k: Key, now: Time, j: Key, v: Bytes, d: Option<Time>)
    requires Ok(cfg, db)
    ensures Held(Step(cfg, db, Call(GetOp(k), now)).0, j, v, d) <==> Held(db, j, v, d)
  {
    hide ShardIndex, Ok, GetShard, ShardOk;
    Parts(cfg, db);
    GetOk(cfg, At(cfg, db, k), k, now);
    var db' := Step(cfg, db, Call(GetOp(k), now)).0;
    assert forall i :: 0 <= i < |db.shards| ==> db'.shards[i].table.entries == db.shards[i].table.entries;
  }

  /** EXISTS answers 1 in exactly that case, 0 otherwise, and changes nothing. */
  lemma ExistsExactly(cfg: Config, db: Db, k: Key, now: Time)
    requires Ok(cfg, db)
    ensures Step(cfg, db, Call(ExistsOp(k), now)) == (db, Number(if Live(db, k, now) then 1 else 0))
  {
    hide Live, LiveIn, ShardIndex, Ok;
    LiveWhere(cfg, db, k, now);
  }

  // ---------------------------------------------------------------- DEL and KEYS

  /** DEL answers 1 exactly when the key was live; the key is gone, and no other is touched. */
  lemma DelExactly(cfg: Config, db: Db, k: Key, now: Time)
    requires Ok(cfg, db)
    ensures var (db', r) := Step(cfg, db, Call(DelOp(k), now));
            && r == Number(if Live(db, k, now) then 1 else 0)
            && Ok(cfg, db') && (forall v, d :: !Held(db', k, v, d)) && SameBut(db, db', k)
  {
    StepOk(cfg, db, Call(DelOp(k), now));
    LiveWhere(cfg, db, k, now);
    var db' := Step(cfg, db, Call(DelOp(k), now)).0;
    forall j, v, d
      ensures Held(db', j, v, d) <==> j != k && Held(db, j, v, d)
    {
      DelHolds(cfg, db, k, now, j, v, d);
    }
    hide Ok, LiveIn, Live, Held, ShardIndex;
  }

  lemma DelHolds(cfg: Config, db: Db, k: Key, now: Time, j: Key, v: Bytes, d: Option<Time>)
    requires Ok(cfg, db)
    ensures Held(Step(cfg, db, Call(DelOp(k), now)).0, j, v, d) <==> j != k && Held(db, j, v, d)
  {
    StepOk(cfg, db, Call(DelOp(k), now));
    var db' := Step(cfg, db, Call(DelOp(k), now)).0;
    HeldAt(cfg, db, j, v, d);
    HeldAt(cfg, db', j, v, d);
    hide Ok, Held, ShardIndex, Drop;
    Parts(cfg, db);
  }

  /** KEYS answers exactly the live keys. */
  lemma KeysExactly(cfg: Config, db: Db, now: Time)
    requires Ok(cfg, db)
    ensures var (db', r) := Step(cfg, db, Call(KeysOp, now));
            db' == db && r.Keys? && forall k: Key :: k in r.keys <==> Live(db, k, now)
  {
    forall k: Key
      ensures k in LiveKeys(db, now) <==> Live(db, k, now)
    {
      LiveWhere(cfg, db, k, now);
      hide ShardIndex, ShardOk, Live;
    }
  }

  // ---------------------------------------------------------------- SET

  /**
   SET is refused exactly when there is a limit and the entry alone is over the whole of it;
   then nothing changes. Otherwise the key holds the value, with a deadline exactly that long
   after now if a lifetime was given, and every other key holds what it held or is evicted.
   */
  lemma SetExactly(cfg: Config, db: Db, k: Key, v: Bytes, ttl: Option<nat>, now: Time)
    requires Ok(cfg, db)
    ensures var (db', r) := Step(cfg, db, Call(SetOp(k, v, ttl), now));
            var large := db.limit != 0 && cfg.overhead + |k| + |v| > db.limit;
            var deadline := if ttl.Some? then Some(now + ttl.value) else None;
            && (large ==> r == TooLarge && db' == db)
            && (!large ==>
                  && r == OK && Ok(cfg, db') && Held(db', k, v, deadline)
                  && (forall j, u, d :: Held(db', j, u, d) && j != k ==> Held(db, j, u, d)))
  {
    var c := Call(SetOp(k, v, ttl), now);
    StepOk(cfg, db, c);
    if Fits(cfg, db, k, v) {
      SetHolds(cfg, db, k, v, Deadline(ttl, now));
      hide Ok, Held, ShardIndex, SetShard;
    }
  }

  lemma SetHolds(cfg: Config, db: Db, k: Key, v: Bytes, deadline: Option<Time>)
    requires Ok(cfg, db) && Fits(cfg, db, k, v) && Ok(cfg, Set(cfg, db, k, v, deadline).0)
    ensures var db' := Set(cfg, db, k, v, deadline).0;
            && Held(db', k, v, deadline)
            && forall j, u, d :: Held(db', j, u, d) && j != k ==> Held(db, j, u, d)
  {
    var db' := Set(cfg, db, k, v, deadline).0;
    Parts(cfg, db);
    SetStores(cfg, At(cfg, db, k), k, v, deadline);
    HeldAt(cfg, db', k, v, deadline);
    hide Ok, ShardIndex, SetShard, WellFormed, Bounded;
    forall j, u, d | Held(db', j, u, d) && j != k
      ensures Held(db, j, u, d)
    {
      var i :| 0 <= i < |db'.shards| && HeldIn(db'.shards[i], j, u, d);
      assert HeldIn(db.shards[i], j, u, d);
    }
  }

  /** The write itself says whether the key was held, live or not. */
  lemma OutcomeExactly(cfg: Config, db: Db, k: Key, v: Bytes, deadline: Option<Time>)
    requires Ok(cfg, db)
    ensures var outcome := Set(cfg, db, k, v, deadline).1;
            && (outcome == Rejected <==> db.limit != 0 && cfg.overhead + |k| + |v| > db.limit)
            && (outcome == Updated ==> exists u, d :: Held(db, k, u, d))
            && (outcome == Inserted ==> forall u, d :: !Held(db, k, u, d))
  {
    var m := At(cfg, db, k).table.entries;
    if k in m {
      HeldAt(cfg, db, k, m[k].value, m[k].expiration);
      assert Held(db, k, m[k].value, m[k].expiration);
    } else {
      forall u, d
        ensures !Held(db, k, u, d)
      {
        HeldAt(cfg, db, k, u, d);
      }
    }
    hide SetShard, ShardIndex, Ok, Held;
  }

  // ---------------------------------------------------------------- the calls themselves

  /** What GET returns, in terms of what is held. */
  ghost predicate Finds(db: Db, k: Key, now: Time, value: Option<Bytes>) {
    if value == None then !Live(db, k, now) else exists d :: Held(db, k, value.value, d) && Lasts(d, now)
  }

  lemma GetFinds(cfg: Config, db: Db, k: Key, now: Time)
    requires Ok(cfg, db)
    ensures |db.shards| >= 1 && Finds(db, k, now, Get(cfg, db, k, now).1)
  {
    hide Held, ShardIndex, Ok, GetShard, LiveIn;
    Parts(cfg, db);
    LiveWhere(cfg, db, k, now);
    var v := Get(cfg, db, k, now).1;
    if v.Some? { GetValue(cfg, db, k, now, v.value); }
  }

  /** What DEL reports and leaves. */
  ghost predicate Deletes(db: Db, db': Db, k: Key, now: Time, live: bool) {
    (live <==> Live(db, k, now)) && (forall v, d :: !Held(db', k, v, d)) && SameBut(db, db', k)
  }

  lemma DelDeletes(cfg: Config, db: Db, k: Key, now: Time)
    requires Ok(cfg, db)
    ensures |db.shards| >= 1 && var (db', live) := Del(cfg, db, k, now); Deletes(db, db', k, now, live)
  {
    hide Held, ShardIndex, Ok, DelShard, LiveIn, SameBut, Live;
    Parts(cfg, db);
    DelExactly(cfg, db, k, now);
  }

  /** What SET reports and stores. */
  ghost predicate Stores(cfg: Config, db: Db, db': Db, k: Key, v: Bytes, deadline: Option<Time>, outcome: SetOutcome) {
    && (outcome == Rejected <==> db.limit != 0 && cfg.overhead + |k| + |v| > db.limit)
    && (outcome == Rejected ==> db' == db)
    && (outcome == Updated ==> exists u, d :: Held(db, k, u, d))
    && (outcome == Inserted ==> forall u, d :: !Held(db, k, u, d))
    && (outcome != Rejected ==> Held(db', k, v, deadline))
    && (outcome != Rejected ==> forall j, u, d :: Held(db', j, u, d) && j != k ==> Held(db, j, u, d))
  }

  lemma SetStoresIt(cfg: Config, db: Db, k: Key, v: Bytes, deadline: Option<Time>)
    requires Ok(cfg, db)
    ensures var (db', outcome) := Set(cfg, db, k, v, deadline); Stores(cfg, db, db', k, v, deadline, outcome)
  {
    hide Held, ShardIndex, Ok, SetShard;
    OutcomeExactly(cfg, db, k, v, deadline);
    SetAllOk(cfg, db, k, v, deadline);
    if Fits(cfg, db, k, v) { SetHolds(cfg, db, k, v, deadline); }
  }
}
