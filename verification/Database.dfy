/** The database engine: hash-routed shards, each with its own table. */
module Database {
  import opened Base
  import TableSpec
  import D = DatabaseSpec
  import HT = HashTable
  import Bits
  import Replies
  import Budgets
  import Ev = Eviction
  import Runs = DatabaseRuns
  import Scan

  type Config = TableSpec.Config
  type Time = TableSpec.Time
  type Entry = TableSpec.Entry

  class Shard {
    const table: HT.HashTable
    var sweepCursor: nat
    var evicted: nat
    var maxMemoryBytes: nat

    ghost function Repr(): set<object>
      reads this, table
    {
      {this} + table.Repr()
    }

    ghost predicate Valid()
      reads this, table, table.buckets, table.nodes
    {
      table.Valid() && D.ShardOk(View())
    }

    ghost function View(): D.Shard
      reads this, table
    {
      D.Shard(table.view, sweepCursor, evicted, maxMemoryBytes)
    }

    constructor (cfg: Config, buckets: nat)
      ensures Valid() && fresh(Repr()) && table.cfg == cfg
      ensures View() == D.NewShard(buckets)
    {
      table := new HT.HashTable(cfg, buckets);
      sweepCursor, evicted, maxMemoryBytes := 0, 0, 0;
      new;
      table.ValidFacts();
    }

    method MemoryUsage() returns (bytes: nat)
      requires table.Valid()
      ensures bytes == TableSpec.Usage(table.cfg, table.view)
    {
      table.ValidFacts();
      bytes := table.entryBytes + table.buckets.Length * TableSpec.SlotBytes;
    }

    method EvictToFit()
      requires table.Valid()
      modifies Repr()
      ensures table.Valid() && Repr() == old(Repr())
      ensures TableSpec.WellFormed(old(table.view)) && View() == D.EvictToFit(table.cfg, old(View()))
    {
      hide TableSpec.WellFormed, TableSpec.Usage, TableSpec.EvictOldest, HT.HashTable.Valid;
      table.ValidFacts();
      if maxMemoryBytes == 0 {
        return;
      }
      ghost var s0 := View();
      var usage := MemoryUsage();
      while usage > maxMemoryBytes && table.size > 1
        invariant table.Valid() && Repr() == old(Repr()) && maxMemoryBytes == old(maxMemoryBytes)
        invariant usage == TableSpec.Usage(table.cfg, table.view)
        invariant TableSpec.WellFormed(table.view)
        invariant D.EvictToFit(table.cfg, View()) == D.EvictToFit(table.cfg, s0)
        decreases |table.view.order|
      {
        table.ValidFacts();
        var done := EvictOne();
        if !done {
          break;
        }
        usage := MemoryUsage();
      }
      table.ValidFacts();
    }

    /** Evicts the least recently used entry, if there is one. */
    method EvictOne() returns (done: bool)
      requires table.Valid()
      modifies Repr()
      ensures table.Valid() && TableSpec.WellFormed(table.view) && Repr() == old(Repr())
      ensures done == (|old(table.view).entries| > 0)
      ensures done ==> |table.view.order| < |old(table.view).order|
      ensures View() == if done then EvictedOne(old(View())) else old(View())
    {
      hide TableSpec.EvictOldest, HT.HashTable.Valid, TableSpec.WellFormed;
      table.ValidFacts();
      EvictFacts(table.view);
      var victim := table.EvictOldest();
      done := victim.Some?;
      if done {
        evicted := evicted + 1;
      }
      table.ValidFacts();
    }

    /** The locked part of a write. */
    method Set(key: Key, value: Bytes, deadline: Option<Time>) returns (inserted: bool)
      requires Valid()
      modifies Repr()
      ensures Valid() && fresh(Repr() - old(Repr()))
      ensures TableSpec.WellFormed(old(table.view))
      ensures View() == D.SetShard(table.cfg, old(View()), key, value, deadline)
      ensures inserted == (key !in old(table.view.entries))
    {
      hide TableSpec.WellFormed, HT.HashTable.Valid, D.EvictToFit, TableSpec.Put, TableSpec.Expire;
      table.ValidFacts();
      ghost var s := View();
      PutHasKey(s.table, key, value);
      inserted := table.Put(key, value);
      if deadline.Some? {
        table.SetExpiration(key, deadline);
      } else {
        PutPermanent(s.table, key, value);
      }
      EvictToFit();
      Runs.SetOk(table.cfg, s, key, value, deadline);
    }

    method Get(key: Key, now: Time) returns (value: Option<Bytes>)
      requires Valid()
      modifies Repr()
      ensures Valid() && Repr() == old(Repr())
      ensures View() == D.GetShard(old(View()), key, now)
      ensures value == if D.LiveIn(old(table.view.entries), key, now) then Some(old(table.view.entries)[key].value)
                       else None
    {
      hide HT.HashTable.Valid, D.ShardOk, TableSpec.Touch;
      ghost var s := View();
      Runs.GetOk(table.cfg, s, key, now);
      var entry := table.Find(key);
      if entry == None || TableSpec.ExpiredAt(entry.value, now) {
        return None;
      }
      value := Some(entry.value.value);
      if maxMemoryBytes != 0 {
        var found := table.Touch(key);
      }
    }

    method Del(key: Key, now: Time) returns (wasLive: bool)
      requires Valid()
      modifies Repr()
      ensures Valid() && Repr() == old(Repr())
      ensures View() == D.DelShard(old(View()), key)
      ensures wasLive == D.LiveIn(old(table.view.entries), key, now)
    {
      hide HT.HashTable.Valid, D.ShardOk, TableSpec.Remove;
      table.ValidFacts();
      ghost var s := View();
      Runs.DelOk(s, key);
      var entry := table.Find(key);
      if entry == None {
        TableSpec.RemoveAbsent(s.table, key);
        return false;
      }
      wasLive := !TableSpec.ExpiredAt(entry.value, now);
      var removed := table.Remove(key);
    }

    method Exists(key: Key, now: Time) returns (live: bool)
      requires Valid()
      ensures live == D.LiveIn(table.view.entries, key, now)
    {
      var entry := table.Find(key);
      live := entry != None && !TableSpec.ExpiredAt(entry.value, now);
    }

    /** One pass of the sweep over this shard. */
    method Sweep(perShard: nat, now: Time) returns (removed: nat)
      requires Valid()
      modifies Repr()
      ensures Valid() && Repr() == old(Repr())
      ensures old(table.view).buckets >= 1 && View() == D.SweepShard(table.cfg, old(View()), perShard, now)
      ensures removed == |old(table.view).entries| - |table.view.entries|
    {
      hide HT.HashTable.Valid, TableSpec.RemoveIf, TableSpec.WellFormed, TableSpec.Swept;
      table.ValidFacts();
      ghost var s := View();
      Runs.SweepOk(table.cfg, s, perShard, now);
      var buckets := table.buckets.Length;
      var first := if sweepCursor >= buckets then 0 else sweepCursor;
      var scanned := Min(perShard, buckets);
      SweptSize(table.cfg, table.view, first, scanned, now);
      removed := table.RemoveIf(first, scanned, TableSpec.DeadAt(now));
      sweepCursor := (first + scanned) % buckets;
    }

    method Limit(slice: nat)
      requires Valid()
      modifies Repr()
      ensures Valid() && Repr() == old(Repr())
      ensures TableSpec.WellFormed(old(table.view)) && View() == D.LimitShard(table.cfg, old(View()), slice)
    {
      hide HT.HashTable.Valid, TableSpec.WellFormed, D.EvictToFit;
      table.ValidFacts();
      ghost var s := View();
      maxMemoryBytes := slice;
      EvictToFit();
      Runs.LimitOk(table.cfg, s, slice);
    }

    method Clear()
      requires Valid()
      modifies Repr()
      ensures Valid() && Repr() == old(Repr())
      ensures View() == D.ClearShard(old(View()))
    {
      hide HT.HashTable.Valid;
      table.ValidFacts();
      table.Clear();
      sweepCursor := 0;
    }

    /** Puts back one entry of a snapshot. */
    method Restore(e: Entry)
      requires Valid()
      modifies Repr()
      ensures Valid() && fresh(Repr() - old(Repr()))
      ensures View() == D.RestoreShard(old(View()), e)
    {
      hide HT.HashTable.Valid, TableSpec.WellFormed, TableSpec.Put, TableSpec.Expire;
      table.ValidFacts();
      ghost var s := View();
      PutHasKey(s.table, e.key, e.value);
      Runs.RestoreShardOk(s, e);
      var inserted := table.Put(e.key, e.value);
      if e.expiration.Some? {
        table.SetExpiration(e.key, e.expiration);
      } else {
        PutPermanent(s.table, e.key, e.value);
      }
    }

    function Count(): (n: nat)
      requires Valid()
      reads this, table, table.buckets, table.nodes
      ensures n == |View().table.entries|
    {
      table.ValidFacts();
      table.size
    }

    method LiveEntries(now: Time) returns (result: seq<Entry>)
      requires Valid()
      ensures TableSpec.Lists(result, table.view.entries, TableSpec.LiveAt(now))
    {
      result := table.EntriesWhere(TableSpec.LiveAt(now));
    }
  }

  ghost function EvictedOne(s: D.Shard): D.Shard {
    s.(table := TableSpec.EvictOldest(s.table), evicted := s.evicted + 1)
  }

  lemma EvictFacts(t: TableSpec.Table)
    requires TableSpec.WellFormed(t)
    ensures |t.entries| > 0 <==> t.order != []
    ensures t.order != [] ==> |TableSpec.EvictOldest(t).order| < |t.order|
    ensures t.order == [] ==> TableSpec.EvictOldest(t) == t
  {
    hide TableSpec.Sized, TableSpec.Remove;
    Ev.SizeIsLength(t);
    if |t.entries| > 0 { D.EvictShrinks(t); }
  }

  lemma PutHasKey(t: TableSpec.Table, k: Key, v: Bytes)
    ensures k in TableSpec.Put(t, k, v).entries
  {
  }

  lemma PutPermanent(t: TableSpec.Table, k: Key, v: Bytes)
    ensures k in TableSpec.Put(t, k, v).entries
    ensures TableSpec.Expire(TableSpec.Put(t, k, v), k, None) == TableSpec.Put(t, k, v)
  {
    var t' := TableSpec.Put(t, k, v);
    assert t'.entries[k := t'.entries[k].(expiration := None)] == t'.entries;
  }

  lemma SweptSize(cfg: Config, t: TableSpec.Table, first: nat, count: nat, now: Time)
    requires t.buckets >= 1
    ensures var pred := TableSpec.DeadAt(now);
            |TableSpec.Swept(cfg, t, first, Min(count, t.buckets), pred)|
            == |t.entries| - |TableSpec.RemoveIf(cfg, t, first, count, pred).entries|
  {
    var pred := TableSpec.DeadAt(now);
    var ks := TableSpec.Swept(cfg, t, first, Min(count, t.buckets), pred);
    assert (t.entries - ks).Keys == t.entries.Keys - ks;
    assert ks <= t.entries.Keys;
  }

  // ---------------------------------------------------------------- the database

  ghost function All(repr: seq<set<object>>): set<object> {
    set i, o | 0 <= i < |repr| && o in repr[i] :: o
  }

  ghost predicate Disjoint(repr: seq<set<object>>) {
    forall i, j :: 0 <= i < j < |repr| ==> repr[i] !! repr[j]
  }

  /** The shard lives in the objects r and shows v. */
  ghost predicate ShardAt(cfg: Config, s: Shard, r: set<object>, v: D.Shard)
    reads r
  {
    && s in r && s.table in r && s.Repr() == r
    && s.Valid() && s.table.cfg == cfg && s.View() == v
  }

  /** Every shard lives in its own objects and shows its part of the views. */
  ghost predicate ShardsAt(cfg: Config, shards: seq<Shard>, repr: seq<set<object>>, views: seq<D.Shard>)
    reads All(repr)
  {
    && |shards| == |repr| == |views|
    && Disjoint(repr)
    && (forall i :: 0 <= i < |shards| ==> repr[i] <= All(repr) && ShardAt(cfg, shards[i], repr[i], views[i]))
  }

  lemma Pick(cfg: Config, shards: seq<Shard>, repr: seq<set<object>>, views: seq<D.Shard>, i: nat)
    requires ShardsAt(cfg, shards, repr, views) && i < |shards|
    ensures |shards| == |repr| == |views| && repr[i] <= All(repr) && Disjoint(repr)
    ensures ShardAt(cfg, shards[i], repr[i], views[i])
    ensures forall j :: 0 <= j < |repr| && j != i ==> repr[i] !! repr[j] && ShardAt(cfg, shards[j], repr[j], views[j])
  {
    hide ShardAt;
  }

  lemma SameLengths(cfg: Config, shards: seq<Shard>, repr: seq<set<object>>, views: seq<D.Shard>)
    requires ShardsAt(cfg, shards, repr, views)
    ensures |shards| == |repr| == |views|
  {
  }

  /** One shard has changed, inside its own objects and fresh ones. */
  lemma Replace(cfg: Config, shards: seq<Shard>, repr: seq<set<object>>, views: seq<D.Shard>,
                i: nat, r: set<object>, v: D.Shard)
    requires |shards| == |repr| == |views| && i < |shards| && Disjoint(repr)
    requires ShardAt(cfg, shards[i], r, v)
    requires forall j :: 0 <= j < |repr| && j != i ==> r !! repr[j] && ShardAt(cfg, shards[j], repr[j], views[j])
    ensures ShardsAt(cfg, shards, repr[i := r], views[i := v])
  {
    hide ShardAt;
    var repr' := repr[i := r];
    forall j | 0 <= j < |repr'|
      ensures repr'[j] <= All(repr')
    {
    }
  }

  /** Growing one shard by fresh objects grows the whole by fresh objects. */
  lemma AllGrows(repr: seq<set<object>>, i: nat, r: set<object>)
    requires i < |repr|
    ensures All(repr[i := r]) <= All(repr) + r
    ensures r <= All(repr[i := r])
  {
    var repr' := repr[i := r];
    forall o | o in All(repr')
      ensures o in All(repr) + r
    {
      var j :| 0 <= j < |repr'| && o in repr'[j];
      if j != i { assert o in repr[j]; }
    }
    forall o | o in r
      ensures o in All(repr')
    {
      assert o in repr'[i];
    }
  }

  lemma AllParts(repr: seq<set<object>>)
    ensures forall i :: 0 <= i < |repr| ==> repr[i] <= All(repr)
    ensures forall o :: o in All(repr) ==> exists i :: 0 <= i < |repr| && o in repr[i]
  {
    forall i, o | 0 <= i < |repr| && o in repr[i]
      ensures o in All(repr)
    {
    }
  }

  lemma OpenShard(cfg: Config, s: Shard, r: set<object>, v: D.Shard)
    requires ShardAt(cfg, s, r, v)
    ensures s.Repr() == r && s.Valid() && s.table.cfg == cfg && s.View() == v
    ensures D.ShardOk(v) && TableSpec.WellFormed(v.table)
  {
  }

  lemma CloseShard(cfg: Config, s: Shard, v: D.Shard)
    requires s.Valid() && s.table.cfg == cfg && s.View() == v
    ensures ShardAt(cfg, s, s.Repr(), v)
  {
  }

  method MakeShards(cfg: Config, n: nat, buckets: nat)
    returns (list: seq<Shard>, ghost reprs: seq<set<object>>, ghost views: seq<D.Shard>)
    ensures ShardsAt(cfg, list, reprs, views) && fresh(All(reprs))
    ensures views == seq(n, _ => D.NewShard(buckets))
  {
    hide ShardAt, D.NewShard, Shard.Valid;
    list, reprs, views := [], [], [];
    while |list| < n
      invariant |list| == |reprs| == |views| <= n && Disjoint(reprs)
      invariant forall i :: 0 <= i < |list| ==> fresh(reprs[i]) && ShardAt(cfg, list[i], reprs[i], views[i])
      invariant forall i :: 0 <= i < |list| ==> views[i] == D.NewShard(buckets)
    {
      var shard := new Shard(cfg, buckets);
      CloseShard(cfg, shard, shard.View());
      list, reprs, views := list + [shard], reprs + [shard.Repr()], views + [shard.View()];
    }
    AllParts(reprs);
  }

  class Database {
    const cfg: Config
    const shards: seq<Shard>
    var maxMemoryBytes: nat

    /** The objects of each shard, and the abstract database. */
    ghost var repr: seq<set<object>>
    ghost var view: D.Db

    ghost predicate Valid()
      reads this, All(repr)
    {
      && this !in All(repr)
      && |shards| == |repr| == |view.shards|
      && ShardsAt(cfg, shards, repr, view.shards)
      && view.limit == maxMemoryBytes
      && D.Ok(cfg, view)
    }

    constructor (cfg: Config, initialBucketCount: nat, shardCount: nat)
      ensures Valid() && fresh(All(repr)) && this.cfg == cfg
      ensures view == D.Fresh(initialBucketCount, shardCount)
    {
      hide ShardsAt, D.Ok, Bits.RoundUp, D.NewShard;
      var n := Bits.DoublingRoundUp(Max(shardCount, 1));
      var list, reprs, views := MakeShards(cfg, n, Max(Share(initialBucketCount, n), 1));
      this.cfg, shards, maxMemoryBytes := cfg, list, 0;
      repr, view := reprs, D.Db(views, 0);
      new;
      SameLengths(cfg, shards, repr, view.shards);
      Runs.FreshOk(cfg, initialBucketCount, shardCount);
    }

    lemma NonEmpty()
      requires Valid()
      ensures |view.shards| >= 1 && |D.ClearAll(view).shards| == |view.shards|
    {
    }

    method Exists(key: Key, now: Time) returns (live: bool)
      requires Valid()
      ensures live == D.Exists(cfg, view, key, now)
      ensures live <==> Replies.Live(view, key, now)
    {
      Replies.LiveWhere(cfg, view, key, now);
      hide ShardAt, D.ShardIndex, Replies.Live;
      var i := D.ShardIndex(cfg, key, |shards|);
      OpenShard(cfg, shards[i], repr[i], view.shards[i]);
      live := shards[i].Exists(key, now);
    }

    method Get(key: Key, now: Time) returns (value: Option<Bytes>)
      requires Valid()
      modifies All(repr), this`view, this`repr
      ensures Valid() && repr == old(repr)
      ensures (view, value) == D.Get(cfg, old(view), key, now)
      ensures Replies.Finds(old(view), key, now, value)
    {
      hide ShardsAt, ShardAt, D.ShardIndex, D.Ok, D.GetShard, D.LiveIn, D.ShardOk, Disjoint, All, Shard.Valid,
           Replies.Finds;
      Runs.Parts(cfg, view);
      Runs.GetAllOk(cfg, view, key, now);
      Replies.GetFinds(cfg, view, key, now);
      var i := D.ShardIndex(cfg, key, |shards|);
      Pick(cfg, shards, repr, view.shards, i);
      OpenShard(cfg, shards[i], repr[i], view.shards[i]);
      value := shards[i].Get(key, now);
      CloseShard(cfg, shards[i], shards[i].View());
      Replace(cfg, shards, repr, view.shards, i, repr[i], shards[i].View());
      assert repr[i := repr[i]] == repr;
      view := view.(shards := view.shards[i := shards[i].View()]);
    }

    method Del(key: Key, now: Time) returns (wasLive: bool)
      requires Valid()
      modifies All(repr), this`view
      ensures Valid() && repr == old(repr)
      ensures (view, wasLive) == D.Del(cfg, old(view), key, now)
      ensures Replies.Deletes(old(view), view, key, now, wasLive)
    {
      hide ShardsAt, ShardAt, D.ShardIndex, D.Ok, D.DelShard, D.LiveIn, D.ShardOk, Disjoint, All, Shard.Valid,
           Replies.Deletes;
      Runs.Parts(cfg, view);
      Runs.DelAllOk(cfg, view, key, now);
      Replies.DelDeletes(cfg, view, key, now);
      var i := D.ShardIndex(cfg, key, |shards|);
      Pick(cfg, shards, repr, view.shards, i);
      OpenShard(cfg, shards[i], repr[i], view.shards[i]);
      wasLive := shards[i].Del(key, now);
      CloseShard(cfg, shards[i], shards[i].View());
      Replace(cfg, shards, repr, view.shards, i, repr[i], shards[i].View());
      assert repr[i := repr[i]] == repr;
      view := view.(shards := view.shards[i := shards[i].View()]);
    }

    /** SET, with the deadline of the EX form when there is one. */
    method Set(key: Key, value: Bytes, deadline: Option<Time>) returns (outcome: D.SetOutcome)
      requires Valid()
      modifies All(repr), this`view, this`repr
      ensures Valid() && fresh(All(repr) - old(All(repr)))
      ensures D.Ok(cfg, old(view)) && (view, outcome) == D.Set(cfg, old(view), key, value, deadline)
      ensures Replies.Stores(cfg, old(view), view, key, value, deadline, outcome)
    {
      hide Replies.Stores, ShardsAt, ShardAt, D.ShardIndex, D.Ok, D.SetShard, D.ShardOk, Disjoint, All, Shard.Valid;
      Runs.Parts(cfg, view);
      Runs.SetAllOk(cfg, view, key, value, deadline);
      Replies.SetStoresIt(cfg, view, key, value, deadline);
      if maxMemoryBytes != 0 && TableSpec.Footprint(cfg, key, value) > maxMemoryBytes {
        return D.Rejected;
      }
      var i := D.ShardIndex(cfg, key, |shards|);
      Pick(cfg, shards, repr, view.shards, i);
      OpenShard(cfg, shards[i], repr[i], view.shards[i]);
      var inserted := shards[i].Set(key, value, deadline);
      Adopt(i);
      outcome := if inserted then D.Inserted else D.Updated;
    }

    /** Takes over the new state of one shard, which may have grown by fresh objects. */
    ghost method Adopt(i: nat)
      requires i < |shards| == |repr| == |view.shards| && Disjoint(repr)
      requires shards[i].Valid() && shards[i].table.cfg == cfg
      requires forall j :: 0 <= j < |repr| && j != i ==>
                 shards[i].Repr() !! repr[j] && ShardAt(cfg, shards[j], repr[j], view.shards[j])
      requires this !in All(repr) && this !in shards[i].Repr()
      modifies this`view, this`repr
      ensures this !in All(repr) && ShardsAt(cfg, shards, repr, view.shards)
      ensures repr == old(repr)[i := shards[i].Repr()]
      ensures All(repr) <= old(All(repr)) + shards[i].Repr()
      ensures view == old(view).(shards := old(view).shards[i := shards[i].View()])
    {
      hide ShardsAt, ShardAt, Disjoint, All, Shard.Valid;
      CloseShard(cfg, shards[i], shards[i].View());
      Replace(cfg, shards, repr, view.shards, i, shards[i].Repr(), shards[i].View());
      AllGrows(repr, i, shards[i].Repr());
      view := view.(shards := view.shards[i := shards[i].View()]);
      repr := repr[i := shards[i].Repr()];
    }

    method SweepAt(i: nat, perShard: nat, now: Time, ghost cur: seq<D.Shard>) returns (removed: nat)
      requires this !in All(repr) && ShardsAt(cfg, shards, repr, cur) && i < |shards| == |cur|
      modifies All(repr)
      ensures cur[i].table.buckets >= 1
      ensures ShardsAt(cfg, shards, repr, cur[i := D.SweepShard(cfg, cur[i], perShard, now)])
      ensures removed == |cur[i].table.entries| - |D.SweepShard(cfg, cur[i], perShard, now).table.entries|
    {
      hide ShardsAt, ShardAt, D.ShardOk, D.SweepShard, Disjoint, All, Shard.Valid;
      Pick(cfg, shards, repr, cur, i);
      OpenShard(cfg, shards[i], repr[i], cur[i]);
      removed := shards[i].Sweep(perShard, now);
      CloseShard(cfg, shards[i], shards[i].View());
      Replace(cfg, shards, repr, cur, i, repr[i], shards[i].View());
      assert repr[i := repr[i]] == repr;
    }

    method LimitAt(i: nat, slice: nat, ghost cur: seq<D.Shard>)
      requires this !in All(repr) && ShardsAt(cfg, shards, repr, cur) && i < |shards| == |cur|
      modifies All(repr)
      ensures TableSpec.WellFormed(cur[i].table)
      ensures ShardsAt(cfg, shards, repr, cur[i := D.LimitShard(cfg, cur[i], slice)])
    {
      hide ShardsAt, ShardAt, D.ShardOk, D.LimitShard, Disjoint, All, TableSpec.WellFormed, Shard.Valid;
      Pick(cfg, shards, repr, cur, i);
      OpenShard(cfg, shards[i], repr[i], cur[i]);
      shards[i].Limit(slice);
      CloseShard(cfg, shards[i], shards[i].View());
      Replace(cfg, shards, repr, cur, i, repr[i], shards[i].View());
      assert repr[i := repr[i]] == repr;
    }

    method ClearAt(i: nat, ghost cur: seq<D.Shard>)
      requires this !in All(repr) && ShardsAt(cfg, shards, repr, cur) && i < |shards| == |cur|
      modifies All(repr)
      ensures ShardsAt(cfg, shards, repr, cur[i := D.ClearShard(cur[i])])
    {
      hide ShardsAt, ShardAt, D.ShardOk, D.ClearShard, Disjoint, All, Shard.Valid;
      Pick(cfg, shards, repr, cur, i);
      OpenShard(cfg, shards[i], repr[i], cur[i]);
      shards[i].Clear();
      CloseShard(cfg, shards[i], shards[i].View());
      Replace(cfg, shards, repr, cur, i, repr[i], shards[i].View());
      assert repr[i := repr[i]] == repr;
    }

    method RemoveExpired(maxBuckets: nat, now: Time) returns (removed: nat)
      requires Valid()
      modifies All(repr), this`view
      ensures Valid() && repr == old(repr)
      ensures D.Ok(cfg, old(view)) && view == D.RemoveExpired(cfg, old(view), maxBuckets, now)
      ensures removed == Stored(old(view).shards) - Stored(view.shards)
    {
      hide ShardsAt, D.ShardOk, D.SweepShard, All, D.Ok, Stored;
      removed := 0;
      if maxBuckets == 0 {
        return;
      }
      Runs.SweepAllOk(cfg, view, maxBuckets, now);
      Runs.Parts(cfg, view);
      ghost var was, cur := view.shards, view.shards;
      var perShard := D.SweepBudget(maxBuckets, |shards|);
      var i := 0;
      while i < |shards|
        invariant 0 <= i <= |shards| == |cur| && view == old(view)
        invariant this !in All(repr) && ShardsAt(cfg, shards, repr, cur)
        invariant forall x :: 0 <= x < i ==> cur[x] == D.SweepShard(cfg, was[x], perShard, now)
        invariant forall x :: i <= x < |cur| ==> cur[x] == was[x]
        invariant removed == Stored(was) - Stored(cur)
      {
        var n := SweepAt(i, perShard, now, cur);
        StoredUpdate(cur, i, D.SweepShard(cfg, cur[i], perShard, now));
        removed := removed + n;
        cur := cur[i := D.SweepShard(cfg, cur[i], perShard, now)];
        i := i + 1;
      }
      view := view.(shards := cur);
      assert view.shards == D.RemoveExpired(cfg, old(view), maxBuckets, now).shards;
    }

    method SetMaxMemory(bytes: nat)
      requires Valid()
      modifies All(repr), this`view, this`maxMemoryBytes
      ensures Valid() && repr == old(repr)
      ensures D.Ok(cfg, old(view)) && view == D.SetMaxMemory(cfg, old(view), bytes)
      ensures Budgets.Limited(cfg, old(view), view, bytes)
    {
      hide Budgets.Limited, ShardsAt, D.ShardOk, D.LimitShard, All, D.Ok;
      Runs.LimitAllOk(cfg, view, bytes);
      Budgets.LimitLimits(cfg, view, bytes);
      Runs.Parts(cfg, view);
      ghost var was, cur := view.shards, view.shards;
      var perShard := D.Slice(bytes, |shards|);
      var i := 0;
      while i < |shards|
        invariant 0 <= i <= |shards| == |cur| && view == old(view)
        invariant this !in All(repr) && ShardsAt(cfg, shards, repr, cur)
        invariant forall x :: 0 <= x < i ==> cur[x] == D.LimitShard(cfg, was[x], perShard)
        invariant forall x :: i <= x < |cur| ==> cur[x] == was[x]
      {
        LimitAt(i, perShard, cur);
        cur := cur[i := D.LimitShard(cfg, cur[i], perShard)];
        i := i + 1;
      }
      maxMemoryBytes := bytes;
      view := D.Db(cur, bytes);
      assert view.shards == D.SetMaxMemory(cfg, old(view), bytes).shards;
    }

    method Clear()
      requires Valid()
      modifies All(repr), this`view
      ensures Valid() && repr == old(repr)
      ensures view == D.ClearAll(old(view))
    {
      hide ShardsAt, D.ShardOk, D.ClearShard, All, D.Ok;
      Runs.ClearOk(cfg, view);
      ghost var was, cur := view.shards, view.shards;
      var i := 0;
      while i < |shards|
        invariant 0 <= i <= |shards| == |cur| && view == old(view)
        invariant this !in All(repr) && ShardsAt(cfg, shards, repr, cur)
        invariant forall x :: 0 <= x < i ==> cur[x] == D.ClearShard(was[x])
        invariant forall x :: i <= x < |cur| ==> cur[x] == was[x]
      {
        ClearAt(i, cur);
        cur := cur[i := D.ClearShard(cur[i])];
        i := i + 1;
      }
      view := view.(shards := cur);
      assert view.shards == D.ClearAll(old(view)).shards;
    }

    /** Live entries, gathered shard by shard. */
    method Snapshot(now: Time) returns (result: seq<Entry>)
      requires Valid()
      ensures |view.shards| >= 1 && LiveListing(cfg, view, now, result)
    {
      hide ShardsAt, ShardAt, D.Ok, TableSpec.Lists, Holds, Shard.Valid;
      ghost var found: seq<seq<Entry>> := [];
      result := [];
      var i := 0;
      while i < |shards|
        invariant ShardsAt(cfg, shards, repr, view.shards)
        invariant 0 <= i <= |shards| && |found| == i && result == Scan.Concat(found)
        invariant forall x :: 0 <= x < i ==>
                    TableSpec.Lists(found[x], view.shards[x].table.entries, TableSpec.LiveAt(now))
      {
        Pick(cfg, shards, repr, view.shards, i);
        OpenShard(cfg, shards[i], repr[i], view.shards[i]);
        var fromShard := shards[i].LiveEntries(now);
        assert (found + [fromShard])[..i] == found;
        result, found := result + fromShard, found + [fromShard];
        i := i + 1;
      }
      QuietScan(cfg, view, now, found);
    }

    method Keys(now: Time) returns (keys: seq<Key>)
      requires Valid()
      ensures Distinct(keys) && Elements(keys) == Runs.LiveKeys(view, now)
    {
      hide ShardsAt, D.Ok, All, Runs.LiveKeys, LiveListing;
      var entries := Snapshot(now);
      keys := [];
      var i := 0;
      while i < |entries|
        invariant 0 <= i <= |entries|  && |keys| == i
        invariant forall x :: 0 <= x < i ==> keys[x] == entries[x].key
      {
        keys := keys + [entries[i].key];
        i := i + 1;
      }
      KeysExact(cfg, view, now, entries, keys);
    }

    method Size() returns (total: nat)
      requires Valid()
      ensures total == Stored(view.shards)
    {
      hide ShardsAt, ShardAt, D.Ok, All, Shard.Valid, D.ShardOk;
      total := 0;
      var i := 0;
      while i < |shards|
        invariant ShardsAt(cfg, shards, repr, view.shards)
        invariant 0 <= i <= |shards| && total == Stored(view.shards[..i])
      {
        Pick(cfg, shards, repr, view.shards, i);
        OpenShard(cfg, shards[i], repr[i], view.shards[i]);
        assert view.shards[..i + 1][..i] == view.shards[..i];
        total := total + shards[i].Count();
        i := i + 1;
      }
      assert view.shards[..i] == view.shards;
    }

    method RestoreOne(e: Entry)
      requires Valid()
      modifies All(repr), this`view, this`repr
      ensures Valid() && fresh(All(repr) - old(All(repr)))
      ensures |old(view).shards| >= 1 && view == D.RestoreEntry(cfg, old(view), e)
    {
      hide ShardsAt, ShardAt, D.ShardIndex, D.Ok, D.ShardOk, Disjoint, All, D.RestoreShard, Shard.Valid;
      Runs.Parts(cfg, view);
      Runs.RestoreEntryOk(cfg, view, e);
      var i := D.ShardIndex(cfg, e.key, |shards|);
      Pick(cfg, shards, repr, view.shards, i);
      OpenShard(cfg, shards[i], repr[i], view.shards[i]);
      shards[i].Restore(e);
      Adopt(i);
    }

    /** Replaces the keyspace by the unexpired entries; nothing is evicted. */
    method Restore(entries: seq<Entry>, now: Time) returns (stored: nat)
      requires Valid()
      modifies All(repr), this`view, this`repr
      ensures Valid() && fresh(All(repr) - old(All(repr)))
      ensures |old(view).shards| >= 1 && view == D.Restore(cfg, old(view), entries, now)
      ensures stored == Unexpired(entries, now)
    {
      hide Valid, D.RestoreEntry, D.ClearAll;
      ghost var start := D.ClearAll(view);
      NonEmpty();
      Clear();
      stored := 0;
      var i := 0;
      assert entries[..0] == [];
      while i < |entries|
        invariant 0 <= i <= |entries|
        invariant Valid() && fresh(All(repr) - old(All(repr)))
        invariant view == D.RestoreAll(cfg, start, entries[..i], now)
        invariant stored == Unexpired(entries[..i], now)
      {
        assert entries[..i + 1][..i] == entries[..i];
        if !TableSpec.ExpiredAt(entries[i], now) {
          RestoreOne(entries[i]);
          stored := stored + 1;
        }
        i := i + 1;
      }
      assert entries[..i] == entries;
    }
  }

  lemma {:induction false} NoGap(cfg: Config, db: D.Db, gaps: seq<seq<Runs.Call>>, i: nat)
    requires D.Ok(cfg, db) && i < |gaps| && forall j :: 0 <= j < |gaps| ==> gaps[j] == []
    ensures Scan.Visited(cfg, db, gaps, i) == db
  {
    hide D.Ok;
    if i > 0 { NoGap(cfg, db, gaps, i - 1); }
  }

  /** The entry is stored and unexpired. */
  ghost predicate Holds(cfg: Config, db: D.Db, e: Entry, now: Time)
    requires |db.shards| >= 1
  {
    var m := D.At(cfg, db, e.key).table.entries;
    D.LiveIn(m, e.key, now) && m[e.key] == e
  }

  /** The entries are exactly the live ones, once each. */
  ghost predicate LiveListing(cfg: Config, db: D.Db, now: Time, es: seq<Entry>)
    requires |db.shards| >= 1
  {
    TableSpec.KeysDistinct(es) && forall e: Entry :: e in es <==> Holds(cfg, db, e, now)
  }

  /** A scan of a quiet database lists exactly the live entries. */
  lemma QuietScan(cfg: Config, db: D.Db, now: Time, found: seq<seq<Entry>>)
    requires D.Ok(cfg, db) && |found| == |db.shards|
    requires forall i :: 0 <= i < |found| ==>
               TableSpec.Lists(found[i], db.shards[i].table.entries, TableSpec.LiveAt(now))
    ensures |db.shards| >= 1 && LiveListing(cfg, db, now, Scan.Concat(found))
  {
    hide TableSpec.Lists, Scan.Concat, Scan.Visited, D.ShardIndex, D.Ok, TableSpec.KeysDistinct;
    Runs.Parts(cfg, db);
    var n := |db.shards|;
    var gaps: seq<seq<Runs.Call>> := seq(n, _ => []);
    var nows := seq(n, _ => now);
    forall i | 0 <= i < n { NoGap(cfg, db, gaps, i); }
    Scan.ScanExact(cfg, db, gaps, nows, found);
  }

  lemma LiveKeysExact(cfg: Config, db: D.Db, now: Time, k: Key)
    requires D.Ok(cfg, db)
    ensures k in Runs.LiveKeys(db, now) <==> D.LiveIn(D.At(cfg, db, k).table.entries, k, now)
    ensures k in D.At(cfg, db, k).table.entries ==> D.At(cfg, db, k).table.entries[k].key == k
  {
    hide D.ShardIndex;
  }

  lemma KeysExact(cfg: Config, db: D.Db, now: Time, entries: seq<Entry>, keys: seq<Key>)
    requires D.Ok(cfg, db) && LiveListing(cfg, db, now, entries)
    requires |keys| == |entries| && forall i :: 0 <= i < |keys| ==> keys[i] == entries[i].key
    ensures Distinct(keys) && Elements(keys) == Runs.LiveKeys(db, now)
  {
    hide D.ShardIndex, D.Ok, Runs.LiveKeys;
    forall k: Key
      ensures k in keys <==> k in Runs.LiveKeys(db, now)
    {
      LiveKeysExact(cfg, db, now, k);
      if k in Runs.LiveKeys(db, now) {
        var e := D.At(cfg, db, k).table.entries[k];
        assert Holds(cfg, db, e, now);
        var i :| 0 <= i < |entries| && entries[i] == e;
        assert keys[i] == k;
      }
      if k in keys {
        var i :| 0 <= i < |keys| && keys[i] == k;
        assert entries[i] in entries;
        assert Holds(cfg, db, entries[i], now);
      }
    }
  }

  /** How many entries a restore at this time stores. */
  function Unexpired(entries: seq<Entry>, now: Time): nat {
    if entries == [] then 0
    else Unexpired(entries[..|entries| - 1], now)
         + if TableSpec.ExpiredAt(entries[|entries| - 1], now) then 0 else 1
  }

  /** The number of stored entries, expired ones included. */
  ghost function Stored(shards: seq<D.Shard>): nat {
    if shards == [] then 0 else Stored(shards[..|shards| - 1]) + |shards[|shards| - 1].table.entries|
  }

  lemma {:induction false} StoredUpdate(shards: seq<D.Shard>, i: nat, s: D.Shard)
    requires i < |shards|
    ensures Stored(shards[i := s]) == Stored(shards) - |shards[i].table.entries| + |s.table.entries|
  {
    var n := |shards| - 1;
    if i < n {
      StoredUpdate(shards[..n], i, s);
      assert shards[i := s][..n] == shards[..n][i := s];
    } else {
      assert shards[i := s][..n] == shards[..n];
    }
  }

  /** The keys stored in any shard. */
  ghost function KeysOf(shards: seq<D.Shard>): set<Key> {
    if shards == [] then {} else KeysOf(shards[..|shards| - 1]) + shards[|shards| - 1].table.entries.Keys
  }

  lemma {:induction false} KeysOfMember(shards: seq<D.Shard>, k: Key)
    ensures k in KeysOf(shards) <==> exists i :: 0 <= i < |shards| && k in shards[i].table.entries
  {
    if shards != [] {
      KeysOfMember(shards[..|shards| - 1], k);
    }
  }

  ghost predicate Apart(shards: seq<D.Shard>) {
    forall i, j, k :: 0 <= i < j < |shards| && k in shards[i].table.entries ==> k !in shards[j].table.entries
  }

  lemma {:induction false} ApartStored(shards: seq<D.Shard>)
    requires Apart(shards)
    ensures Stored(shards) == |KeysOf(shards)|
  {
    if shards != [] {
      var rest, last := shards[..|shards| - 1], shards[|shards| - 1].table.entries;
      ApartStored(rest);
      forall k | k in KeysOf(rest) ensures k !in last.Keys {
        KeysOfMember(rest, k);
      }
      assert KeysOf(rest) !! last.Keys;
      assert |last.Keys| == |last|;
    }
  }

  /** The reported size is the number of distinct keys stored: no key is counted in two shards. */
  lemma SizeIsDomain(cfg: Config, db: D.Db)
    requires D.Ok(cfg, db)
    ensures Stored(db.shards) == |KeysOf(db.shards)|
  {
    hide Stored, KeysOf, D.ShardIndex, D.ShardOk;
    assert Apart(db.shards) by {
      forall i, j, k | 0 <= i < j < |db.shards| && k in db.shards[i].table.entries
        ensures k !in db.shards[j].table.entries
      {
        assert D.ShardIndex(cfg, k, |db.shards|) == i;
      }
    }
    ApartStored(db.shards);
  }
}
