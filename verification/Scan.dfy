/**
 KEYS and the snapshot visit the shards one at a time, each under its own lock, while
 other clients keep running. Any calls may fall between two visits.
 */
module Scan {
  import opened TableSpec
  import opened DatabaseSpec
  import opened DatabaseRuns

  /** The state after some calls from clients. */
  ghost function Later(cfg: Config, db: Db, calls: seq<Call>): (r: Db)
    requires Ok(cfg, db)
    ensures Ok(cfg, r) && |r.shards| == |db.shards|
  {
    if calls == [] then db
    else
      var before := Later(cfg, db, calls[..|calls| - 1]);
      StepOk(cfg, before, calls[|calls| - 1]);
      StepShards(cfg, before, calls[|calls| - 1]);
      Step(cfg, before, calls[|calls| - 1]).0
  }

  lemma StepShards(cfg: Config, db: Db, c: Call)
    requires Ok(cfg, db)
    ensures |Step(cfg, db, c).0.shards| == |db.shards|
  {
    hide SetShard, ShardIndex, SweepShard, LimitShard, LiveKeys, GetShard;
  }

  /** The state in which shard i is visited, when gaps[i] are the calls just before that visit. */
  ghost function Visited(cfg: Config, db: Db, gaps: seq<seq<Call>>, i: nat): (r: Db)
    requires Ok(cfg, db) && i < |gaps|
    ensures Ok(cfg, r) && |r.shards| == |db.shards|
  {
    Later(cfg, if i == 0 then db else Visited(cfg, db, gaps, i - 1), gaps[i])
  }

  /** found[i] is what the walk of shard i reported, at the clock reading nows[i]. */
  ghost predicate Scanned(cfg: Config, db: Db, gaps: seq<seq<Call>>, nows: seq<Time>, found: seq<seq<Entry>>)
    requires Ok(cfg, db)
  {
    && |gaps| == |nows| == |found| == |db.shards|
    && forall i :: 0 <= i < |found| ==>
         Lists(found[i], Visited(cfg, db, gaps, i).shards[i].table.entries, LiveAt(nows[i]))
  }

  ghost function Concat<T>(s: seq<seq<T>>): seq<T> {
    if s == [] then [] else Concat(s[..|s| - 1]) + s[|s| - 1]
  }

  lemma {:induction false} ConcatMembers<T>(s: seq<seq<T>>, x: T)
    ensures x in Concat(s) <==> exists i :: 0 <= i < |s| && x in s[i]
  {
    if s != [] {
      var p := s[..|s| - 1];
      ConcatMembers(p, x);
      assert forall i :: 0 <= i < |p| ==> p[i] == s[i];
    }
  }

  /** What shard i reports was live in that shard when it was visited, and routes there. */
  lemma FoundAt(cfg: Config, db: Db, gaps: seq<seq<Call>>, nows: seq<Time>, found: seq<seq<Entry>>, i: nat, e: Entry)
    requires Ok(cfg, db) && Scanned(cfg, db, gaps, nows, found) && i < |found| && e in found[i]
    ensures ShardIndex(cfg, e.key, |db.shards|) == i
    ensures LiveIn(Visited(cfg, db, gaps, i).shards[i].table.entries, e.key, nows[i])
    ensures Visited(cfg, db, gaps, i).shards[i].table.entries[e.key] == e
  {
    hide ShardIndex, Visited, ShardOk;
    var j :| 0 <= j < |found[i]| && found[i][j] == e;
  }

  lemma {:induction false} ConcatDistinct(cfg: Config, db: Db, gaps: seq<seq<Call>>, nows: seq<Time>,
                                          found: seq<seq<Entry>>, n: nat)
    requires Ok(cfg, db) && Scanned(cfg, db, gaps, nows, found) && n <= |found|
    ensures KeysDistinct(Concat(found[..n]))
  {
    hide ShardIndex, Visited, Ok;
    if n > 0 {
      ConcatDistinct(cfg, db, gaps, nows, found, n - 1);
      assert found[..n][..n - 1] == found[..n - 1];
      var a, b := Concat(found[..n - 1]), found[n - 1];
      forall x, y | x in a && y in b
        ensures x.key != y.key
      {
        ConcatMembers(found[..n - 1], x);
        var i :| 0 <= i < n - 1 && x in found[..n - 1][i];
        FoundAt(cfg, db, gaps, nows, found, i, x);
        FoundAt(cfg, db, gaps, nows, found, n - 1, y);
      }
      KeysDistinctAppend(a, b);
    }
  }

  lemma KeysDistinctAppend(a: seq<Entry>, b: seq<Entry>)
    requires KeysDistinct(a) && KeysDistinct(b) && forall x, y :: x in a && y in b ==> x.key != y.key
    ensures KeysDistinct(a + b)
  {
    assert forall i :: 0 <= i < |a| ==> a[i] in a;
    assert forall i :: 0 <= i < |b| ==> b[i] in b;
  }

  /**
   However other clients' calls are interleaved, a scan reports no key twice, and it
   reports a key, with its entry, exactly when that key was live at the visit of its shard.
   */
  lemma ScanExact(cfg: Config, db: Db, gaps: seq<seq<Call>>, nows: seq<Time>, found: seq<seq<Entry>>)
    requires Ok(cfg, db) && Scanned(cfg, db, gaps, nows, found)
    ensures KeysDistinct(Concat(found))
    ensures forall e: Entry :: e in Concat(found) <==>
              var i := ShardIndex(cfg, e.key, |db.shards|);
              var m := Visited(cfg, db, gaps, i).shards[i].table.entries;
              LiveIn(m, e.key, nows[i]) && m[e.key] == e
  {
    hide ShardIndex, Visited, Ok, Concat;
    Parts(cfg, db);
    assert found[..|found|] == found;
    ConcatDistinct(cfg, db, gaps, nows, found, |found|);
    forall e: Entry
      ensures e in Concat(found) <==>
                var i := ShardIndex(cfg, e.key, |db.shards|);
                var m := Visited(cfg, db, gaps, i).shards[i].table.entries;
                LiveIn(m, e.key, nows[i]) && m[e.key] == e
    {
      ConcatMembers(found, e);
      if e in Concat(found) {
        var i :| 0 <= i < |found| && e in found[i];
        FoundAt(cfg, db, gaps, nows, found, i, e);
      }
      var i := ShardIndex(cfg, e.key, |db.shards|);
      var m := Visited(cfg, db, gaps, i).shards[i].table.entries;
      if LiveIn(m, e.key, nows[i]) && m[e.key] == e {
        assert e in found[i];
      }
    }
  }
}
