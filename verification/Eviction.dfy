/** What eviction leaves behind, and the memory bound it keeps. */
module Eviction {
  import opened Base
  import opened TableSpec
  import opened DatabaseSpec

  /** The table with only its m most recently used entries. */
  ghost function Keep(t: Table, m: nat): Table
    requires m <= |t.order|
  {
    Table(t.entries - Elements(t.order[m..]), t.order[..m], t.buckets)
  }

  /** The shard is inside its slice, has no slice, or is down to a single entry. */
  ghost predicate Bounded(cfg: Config, s: Shard) {
    s.slice == 0 || Usage(cfg, s.table) <= s.slice || |s.table.entries| <= 1
  }

  lemma KeepAll(t: Table)
    ensures Keep(t, |t.order|) == t
  {
    assert t.order[|t.order|..] == [];
    assert t.order[..|t.order|] == t.order;
    assert t.entries - Elements(t.order[|t.order|..]) == t.entries;
  }

  lemma SuffixElements<T>(o: seq<T>, m: nat)
    requires m < |o|
    ensures Elements(o[m..]) == {o[|o| - 1]} + Elements(o[..|o| - 1][m..])
  {
    var n := |o| - 1;
    assert o[m..] == o[..n][m..] + [o[n]];
  }

  lemma MinusTwice<K, V>(e: map<K, V>, a: set<K>, b: set<K>)
    ensures e - a - b == e - (a + b)
  {
  }

  lemma KeepLess(t: Table, m: nat)
    requires WellFormed(t) && |t.entries| > 0 && m < |t.order|
    ensures |EvictOldest(t).order| == |t.order| - 1
    ensures Keep(EvictOldest(t), m) == Keep(t, m)
  {
    hide WellFormed, EvictOldest, Elements;
    EvictShrinks(t);
    var n := |t.order| - 1;
    SuffixElements(t.order, m);
    MinusTwice(t.entries, {t.order[n]}, Elements(t.order[..n][m..]));
    assert t.order[..n][..m] == t.order[..m];
  }

  /** r keeps the most recent entries of s, as many as the slice allows, and at least one. */
  ghost predicate EvictedTo(cfg: Config, s: Shard, r: Shard) {
    var m := |r.table.order|;
    && m <= |s.table.order|
    && r == s.(table := Keep(s.table, m), evicted := s.evicted + |s.table.order| - m)
    && WellFormed(r.table)
    && Bounded(cfg, r)
    && (s.table.order != [] ==> m > 0)
    && forall n :: m < n <= |s.table.order| ==> s.slice != 0 && Usage(cfg, Keep(s.table, n)) > s.slice
  }

  /**
   The eviction loop keeps the m most recent entries, where m is as large as the slice
   allows: any longer run of recent entries would be over it. It never evicts the most
   recently used entry.
   */
  lemma {:induction false} EvictExact(cfg: Config, s: Shard)
    requires WellFormed(s.table)
    ensures EvictedTo(cfg, s, EvictToFit(cfg, s))
    decreases |s.table.order|
  {
    hide WellFormed, Usage, EvictOldest, EvictedTo;
    var t := s.table;
    SizeIsLength(t);
    if s.slice != 0 && Usage(cfg, t) > s.slice && |t.entries| > 1 {
      EvictShrinks(t);
      var s' := s.(table := EvictOldest(t), evicted := s.evicted + 1);
      EvictExact(cfg, s');
      EvictedStep(cfg, s, EvictToFit(cfg, s'));
    } else {
      EvictedNone(cfg, s);
    }
  }

  lemma EvictedNone(cfg: Config, s: Shard)
    requires WellFormed(s.table) && Bounded(cfg, s)
    ensures EvictedTo(cfg, s, s)
  {
    hide WellFormed, Usage, Keep;
    KeepAll(s.table);
  }

  lemma EvictedStep(cfg: Config, s: Shard, r: Shard)
    requires WellFormed(s.table) && |s.table.order| > 1 && |s.table.entries| > 1
    requires s.slice != 0 && Usage(cfg, s.table) > s.slice
    requires EvictedTo(cfg, s.(table := EvictOldest(s.table), evicted := s.evicted + 1), r)
    ensures EvictedTo(cfg, s, r)
  {
    hide WellFormed, Usage, Keep, EvictOldest, Bounded;
    var t := s.table;
    EvictShrinks(t);
    KeepAll(t);
    KeepLess(t, |r.table.order|);
    forall n | |r.table.order| < n <= |t.order|
      ensures Usage(cfg, Keep(t, n)) > s.slice
    {
      if n < |t.order| { KeepLess(t, n); }
    }
  }

  lemma SizeIsLength(t: Table)
    requires WellFormed(t)
    ensures |t.entries| == |t.order|
  {
    DistinctLength(t.order);
  }

  /** A stored write survives its own eviction: the key holds the value and is the most recent one. */
  lemma SetStores(cfg: Config, s: Shard, k: Key, v: Bytes, deadline: Option<Time>)
    requires WellFormed(s.table)
    ensures var r := SetShard(cfg, s, k, v, deadline);
            && WellFormed(r.table) && Bounded(cfg, r)
            && r.table.order != [] && r.table.order[0] == k
            && k in r.table.entries && r.table.entries[k] == Entry(k, v, deadline)
            && r.slice == s.slice && r.cursor == s.cursor && r.table.buckets >= s.table.buckets
            && (forall j :: j in r.table.entries && j != k ==>
                  j in s.table.entries && r.table.entries[j] == s.table.entries[j])
  {
    PutWellFormed(s.table, k, v);
    var t := Expire(Put(s.table, k, v), k, deadline);
    ExpireWellFormed(Put(s.table, k, v), k, deadline);
    EvictExact(cfg, s.(table := t));
    var r := SetShard(cfg, s, k, v, deadline);
    FrontKept(t, |r.table.order|);
  }

  lemma FrontKept(t: Table, m: nat)
    requires Listed(t) && 1 <= m <= |t.order|
    ensures t.order[0] in Keep(t, m).entries
  {
    assert t.order[0] in Elements(t.order);
    assert t.order[0] !in t.order[m..];
  }

  // ---------------------------------------------------------------- the ceiling

  /** The bytes that no eviction frees: the bucket array and the most recently used entry. */
  ghost function Least(cfg: Config, t: Table): nat
    requires Listed(t)
  {
    t.buckets * SlotBytes
    + if t.order == [] then 0 else Footprint(cfg, t.order[0], EntryAt(t, 0).value)
  }

  ghost function EntryAt(t: Table, i: nat): Entry
    requires Listed(t) && i < |t.order|
  {
    assert t.order[i] in Elements(t.order);
    t.entries[t.order[i]]
  }

  lemma KeepBytes(cfg: Config, t: Table, m: nat)
    requires Listed(t) && m <= |t.order|
    ensures EntryBytes(cfg, Keep(t, m)) == BytesOf(cfg, t.entries, t.order[..m])
  {
    forall k | k in t.order[..m]
      ensures k in t.entries && k !in Elements(t.order[m..])
    {
      assert k in Elements(t.order);
    }
    BytesSame(cfg, t.entries, Keep(t, m).entries, t.order[..m]);
  }

  /** Keeping fewer entries never takes more bytes. */
  lemma KeepMono(cfg: Config, t: Table, m: nat, n: nat)
    requires Listed(t) && m <= n <= |t.order|
    ensures Usage(cfg, Keep(t, m)) <= Usage(cfg, Keep(t, n))
  {
    hide BytesOf, Keep, Listed;
    KeepBytes(cfg, t, m);
    KeepBytes(cfg, t, n);
    KeepBuckets(t, m);
    KeepBuckets(t, n);
    assert t.order[..n] == t.order[..m] + t.order[m..n];
    BytesAppend(cfg, t.entries, t.order[..m], t.order[m..n]);
  }

  lemma KeepBuckets(t: Table, m: nat)
    requires m <= |t.order|
    ensures Keep(t, m).buckets == t.buckets
  {
  }

  lemma LeastIsOne(cfg: Config, t: Table)
    requires Listed(t)
    ensures Usage(cfg, Keep(t, Min(1, |t.order|))) == Least(cfg, t)
  {
    hide Footprint;
    KeepBytes(cfg, t, Min(1, |t.order|));
    if t.order != [] {
      var first := t.order[..1];
      assert first == [t.order[0]] && first[1..] == [];
      assert EntryAt(t, 0) == t.entries[t.order[0]];
    }
  }

  /** Eviction brings a shard under its slice exactly when the bytes it cannot free are under it. */
  lemma EvictCeiling(cfg: Config, s: Shard)
    requires WellFormed(s.table) && s.slice != 0
    ensures Usage(cfg, EvictToFit(cfg, s).table) <= s.slice <==> Least(cfg, s.table) <= s.slice
  {
    hide Usage, Keep, EvictToFit, Least, Listed, Sized;
    EvictExact(cfg, s);
    LeastIsOne(cfg, s.table);
    var r := EvictToFit(cfg, s);
    SizeIsLength(r.table);
    KeepMono(cfg, s.table, Min(1, |s.table.order|), |r.table.order|);
  }

  /** So a write ends under the slice exactly when its own entry and the bucket array fit it. */
  lemma SetCeiling(cfg: Config, s: Shard, k: Key, v: Bytes, deadline: Option<Time>)
    requires WellFormed(s.table) && s.slice != 0
    ensures Usage(cfg, SetShard(cfg, s, k, v, deadline).table) <= s.slice
       <==> Footprint(cfg, k, v) + Put(s.table, k, v).buckets * SlotBytes <= s.slice
  {
    hide Usage, EvictToFit, Footprint, Drop;
    PutWellFormed(s.table, k, v);
    var t := Expire(Put(s.table, k, v), k, deadline);
    ExpireWellFormed(Put(s.table, k, v), k, deadline);
    assert t.order[0] == k && EntryAt(t, 0) == Entry(k, v, deadline);
    EvictCeiling(cfg, s.(table := t));
  }
}
