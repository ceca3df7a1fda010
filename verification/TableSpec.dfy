/**
 The reference behaviour of one hash table: a map of entries together with the keys in
 order of last use, most recent first. Chains, links and buckets do not appear, except
 for the bucket count, which decides memory use and what an incremental sweep visits.
 */
module TableSpec {
  import opened Base
  import Bits

  type Time = int

  datatype Entry = Entry(key: Key, value: Bytes, expiration: Option<Time>)

  predicate ExpiredAt(e: Entry, now: Time) {
    e.expiration.Some? && e.expiration.value <= now
  }

  /** The predicates a sweep and a listing use, at one clock reading. */
  function DeadAt(now: Time): Entry -> bool { (e: Entry) => ExpiredAt(e, now) }

  function LiveAt(now: Time): Entry -> bool { (e: Entry) => !ExpiredAt(e, now) }

  /** The hash function, and the bytes an entry costs beyond its key and value. */
  datatype Config = Config(hash: Key -> Hash, overhead: nat)

  /** Bytes of one bucket slot. */
  const SlotBytes: nat := 8

  function Footprint(cfg: Config, key: Key, value: Bytes): nat {
    cfg.overhead + |key| + |value|
  }

  /** The bucket of a key in a table of n buckets: `hash & (n - 1)`. */
  function Slot(cfg: Config, key: Key, n: nat): (b: nat)
    requires n >= 1
    ensures b < n
  {
    Bits.And(cfg.hash(key), n - 1)
  }

  datatype Table = Table(entries: map<Key, Entry>, order: seq<Key>, buckets: nat)

  /** The order lists each stored key once, and every entry is filed under its own key. */
  ghost predicate Listed(t: Table) {
    && Distinct(t.order)
    && Elements(t.order) == t.entries.Keys
    && (forall k :: k in t.entries ==> t.entries[k].key == k)
  }

  /** The bucket count is a power of two and the load at most three quarters. */
  ghost predicate Sized(t: Table) {
    && t.buckets >= 1
    && Bits.IsPow2(t.buckets)
    && 4 * |t.entries| <= 3 * t.buckets
  }

  ghost predicate WellFormed(t: Table) { Listed(t) && Sized(t) }

  /** s without the elements of ks. */
  function Drop<T(==)>(s: seq<T>, ks: set<T>): seq<T> {
    if s == [] then []
    else if s[0] in ks then Drop(s[1..], ks)
    else [s[0]] + Drop(s[1..], ks)
  }

  function Empty(buckets: nat): Table { Table(map[], [], Bits.RoundUp(buckets)) }

  /** Doubling happens when the load would pass three quarters. */
  function Grown(buckets: nat, size: nat): nat {
    if 4 * size > 3 * buckets then 2 * buckets else buckets
  }

  /** The key now holds the value, without a deadline, and is the most recently used. */
  function Written(t: Table, k: Key, v: Bytes): Table {
    Table(t.entries[k := Entry(k, v, None)], [k] + Drop(t.order, {k}), t.buckets)
  }

  function Put(t: Table, k: Key, v: Bytes): Table {
    if k in t.entries then Written(t, k, v)
    else Written(t, k, v).(buckets := Grown(t.buckets, |t.entries| + 1))
  }

  function Expire(t: Table, k: Key, deadline: Option<Time>): Table
    requires k in t.entries
  {
    t.(entries := t.entries[k := t.entries[k].(expiration := deadline)])
  }

  /** The entry is stored again, with its deadline. */
  function PutBack(t: Table, e: Entry): Table { Expire(Put(t, e.key, e.value), e.key, e.expiration) }

  function RemoveAll(t: Table, ks: set<Key>): Table {
    Table(t.entries - ks, Drop(t.order, ks), t.buckets)
  }

  function Remove(t: Table, k: Key): Table { RemoveAll(t, {k}) }

  function Touch(t: Table, k: Key): Table {
    if k in t.entries then t.(order := [k] + Drop(t.order, {k})) else t
  }

  /** The key whose last use is oldest goes. */
  function EvictOldest(t: Table): Table {
    if t.order == [] then t else Remove(t, t.order[|t.order| - 1])
  }

  /** The bucket that many places after first, wrapping at the end of a table of n. */
  function Wrap(first: nat, offset: nat, n: nat): (b: nat)
    requires n >= 1
    ensures b < n
  {
    (first + offset) % n
  }

  /** b is one of the count buckets from first on. */
  ghost predicate InWindow(b: nat, first: nat, count: nat, n: nat)
    requires n >= 1
  {
    exists offset: nat :: offset < count && Wrap(first, offset, n) == b
  }

  /** The keys an incremental sweep takes out. */
  ghost function Swept(cfg: Config, t: Table, first: nat, count: nat, pred: Entry -> bool): set<Key>
    requires t.buckets >= 1
  {
    set k | k in t.entries && pred(t.entries[k]) && InWindow(Slot(cfg, k, t.buckets), first, count, t.buckets)
  }

  ghost function RemoveIf(cfg: Config, t: Table, first: nat, count: nat, pred: Entry -> bool): Table
    requires t.buckets >= 1
  {
    RemoveAll(t, Swept(cfg, t, first, Min(count, t.buckets), pred))
  }

  /** The least power of two at or above the request that keeps the load within three quarters. */
  function Fitted(target: nat, size: nat): nat
    requires target >= 1
    decreases 4 * size - 3 * target
  {
    if 4 * size > 3 * target then Fitted(2 * target, size) else target
  }

  function Resize(t: Table, n: nat): Table {
    t.(buckets := Fitted(Bits.RoundUp(n), |t.entries|))
  }

  function Clear(t: Table): Table { Table(map[], [], t.buckets) }

  /** Sum of the footprints of the entries, taken in the given order. */
  ghost function BytesOf(cfg: Config, entries: map<Key, Entry>, order: seq<Key>): nat {
    if order == [] then 0
    else (if order[0] in entries then Footprint(cfg, order[0], entries[order[0]].value) else 0)
         + BytesOf(cfg, entries, order[1..])
  }

  ghost function EntryBytes(cfg: Config, t: Table): nat { BytesOf(cfg, t.entries, t.order) }

  ghost function Usage(cfg: Config, t: Table): nat { EntryBytes(cfg, t) + t.buckets * SlotBytes }

  /** The window grows by one bucket. */
  lemma WindowNext(b: nat, first: nat, count: nat, n: nat)
    requires n >= 1
    ensures InWindow(b, first, count + 1, n) <==> InWindow(b, first, count, n) || b == Wrap(first, count, n)
  {
    if InWindow(b, first, count + 1, n) && b != Wrap(first, count, n) {
      var offset: nat :| offset < count + 1 && Wrap(first, offset, n) == b;
      assert offset < count;
    }
  }

  // ---------------------------------------------------------------- sequences

  lemma {:induction false} DropElements<T>(s: seq<T>, ks: set<T>)
    ensures Elements(Drop(s, ks)) == Elements(s) - ks
    ensures Distinct(s) ==> Distinct(Drop(s, ks))
    ensures |Drop(s, ks)| <= |s|
  {
    if s != [] {
      var rest := Drop(s[1..], ks);
      DropElements(s[1..], ks);
      assert Elements(s) == {s[0]} + Elements(s[1..]);
      if s[0] !in ks {
        assert Elements([s[0]] + rest) == {s[0]} + Elements(rest);
        if Distinct(s) { assert s[0] !in Elements(s[1..]); DistinctCons(s[0], rest); }
      }
    }
  }

  lemma DistinctCons<T>(x: T, s: seq<T>)
    requires Distinct(s) && x !in Elements(s)
    ensures Distinct([x] + s)
  {
  }

  lemma {:induction false} DropNothing<T>(s: seq<T>, ks: set<T>)
    requires Elements(s) !! ks
    ensures Drop(s, ks) == s
  {
    if s != [] { DropNothing(s[1..], ks); }
  }

  lemma DropFirst<T>(s: seq<T>, ks: set<T>)
    requires s != []
    ensures Drop(s, ks) == (if s[0] in ks then [] else [s[0]]) + Drop(s[1..], ks)
  {
  }

  lemma {:induction false} DropAppend<T>(s: seq<T>, u: seq<T>, ks: set<T>)
    ensures Drop(s + u, ks) == Drop(s, ks) + Drop(u, ks)
  {
    if s == [] {
      assert s + u == u;
    } else {
      hide Drop;
      var w := s + u;
      DropAppend(s[1..], u, ks);
      assert w[1..] == s[1..] + u && w[0] == s[0];
      DropFirst(w, ks);
      DropFirst(s, ks);
      Associate(if s[0] in ks then [] else [s[0]], Drop(s[1..], ks), Drop(u, ks));
    }
  }

  lemma Associate<T>(a: seq<T>, b: seq<T>, c: seq<T>)
    ensures a + (b + c) == a + b + c
  {
  }

  lemma {:induction false} DropTwice<T>(s: seq<T>, ks: set<T>, js: set<T>)
    ensures Drop(Drop(s, ks), js) == Drop(s, ks + js)
  {
    if s != [] { DropTwice(s[1..], ks, js); }
  }

  /** Dropping one element of a distinct sequence cuts it out. */
  lemma DropAt<T>(s: seq<T>, i: nat)
    requires i < |s| && Distinct(s)
    ensures Drop(s, {s[i]}) == s[..i] + s[i + 1..]
  {
    hide Drop;
    var x, a, b := s[i], s[..i], s[i..];
    assert s == a + b && b[0] == x && b[1..] == s[i + 1..];
    DropAppend(a, b, {x});
    DropNothing(a, {x});
    DropFirst(b, {x});
    DropNothing(s[i + 1..], {x});
  }

  // ---------------------------------------------------------------- accounting

  lemma {:induction false} BytesAppend(cfg: Config, m: map<Key, Entry>, s: seq<Key>, u: seq<Key>)
    ensures BytesOf(cfg, m, s + u) == BytesOf(cfg, m, s) + BytesOf(cfg, m, u)
  {
    if s == [] {
      assert s + u == u;
    } else {
      BytesAppend(cfg, m, s[1..], u);
      assert (s + u)[1..] == s[1..] + u;
    }
  }

  /** Only the values of the listed keys matter. */
  lemma {:induction false} BytesSame(cfg: Config, m: map<Key, Entry>, m': map<Key, Entry>, s: seq<Key>)
    requires forall k :: k in s ==> k in m && k in m' && m[k].value == m'[k].value
    ensures BytesOf(cfg, m, s) == BytesOf(cfg, m', s)
  {
    if s != [] { BytesSame(cfg, m, m', s[1..]); }
  }

  /** Taking one key out of the order takes out exactly its footprint. */
  lemma BytesDrop(cfg: Config, t: Table, k: Key)
    requires Listed(t) && k in t.entries
    ensures BytesOf(cfg, t.entries, Drop(t.order, {k}))
         == EntryBytes(cfg, t) - Footprint(cfg, k, t.entries[k].value)
    ensures EntryBytes(cfg, t) >= Footprint(cfg, k, t.entries[k].value)
  {
    assert k in Elements(t.order);
    var i :| 0 <= i < |t.order| && t.order[i] == k;
    BytesCut(cfg, t.entries, t.order, i);
  }

  lemma BytesCut(cfg: Config, m: map<Key, Entry>, s: seq<Key>, i: nat)
    requires Distinct(s) && i < |s| && s[i] in m
    ensures BytesOf(cfg, m, s) == BytesOf(cfg, m, Drop(s, {s[i]})) + Footprint(cfg, s[i], m[s[i]].value)
  {
    var a, b := s[..i], s[i + 1..];
    assert s == a + ([s[i]] + b);
    assert ([s[i]] + b)[1..] == b;
    DropAt(s, i);
    BytesAppend(cfg, m, a, [s[i]] + b);
    BytesAppend(cfg, m, a, b);
  }

  lemma RemoveBytes(cfg: Config, t: Table, k: Key)
    requires Listed(t) && k in t.entries
    ensures EntryBytes(cfg, Remove(t, k)) == EntryBytes(cfg, t) - Footprint(cfg, k, t.entries[k].value)
  {
    BytesDrop(cfg, t, k);
    DropElements(t.order, {k});
    assert forall j :: j in Drop(t.order, {k}) ==> j in Elements(Drop(t.order, {k}));
    BytesSame(cfg, t.entries, t.entries - {k}, Drop(t.order, {k}));
  }

  lemma WrittenBytes(cfg: Config, t: Table, k: Key, v: Bytes)
    requires Listed(t)
    ensures EntryBytes(cfg, Written(t, k, v)) == EntryBytes(cfg, t) + Footprint(cfg, k, v)
          - (if k in t.entries then Footprint(cfg, k, t.entries[k].value) else 0)
  {
    var m := t.entries[k := Entry(k, v, None)];
    var rest := Drop(t.order, {k});
    DropElements(t.order, {k});
    assert forall j :: j in rest ==> j in Elements(rest);
    BytesSame(cfg, t.entries, m, rest);
    assert ([k] + rest)[1..] == rest;
    if k in t.entries {
      BytesDrop(cfg, t, k);
    } else {
      DropNothing(t.order, {k});
    }
  }

  // ---------------------------------------------------------------- well-formedness

  lemma RemoveAllListed(t: Table, ks: set<Key>)
    requires Listed(t)
    ensures Listed(RemoveAll(t, ks))
  {
    DropElements(t.order, ks);
    assert (t.entries - ks).Keys == t.entries.Keys - ks;
  }

  lemma RemoveAbsent(t: Table, k: Key)
    requires Listed(t) && k !in t.entries
    ensures Remove(t, k) == t
  {
    DropNothing(t.order, {k});
    assert t.entries - {k} == t.entries;
  }

  lemma RemoveTwice(t: Table, ks: set<Key>, js: set<Key>)
    ensures RemoveAll(RemoveAll(t, ks), js) == RemoveAll(t, ks + js)
  {
    DropTwice(t.order, ks, js);
    assert t.entries - ks - js == t.entries - (ks + js);
  }

  lemma RemoveNothing(t: Table)
    ensures RemoveAll(t, {}) == t
  {
    DropNothing(t.order, {});
    assert t.entries - {} == t.entries;
  }

  lemma RemoveAllSized(t: Table, ks: set<Key>)
    requires Sized(t)
    ensures Sized(RemoveAll(t, ks))
  {
    assert (t.entries - ks).Keys == t.entries.Keys - ks;
    CardSubset((t.entries - ks).Keys, t.entries.Keys);
  }

  lemma RemoveAllWellFormed(t: Table, ks: set<Key>)
    requires WellFormed(t)
    ensures WellFormed(RemoveAll(t, ks))
  {
    hide Listed, Sized, RemoveAll;
    RemoveAllListed(t, ks);
    RemoveAllSized(t, ks);
  }

  lemma ExpireListed(cfg: Config, t: Table, k: Key, deadline: Option<Time>)
    requires Listed(t) && k in t.entries
    ensures Listed(Expire(t, k, deadline))
    ensures EntryBytes(cfg, Expire(t, k, deadline)) == EntryBytes(cfg, t)
    ensures |Expire(t, k, deadline).entries| == |t.entries|
  {
    var t' := Expire(t, k, deadline);
    assert t'.entries.Keys == t.entries.Keys;
    assert forall j :: j in t.order ==> j in Elements(t.order);
    BytesSame(cfg, t.entries, t'.entries, t.order);
  }

  lemma ExpireSized(t: Table, k: Key, deadline: Option<Time>)
    requires Sized(t) && k in t.entries
    ensures Sized(Expire(t, k, deadline))
  {
    assert Expire(t, k, deadline).entries.Keys == t.entries.Keys;
  }

  lemma ExpireWellFormed(t: Table, k: Key, deadline: Option<Time>)
    requires WellFormed(t) && k in t.entries
    ensures WellFormed(Expire(t, k, deadline))
  {
    hide Listed, Sized, Expire;
    ExpireListed(Config(_ => 0, 0), t, k, deadline);
    ExpireSized(t, k, deadline);
  }

  lemma CardSubset<T>(a: set<T>, b: set<T>)
    requires a <= b
    ensures |a| <= |b|
  {
    assert b == a + (b - a);
  }

  lemma FrontListed(t: Table, k: Key)
    requires Listed(t)
    ensures Distinct([k] + Drop(t.order, {k}))
    ensures Elements([k] + Drop(t.order, {k})) == t.entries.Keys + {k}
  {
    var rest := Drop(t.order, {k});
    DropElements(t.order, {k});
    DistinctCons(k, rest);
    assert Elements([k] + rest) == {k} + Elements(rest);
  }

  lemma WrittenEntries(t: Table, k: Key, v: Bytes)
    ensures Written(t, k, v).entries == t.entries[k := Entry(k, v, None)]
  {
  }

  lemma WrittenOrder(t: Table, k: Key, v: Bytes)
    requires Listed(t) && k !in t.entries
    ensures Written(t, k, v).order == [k] + t.order && Distinct(t.order) && k !in t.order
    ensures Written(t, k, v).buckets == t.buckets
  {
    DropNothing(t.order, {k});
    assert k !in Elements(t.order);
  }

  lemma WrittenListed(t: Table, k: Key, v: Bytes)
    requires Listed(t)
    ensures Listed(Written(t, k, v))
  {
    hide Drop;
    FrontListed(t, k);
    assert t.entries[k := Entry(k, v, None)].Keys == t.entries.Keys + {k};
  }

  lemma WrittenSize(t: Table, k: Key, v: Bytes)
    ensures |Written(t, k, v).entries| == if k in t.entries then |t.entries| else |t.entries| + 1
    ensures Written(t, k, v).buckets == t.buckets
  {
    PutSize(t.entries, k, Entry(k, v, None));
  }

  lemma PutSized(t: Table, k: Key, v: Bytes)
    requires Sized(t)
    ensures Sized(Put(t, k, v))
  {
    Bits.Pow2Double(t.buckets);
    PutSize(t.entries, k, Entry(k, v, None));
  }

  lemma PutWellFormed(t: Table, k: Key, v: Bytes)
    requires WellFormed(t)
    ensures WellFormed(Put(t, k, v))
  {
    WrittenListed(t, k, v);
    hide Sized;
    PutSized(t, k, v);
  }

  lemma PutBackParts(t: Table, e: Entry)
    ensures PutBack(t, e).entries == t.entries[e.key := e] && PutBack(t, e).order == [e.key] + Drop(t.order, {e.key})
  {
  }

  lemma PutSize<K, V>(m: map<K, V>, k: K, v: V)
    ensures |m[k := v]| == if k in m then |m| else |m| + 1
  {
    assert m[k := v].Keys == m.Keys + {k};
    if k in m { assert m[k := v].Keys == m.Keys; }
  }

  lemma TouchListed(cfg: Config, t: Table, k: Key)
    requires Listed(t)
    ensures Listed(Touch(t, k)) && EntryBytes(cfg, Touch(t, k)) == EntryBytes(cfg, t)
  {
    if k in t.entries {
      FrontListed(t, k);
      BytesDrop(cfg, t, k);
      assert ([k] + Drop(t.order, {k}))[1..] == Drop(t.order, {k});
    }
  }

  lemma TouchWellFormed(t: Table, k: Key)
    requires WellFormed(t)
    ensures WellFormed(Touch(t, k))
  {
    hide Listed, Drop;
    TouchListed(Config(_ => 0, 0), t, k);
  }

  lemma RemoveWellFormed(t: Table, k: Key)
    requires WellFormed(t)
    ensures WellFormed(Remove(t, k))
  {
    hide WellFormed, RemoveAll;
    RemoveAllWellFormed(t, {k});
  }

  lemma RemoveIfWellFormed(cfg: Config, t: Table, first: nat, count: nat, pred: Entry -> bool)
    requires WellFormed(t)
    ensures t.buckets >= 1 && WellFormed(RemoveIf(cfg, t, first, count, pred))
  {
    hide Listed, RemoveAll, Swept, Bits.IsPow2;
    RemoveAllWellFormed(t, Swept(cfg, t, first, Min(count, t.buckets), pred));
  }

  lemma EvictWellFormed(t: Table)
    requires WellFormed(t)
    ensures WellFormed(EvictOldest(t))
  {
    hide WellFormed, RemoveAll;
    if t.order != [] { RemoveAllWellFormed(t, {t.order[|t.order| - 1]}); }
  }

  lemma ResizeWellFormed(t: Table, n: nat)
    requires WellFormed(t)
    ensures WellFormed(Resize(t, n))
  {
    hide Fitted, Bits.RoundUp;
    Bits.RoundUpIsLeast(n);
    FittedExact(Bits.RoundUp(n), |t.entries|);
  }

  lemma ClearWellFormed(t: Table)
    requires WellFormed(t)
    ensures WellFormed(Clear(t))
  {
  }

  /** Touching the most recent key changes nothing. */
  lemma FrontStays(t: Table, k: Key)
    requires Listed(t) && t.order != [] && t.order[0] == k
    ensures Touch(t, k) == t
  {
    DropAt(t.order, 0);
    assert k in Elements(t.order);
  }

  lemma {:induction false} FittedExact(target: nat, size: nat)
    requires target >= 1 && Bits.IsPow2(target)
    ensures Bits.IsPow2(Fitted(target, size)) && Fitted(target, size) >= target
    ensures 4 * size <= 3 * Fitted(target, size)
    ensures forall p: nat :: Bits.IsPow2(p) && p >= target && 4 * size <= 3 * p ==> Fitted(target, size) <= p
    decreases 4 * size - 3 * target
  {
    if 4 * size > 3 * target {
      Bits.Pow2Double(target);
      FittedExact(2 * target, size);
      forall p: nat | Bits.IsPow2(p) && p >= target && 4 * size <= 3 * p
        ensures Fitted(target, size) <= p
      {
        var i: nat :| p == Bits.Pow2(i);
        var j: nat :| target == Bits.Pow2(j);
        if i < j { Bits.Pow2Mono(i, j); } else if j < i { Bits.Pow2Mono(j, i); }
      }
    }
  }

  /** A resize gives the least power of two that is at least the request and holds the entries at three quarters. */
  lemma ResizeExactly(t: Table, n: nat)
    ensures var r := Resize(t, n);
            && r.entries == t.entries && r.order == t.order
            && Bits.IsPow2(r.buckets) && n <= r.buckets && 4 * |t.entries| <= 3 * r.buckets
            && forall p: nat :: Bits.IsPow2(p) && n <= p && 4 * |t.entries| <= 3 * p ==> r.buckets <= p
  {
    hide Fitted, Bits.RoundUp, Bits.IsPow2;
    Bits.RoundUpIsLeast(n);
    FittedExact(Bits.RoundUp(n), |t.entries|);
    forall p: nat | Bits.IsPow2(p) && n <= p
      ensures Bits.RoundUp(n) <= p
    {
      PowerOf(p);
    }
  }

  lemma PowerOf(p: nat)
    requires Bits.IsPow2(p)
    ensures exists k: nat :: p == Bits.Pow2(k)
  {
  }

  // ---------------------------------------------------------------- listings

  /** r lists, once each and in some order, exactly the entries of m the predicate selects. */
  ghost predicate Lists(r: seq<Entry>, m: map<Key, Entry>, pred: Entry -> bool) {
    && (forall i :: 0 <= i < |r| ==> r[i].key in m && m[r[i].key] == r[i] && pred(r[i]))
    && KeysDistinct(r)
    && (forall k :: k in m && pred(m[k]) ==> m[k] in r)
  }

  /** The selected entries of the listed keys, in that order. */
  ghost function Filtered(m: map<Key, Entry>, s: seq<Key>, pred: Entry -> bool): seq<Entry> {
    if s == [] then []
    else if s[0] in m && pred(m[s[0]]) then [m[s[0]]] + Filtered(m, s[1..], pred)
    else Filtered(m, s[1..], pred)
  }

  lemma FilteredFirst(m: map<Key, Entry>, s: seq<Key>, pred: Entry -> bool)
    requires s != []
    ensures Filtered(m, s, pred)
         == (if s[0] in m && pred(m[s[0]]) then [m[s[0]]] else []) + Filtered(m, s[1..], pred)
  {
  }

  lemma {:induction false} FilteredAppend(m: map<Key, Entry>, s: seq<Key>, u: seq<Key>, pred: Entry -> bool)
    ensures Filtered(m, s + u, pred) == Filtered(m, s, pred) + Filtered(m, u, pred)
  {
    if s == [] {
      assert s + u == u;
    } else {
      hide Filtered;
      var w := s + u;
      FilteredAppend(m, s[1..], u, pred);
      assert w[1..] == s[1..] + u && w[0] == s[0];
      FilteredFirst(m, w, pred);
      FilteredFirst(m, s, pred);
      Associate(if s[0] in m && pred(m[s[0]]) then [m[s[0]]] else [], Filtered(m, s[1..], pred), Filtered(m, u, pred));
    }
  }

  lemma FilteredNone(m: map<Key, Entry>, pred: Entry -> bool)
    ensures Filtered(m, [], pred) == []
  {
  }

  /** One more key has been looked at. */
  lemma FilteredNext(m: map<Key, Entry>, s: seq<Key>, i: nat, pred: Entry -> bool)
    requires i < |s| && s[i] in m
    ensures Filtered(m, s[..i + 1], pred)
         == Filtered(m, s[..i], pred) + if pred(m[s[i]]) then [m[s[i]]] else []
  {
    assert s[..i + 1] == s[..i] + [s[i]];
    FilteredAppend(m, s[..i], [s[i]], pred);
  }

  lemma {:induction false} FilteredMembers(m: map<Key, Entry>, s: seq<Key>, pred: Entry -> bool)
    requires forall k :: k in m ==> m[k].key == k
    ensures forall e :: e in Filtered(m, s, pred) <==> e.key in s && e.key in m && m[e.key] == e && pred(e)
  {
    if s != [] {
      FilteredMembers(m, s[1..], pred);
      assert s == [s[0]] + s[1..];
    }
  }

  ghost predicate KeysDistinct(r: seq<Entry>) {
    forall i, j :: 0 <= i < j < |r| ==> r[i].key != r[j].key
  }

  lemma {:induction false} FilteredDistinct(m: map<Key, Entry>, s: seq<Key>, pred: Entry -> bool)
    requires forall k :: k in m ==> m[k].key == k
    requires Distinct(s)
    ensures KeysDistinct(Filtered(m, s, pred))
  {
    if s != [] {
      FilteredDistinct(m, s[1..], pred);
      FilteredMembers(m, s[1..], pred);
      var rest := Filtered(m, s[1..], pred);
      assert s[0] !in s[1..];
      if s[0] in m { KeysDistinctCons(m[s[0]], rest); }
    }
  }

  lemma KeysDistinctCons(e: Entry, r: seq<Entry>)
    requires KeysDistinct(r) && forall x :: x in r ==> x.key != e.key
    ensures KeysDistinct([e] + r)
  {
    assert forall i :: 0 <= i < |r| ==> r[i] in r;
  }

  lemma FilteredLists(m: map<Key, Entry>, s: seq<Key>, pred: Entry -> bool)
    requires forall k :: k in m ==> m[k].key == k
    requires Distinct(s) && Elements(s) == m.Keys
    ensures Lists(Filtered(m, s, pred), m, pred)
  {
    FilteredMembers(m, s, pred);
    FilteredDistinct(m, s, pred);
    var r := Filtered(m, s, pred);
    assert forall i :: 0 <= i < |r| ==> r[i] in r;
    assert forall k :: k in m ==> k in Elements(s);
  }
}
