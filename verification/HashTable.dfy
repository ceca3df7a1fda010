/**
 The separate-chaining table. Every node sits on one bucket chain and on the recency
 list, both threaded through the nodes themselves. Each operation is proved to have the
 effect its counterpart in TableSpec has on the abstract table.
 */
module HashTable {
  import opened Base
  import opened TableSpec
  import Bits

  class Node {
    const key: Key
    var value: Bytes
    var expiration: Option<Time>
    var next: Node?
    var lruPrev: Node?
    var lruNext: Node?
    var footprint: nat

    constructor (key: Key, value: Bytes, footprint: nat)
      ensures this.key == key && this.value == value && this.expiration == None
      ensures this.footprint == footprint
    {
      this.key, this.value, this.expiration := key, value, None;
      this.next, this.lruPrev, this.lruNext := null, null, null;
      this.footprint := footprint;
    }

    function Content(): Entry
      reads this`value, this`expiration
    {
      Entry(key, value, expiration)
    }
  }

  // -------------------------------------------------------------- linked lists

  /** head starts a singly linked list that runs through exactly the nodes of c. */
  ghost predicate Linked(head: Node?, c: seq<Node>)
    reads c`next
  {
    && head == (if c == [] then null else c[0])
    && forall i {:trigger c[i].next} :: 0 <= i < |c| ==> c[i].next == if i + 1 < |c| then c[i + 1] else null
  }

  /** A doubly linked list that runs through exactly the nodes of s, front first. */
  ghost predicate Threaded(head: Node?, tail: Node?, s: seq<Node>)
    reads s`lruPrev, s`lruNext
  {
    && head == (if s == [] then null else s[0])
    && tail == (if s == [] then null else s[|s| - 1])
    && (forall i {:trigger s[i].lruPrev} :: 0 <= i < |s| ==> s[i].lruPrev == if i == 0 then null else s[i - 1])
    && (forall i {:trigger s[i].lruNext} :: 0 <= i < |s| ==>
          s[i].lruNext == if i + 1 < |s| then s[i + 1] else null)
  }

  /** Every node but the i-th is linked to its neighbours, past the i-th: then the rest is a list. */
  lemma ThreadedCut(head: Node?, tail: Node?, s: seq<Node>, i: nat)
    requires i < |s|
    requires head == Skip(s, i, 0, 1) && tail == Skip(s, i, |s| - 1, -1)
    requires forall j {:trigger s[j].lruPrev} :: 0 <= j < |s| && j != i ==> s[j].lruPrev == Skip(s, i, j - 1, -1)
    requires forall j {:trigger s[j].lruNext} :: 0 <= j < |s| && j != i ==> s[j].lruNext == Skip(s, i, j + 1, 1)
    ensures Threaded(head, tail, Cut(s, i))
  {
    var t := Cut(s, i);
    assert forall j :: 0 <= j < |t| ==> t[j] == s[if j < i then j else j + 1];
  }

  /** The node at position j, or the next one in that direction when j is to be skipped. */
  ghost function Skip(s: seq<Node>, i: nat, j: int, step: int): Node? {
    var at := if j == i then j + step else j;
    if 0 <= at < |s| then s[at] else null
  }

  // -------------------------------------------------------------- nodes by key

  /** The nodes of a table, by key. */
  type Index = map<Key, Node>

  /** The index files every node under its own key; nodes bounds the objects involved. */
  ghost predicate Keyed(index: Index, nodes: set<Node>) {
    forall k :: k in index ==> index[k] in nodes && index[k].key == k
  }

  ghost predicate Within(s: seq<Key>, index: Index) {
    forall i :: 0 <= i < |s| ==> s[i] in index
  }

  ghost function NodesAt(index: Index, s: seq<Key>): (r: seq<Node>)
    requires Within(s, index)
    ensures |r| == |s| && forall i :: 0 <= i < |s| ==> r[i] == index[s[i]]
  {
    seq(|s|, i requires 0 <= i < |s| => index[s[i]])
  }

  ghost predicate ChainAt(index: Index, nodes: set<Node>, head: Node?, c: seq<Key>)
    reads nodes`next
  {
    Keyed(index, nodes) && Within(c, index) && Linked(head, NodesAt(index, c))
  }

  ghost predicate OrderAt(index: Index, nodes: set<Node>, head: Node?, tail: Node?, s: seq<Key>)
    reads nodes`lruPrev, nodes`lruNext
  {
    Keyed(index, nodes) && Within(s, index) && Threaded(head, tail, NodesAt(index, s))
  }

  /** Each bucket of the array starts its own chain. */
  ghost predicate Chained(index: Index, nodes: set<Node>, heads: array<Node?>, chains: seq<seq<Key>>)
    reads nodes`next, heads
  {
    && heads.Length == |chains|
    && forall b :: 0 <= b < |chains| ==> ChainAt(index, nodes, heads[b], chains[b])
  }

  ghost function Contents(index: Index, nodes: set<Node>): map<Key, Entry>
    requires Keyed(index, nodes)
    reads nodes`value, nodes`expiration
  {
    map k | k in index :: index[k].Content()
  }

  ghost predicate Footprints(cfg: Config, index: Index, nodes: set<Node>)
    requires Keyed(index, nodes)
    reads nodes`value, nodes`footprint
  {
    forall k :: k in index ==> index[k].footprint == Footprint(cfg, k, index[k].value)
  }

  /** The chain half of the table's invariant. */
  ghost predicate Shaped(cfg: Config, index: Index, nodes: set<Node>, heads: array<Node?>, chains: seq<seq<Key>>)
    reads nodes`next, heads
  {
    && Keyed(index, nodes)
    && Partitioned(cfg, chains, index.Keys)
    && Chained(index, nodes, heads, chains)
  }

  /** The counters and the abstract table agree with the nodes. */
  ghost predicate Accounted(cfg: Config, index: Index, nodes: set<Node>, t: Table, size: nat, bytes: nat)
    reads nodes`value, nodes`expiration, nodes`footprint
  {
    && Keyed(index, nodes)
    && Footprints(cfg, index, nodes)
    && t.entries == Contents(index, nodes)
    && Listed(t)
    && size == |t.entries|
    && bytes == EntryBytes(cfg, t)
  }

  /** The chains partition the keys by bucket. */
  ghost predicate Partitioned(cfg: Config, chains: seq<seq<Key>>, keys: set<Key>) {
    && |chains| >= 1
    && (forall b, k {:trigger k in chains[b]} :: 0 <= b < |chains| && k in chains[b] ==>
          k in keys && Slot(cfg, k, |chains|) == b)
    && (forall b :: 0 <= b < |chains| ==> Distinct(chains[b]))
    && (forall k :: k in keys ==> k in chains[Slot(cfg, k, |chains|)])
  }

  // -------------------------------------------------------------- facts about keys

  /** s without its i-th element. */
  ghost function Cut<T>(s: seq<T>, i: nat): seq<T>
    requires i < |s|
  {
    s[..i] + s[i + 1..]
  }

  lemma CutSuffix<T>(s: seq<T>, i: nat)
    requires i < |s|
    ensures |Cut(s, i)| == |s| - 1 && Cut(s, i)[i..] == s[i + 1..]
    ensures forall j :: 0 <= j < i ==> Cut(s, i)[j] == s[j]
  {
  }

  lemma CutElements<T>(s: seq<T>, i: nat)
    requires i < |s| && Distinct(s)
    ensures Distinct(Cut(s, i))
    ensures forall x :: x in Cut(s, i) <==> x in s && x != s[i]
  {
    var t := Cut(s, i);
    assert forall j :: 0 <= j < |t| ==> t[j] == s[if j < i then j else j + 1];
    forall x | x in s && x != s[i]
      ensures x in t
    {
      var j :| 0 <= j < |s| && s[j] == x;
      assert t[if j < i then j else j - 1] == x;
    }
  }

  lemma PartitionPush(cfg: Config, chains: seq<seq<Key>>, keys: set<Key>, k: Key)
    requires Partitioned(cfg, chains, keys) && k !in keys
    ensures var b := Slot(cfg, k, |chains|);
            Partitioned(cfg, chains[b := [k] + chains[b]], keys + {k})
  {
    hide Slot;
    var b := Slot(cfg, k, |chains|);
    DistinctCons(k, chains[b]);
    assert forall x :: x in [k] + chains[b] <==> x == k || x in chains[b];
  }

  lemma PartitionCut(cfg: Config, chains: seq<seq<Key>>, keys: set<Key>, b: nat, i: nat)
    requires Partitioned(cfg, chains, keys)
    requires b < |chains| && i < |chains[b]|
    ensures Partitioned(cfg, chains[b := Cut(chains[b], i)], keys - {chains[b][i]})
  {
    hide Slot, Cut, Distinct;
    CutElements(chains[b], i);
    assert chains[b][i] in chains[b];
    var cs := chains[b := Cut(chains[b], i)];
    assert |cs| == |chains|;
    assert forall x :: 0 <= x < |cs| ==> Distinct(cs[x]);
    forall x, k | 0 <= x < |cs| && k in cs[x]
      ensures k in keys && k != chains[b][i] && Slot(cfg, k, |cs|) == x
    {
      assert k in chains[x];
    }
    forall k | k in keys && k != chains[b][i]
      ensures k in cs[Slot(cfg, k, |cs|)]
    {
      assert k in chains[Slot(cfg, k, |chains|)];
    }
  }

  lemma NodesDistinct(index: Index, nodes: set<Node>, s: seq<Key>)
    requires Keyed(index, nodes) && Within(s, index) && Distinct(s)
    ensures Distinct(NodesAt(index, s))
  {
    var r := NodesAt(index, s);
    forall i, j | 0 <= i < j < |r|
      ensures r[i] != r[j]
    {
      assert r[i].key == s[i] && r[j].key == s[j];
    }
  }

  lemma NodesExclude(index: Index, nodes: set<Node>, k: Key, s: seq<Key>)
    requires Keyed(index, nodes) && Within(s, index) && k in index && k !in s
    ensures index[k] !in NodesAt(index, s)
  {
    assert forall n :: n in NodesAt(index, s) ==> n.key in s;
  }

  /** The ends of the recency list are the ends of the order. */
  lemma OrderEnds(index: Index, nodes: set<Node>, head: Node?, tail: Node?, s: seq<Key>)
    requires OrderAt(index, nodes, head, tail, s)
    ensures (head == null) == (tail == null) == (s == [])
    ensures s != [] ==> head.key == s[0] && tail.key == s[|s| - 1]
  {
  }

  lemma NodesCut(index: Index, s: seq<Key>, i: nat)
    requires Within(s, index) && i < |s|
    ensures Within(Cut(s, i), index)
    ensures NodesAt(index, Cut(s, i)) == Cut(NodesAt(index, s), i)
  {
  }

  /** A chain stays a chain under any index that agrees on its keys. */
  lemma ChainRebase(index: Index, nodes: set<Node>, head: Node?, c: seq<Key>, index': Index, nodes': set<Node>)
    requires ChainAt(index, nodes, head, c) && Keyed(index', nodes')
    requires forall k :: k in c ==> k in index' && index'[k] == index[k]
    ensures ChainAt(index', nodes', head, c)
  {
    assert NodesAt(index', c) == NodesAt(index, c);
  }

  lemma ChainedRebase(index: Index, nodes: set<Node>, heads: array<Node?>, chains: seq<seq<Key>>,
                      index': Index, nodes': set<Node>)
    requires Chained(index, nodes, heads, chains) && Keyed(index', nodes')
    requires forall b, k {:trigger k in chains[b]} :: 0 <= b < |chains| && k in chains[b] ==>
               k in index' && index'[k] == index[k]
    ensures Chained(index', nodes', heads, chains)
  {
    hide ChainAt;
    forall b | 0 <= b < |chains|
      ensures ChainAt(index', nodes', heads[b], chains[b])
    {
      assert ChainAt(index, nodes, heads[b], chains[b]);
      assert forall k :: k in chains[b] ==> k in index by { ChainWithin(index, nodes, heads[b], chains[b]); }
      ChainRebase(index, nodes, heads[b], chains[b], index', nodes');
    }
  }

  lemma PartitionWithin(cfg: Config, chains: seq<seq<Key>>, keys: set<Key>)
    requires Partitioned(cfg, chains, keys)
    ensures |chains| >= 1
    ensures forall b, k {:trigger k in chains[b]} :: 0 <= b < |chains| && k in chains[b] ==> k in keys
  {
  }

  /** The keys whose bucket, among n, comes before b. */
  ghost function BelowSlot(cfg: Config, keys: set<Key>, n: nat, b: nat): set<Key>
    requires n >= 1
  {
    set k | k in keys && Slot(cfg, k, n) < b
  }

  lemma DoneNext(cfg: Config, chains: seq<seq<Key>>, keys: set<Key>, b: nat)
    requires Partitioned(cfg, chains, keys) && b < |chains|
    ensures BelowSlot(cfg, keys, |chains|, b + 1) == BelowSlot(cfg, keys, |chains|, b) + Elements(chains[b])
    ensures forall k :: k in chains[b] ==> k !in BelowSlot(cfg, keys, |chains|, b)
    ensures Distinct(chains[b])
  {
  }

  lemma AllBelow(cfg: Config, keys: set<Key>, n: nat)
    requires n >= 1
    ensures BelowSlot(cfg, keys, n, n) == keys && BelowSlot(cfg, keys, n, 0) == {}
  {
  }

  lemma PartitionDistinct(cfg: Config, chains: seq<seq<Key>>, keys: set<Key>, b: nat)
    requires Partitioned(cfg, chains, keys) && b < |chains|
    ensures Distinct(chains[b])
  {
  }

  lemma ChainsApart(cfg: Config, chains: seq<seq<Key>>, keys: set<Key>, b: nat, x: nat)
    requires Partitioned(cfg, chains, keys)
    requires b < |chains| && x < |chains| && b != x
    ensures forall k :: k in chains[x] ==> k !in chains[b]
  {
  }

  lemma PopFront(index: Index, nodes: set<Node>, node: Node, c: seq<Key>)
    requires ChainAt(index, nodes, node, c)
    ensures c != [] && node.key == c[0] && c[0] in index && index[c[0]] == node && node in nodes
    ensures ChainAt(index, nodes, node.next, c[1..])
  {
    var s := NodesAt(index, c);
    assert s[0].next == if 1 < |s| then s[1] else null;
    assert NodesAt(index, c[1..]) == s[1..];
    assert forall i :: 0 <= i < |s| - 1 ==> s[1..][i] == s[i + 1];
  }

  lemma ChainKeyed(index: Index, nodes: set<Node>, head: Node?, c: seq<Key>)
    requires ChainAt(index, nodes, head, c)
    ensures Keyed(index, nodes)
  {
  }

  lemma ChainEnd(index: Index, nodes: set<Node>, c: seq<Key>)
    requires ChainAt(index, nodes, null, c)
    ensures c == []
  {
  }

  lemma AllChains(index: Index, nodes: set<Node>, heads: array<Node?>, chains: seq<seq<Key>>)
    requires Chained(index, nodes, heads, chains)
    ensures heads.Length == |chains|
    ensures forall b :: 0 <= b < |chains| ==> ChainAt(index, nodes, heads[b], chains[b])
  {
  }

  /** What the link before the i-th node of a chain holds. */
  lemma LinkAt(index: Index, nodes: set<Node>, heads: array<Node?>, chains: seq<seq<Key>>, b: nat, i: nat)
    requires Chained(index, nodes, heads, chains) && b < |chains| && i <= |chains[b]|
    ensures Within(chains[b], index) && Keyed(index, nodes)
    ensures (if i == 0 then heads[b] else index[chains[b][i - 1]].next)
         == (if i < |chains[b]| then index[chains[b][i]] else null)
  {
    var c := chains[b];
    assert ChainAt(index, nodes, heads[b], c);
    var s := NodesAt(index, c);
    if i > 0 { assert s[i - 1].next == if i < |s| then s[i] else null; }
  }

  lemma ChainWithin(index: Index, nodes: set<Node>, head: Node?, c: seq<Key>)
    requires ChainAt(index, nodes, head, c)
    ensures forall k :: k in c ==> k in index
  {
  }

  lemma OrderRebase(index: Index, nodes: set<Node>, head: Node?, tail: Node?, s: seq<Key>,
                    index': Index, nodes': set<Node>)
    requires OrderAt(index, nodes, head, tail, s) && Keyed(index', nodes')
    requires forall k :: k in s ==> k in index' && index'[k] == index[k]
    ensures OrderAt(index', nodes', head, tail, s)
  {
    assert NodesAt(index', s) == NodesAt(index, s);
  }

  lemma ContentsRemove(cfg: Config, index: Index, nodes: set<Node>, k: Key)
    requires Keyed(index, nodes) && Footprints(cfg, index, nodes) && k in index
    ensures Keyed(index - {k}, nodes) && Footprints(cfg, index - {k}, nodes)
    ensures Contents(index - {k}, nodes) == Contents(index, nodes) - {k}
    ensures |Contents(index - {k}, nodes)| == |Contents(index, nodes)| - 1
    ensures k in Contents(index, nodes)
    ensures index[k].footprint == Footprint(cfg, k, Contents(index, nodes)[k].value)
  {
    var m, m' := Contents(index, nodes), Contents(index - {k}, nodes);
    assert m'.Keys == m.Keys - {k};
    assert |m'.Keys| == |m.Keys| - 1;
  }

  lemma ContentsKeys(index: Index, nodes: set<Node>)
    requires Keyed(index, nodes)
    ensures Contents(index, nodes).Keys == index.Keys
  {
  }

  /** Where a stored key stands in the recency order. */
  lemma PositionOf(t: Table, k: Key) returns (p: nat)
    requires Listed(t) && k in t.entries
    ensures p < |t.order| && t.order[p] == k
    ensures Distinct(t.order)
    ensures Cut(t.order, p) == Drop(t.order, {k})
    ensures forall x :: x in Cut(t.order, p) ==> x in t.entries && x != k
  {
    assert k in Elements(t.order);
    p :| 0 <= p < |t.order| && t.order[p] == k;
    DropAt(t.order, p);
    CutElements(t.order, p);
  }

  /** The chain half survives the loss of a node that has been cut out of its chain. */
  lemma ShapedCut(cfg: Config, index: Index, nodes: set<Node>, heads: array<Node?>, chains: seq<seq<Key>>,
                  b: nat, i: nat)
    requires Keyed(index, nodes) && Partitioned(cfg, chains, index.Keys)
    requires b < |chains| && i < |chains[b]|
    requires Chained(index, nodes, heads, chains[b := Cut(chains[b], i)])
    ensures Shaped(cfg, index - {chains[b][i]}, nodes, heads, chains[b := Cut(chains[b], i)])
  {
    hide Chained, Partitioned, Cut;
    var k, cs := chains[b][i], chains[b := Cut(chains[b], i)];
    var rest := index - {k};
    PartitionCut(cfg, chains, index.Keys, b, i);
    assert rest.Keys == index.Keys - {k};
    PartitionWithin(cfg, cs, rest.Keys);
    ChainedRebase(index, nodes, heads, cs, rest, nodes);
  }

  lemma EmptyShaped(cfg: Config, nodes: set<Node>, heads: array<Node?>, chains: seq<seq<Key>>)
    requires heads.Length == |chains| >= 1
    requires forall b :: 0 <= b < |chains| ==> heads[b] == null && chains[b] == []
    ensures Shaped(cfg, map[], nodes, heads, chains)
  {
  }

  lemma AccountedFacts(cfg: Config, index: Index, nodes: set<Node>, t: Table, size: nat, bytes: nat)
    requires Accounted(cfg, index, nodes, t, size, bytes)
    ensures Listed(t) && t.entries.Keys == index.Keys && size == |t.entries| && bytes == EntryBytes(cfg, t)
    ensures Keyed(index, nodes)
    ensures forall k :: k in index ==> t.entries[k] == index[k].Content()
  {
    ContentsKeys(index, nodes);
  }

  ghost function Flatten(chains: seq<seq<Key>>): seq<Key> {
    if chains == [] then [] else Flatten(chains[..|chains| - 1]) + chains[|chains| - 1]
  }

  /** Bucket by bucket, the chains list the keys of the visited buckets once each. */
  lemma {:induction false} FlattenExact(cfg: Config, chains: seq<seq<Key>>, keys: set<Key>, b: nat)
    requires Partitioned(cfg, chains, keys) && b <= |chains|
    ensures Distinct(Flatten(chains[..b]))
    ensures Elements(Flatten(chains[..b])) == BelowSlot(cfg, keys, |chains|, b)
  {
    hide Slot;
    if b == 0 {
      AllBelow(cfg, keys, |chains|);
    } else {
      FlattenExact(cfg, chains, keys, b - 1);
      var f, c := Flatten(chains[..b - 1]), chains[b - 1];
      assert chains[..b][..b - 1] == chains[..b - 1];
      assert Flatten(chains[..b]) == f + c;
      DoneNext(cfg, chains, keys, b - 1);
      DistinctAppend(f, c);
    }
  }

  lemma DistinctAppend<T>(s: seq<T>, u: seq<T>)
    requires Distinct(s) && Distinct(u) && forall x :: x in u ==> x !in Elements(s)
    ensures Distinct(s + u) && Elements(s + u) == Elements(s) + Elements(u)
  {
    assert forall i :: 0 <= i < |s| ==> s[i] in Elements(s);
    assert forall i :: 0 <= i < |u| ==> u[i] in u;
  }

  lemma ShapedPartition(cfg: Config, index: Index, nodes: set<Node>, heads: array<Node?>, chains: seq<seq<Key>>)
    requires Shaped(cfg, index, nodes, heads, chains)
    ensures Partitioned(cfg, chains, index.Keys)
  {
  }

  lemma SweptNone(cfg: Config, t: Table, first: nat, pred: Entry -> bool)
    requires t.buckets >= 1
    ensures Swept(cfg, t, first, 0, pred) == {} && RemoveAll(t, Swept(cfg, t, first, 0, pred)) == t
  {
    assert Swept(cfg, t, first, 0, pred) == {};
    RemoveNothing(t);
  }

  lemma SizeShaped(cfg: Config, index: Index, nodes: set<Node>, heads: array<Node?>, chains: seq<seq<Key>>)
    requires Shaped(cfg, index, nodes, heads, chains)
    ensures heads.Length == |chains| >= 1
  {
  }

  lemma AccountedResize(cfg: Config, index: Index, nodes: set<Node>, t: Table, size: nat, bytes: nat, buckets: nat)
    requires Accounted(cfg, index, nodes, t, size, bytes)
    ensures Accounted(cfg, index, nodes, t.(buckets := buckets), size, bytes)
  {
  }

  lemma EmptyAccounted(cfg: Config, nodes: set<Node>, t: Table)
    requires t.entries == map[] && t.order == []
    ensures Accounted(cfg, map[], nodes, t, 0, 0) && OrderAt(map[], nodes, null, null, [])
  {
  }

  /** The listed keys whose entries the predicate selects. */
  ghost function Selected(t: Table, c: seq<Key>, pred: Entry -> bool): set<Key> {
    set k | k in c && k in t.entries && pred(t.entries[k])
  }

  lemma SelectedNone(t: Table, c: seq<Key>, pred: Entry -> bool)
    ensures Selected(t, c[..0], pred) == {} && RemoveAll(t, Selected(t, c[..0], pred)) == t
  {
    RemoveNothing(t);
    assert Selected(t, c[..0], pred) == {};
  }

  /** One more key of a bucket has been looked at. */
  lemma SelectedNext(t: Table, c: seq<Key>, j: nat, pred: Entry -> bool, t': Table)
    requires j < |c| && t' == RemoveAll(t, Selected(t, c[..j], pred)) && c[j] in t'.entries
    ensures c[j] in t.entries && t.entries[c[j]] == t'.entries[c[j]]
    ensures pred(t.entries[c[j]]) ==>
              && RemoveAll(t', {c[j]}) == RemoveAll(t, Selected(t, c[..j + 1], pred))
              && |Selected(t, c[..j + 1], pred)| == |Selected(t, c[..j], pred)| + 1
    ensures !pred(t.entries[c[j]]) ==> Selected(t, c[..j + 1], pred) == Selected(t, c[..j], pred)
  {
    var sel := Selected(t, c[..j], pred);
    assert c[..j + 1] == c[..j] + [c[j]];
    if pred(t.entries[c[j]]) {
      assert Selected(t, c[..j + 1], pred) == sel + {c[j]};
      RemoveTwice(t, sel, {c[j]});
    } else {
      assert Selected(t, c[..j + 1], pred) == sel;
    }
  }

  /** Sweeping one more bucket of the window takes out exactly what it selects there. */
  lemma SweptNext(cfg: Config, t: Table, first: nat, offset: nat, pred: Entry -> bool, t': Table, chains: seq<seq<Key>>)
    requires t.buckets >= 1 && t' == RemoveAll(t, Swept(cfg, t, first, offset, pred))
    requires Partitioned(cfg, chains, t'.entries.Keys) && |chains| == t.buckets
    ensures var sel := Selected(t', chains[Wrap(first, offset, t.buckets)], pred);
            && RemoveAll(t', sel) == RemoveAll(t, Swept(cfg, t, first, offset + 1, pred))
            && |Swept(cfg, t, first, offset + 1, pred)| == |Swept(cfg, t, first, offset, pred)| + |sel|
  {
    hide Slot, Wrap, InWindow;
    var b := Wrap(first, offset, t.buckets);
    var sw, sel := Swept(cfg, t, first, offset, pred), Selected(t', chains[b], pred);
    forall k | k in t.entries
      ensures k in Swept(cfg, t, first, offset + 1, pred) <==> k in sw + sel
    {
      WindowNext(Slot(cfg, k, t.buckets), first, offset, t.buckets);
    }
    assert Swept(cfg, t, first, offset + 1, pred) == sw + sel;
    assert sw !! sel;
    RemoveTwice(t, sw, sel);
  }

  lemma BucketWithin(cfg: Config, index: Index, nodes: set<Node>, heads: array<Node?>, chains: seq<seq<Key>>, b: nat)
    requires Shaped(cfg, index, nodes, heads, chains) && b < |chains|
    ensures Within(chains[b], index)
  {
    assert ChainAt(index, nodes, heads[b], chains[b]);
  }

  lemma AccountedCut(cfg: Config, index: Index, nodes: set<Node>, t: Table, size: nat, bytes: nat, k: Key)
    requires Accounted(cfg, index, nodes, t, size, bytes) && k in index
    ensures size > 0 && bytes >= index[k].footprint
    ensures Accounted(cfg, index - {k}, nodes, Remove(t, k), size - 1, bytes - index[k].footprint)
  {
    hide Listed, Contents, Footprints, EntryBytes, Drop, Keyed;
    ContentsRemove(cfg, index, nodes, k);
    RemoveBytes(cfg, t, k);
    RemoveAllListed(t, {k});
  }

  lemma AccountedTouch(cfg: Config, index: Index, nodes: set<Node>, t: Table, size: nat, bytes: nat, k: Key)
    requires Accounted(cfg, index, nodes, t, size, bytes) && k in index
    ensures Accounted(cfg, index, nodes, Touch(t, k), size, bytes)
  {
    hide Contents, Footprints, EntryBytes;
    ContentsKeys(index, nodes);
    TouchListed(cfg, t, k);
  }

  /** The accounting after a new node is added. */
  lemma AccountedInsert(cfg: Config, index: Index, nodes: set<Node>, t: Table, size: nat, bytes: nat, node: Node)
    requires Accounted(cfg, index, nodes, t, size, bytes) && node.key !in index
    requires node.expiration == None && node.footprint == Footprint(cfg, node.key, node.value)
    ensures Accounted(cfg, index[node.key := node], nodes + {node}, Written(t, node.key, node.value),
                      size + 1, bytes + node.footprint)
  {
    hide Listed, EntryBytes, Written;
    var index', nodes' := index[node.key := node], nodes + {node};
    ContentsKeys(index, nodes);
    assert Contents(index', nodes') == Contents(index, nodes)[node.key := node.Content()];
    WrittenEntries(t, node.key, node.value);
    WrittenListed(t, node.key, node.value);
    WrittenSize(t, node.key, node.value);
    WrittenBytes(cfg, t, node.key, node.value);
  }

  /** The accounting after a stored node is overwritten, given that only it has changed. */
  lemma AccountedWritten(cfg: Config, index: Index, nodes: set<Node>, t: Table, size: nat, bytes: nat,
                         node: Node, value: Bytes)
    requires Keyed(index, nodes) && t.entries.Keys == index.Keys && Listed(t) && size == |t.entries|
    requires node.key in index && index[node.key] == node && node.Content() == Entry(node.key, value, None)
    requires node.footprint == Footprint(cfg, node.key, value)
    requires forall k :: k in index && k != node.key ==>
               index[k].Content() == t.entries[k] && index[k].footprint == Footprint(cfg, k, index[k].value)
    requires bytes == EntryBytes(cfg, Written(t, node.key, value))
    ensures Accounted(cfg, index, nodes, Written(t, node.key, value), size, bytes)
  {
    hide Listed, EntryBytes, Written, Footprint;
    WrittenEntries(t, node.key, value);
    WrittenListed(t, node.key, value);
    WrittenSize(t, node.key, value);
    assert Contents(index, nodes) == t.entries[node.key := Entry(node.key, value, None)];
  }

  /** Adding a key to the index disturbs neither list. */
  lemma InsertRebase(cfg: Config, index: Index, nodes: set<Node>, heads: array<Node?>, chains: seq<seq<Key>>,
                     head: Node?, tail: Node?, order: seq<Key>, node: Node)
    requires Shaped(cfg, index, nodes, heads, chains) && OrderAt(index, nodes, head, tail, order)
    requires node.key !in index
    ensures Keyed(index[node.key := node], nodes + {node})
    ensures Chained(index[node.key := node], nodes + {node}, heads, chains)
    ensures OrderAt(index[node.key := node], nodes + {node}, head, tail, order)
    ensures Partitioned(cfg, chains, index.Keys)
  {
    hide Slot, Chained, Threaded;
    PartitionWithin(cfg, chains, index.Keys);
    ChainedRebase(index, nodes, heads, chains, index[node.key := node], nodes + {node});
    OrderRebase(index, nodes, head, tail, order, index[node.key := node], nodes + {node});
  }

  /** Where a stored key stands in the recency order, and what cutting it out leaves. */
  lemma OrderPosition(cfg: Config, index: Index, nodes: set<Node>, t: Table, size: nat, bytes: nat, k: Key)
    returns (p: nat)
    requires Accounted(cfg, index, nodes, t, size, bytes) && k in index
    ensures p < |t.order| && t.order[p] == k && Distinct(t.order)
    ensures Cut(t.order, p) == Drop(t.order, {k})
    ensures forall x :: x in Cut(t.order, p) ==> x in index && x != k
    ensures Distinct(Cut(t.order, p))
    ensures Remove(t, k).order == Cut(t.order, p) && Remove(t, k).buckets == t.buckets
    ensures Keyed(index - {k}, nodes) && index[k].key == k && index[k] in nodes
  {
    ContentsKeys(index, nodes);
    p := PositionOf(t, k);
    CutElements(t.order, p);
  }

  // -------------------------------------------------------------- the table

  class HashTable {
    const cfg: Config
    var buckets: array<Node?>
    var size: nat
    var entryBytes: nat
    var lruHead: Node?
    var lruTail: Node?

    ghost var nodes: set<Node>
    ghost var index: Index
    ghost var chains: seq<seq<Key>>
    ghost var view: Table

    ghost function Repr(): set<object>
      reads this
    {
      {this, buckets} + nodes
    }

    /** Everything but the bound on the load, which an insertion may pass for a moment. */
    ghost predicate Core()
      reads this, buckets, nodes
    {
      && Shaped(cfg, index, nodes, buckets, chains)
      && OrderAt(index, nodes, lruHead, lruTail, view.order)
      && Accounted(cfg, index, nodes, view, size, entryBytes)
      && view.buckets == |chains|
    }

    ghost predicate Valid()
      reads this, buckets, nodes
    {
      Core() && Sized(view)
    }

    constructor (cfg: Config, initialBucketCount: nat)
      ensures Valid() && fresh(Repr())
      ensures view == Empty(initialBucketCount)
      ensures this.cfg == cfg
    {
      var n := Bits.RoundUp(initialBucketCount);
      this.cfg := cfg;
      buckets := new Node?[n](_ => null);
      size, entryBytes, lruHead, lruTail := 0, 0, null, null;
      nodes, index, chains := {}, map[], seq(n, _ => []);
      view := Empty(initialBucketCount);
      new;
      hide Shaped, Accounted, OrderAt, Bits.RoundUp;
      Bits.RoundUpIsLeast(initialBucketCount);
      EmptyShaped(cfg, nodes, buckets, chains);
      EmptyAccounted(cfg, nodes, view);
    }

    lemma CoreFacts()
      requires Core()
      ensures buckets.Length == |chains| == view.buckets >= 1
      ensures Partitioned(cfg, chains, view.entries.Keys)
      ensures Listed(view) && size == |view.entries| && entryBytes == EntryBytes(cfg, view)
      ensures forall k :: k in view.entries ==> view.entries[k].key == k
    {
      hide Shaped, OrderAt, Accounted;
      AccountedFacts(cfg, index, nodes, view, size, entryBytes);
      SizeShaped(cfg, index, nodes, buckets, chains);
      ShapedPartition(cfg, index, nodes, buckets, chains);
    }

    /** What a valid table promises of its fields. */
    lemma ValidFacts()
      requires Valid()
      ensures WellFormed(view) && buckets.Length == view.buckets >= 1
      ensures size == |view.entries| && entryBytes == EntryBytes(cfg, view)
    {
      hide Core;
      CoreFacts();
    }

    // ------------------------------------------------------------ recency list

    method LruPushFront(node: Node, ghost rest: seq<Node>)
      requires Threaded(lruHead, lruTail, rest) && Distinct(rest)
      requires node !in rest
      modifies this`lruHead, this`lruTail, rest`lruPrev, rest`lruNext, node`lruPrev, node`lruNext
      ensures Threaded(lruHead, lruTail, [node] + rest)
    {
      node.lruPrev := null;
      node.lruNext := lruHead;
      if lruHead != null {
        lruHead.lruPrev := node;
      }
      lruHead := node;
      if lruTail == null {
        lruTail := node;
      }
      ghost var s := [node] + rest;
      assert forall i :: 1 <= i < |s| ==> s[i] == rest[i - 1];
    }

    method LruUnlink(node: Node, ghost s: seq<Node>, ghost i: nat)
      requires Threaded(lruHead, lruTail, s) && Distinct(s)
      requires i < |s| && s[i] == node
      modifies this`lruHead, this`lruTail, s`lruPrev, s`lruNext
      ensures Threaded(lruHead, lruTail, Cut(s, i))
    {
      assert s[i].lruPrev == if i == 0 then null else s[i - 1];
      assert s[i].lruNext == if i + 1 < |s| then s[i + 1] else null;
      if node.lruPrev != null {
        node.lruPrev.lruNext := node.lruNext;
      } else if lruHead == node {
        lruHead := node.lruNext;
      }
      if node.lruNext != null {
        node.lruNext.lruPrev := node.lruPrev;
      } else if lruTail == node {
        lruTail := node.lruPrev;
      }
      node.lruPrev := null;
      node.lruNext := null;
      ThreadedCut(lruHead, lruTail, s, i);
    }

    method Unthread(node: Node, ghost s: seq<Key>, ghost i: nat)
      requires OrderAt(index, nodes, lruHead, lruTail, s) && Distinct(s)
      requires i < |s| && index[s[i]] == node
      modifies this`lruHead, this`lruTail, nodes`lruPrev, nodes`lruNext
      ensures OrderAt(index, nodes, lruHead, lruTail, Cut(s, i))
    {
      hide Threaded, Cut;
      NodesDistinct(index, nodes, s);
      NodesCut(index, s, i);
      LruUnlink(node, NodesAt(index, s), i);
    }

    method ThreadFront(node: Node, ghost s: seq<Key>)
      requires OrderAt(index, nodes, lruHead, lruTail, s) && Distinct(s)
      requires node.key in index && index[node.key] == node && node.key !in s
      modifies this`lruHead, this`lruTail, nodes`lruPrev, nodes`lruNext
      ensures OrderAt(index, nodes, lruHead, lruTail, [node.key] + s)
    {
      hide Threaded;
      NodesDistinct(index, nodes, s);
      assert NodesAt(index, [node.key] + s) == [node] + NodesAt(index, s);
      LruPushFront(node, NodesAt(index, s));
    }

    // ------------------------------------------------------------ chains

    /** Walks a chain to the key; prev is the node whose next link would be spliced, or null at the head. */
    method Walk(head: Node?, key: Key, ghost s: seq<Node>) returns (prev: Node?, node: Node?, ghost i: nat)
      requires Linked(head, s)
      ensures i <= |s| && node == (if i < |s| then s[i] else null)
      ensures node != null ==> node.key == key && prev == if i == 0 then null else s[i - 1]
      ensures node == null ==> forall j :: 0 <= j < |s| ==> s[j].key != key
    {
      prev, node, i := null, head, 0;
      while node != null
        invariant 0 <= i <= |s|
        invariant node == if i < |s| then s[i] else null
        invariant prev == if i == 0 then null else s[i - 1]
        invariant forall j :: 0 <= j < i ==> s[j].key != key
        decreases |s| - i
      {
        if node.key == key {
          return;
        }
        assert s[i].next == if i + 1 < |s| then s[i + 1] else null;
        prev, node, i := node, node.next, i + 1;
      }
    }

    /** The bucket of a key, and its node there with the node before it. */
    method Locate(key: Key) returns (b: nat, prev: Node?, node: Node?, ghost i: nat)
      requires Shaped(cfg, index, nodes, buckets, chains)
      ensures b < |chains| && Within(chains[b], index)
      ensures node == null ==> key !in index
      ensures node != null ==> key in index && node == index[key] && i < |chains[b]| && chains[b][i] == key
      ensures node != null ==> prev == if i == 0 then null else index[chains[b][i - 1]]
    {
      b := Slot(cfg, key, buckets.Length);
      ghost var c := chains[b];
      assert ChainAt(index, nodes, buckets[b], c);
      assert key in index ==> key in c;
      hide Slot, Partitioned, Chained, Linked;
      prev, node, i := Walk(buckets[b], key, NodesAt(index, c));
    }

    method FindNode(key: Key) returns (node: Node?)
      requires Core()
      ensures node == null ==> key !in view.entries
      ensures node != null ==> key in index && key in view.entries && node == index[key]
      ensures node != null ==> node in nodes && node.key == key && node.Content() == view.entries[key]
    {
      hide Shaped, OrderAt, Listed, EntryBytes;
      var b, prev, n, i := Locate(key);
      node := n;
    }

    /** Closes the chain over the victim; the link to it is the bucket slot or the previous node's next. */
    method CutLink(b: nat, prev: Node?, victim: Node, ghost c: seq<Node>, ghost i: nat)
      requires b < buckets.Length && Linked(buckets[b], c) && Distinct(c)
      requires i < |c| && c[i] == victim && prev == if i == 0 then null else c[i - 1]
      modifies buckets, c`next
      ensures Linked(buckets[b], Cut(c, i))
      ensures forall x :: 0 <= x < buckets.Length && x != b ==> buckets[x] == old(buckets[x])
    {
      assert c[i].next == if i + 1 < |c| then c[i + 1] else null;
      if prev == null {
        buckets[b] := victim.next;
      } else {
        prev.next := victim.next;
      }
      ghost var d := Cut(c, i);
      assert forall j :: 0 <= j < |d| ==> d[j] == c[if j < i then j else j + 1];
    }

    method CutChain(b: nat, prev: Node?, victim: Node, ghost c: seq<Key>, ghost i: nat)
      requires b < buckets.Length && ChainAt(index, nodes, buckets[b], c) && Distinct(c)
      requires i < |c| && index[c[i]] == victim && prev == if i == 0 then null else index[c[i - 1]]
      modifies buckets, nodes`next
      ensures ChainAt(index, nodes, buckets[b], Cut(c, i))
      ensures forall x :: 0 <= x < buckets.Length && x != b ==> buckets[x] == old(buckets[x])
      ensures forall k :: k in index && k !in c ==> index[k].next == old(index[k].next)
    {
      hide Linked;
      NodesDistinct(index, nodes, c);
      NodesCut(index, c, i);
      CutLink(b, prev, victim, NodesAt(index, c), i);
    }

    method Splice(b: nat, prev: Node?, victim: Node, ghost i: nat)
      requires Partitioned(cfg, chains, index.Keys) && Chained(index, nodes, buckets, chains)
      requires b < |chains| && i < |chains[b]| && Within(chains[b], index) && victim == index[chains[b][i]]
      requires prev == if i == 0 then null else index[chains[b][i - 1]]
      modifies buckets, nodes`next
      ensures Chained(index, nodes, buckets, chains[b := Cut(chains[b], i)])
    {
      hide Linked, Slot, Partitioned, Distinct, Keyed;
      ghost var c := chains[b];
      PartitionDistinct(cfg, chains, index.Keys, b);
      CutChain(b, prev, victim, c, i);
      forall x | 0 <= x < |chains| && x != b
        ensures ChainAt(index, nodes, buckets[x], chains[x])
      {
        ChainsApart(cfg, chains, index.Keys, b, x);
        ghost var s := NodesAt(index, chains[x]);
        assert old(Linked(buckets[x], s));
        assert forall n :: n in s ==> n.next == old(n.next);
      }
    }

    /** Relinks around one node, on its chain and on the recency list. */
    method Unhook(b: nat, prev: Node?, victim: Node, ghost i: nat, ghost p: nat)
      requires Shaped(cfg, index, nodes, buckets, chains)
      requires OrderAt(index, nodes, lruHead, lruTail, view.order) && Distinct(view.order)
      requires b < |chains| && i < |chains[b]| && Within(chains[b], index) && victim == index[chains[b][i]]
      requires prev == if i == 0 then null else index[chains[b][i - 1]]
      requires p < |view.order| && view.order[p] == chains[b][i]
      modifies buckets, nodes`next, this`lruHead, this`lruTail, nodes`lruPrev, nodes`lruNext
      ensures Shaped(cfg, index - {chains[b][i]}, nodes, buckets, chains[b := Cut(chains[b], i)])
      ensures OrderAt(index, nodes, lruHead, lruTail, Cut(view.order, p))
    {
      hide Partitioned, Distinct, Chained, OrderAt, Cut, Keyed;
      Splice(b, prev, victim, i);
      Unthread(victim, view.order, p);
      ShapedCut(cfg, index, nodes, buckets, chains, b, i);
    }

    /** Takes one node out of the table. */
    method Detach(b: nat, prev: Node?, victim: Node, ghost i: nat)
      requires Core()
      requires b < |chains| && i < |chains[b]| && Within(chains[b], index) && victim == index[chains[b][i]]
      requires prev == if i == 0 then null else index[chains[b][i - 1]]
      modifies this, buckets, nodes
      ensures Core() && buckets == old(buckets) && nodes == old(nodes)
      ensures chains == old(chains)[b := Cut(old(chains)[b], i)]
      ensures index == old(index) - {old(chains)[b][i]}
      ensures view == TableSpec.Remove(old(view), old(chains)[b][i])
    {
      hide Shaped, Distinct, OrderAt, Accounted, Cut, Drop, Keyed, TableSpec.Remove;
      ghost var k := chains[b][i];
      ghost var p := OrderPosition(cfg, index, nodes, view, size, entryBytes, k);
      AccountedCut(cfg, index, nodes, view, size, entryBytes, k);
      Unhook(b, prev, victim, i, p);
      OrderRebase(index, nodes, lruHead, lruTail, Cut(view.order, p), index - {k}, nodes);
      Discount(victim, b, i, k);
    }

    method Discount(victim: Node, ghost b: nat, ghost i: nat, ghost k: Key)
      requires b < |chains| && i < |chains[b]| && size > 0 && entryBytes >= victim.footprint
      modifies this`size, this`entryBytes, this`chains, this`view, this`index
      ensures size == old(size) - 1 && entryBytes == old(entryBytes) - victim.footprint
      ensures chains == old(chains)[b := Cut(old(chains)[b], i)]
      ensures view == TableSpec.Remove(old(view), k) && index == old(index) - {k}
    {
      size, entryBytes := size - 1, entryBytes - victim.footprint;
      chains, view, index := chains[b := Cut(chains[b], i)], TableSpec.Remove(view, k), index - {k};
    }

    // ------------------------------------------------------------ lookups

    method Find(key: Key) returns (entry: Option<Entry>)
      requires Valid()
      ensures entry == if key in view.entries then Some(view.entries[key]) else None
    {
      var node := FindNode(key);
      entry := if node == null then None else Some(node.Content());
    }

    /** Sets the deadline of a stored entry. */
    method SetExpiration(key: Key, deadline: Option<Time>)
      requires Valid() && key in view.entries
      modifies this, nodes
      ensures Valid() && Repr() == old(Repr())
      ensures view == Expire(old(view), key, deadline)
    {
      hide Shaped, OrderAt, Accounted, Sized, Keyed;
      var node := FindNode(key);
      WriteExpiration(node, deadline);
      ExpireSized(view, key, deadline);
      view := Expire(view, key, deadline);
    }

    method WriteExpiration(node: Node, deadline: Option<Time>)
      requires Accounted(cfg, index, nodes, view, size, entryBytes)
      requires node in nodes && node.key in index && index[node.key] == node && node.key in view.entries
      modifies node`expiration
      ensures Accounted(cfg, index, nodes, Expire(view, node.key, deadline), size, entryBytes)
    {
      hide Listed, EntryBytes;
      node.expiration := deadline;
      ExpireListed(cfg, view, node.key, deadline);
    }

    method Remove(key: Key) returns (removed: bool)
      requires Valid()
      modifies this, buckets, nodes
      ensures Valid() && Repr() == old(Repr())
      ensures removed == (key in old(view).entries)
      ensures view == TableSpec.Remove(old(view), key)
    {
      hide Shaped, OrderAt, Accounted, Cut, Drop, Keyed, Sized, RemoveAll, Listed;
      AccountedFacts(cfg, index, nodes, view, size, entryBytes);
      ghost var t := view;
      var b, prev, node, i := Locate(key);
      if node == null {
        RemoveAbsent(t, key);
        return false;
      }
      Detach(b, prev, node, i);
      RemoveAllSized(t, {key});
      return true;
    }

    // ------------------------------------------------------------ recency

    /** Moves one stored key to the front of the recency list. */
    method MoveFront(node: Node, ghost p: nat)
      requires OrderAt(index, nodes, lruHead, lruTail, view.order) && Distinct(view.order)
      requires p < |view.order| && node.key == view.order[p] && index[node.key] == node
      requires Distinct(Cut(view.order, p)) && node.key !in Cut(view.order, p)
      modifies this`lruHead, this`lruTail, nodes`lruPrev, nodes`lruNext
      ensures OrderAt(index, nodes, lruHead, lruTail, [node.key] + Cut(view.order, p))
    {
      hide Threaded, Cut, Distinct, Keyed, NodesAt;
      Unthread(node, view.order, p);
      ThreadFront(node, Cut(view.order, p));
    }

    method Touch(key: Key) returns (found: bool)
      requires Valid()
      modifies this, nodes
      ensures Valid() && Repr() == old(Repr())
      ensures found == (key in old(view).entries)
      ensures view == TableSpec.Touch(old(view), key)
    {
      hide Sized, Core;
      CoreFacts();
      var node := FindNode(key);
      if node == null {
        return false;
      }
      Promote(node);
      return true;
    }

    /** Moves a stored node to the front of the recency list, unless it is there. */
    method Promote(node: Node)
      requires Valid() && node in nodes && node.key in index && index[node.key] == node
      modifies this, nodes
      ensures Valid() && Repr() == old(Repr())
      ensures view == TableSpec.Touch(old(view), node.key)
    {
      hide Shaped, Accounted, Cut, Drop, Listed, Distinct, OrderAt, Bits.IsPow2, Elements, EntryBytes;
      OrderEnds(index, nodes, lruHead, lruTail, view.order);
      AccountedFacts(cfg, index, nodes, view, size, entryBytes);
      ghost var p := OrderPosition(cfg, index, nodes, view, size, entryBytes, node.key);
      if lruHead == node {
        FrontStays(view, node.key);
        return;
      }
      MoveFront(node, p);
      AccountedTouch(cfg, index, nodes, view, size, entryBytes, node.key);
      view := TableSpec.Touch(view, node.key);
    }

    method EvictOldest() returns (victim: Option<Key>)
      requires Valid()
      modifies this, buckets, nodes
      ensures Valid() && Repr() == old(Repr())
      ensures victim == if old(view).order == [] then None else Some(old(view).order[|old(view).order| - 1])
      ensures view == TableSpec.EvictOldest(old(view))
    {
      hide Shaped, Accounted, Drop, Sized, Listed, RemoveAll, Keyed, OrderAt;
      OrderEnds(index, nodes, lruHead, lruTail, view.order);
      if lruTail == null {
        return None;
      }
      var victimKey := lruTail.key;
      var removed := Remove(victimKey);
      return Some(victimKey);
    }

    // ------------------------------------------------------------ insertion

    /** Puts the node at the head of its chain. */
    method ChainPush(node: Node, ghost cs: seq<seq<Key>>) returns (ghost cs': seq<seq<Key>>)
      requires Keyed(index, nodes) && node.key in index && index[node.key] == node
      requires |cs| >= 1 && Chained(index, nodes, buckets, cs)
      requires forall b :: 0 <= b < |cs| ==> node.key !in cs[b]
      modifies buckets, node`next
      ensures |cs'| == |cs|
      ensures cs' == cs[Slot(cfg, node.key, |cs|) := [node.key] + cs[Slot(cfg, node.key, |cs|)]]
      ensures Chained(index, nodes, buckets, cs')
    {
      hide Slot, Keyed, Linked;
      var b := Slot(cfg, node.key, buckets.Length);
      ghost var c := cs[b];
      assert ChainAt(index, nodes, buckets[b], c);
      NodesExclude(index, nodes, node.key, c);
      PushLink(b, node, NodesAt(index, c));
      cs' := cs[b := [node.key] + c];
      assert NodesAt(index, [node.key] + c) == [node] + NodesAt(index, c);
      forall x | 0 <= x < |cs| && x != b
        ensures ChainAt(index, nodes, buckets[x], cs[x])
      {
        ghost var s := NodesAt(index, cs[x]);
        NodesExclude(index, nodes, node.key, cs[x]);
        assert old(Linked(buckets[x], s));
      }
    }

    method PushLink(b: nat, node: Node, ghost s: seq<Node>)
      requires b < buckets.Length && Linked(buckets[b], s) && node !in s
      modifies buckets, node`next
      ensures Linked(buckets[b], [node] + s)
      ensures forall x :: 0 <= x < buckets.Length && x != b ==> buckets[x] == old(buckets[x])
    {
      node.next := buckets[b];
      buckets[b] := node;
      ghost var u := [node] + s;
      assert forall i :: 1 <= i < |u| ==> u[i] == s[i - 1];
    }

    /** Overwrites the value of a stored node and adjusts the running total by the difference. */
    method WriteValue(node: Node, value: Bytes)
      requires Accounted(cfg, index, nodes, view, size, entryBytes)
      requires node in nodes && node.key in index && index[node.key] == node && node.key in view.entries
      modifies node`value, node`expiration, node`footprint, this`entryBytes
      ensures Accounted(cfg, index, nodes, Written(view, node.key, value), size, entryBytes)
    {
      hide Listed, EntryBytes, Written, Footprint;
      BytesDrop(cfg, view, node.key);
      WrittenBytes(cfg, view, node.key, value);
      node.value := value;
      node.expiration := None;
      var updated := Footprint(cfg, node.key, value);
      entryBytes := entryBytes - node.footprint + updated;
      node.footprint := updated;
      AccountedWritten(cfg, index, nodes, view, size, entryBytes, node, value);
    }

    method Overwrite(node: Node, value: Bytes)
      requires Valid()
      requires node in nodes && node.key in index && index[node.key] == node && node.key in view.entries
      modifies this, nodes
      ensures Valid() && Repr() == old(Repr())
      ensures view == TableSpec.Put(old(view), node.key, value)
    {
      hide Shaped, Accounted, OrderAt, Distinct, Cut, Sized, Drop, Elements;
      ghost var p := OrderPosition(cfg, index, nodes, view, size, entryBytes, node.key);
      PutSized(view, node.key, value);
      WriteValue(node, value);
      MoveFront(node, p);
      view := TableSpec.Put(view, node.key, value);
    }

    /** Links a node that is in the index but on neither list. */
    method Hook(node: Node, ghost rest: seq<Key>)
      requires Keyed(index, nodes) && node.key in index && index[node.key] == node
      requires Chained(index, nodes, buckets, chains) && Partitioned(cfg, chains, index.Keys - {node.key})
      requires OrderAt(index, nodes, lruHead, lruTail, rest) && Distinct(rest)
      requires node.key !in rest
      modifies buckets, node`next, this`lruHead, this`lruTail, nodes`lruPrev, nodes`lruNext, this`chains
      ensures Shaped(cfg, index, nodes, buckets, chains) && |chains| == old(|chains|)
      ensures OrderAt(index, nodes, lruHead, lruTail, [node.key] + rest)
    {
      hide OrderAt, Distinct, Chained, Slot, Keyed, Partitioned;
      ghost var keys := index.Keys - {node.key};
      PartitionPush(cfg, chains, keys, node.key);
      assert keys + {node.key} == index.Keys;
      PartitionWithin(cfg, chains, keys);
      ghost var cs := ChainPush(node, chains);
      ThreadFront(node, rest);
      chains := cs;
    }

    method Register(node: Node, value: Bytes)
      modifies this`index, this`nodes, this`view, this`size, this`entryBytes
      ensures index == old(index)[node.key := node] && nodes == old(nodes) + {node}
      ensures view == Written(old(view), node.key, value)
      ensures size == old(size) + 1 && entryBytes == old(entryBytes) + node.footprint
    {
      index, nodes, view := index[node.key := node], nodes + {node}, Written(view, node.key, value);
      entryBytes, size := entryBytes + node.footprint, size + 1;
    }

    /** Adds a node for a new key; the load may pass its bound. */
    method Insert(key: Key, value: Bytes)
      requires Valid() && key !in view.entries
      modifies this, buckets, nodes
      ensures Core() && buckets == old(buckets) && fresh(nodes - old(nodes))
      ensures view == Written(old(view), key, value)
    {
      hide Shaped, Accounted, OrderAt, Distinct, Sized, Chained, Partitioned, Keyed, Written, Listed, EntryBytes;
      AccountedFacts(cfg, index, nodes, view, size, entryBytes);
      WrittenOrder(view, key, value);
      ghost var rest := view.order;
      var node := Enlist(key, value);
      Hook(node, rest);
    }

    /** Makes a node for a new key and counts it; it is not yet on any list. */
    method Enlist(key: Key, value: Bytes) returns (node: Node)
      requires Core() && key !in index
      modifies this`index, this`nodes, this`view, this`size, this`entryBytes
      ensures fresh(node) && node.key == key && nodes == old(nodes) + {node} && index == old(index)[key := node]
      ensures view == Written(old(view), key, value)
      ensures Keyed(index, nodes) && Chained(index, nodes, buckets, chains)
      ensures Partitioned(cfg, chains, index.Keys - {key})
      ensures OrderAt(index, nodes, lruHead, lruTail, old(view).order)
      ensures Accounted(cfg, index, nodes, view, size, entryBytes)
    {
      hide Shaped, Accounted, OrderAt, Sized, Chained, Partitioned, Keyed, Written, Listed, EntryBytes;
      node := new Node(key, value, Footprint(cfg, key, value));
      InsertRebase(cfg, index, nodes, buckets, chains, lruHead, lruTail, view.order, node);
      AccountedInsert(cfg, index, nodes, view, size, entryBytes, node);
      assert index[key := node].Keys - {key} == index.Keys;
      Register(node, value);
    }

    // ------------------------------------------------------------ rehashing

    /** Relinks every node of one old chain into the new buckets. */
    method MoveChain(head: Node?, ghost c: seq<Key>, ghost cs: seq<seq<Key>>, ghost done: set<Key>)
      returns (ghost cs': seq<seq<Key>>)
      requires ChainAt(index, nodes, head, c) && Distinct(c)
      requires Partitioned(cfg, cs, done) && Chained(index, nodes, buckets, cs)
      requires forall k :: k in c ==> k !in done
      modifies buckets, nodes`next
      ensures |cs'| == |cs|
      ensures Partitioned(cfg, cs', done + Elements(c)) && Chained(index, nodes, buckets, cs')
      ensures forall k :: k in index && k !in c ==> index[k].next == old(index[k].next)
    {
      hide Partitioned, Chained, ChainAt, Distinct;
      cs' := cs;
      var node := head;
      ghost var i := 0;
      assert Keyed(index, nodes) by { ChainKeyed(index, nodes, head, c); }
      assert c[0..] == c && done + Elements(c[..0]) == done;
      while node != null
        invariant 0 <= i <= |c| && |cs'| == |cs|
        invariant ChainAt(index, nodes, node, c[i..])
        invariant Partitioned(cfg, cs', done + Elements(c[..i])) && Chained(index, nodes, buckets, cs')
        invariant forall k :: k in index && k !in c ==> index[k].next == old(index[k].next)
        decreases |c| - i
      {
        PopFront(index, nodes, node, c[i..]);
        node, cs' := MoveNode(node, c, i, cs', done);
        i := i + 1;
      }
      ChainEnd(index, nodes, c[i..]);
      assert c[..i] == c;
    }

    /** Relinks the i-th node of an old chain into its new bucket. */
    method MoveNode(node: Node, ghost c: seq<Key>, ghost i: nat, ghost cs: seq<seq<Key>>, ghost done: set<Key>)
      returns (next: Node?, ghost cs': seq<seq<Key>>)
      requires i <= |c| && ChainAt(index, nodes, node, c[i..]) && Distinct(c)
      requires Partitioned(cfg, cs, done + Elements(c[..i])) && Chained(index, nodes, buckets, cs)
      requires forall k :: k in c ==> k !in done
      modifies buckets, node`next
      ensures i < |c| && c[i] in index && index[c[i]] == node && |cs'| == |cs|
      ensures ChainAt(index, nodes, next, c[i + 1..])
      ensures Partitioned(cfg, cs', done + Elements(c[..i + 1])) && Chained(index, nodes, buckets, cs')
    {
      hide Partitioned, Chained, Slot, Linked;
      next := node.next;
      PopFront(index, nodes, node, c[i..]);
      ghost var k, before := c[i], done + Elements(c[..i]);
      assert c[i..][1..] == c[i + 1..];
      assert done + Elements(c[..i + 1]) == before + {k};
      assert k !in before && k !in c[i + 1..];
      PartitionWithin(cfg, cs, before);
      PartitionPush(cfg, cs, before, k);
      NodesExclude(index, nodes, k, c[i + 1..]);
      label push:
      cs' := ChainPush(node, cs);
      assert old@push(Linked(next, NodesAt(index, c[i + 1..])));
    }

    /** Moves every chain into a fresh array of the given length. */
    method Rehash(target: nat)
      requires Shaped(cfg, index, nodes, buckets, chains) && target >= 1
      modifies this`buckets, this`chains, nodes`next
      ensures fresh(buckets) && |chains| == target
      ensures Shaped(cfg, index, nodes, buckets, chains)
    {
      hide Chained, Slot, Linked, NodesAt, Partitioned, Distinct, Elements;
      ghost var was, heads := chains, buckets[..];
      var oldBuckets := buckets;
      AllChains(index, nodes, buckets, chains);
      buckets := new Node?[target](_ => null);
      ghost var cs: seq<seq<Key>> := seq(target, _ => []);
      ghost var none: Index := map[];
      EmptyShaped(cfg, nodes, buckets, cs);
      ChainedRebase(none, nodes, buckets, cs, index, nodes);
      assert none.Keys == {};
      ghost var done: set<Key> := {};
      PartitionWithin(cfg, was, index.Keys);
      AllBelow(cfg, index.Keys, |was|);
      var b := 0;
      while b < oldBuckets.Length
        invariant 0 <= b <= oldBuckets.Length && |cs| == target && fresh(buckets) && buckets.Length == target
        invariant oldBuckets[..] == heads
        invariant forall x :: b <= x < |was| ==> ChainAt(index, nodes, heads[x], was[x])
        invariant Partitioned(cfg, cs, done) && Chained(index, nodes, buckets, cs)
        invariant done == BelowSlot(cfg, index.Keys, |was|, b)
      {
        DoneNext(cfg, was, index.Keys, b);
        label move:
        cs := MoveChain(oldBuckets[b], was[b], cs, done);
        forall x | b + 1 <= x < |was|
          ensures ChainAt(index, nodes, heads[x], was[x])
        {
          ChainsApart(cfg, was, index.Keys, b, x);
          assert old@move(ChainAt(index, nodes, heads[x], was[x]));
          assert old@move(Linked(heads[x], NodesAt(index, was[x])));
        }
        done := done + Elements(was[b]);
        b := b + 1;
      }
      chains := cs;
    }

    method Resize(newBucketCount: nat)
      requires Core() && Bits.IsPow2(view.buckets)
      modifies this, nodes`next
      ensures Valid() && nodes == old(nodes) && fresh(Repr() - old(Repr()))
      ensures view == TableSpec.Resize(old(view), newBucketCount)
    {
      hide Core, Bits.IsPow2, Bits.RoundUp, Fitted, Partitioned, Listed;
      CoreFacts();
      Bits.RoundUpIsLeast(newBucketCount);
      FittedExact(Bits.RoundUp(newBucketCount), size);
      var target := Target(newBucketCount);
      if target == buckets.Length {
        return;
      }
      Refit(target);
    }

    /** Moves the nodes to an array of another length. */
    method Refit(target: nat)
      requires Core() && target >= 1
      modifies this`buckets, this`chains, this`view, nodes`next
      ensures Core() && fresh(buckets) && view == old(view).(buckets := target)
    {
      hide Shaped, OrderAt, Accounted;
      ghost var t := view;
      Rehash(target);
      view := view.(buckets := target);
      AccountedResize(cfg, index, nodes, t, size, entryBytes, target);
    }

    /** The bucket count a resize goes to. */
    method Target(newBucketCount: nat) returns (target: nat)
      ensures target == Fitted(Bits.RoundUp(newBucketCount), size)
    {
      hide Bits.RoundUp;
      target := Bits.RoundUp(newBucketCount);
      while 4 * size > 3 * target
        invariant target >= 1 && Fitted(target, size) == Fitted(Bits.RoundUp(newBucketCount), size)
        decreases 4 * size - 3 * target
      {
        target := target * 2;
      }
    }

    method GrowIfNeeded()
      requires Core() && Bits.IsPow2(view.buckets) && 4 * |view.entries| <= 6 * view.buckets
      modifies this, nodes`next
      ensures Valid() && nodes == old(nodes) && fresh(Repr() - old(Repr()))
      ensures view == old(view).(buckets := Grown(old(view).buckets, |old(view).entries|))
    {
      hide Core, Listed, Bits.IsPow2, Bits.RoundUp, Partitioned;
      CoreFacts();
      if 4 * size > 3 * buckets.Length {
        Bits.Pow2Double(buckets.Length);
        Bits.RoundUpFixed(2 * buckets.Length);
        Resize(buckets.Length * 2);
      }
    }

    method Put(key: Key, value: Bytes) returns (inserted: bool)
      requires Valid()
      modifies this, buckets, nodes
      ensures Valid() && fresh(Repr() - old(Repr()))
      ensures inserted == (key !in old(view).entries)
      ensures view == TableSpec.Put(old(view), key, value)
    {
      hide Shaped, OrderAt, Accounted, Bits.IsPow2, Drop, Written;
      ghost var t := view;
      var node := FindNode(key);
      if node != null {
        Overwrite(node, value);
        return false;
      }
      Insert(key, value);
      WrittenSize(t, key, value);
      GrowIfNeeded();
      return true;
    }

    method Clear()
      requires Valid()
      modifies this, buckets
      ensures Valid() && Repr() == old(Repr())
      ensures view == TableSpec.Clear(old(view))
    {
      hide Shaped, Accounted, OrderAt, Bits.IsPow2;
      SizeShaped(cfg, index, nodes, buckets, chains);
      lruHead, lruTail := null, null;
      EmptyBuckets();
      size, entryBytes := 0, 0;
      index, chains, view := map[], seq(|chains|, _ => []), TableSpec.Clear(view);
      EmptyShaped(cfg, nodes, buckets, chains);
      EmptyAccounted(cfg, nodes, view);
    }

    method EmptyBuckets()
      modifies buckets
      ensures forall x :: 0 <= x < buckets.Length ==> buckets[x] == null
    {
      var b := 0;
      while b < buckets.Length
        invariant 0 <= b <= buckets.Length
        invariant forall x :: 0 <= x < b ==> buckets[x] == null
        modifies buckets
      {
        buckets[b] := null;
        b := b + 1;
      }
    }

    // ------------------------------------------------------------ sweeping

    /** The node a link holds: the bucket slot, or the next field of the node before. */
    method Deref(b: nat, prev: Node?, ghost i: nat) returns (node: Node?)
      requires Shaped(cfg, index, nodes, buckets, chains)
      requires b < |chains| && i <= |chains[b]| && Within(chains[b], index)
      requires prev == if i == 0 then null else index[chains[b][i - 1]]
      ensures node == if i < |chains[b]| then index[chains[b][i]] else null
    {
      hide Chained, Partitioned;
      SizeShaped(cfg, index, nodes, buckets, chains);
      LinkAt(index, nodes, buckets, chains, b, i);
      node := if prev == null then buckets[b] else prev.next;
    }

    /** The node at the head of a bucket. */
    method Start(b: nat) returns (node: Node?)
      requires Core() && b < |chains|
      ensures Within(chains[b], index) && node == if chains[b] == [] then null else index[chains[b][0]]
    {
      hide Shaped, OrderAt, Accounted;
      BucketWithin(cfg, index, nodes, buckets, chains, b);
      node := Deref(b, null, 0);
    }

    /** One step of the sweep: drops the node a link holds, or moves the link past it. */
    method SweepNode(b: nat, prev: Node?, node: Node, pred: Entry -> bool, ghost i: nat)
      returns (removed: bool, prev': Node?, node': Node?, ghost i': nat)
      requires Core() && b < |chains| && i < |chains[b]| && Within(chains[b], index)
      requires prev == if i == 0 then null else index[chains[b][i - 1]]
      requires node == index[chains[b][i]]
      modifies this, buckets, nodes
      ensures Core() && buckets == old(buckets) && nodes == old(nodes) && |chains| == old(|chains|)
      ensures forall x :: 0 <= x < |chains| && x != b ==> chains[x] == old(chains)[x]
      ensures i' <= |chains[b]| && chains[b][i'..] == old(chains)[b][i + 1..] && Within(chains[b], index)
      ensures prev' == if i' == 0 then null else index[chains[b][i' - 1]]
      ensures node' == if i' < |chains[b]| then index[chains[b][i']] else null
      ensures old(chains)[b][i] in old(view).entries
      ensures removed == pred(old(view).entries[old(chains)[b][i]])
      ensures view == if removed then TableSpec.Remove(old(view), old(chains)[b][i]) else old(view)
    {
      hide Shaped, OrderAt, Accounted, Cut, Drop, RemoveAll, Keyed, Listed, EntryBytes;
      AccountedFacts(cfg, index, nodes, view, size, entryBytes);
      removed := pred(node.Content());
      if removed {
        CutSuffix(chains[b], i);
        Detach(b, prev, node, i);
        BucketWithin(cfg, index, nodes, buckets, chains, b);
        prev', i' := prev, i;
      } else {
        prev', i' := node, i + 1;
      }
      node' := Deref(b, prev', i');
    }

    /** Removes from one bucket every entry the predicate selects. */
    method SweepBucket(b: nat, pred: Entry -> bool) returns (removed: nat)
      requires Core() && b < |chains|
      modifies this, buckets, nodes
      ensures Core() && buckets == old(buckets) && nodes == old(nodes) && |chains| == old(|chains|)
      ensures forall x :: 0 <= x < |chains| && x != b ==> chains[x] == old(chains)[x]
      ensures removed == |Selected(old(view), old(chains)[b], pred)|
      ensures view == RemoveAll(old(view), Selected(old(view), old(chains)[b], pred))
    {
      hide Core, RemoveAll, Selected;
      removed := 0;
      ghost var t, c, j, i := view, chains[b], 0, 0;
      var prev: Node? := null;
      var node := Start(b);
      SelectedNone(t, c, pred);
      assert c[0..] == c;
      while node != null
        invariant Core() && buckets == old(buckets) && nodes == old(nodes) && |chains| == old(|chains|)
        invariant forall x :: 0 <= x < |chains| && x != b ==> chains[x] == old(chains)[x]
        invariant 0 <= i <= |chains[b]| && 0 <= j <= |c| && chains[b][i..] == c[j..] && Within(chains[b], index)
        invariant prev == if i == 0 then null else index[chains[b][i - 1]]
        invariant node == if i < |chains[b]| then index[chains[b][i]] else null
        invariant removed == |Selected(t, c[..j], pred)|
        invariant view == RemoveAll(t, Selected(t, c[..j], pred))
        decreases |c| - j
      {
        assert chains[b][i] == chains[b][i..][0] == c[j] && c[j..][1..] == c[j + 1..] == chains[b][i + 1..];
        ghost var was := view;
        var took;
        took, prev, node, i := SweepNode(b, prev, node, pred, i);
        SelectedNext(t, c, j, pred, was);
        removed := if took then removed + 1 else removed;
        j := j + 1;
      }
      assert c[j..] == [] && c[..j] == c;
    }

    method RemoveIf(firstBucket: nat, bucketsToScan: nat, pred: Entry -> bool) returns (removed: nat)
      requires Valid()
      modifies this, buckets, nodes
      ensures Valid() && Repr() == old(Repr())
      ensures removed == |Swept(cfg, old(view), firstBucket, Min(bucketsToScan, old(view).buckets), pred)|
      ensures view == TableSpec.RemoveIf(cfg, old(view), firstBucket, bucketsToScan, pred)
    {
      hide Shaped, OrderAt, Accounted, Drop, RemoveAll, Keyed, Listed, EntryBytes, Swept, Selected, Bits.IsPow2;
      ghost var t := view;
      SizeShaped(cfg, index, nodes, buckets, chains);
      SweptNone(cfg, t, firstBucket, pred);
      removed := 0;
      if bucketsToScan == 0 {
        return;
      }
      var total := buckets.Length;
      var toScan := Min(bucketsToScan, total);
      var offset := 0;
      while offset < toScan
        invariant 0 <= offset <= toScan
        invariant Core() && buckets == old(buckets) && nodes == old(nodes) && |chains| == total
        invariant removed == |Swept(cfg, t, firstBucket, offset, pred)|
        invariant view == RemoveAll(t, Swept(cfg, t, firstBucket, offset, pred))
      {
        var b := Wrap(firstBucket, offset, total);
        AccountedFacts(cfg, index, nodes, view, size, entryBytes);
        ShapedPartition(cfg, index, nodes, buckets, chains);
        SweptNext(cfg, t, firstBucket, offset, pred, view, chains);
        var n := SweepBucket(b, pred);
        removed := removed + n;
        offset := offset + 1;
      }
      RemoveAllSized(t, Swept(cfg, t, firstBucket, toScan, pred));
    }

    // ------------------------------------------------------------ listings

    /** Appends the selected entries of one chain. */
    method CollectChain(b: nat, pred: Entry -> bool, acc: seq<Entry>) returns (result: seq<Entry>)
      requires Core() && b < |chains|
      ensures result == acc + Filtered(view.entries, chains[b], pred)
    {
      hide Chained, Partitioned, OrderAt, Accounted, Listed, EntryBytes, Filtered;
      AccountedFacts(cfg, index, nodes, view, size, entryBytes);
      SizeShaped(cfg, index, nodes, buckets, chains);
      LinkAt(index, nodes, buckets, chains, b, 0);
      ghost var c, i := chains[b], 0;
      var node := buckets[b];
      result := acc;
      assert c[..0] == [] && Filtered(view.entries, c[..0], pred) == [] by { FilteredNone(view.entries, pred); }
      while node != null
        invariant 0 <= i <= |c|
        invariant node == if i < |c| then index[c[i]] else null
        invariant result == acc + Filtered(view.entries, c[..i], pred)
        decreases |c| - i
      {
        FilteredNext(view.entries, c, i, pred);
        LinkAt(index, nodes, buckets, chains, b, i + 1);
        if pred(node.Content()) {
          result := result + [node.Content()];
        }
        node, i := node.next, i + 1;
      }
      assert c[..i] == c;
    }

    method EntriesWhere(pred: Entry -> bool) returns (result: seq<Entry>)
      requires Valid()
      ensures Lists(result, view.entries, pred)
    {
      hide Core, Lists, Distinct, Elements, Partitioned, Sized;
      CoreFacts();
      result := [];
      var b := 0;
      while b < buckets.Length
        invariant 0 <= b <= |chains|
        invariant result == Filtered(view.entries, Flatten(chains[..b]), pred)
      {
        assert chains[..b + 1][..b] == chains[..b];
        FilteredAppend(view.entries, Flatten(chains[..b]), chains[b], pred);
        result := CollectChain(b, pred, result);
        b := b + 1;
      }
      FlattenExact(cfg, chains, view.entries.Keys, b);
      AllBelow(cfg, view.entries.Keys, |chains|);
      FilteredLists(view.entries, Flatten(chains[..b]), pred);
    }
  }
}
