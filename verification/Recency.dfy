/** Sequences of keys in order of last use, as a history of events defines it. */
module Recency {
  import opened Base
  import opened TableSpec

  /** One more than the position of the last event that uses the key, or 0. */
  function LastUse<E>(uses: (E, Key) -> bool, past: seq<E>, k: Key): nat {
    if past == [] then 0
    else if uses(past[|past| - 1], k) then |past|
    else LastUse(uses, past[..|past| - 1], k)
  }

  lemma {:induction false} LastUseBound<E>(uses: (E, Key) -> bool, past: seq<E>, k: Key)
    ensures LastUse(uses, past, k) <= |past|
  {
    if past != [] { LastUseBound(uses, past[..|past| - 1], k); }
  }

  /** Most recent use first. */
  ghost predicate ByRecency<E>(uses: (E, Key) -> bool, s: seq<Key>, past: seq<E>) {
    forall i, j :: 0 <= i < j < |s| ==> LastUse(uses, past, s[i]) > LastUse(uses, past, s[j])
  }

  lemma {:induction false} DropByRecency<E>(uses: (E, Key) -> bool, s: seq<Key>, ks: set<Key>, past: seq<E>)
    requires ByRecency(uses, s, past)
    ensures ByRecency(uses, Drop(s, ks), past)
  {
    if s != [] {
      var rest := Drop(s[1..], ks);
      DropByRecency(uses, s[1..], ks, past);
      DropElements(s[1..], ks);
      forall x | x in rest
        ensures LastUse(uses, past, s[0]) > LastUse(uses, past, x)
      {
        assert x in Elements(rest);
        var i :| 0 <= i < |s[1..]| && s[1..][i] == x;
        assert s[i + 1] == x;
      }
    }
  }

  /** Events that use no listed key keep the order by recency. */
  lemma SameRecency<E>(uses: (E, Key) -> bool, s: seq<Key>, past: seq<E>, e: E)
    requires ByRecency(uses, s, past)
    requires forall k :: k in s ==> !uses(e, k)
    ensures ByRecency(uses, s, past + [e])
  {
    assert (past + [e])[..|past|] == past;
    assert forall k :: k in s ==> LastUse(uses, past + [e], k) == LastUse(uses, past, k);
  }

  lemma Others(s: seq<Key>, k: Key)
    ensures forall x :: x in Drop(s, {k}) ==> x in s && x != k
  {
    DropElements(s, {k});
    forall x | x in Drop(s, {k})
      ensures x in s && x != k
    {
      assert x in Elements(Drop(s, {k}));
    }
  }

  /** An event that uses one key puts it first. */
  lemma UsedFirst<E>(uses: (E, Key) -> bool, s: seq<Key>, past: seq<E>, e: E, k: Key)
    requires ByRecency(uses, s, past) && uses(e, k)
    requires forall x :: x in s && x != k ==> !uses(e, x)
    ensures ByRecency(uses, [k] + Drop(s, {k}), past + [e])
  {
    var rest := Drop(s, {k});
    DropByRecency(uses, s, {k}, past);
    Others(s, k);
    hide Drop;
    SameRecency(uses, rest, past, e);
    assert LastUse(uses, past + [e], k) == |past| + 1;
    forall x | x in rest
      ensures LastUse(uses, past + [e], x) < |past| + 1
    {
      assert (past + [e])[..|past|] == past;
      LastUseBound(uses, past, x);
    }
  }

  lemma PrefixByRecency<E>(uses: (E, Key) -> bool, s: seq<Key>, m: nat, past: seq<E>)
    requires ByRecency(uses, s, past) && m <= |s|
    ensures ByRecency(uses, s[..m], past)
  {
  }

  /** The last key of the order is the one used longest ago. */
  lemma LastIsOldest<E>(uses: (E, Key) -> bool, t: Table, past: seq<E>) returns (victim: Key)
    requires Listed(t) && t.entries != map[] && ByRecency(uses, t.order, past)
    ensures victim in t.entries && EvictOldest(t).entries == t.entries - {victim}
    ensures forall k :: k in t.entries && k != victim ==> LastUse(uses, past, victim) < LastUse(uses, past, k)
  {
    hide LastUse, Drop, Distinct;
    var any :| any in t.entries;
    assert any in Elements(t.order);
    victim := t.order[|t.order| - 1];
    assert victim in Elements(t.order);
    forall k | k in t.entries && k != victim
      ensures LastUse(uses, past, victim) < LastUse(uses, past, k)
    {
      assert k in Elements(t.order);
      var i :| 0 <= i < |t.order| && t.order[i] == k;
    }
  }
}
