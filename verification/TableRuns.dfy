/** What holds in every state a table can reach, whatever the order of the operations. */
module TableRuns {
  import opened Base
  import opened TableSpec
  import opened Recency
  import Bits

  datatype Op =
    | PutOp(key: Key, value: Bytes)
    | ExpireOp(key: Key, deadline: Option<Time>)
    | TouchOp(key: Key)
    | RemoveOp(key: Key)
    | RemoveIfOp(first: nat, count: nat, pred: Entry -> bool)
    | EvictOp
    | ResizeOp(n: nat)
    | ClearOp

  /** The effect of one operation, as the methods of the hash table establish it. */
  ghost function Step(cfg: Config, t: Table, op: Op): Table
    requires t.buckets >= 1
  {
    match op
    case PutOp(k, v) => Put(t, k, v)
    case ExpireOp(k, d) => if k in t.entries then Expire(t, k, d) else t
    case TouchOp(k) => Touch(t, k)
    case RemoveOp(k) => Remove(t, k)
    case RemoveIfOp(first, count, pred) => RemoveIf(cfg, t, first, count, pred)
    case EvictOp => EvictOldest(t)
    case ResizeOp(n) => Resize(t, n)
    case ClearOp => Clear(t)
  }

  lemma StepWellFormed(cfg: Config, t: Table, op: Op)
    requires WellFormed(t)
    ensures WellFormed(Step(cfg, t, op))
  {
    if op.PutOp? || op.ExpireOp? || op.TouchOp? {
      WriteWellFormed(cfg, t, op);
    } else {
      DropWellFormed(cfg, t, op);
    }
  }

  lemma WriteWellFormed(cfg: Config, t: Table, op: Op)
    requires WellFormed(t) && t.buckets >= 1 && (op.PutOp? || op.ExpireOp? || op.TouchOp?)
    ensures WellFormed(Step(cfg, t, op))
  {
    hide WellFormed, Put, Expire, Touch;
    match op
    case PutOp(k, v) => PutWellFormed(t, k, v);
    case ExpireOp(k, d) => if k in t.entries { ExpireWellFormed(t, k, d); }
    case TouchOp(k) => TouchWellFormed(t, k);
  }

  lemma DropWellFormed(cfg: Config, t: Table, op: Op)
    requires WellFormed(t) && t.buckets >= 1 && !(op.PutOp? || op.ExpireOp? || op.TouchOp?)
    ensures WellFormed(Step(cfg, t, op))
  {
    hide WellFormed, Remove, RemoveIf, EvictOldest, Resize, Clear;
    match op
    case RemoveOp(k) => RemoveWellFormed(t, k);
    case RemoveIfOp(first, count, pred) => RemoveIfWellFormed(cfg, t, first, count, pred);
    case EvictOp => EvictWellFormed(t);
    case ResizeOp(n) => ResizeWellFormed(t, n);
    case ClearOp => ClearWellFormed(t);
  }

  /** The state after the operations, starting from an empty table. */
  ghost function Run(cfg: Config, buckets: nat, ops: seq<Op>): (t: Table)
    ensures WellFormed(t)
  {
    if ops == [] then
      EmptyWellFormed(buckets);
      Empty(buckets)
    else
      var before := Run(cfg, buckets, ops[..|ops| - 1]);
      StepWellFormed(cfg, before, ops[|ops| - 1]);
      Step(cfg, before, ops[|ops| - 1])
  }

  lemma EmptyWellFormed(buckets: nat)
    ensures WellFormed(Empty(buckets))
  {
    Bits.RoundUpIsLeast(buckets);
  }

  /** The operation is a use of the key: a write, or a promotion. It looks only at the history. */
  predicate Uses(op: Op, k: Key) {
    (op.PutOp? || op.TouchOp?) && op.key == k
  }

  /** In every reachable state the recency list is sorted by last use. */
  lemma {:induction false} RecencyOrder(cfg: Config, buckets: nat, ops: seq<Op>)
    ensures ByRecency(Uses, Run(cfg, buckets, ops).order, ops)
  {
    hide Run, Step, WellFormed, Uses, LastUse;
    if ops == [] {
      NoOps(cfg, buckets);
    } else {
      hide ByRecency;
      RunLast(cfg, buckets, ops);
      var past, op := ops[..|ops| - 1], ops[|ops| - 1];
      RecencyOrder(cfg, buckets, past);
      StepByRecency(cfg, Run(cfg, buckets, past), past, op);
      assert ops == past + [op];
    }
  }

  lemma NoOps(cfg: Config, buckets: nat)
    ensures Run(cfg, buckets, []).order == []
  {
    hide Bits.RoundUp;
  }

  lemma RunLast(cfg: Config, buckets: nat, ops: seq<Op>)
    requires ops != []
    ensures Run(cfg, buckets, ops[..|ops| - 1]).buckets >= 1
    ensures Run(cfg, buckets, ops) == Step(cfg, Run(cfg, buckets, ops[..|ops| - 1]), ops[|ops| - 1])
  {
    hide Step;
  }

  lemma StepByRecency(cfg: Config, t: Table, past: seq<Op>, op: Op)
    requires WellFormed(t) && ByRecency(Uses, t.order, past)
    ensures ByRecency(Uses, Step(cfg, t, op).order, past + [op])
  {
    hide LastUse;
    if op.PutOp? || (op.TouchOp? && op.key in t.entries) {
      UsedFirst(Uses, t.order, past, op, op.key);
    } else {
      var s := Step(cfg, t, op).order;
      assert ByRecency(Uses, s, past) by { Dropped(cfg, t, op, past); }
      StepWellFormed(cfg, t, op);
      forall k | k in s
        ensures !Uses(op, k)
      {
        assert k in Elements(s);
        assert op.TouchOp? ==> s == t.order;
      }
      SameRecency(Uses, s, past, op);
    }
  }

  lemma Dropped(cfg: Config, t: Table, op: Op, past: seq<Op>)
    requires WellFormed(t) && ByRecency(Uses, t.order, past)
    requires !op.PutOp? && !(op.TouchOp? && op.key in t.entries)
    ensures ByRecency(Uses, Step(cfg, t, op).order, past)
  {
    match op
    case RemoveOp(k) => DropByRecency(Uses, t.order, {k}, past);
    case RemoveIfOp(first, count, pred) =>
      DropByRecency(Uses, t.order, Swept(cfg, t, first, Min(count, t.buckets), pred), past);
    case EvictOp => if t.order != [] { DropByRecency(Uses, t.order, {t.order[|t.order| - 1]}, past); }
    case _ =>
  }

  /** Eviction always takes the stored key whose last write or promotion is oldest, and only it. */
  lemma EvictsOldestUse(cfg: Config, buckets: nat, ops: seq<Op>) returns (victim: Key)
    requires Run(cfg, buckets, ops).entries != map[]
    ensures victim in Run(cfg, buckets, ops).entries
    ensures EvictOldest(Run(cfg, buckets, ops)).entries == Run(cfg, buckets, ops).entries - {victim}
    ensures forall k :: k in Run(cfg, buckets, ops).entries && k != victim ==>
              LastUse(Uses, ops, victim) < LastUse(Uses, ops, k)
  {
    hide Run, LastUse;
    var t := Run(cfg, buckets, ops);
    RecencyOrder(cfg, buckets, ops);
    victim := LastIsOldest(Uses, t, ops);
  }
}
