/** A keyspace saved by one process and loaded by another, with other shards and other clocks. */
module RoundTrip {
  import opened Base
  import opened Codec
  import opened Persistence
  import Bits
  import TS = TableSpec
  import D = DatabaseSpec
  import Runs = DatabaseRuns
  import R = Refinement
  import DB = Database

  /**
   What becomes of an unexpired entry: permanent ones stay so, deadlines are carried or have
   lapsed. The file uses 0 for no deadline, so one in the first millisecond of 1970 is lost.
   */
  function Carried(e: Entry, c: Clock, c': Clock): Option<Entry>
    requires c.tick >= 1 && c.perMilli >= 1
  {
    if e.expiration == None then Some(e)
    else
      var ms := ToWallMillis(e.expiration.value, c);
      var d := FromWallMillis(ms, c');
      if ms == 0 then Some(e.(expiration := None))
      else if d == None then None
      else Some(e.(expiration := d))
  }

  /** Through the file and back, one entry. */
  lemma ThawFrozen(e: Entry, c: Clock, c': Clock)
    requires ClockOk(c) && ClockOk(c') && InRange(e, c)
    ensures Thaw(Freeze(e, c), c') == Carried(e, c, c')
    ensures var r := Carried(e, c, c'); r.Some? ==> r.value.key == e.key && !TS.ExpiredAt(r.value, c'.steady)
  {
    if e.expiration.Some? {
      var ms := ToWallMillis(e.expiration.value, c);
      assert FromRaw(ToRaw(ms)) == ms;
      Later(ms, c');
    }
  }

  /**
   What a file does to a deadline, from 1970 on: it is lost, and the entry permanent, exactly
   when it falls in the first millisecond of 1970; otherwise it never moves later, moves
   earlier by less than a millisecond, and the entry is dropped exactly when the moment in
   the file has passed.
   */
  lemma DeadlineExactly(e: Entry, c: Clock, c': Clock)
    requires ClockOk(c) && ClockOk(c') && InRange(e, c)
    requires c.wall >= 0 && e.expiration.Some? && !TS.ExpiredAt(e, c.steady)
    ensures var r := Thaw(Freeze(e, c), c');
            var moment, file := WallMoment(e.expiration.value, c), ToWallMillis(e.expiration.value, c) * Milli;
            && (r.Some? ==> r.value.key == e.key && r.value.value == e.value)
            && (r == Some(e.(expiration := None)) <==> moment < Milli)
            && (moment >= Milli ==>
                  && moment - Milli < file <= moment
                  && (r.Some? <==> file > WallMoment(c'.steady, c'))
                  && (r.Some? ==> r.value.expiration.Some? && WallMoment(r.value.expiration.value, c') == file))
  {
    hide Thaw, Freeze, ToWallMillis, FromWallMillis, WallMoment, InRange;
    MomentNonneg(e.expiration.value, c);
    ThawFrozen(e, c, c');
    DeadlineCarried(e.expiration.value, c, c');
    ZeroMillis(ToWallMillis(e.expiration.value, c), WallMoment(e.expiration.value, c));
  }

  lemma MomentNonneg(deadline: Time, c: Clock)
    requires c.wall >= 0 && deadline >= c.steady
    ensures WallMoment(deadline, c) >= 0
  {
    Bits.MulMono(0, c.wall, c.tick);
  }

  lemma ZeroMillis(ms: int, moment: int)
    requires moment - Milli < ms * Milli <= moment && moment >= 0
    ensures ms == 0 <==> moment < Milli
  {
  }

  /** So a deadline can be lost. */
  lemma EpochLosesDeadline(c': Clock)
    ensures var c := Clock(0, 0, 1, Milli); var e := TS.Entry("k", "v", Some(1));
            ClockOk(c) && Carried(e, c, c') == Some(TS.Entry("k", "v", None))
  {
  }

  lemma Later(ms: int, c: Clock)
    requires c.tick >= 1
    ensures FromWallMillis(ms, c).Some? ==> FromWallMillis(ms, c).value > c.steady
  {
    var remaining := ms * c.perMilli - c.wall;
    if remaining > 0 { Product(remaining, c.tick); }
  }

  lemma Product(a: int, b: int)
    requires a >= 1 && b >= 1
    ensures a * b >= 1
  {
  }

  function CarryAll(es: seq<Entry>, c: Clock, c': Clock): seq<Entry>
    requires c.tick >= 1 && c.perMilli >= 1
  {
    if es == [] then []
    else
      var before := CarryAll(es[..|es| - 1], c, c');
      var e := Carried(es[|es| - 1], c, c');
      if e == None then before else before + [e.value]
  }

  /** Unexpired entries whose deadlines fit the file. */
  ghost predicate Savable(es: seq<Entry>, c: Clock) {
    && ClockOk(c)
    && forall i :: 0 <= i < |es| ==> InRange(es[i], c) && !TS.ExpiredAt(es[i], c.steady)
  }

  lemma {:induction false} ThawAllFrozen(es: seq<Entry>, c: Clock, c': Clock)
    requires Savable(es, c) && ClockOk(c')
    ensures ThawAll(FreezeAll(es, c), c') == CarryAll(es, c, c')
  {
    hide Carried, Freeze, Thaw, InRange;
    if es != [] {
      var n := |es| - 1;
      ThawAllFrozen(es[..n], c, c');
      ThawFrozen(es[n], c, c');
      var frozen := FreezeAll(es[..n], c);
      assert (frozen + [Freeze(es[n], c)])[..|frozen|] == frozen;
    }
  }

  /** The loaded list holds, under distinct keys, exactly what the saved entries are carried to. */
  lemma {:induction false} CarryAllExact(es: seq<Entry>, c: Clock, c': Clock)
    requires Savable(es, c) && ClockOk(c') && TS.KeysDistinct(es)
    ensures forall e' :: e' in CarryAll(es, c, c') <==> exists e :: e in es && Carried(e, c, c') == Some(e')
    ensures TS.KeysDistinct(CarryAll(es, c, c'))
    ensures forall e' :: e' in CarryAll(es, c, c') ==> !TS.ExpiredAt(e', c'.steady)
  {
    hide Carried, InRange;
    if es != [] {
      var n := |es| - 1;
      var past, last := es[..n], es[n];
      CarryAllExact(past, c, c');
      ThawFrozen(last, c, c');
      assert es == past + [last];
      var before := CarryAll(past, c, c');
      if Carried(last, c, c').Some? {
        forall e' | e' in before
          ensures e'.key != Carried(last, c, c').value.key
        {
          var e :| e in past && Carried(e, c, c') == Some(e');
          CarriedKey(es, e, c, c');
        }
        DistinctSnoc(before, Carried(last, c, c').value);
      }
    }
  }

  /** An earlier entry is carried under a key other than the last one. */
  lemma CarriedKey(es: seq<Entry>, e: Entry, c: Clock, c': Clock)
    requires Savable(es, c) && ClockOk(c') && TS.KeysDistinct(es) && es != [] && e in es[..|es| - 1]
    requires Carried(e, c, c').Some? && Carried(es[|es| - 1], c, c').Some?
    ensures Carried(e, c, c').value.key != Carried(es[|es| - 1], c, c').value.key
  {
    hide Carried, InRange;
    var i :| 0 <= i < |es| - 1 && es[i] == e;
    ThawFrozen(e, c, c');
    ThawFrozen(es[|es| - 1], c, c');
  }

  lemma DistinctSnoc(s: seq<Entry>, e: Entry)
    requires TS.KeysDistinct(s) && forall x :: x in s ==> x.key != e.key
    ensures TS.KeysDistinct(s + [e])
  {
    assert forall i :: 0 <= i < |s| ==> s[i] in s;
  }

  lemma {:induction false} PlainRestoreExact(es: seq<Entry>, now: Time)
    requires TS.KeysDistinct(es) && forall e :: e in es ==> !TS.ExpiredAt(e, now)
    ensures var m := R.PlainRestore(es, now);
            && (forall e :: e in es ==> e.key in m && m[e.key] == e)
            && (forall k :: k in m ==> m[k] in es && m[k].key == k)
  {
    if es != [] {
      var n := |es| - 1;
      var past := es[..n];
      assert es == past + [es[n]];
      PlainRestoreExact(past, now);
      assert forall e :: e in past ==> e.key != es[n].key;
    }
  }

  // ---------------------------------------------------------------- restoring

  lemma {:induction false} RestoreStores(cfg: TS.Config, db: D.Db, es: seq<Entry>, now: Time)
    requires D.Ok(cfg, db) && TS.KeysDistinct(es) && forall e :: e in es ==> !TS.ExpiredAt(e, now)
    requires forall i :: 0 <= i < |db.shards| ==> db.shards[i].table.entries == map[]
    ensures D.Ok(cfg, D.RestoreAll(cfg, db, es, now))
    ensures DB.Stored(D.RestoreAll(cfg, db, es, now).shards) == |es|
    ensures DB.Unexpired(es, now) == |es|
  {
    hide D.Ok, D.RestoreEntry;
    Runs.Parts(cfg, db);
    if es == [] {
      StoredEmpty(db.shards);
    } else {
      var n := |es| - 1;
      var past := es[..n];
      assert es == past + [es[n]];
      RestoreStores(cfg, db, past, now);
      var before := D.RestoreAll(cfg, db, past, now);
      assert es[n] in es;
      assert forall x :: x in past ==> x.key != es[n].key;
      Absent(cfg, db, past, es[n], now);
      Runs.RestoreEntryOk(cfg, before, es[n]);
      AddsOne(cfg, before, es[n]);
    }
  }

  lemma {:induction false} StoredEmpty(shards: seq<D.Shard>)
    requires forall i :: 0 <= i < |shards| ==> shards[i].table.entries == map[]
    ensures DB.Stored(shards) == 0
  {
    if shards != [] { StoredEmpty(shards[..|shards| - 1]); }
  }

  /** Only restored keys are there at all, so a key not yet restored is absent. */
  lemma {:induction false} Absent(cfg: TS.Config, db: D.Db, es: seq<Entry>, e: Entry, now: Time)
    requires |db.shards| >= 1 && forall i :: 0 <= i < |db.shards| ==> db.shards[i].table.entries == map[]
    requires forall x :: x in es ==> x.key != e.key
    ensures e.key !in D.At(cfg, D.RestoreAll(cfg, db, es, now), e.key).table.entries
  {
    hide D.ShardIndex;
    if es != [] {
      assert es[|es| - 1] in es;
      Absent(cfg, db, es[..|es| - 1], e, now);
    }
  }

  lemma AddsOne(cfg: TS.Config, db: D.Db, e: Entry)
    requires |db.shards| >= 1 && e.key !in D.At(cfg, db, e.key).table.entries
    ensures DB.Stored(D.RestoreEntry(cfg, db, e).shards) == DB.Stored(db.shards) + 1
  {
    hide D.ShardIndex;
    var i, s := D.ShardIndex(cfg, e.key, |db.shards|), D.At(cfg, db, e.key);
    var t := TS.Expire(TS.Put(s.table, e.key, e.value), e.key, e.expiration);
    TS.PutSize(s.table.entries, e.key, TS.Entry(e.key, e.value, None));
    TS.PutSize(TS.Put(s.table, e.key, e.value).entries, e.key, t.entries[e.key]);
    DB.StoredUpdate(db.shards, i, s.(table := t));
  }

  /** A key is live in what is loaded exactly when it was live in what was saved and has not lapsed. */
  lemma OneKey(cfg: TS.Config, db: D.Db, es: seq<Entry>, c: Clock, c': Clock, loaded: seq<Entry>, k: Key)
    requires D.Ok(cfg, db) && ClockOk(c') && Savable(es, c) && TS.KeysDistinct(es)
    requires forall e: Entry :: e in es <==> DB.Holds(cfg, db, e, c.steady)
    requires loaded == CarryAll(es, c, c')
    ensures var m, m' := D.At(cfg, db, k).table.entries, R.PlainRestore(loaded, c'.steady);
            && (D.LiveIn(m', k, c'.steady) <==> D.LiveIn(m, k, c.steady) && Carried(m[k], c, c').Some?)
            && (D.LiveIn(m', k, c'.steady) ==> m'[k] == Carried(m[k], c, c').value)
  {
    var m := D.At(cfg, db, k).table.entries;
    if k in m { DB.LiveKeysExact(cfg, db, c.steady, k); }
    hide D.Ok, D.ShardIndex, Carried, InRange, CarryAll;
    CarryAllExact(es, c, c');
    PlainRestoreExact(loaded, c'.steady);
    var m' := R.PlainRestore(loaded, c'.steady);
    if D.LiveIn(m', k, c'.steady) {
      var e :| e in es && Carried(e, c, c') == Some(m'[k]);
      var i :| 0 <= i < |es| && es[i] == e;
      ThawFrozen(e, c, c');
      assert DB.Holds(cfg, db, e, c.steady);
    }
    if D.LiveIn(m, k, c.steady) && Carried(m[k], c, c').Some? {
      assert DB.Holds(cfg, db, m[k], c.steady);
      var i :| 0 <= i < |es| && es[i] == m[k];
      ThawFrozen(m[k], c, c');
      assert Carried(m[k], c, c').value in loaded;
    }
  }

  /**
   Saving the live entries, reading the file back and restoring it, into any number of
   shards and at any later reading of the clocks, gives back the same live map: each key
   with its value, permanent or with its carried deadline, except keys that lapsed in
   between. The count reported is the number of entries then stored.
   */
  lemma SavedAndLoaded(cfg: TS.Config, db: D.Db, es: seq<Entry>, c: Clock, cfg': TS.Config, db': D.Db, c': Clock)
    requires D.Ok(cfg, db) && D.Ok(cfg', db') && ClockOk(c') && Savable(es, c) && AllStorable(FreezeAll(es, c))
    requires TS.KeysDistinct(es) && forall e: Entry :: e in es <==> DB.Holds(cfg, db, e, c.steady)
    ensures Decode(Encode(FreezeAll(es, c))) == Some(FreezeAll(es, c))
    ensures var loaded := ThawAll(FreezeAll(es, c), c');
            var r := D.Restore(cfg', db', loaded, c'.steady);
            && (forall k: Key ::
                  var m, m' := D.At(cfg, db, k).table.entries, D.At(cfg', r, k).table.entries;
                  && (D.LiveIn(m', k, c'.steady) <==> D.LiveIn(m, k, c.steady) && Carried(m[k], c, c').Some?)
                  && (D.LiveIn(m', k, c'.steady) ==> m'[k] == Carried(m[k], c, c').value))
            && DB.Unexpired(loaded, c'.steady) == |loaded| == DB.Stored(r.shards)
  {
    hide D.Ok, Decode, Encode, D.ShardIndex, Carried, Freeze, Thaw, D.RestoreAll, FreezeAll, ThawAll, CarryAll,
         AllStorable;
    DecodeEncode(FreezeAll(es, c));
    ThawAllFrozen(es, c, c');
    CarryAllExact(es, c, c');
    var loaded, now := CarryAll(es, c, c'), c'.steady;
    Runs.Parts(cfg, db);
    Runs.Parts(cfg', db');
    Runs.ClearOk(cfg', db');
    R.ClearSame(cfg', db', now);
    RestoreStores(cfg', D.ClearAll(db'), loaded, now);
    R.RestoreSame(cfg', D.ClearAll(db'), loaded, now);
    PlainRestoreExact(loaded, now);
    forall k: Key
      ensures var m := D.At(cfg, db, k).table.entries;
              var m' := D.At(cfg', D.Restore(cfg', db', loaded, now), k).table.entries;
              && (D.LiveIn(m', k, now) <==> D.LiveIn(m, k, c.steady) && Carried(m[k], c, c').Some?)
              && (D.LiveIn(m', k, now) ==> m'[k] == Carried(m[k], c, c').value)
    {
      OneKey(cfg, db, es, c, c', loaded, k);
      assert R.SameFor(D.At(cfg', D.Restore(cfg', db', loaded, now), k).table.entries,
                       R.PlainRestore(loaded, now), k, now);
    }
  }
}
