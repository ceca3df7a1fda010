/**
 Saving a snapshot as a sequence of crashable steps: write a temporary file, flush it,
 rename it over the target. A crash may come at any point. It may leave an unflushed file
 with any contents, and it may undo renames that have not reached the disk. A rename
 itself is atomic, as POSIX (IEEE Std 1003.1) has it.
 */
module SaveProtocol {
  import opened Base
  import opened Codec

  datatype File = File(content: Bytes, flushed: bool)

  datatype Stage =
    | Idle
    | Writing(data: Bytes, written: nat)
    | Flushed(data: Bytes)

  datatype State = State(
    target: Option<File>,
    temp: Option<File>,
    undo: seq<Option<File>>, // the targets before renames that have not reached the disk, oldest first
    stage: Stage)

  datatype Action =
    | Open(records: seq<Record>)  // encode the snapshot and truncate the temporary file
    | Write(n: nat)               // write() accepts n more bytes
    | Flush
    | Rename
    | GiveUp                      // some call failed: unlink the temporary file
    | Settle(n: nat)              // the oldest n renames reach the disk
    | Crash(garbage: Bytes, left: Option<File>, undone: nat)

  predicate Enabled(s: State, a: Action) {
    match a
    case Open(_) => s.stage == Idle
    case Write(n) => s.stage.Writing? && s.stage.written + n <= |s.stage.data|
    case Flush => s.stage.Writing? && s.stage.written == |s.stage.data|
    case Rename => s.stage.Flushed?
    case GiveUp => s.stage != Idle
    case Settle(n) => n <= |s.undo|
    case Crash(_, _, _) => true
  }

  /** What a crash leaves of a file. */
  function Survives(f: Option<File>, garbage: Bytes): Option<File> {
    if f.Some? && !f.value.flushed then Some(File(garbage, true)) else f
  }

  function Apply(s: State, a: Action): State
    requires Enabled(s, a)
  {
    match a
    case Open(rs) => s.(temp := Some(File([], false)), stage := Writing(Encode(rs), 0))
    case Write(n) =>
      var k := s.stage.written + n;
      s.(temp := Some(File(s.stage.data[..k], false)), stage := Writing(s.stage.data, k))
    case Flush => s.(temp := Some(File(s.stage.data, true)), stage := Flushed(s.stage.data))
    case Rename => State(s.temp, None, s.undo + [s.target], Idle)
    case GiveUp => s.(temp := None, stage := Idle)
    case Settle(n) => s.(undo := s.undo[n..])
    case Crash(garbage, left, undone) =>
      State(Survives(if undone < |s.undo| then s.undo[undone] else s.target, garbage), left, [], Idle)
  }

  /** The target as some earlier save left it: nothing, or a complete flushed encoding of given records. */
  ghost predicate Complete(f: Option<File>, saved: set<seq<Record>>) {
    f == None || (f.value.flushed && exists rs :: rs in saved && f.value.content == Encode(rs))
  }

  ghost predicate Inv(s: State, saved: set<seq<Record>>) {
    && Complete(s.target, saved)
    && (forall i :: 0 <= i < |s.undo| ==> Complete(s.undo[i], saved))
    && match s.stage
       case Idle => true
       case Writing(data, k) =>
         k <= |data| && s.temp == Some(File(data[..k], false)) && exists rs :: rs in saved && data == Encode(rs)
       case Flushed(data) => s.temp == Some(File(data, true)) && exists rs :: rs in saved && data == Encode(rs)
  }

  ghost function Saved(a: Action): set<seq<Record>> { if a.Open? then {a.records} else {} }

  lemma CompleteMore(f: Option<File>, saved: set<seq<Record>>, more: set<seq<Record>>)
    requires Complete(f, saved)
    ensures Complete(f, saved + more)
  {
    if f.Some? {
      var rs :| rs in saved && f.value.content == Encode(rs);
      assert rs in saved + more;
    }
  }

  lemma StepInv(s: State, a: Action, saved: set<seq<Record>>)
    requires Inv(s, saved) && Enabled(s, a)
    ensures Inv(Apply(s, a), saved + Saved(a))
  {
    hide Encode;
    CompleteMore(s.target, saved, Saved(a));
    forall i | 0 <= i < |s.undo|
      ensures Complete(s.undo[i], saved + Saved(a))
    {
      CompleteMore(s.undo[i], saved, Saved(a));
    }
    if s.stage != Idle {
      var rs :| rs in saved && s.stage.data == Encode(rs);
      assert rs in saved + Saved(a);
    }
    if a.Open? { assert a.records in saved + Saved(a); }
    if a == Flush { assert s.stage.data[..|s.stage.data|] == s.stage.data; }
  }

  // ---------------------------------------------------------------- runs

  /** Every snapshot handed to a save in the run. */
  ghost function AllSaved(run: seq<Action>): set<seq<Record>> {
    if run == [] then {} else AllSaved(run[..|run| - 1]) + Saved(run[|run| - 1])
  }

  function Outcome(start: State, run: seq<Action>): Option<State> {
    if run == [] then Some(start)
    else
      var p := Outcome(start, run[..|run| - 1]);
      if p.Some? && Enabled(p.value, run[|run| - 1]) then Some(Apply(p.value, run[|run| - 1])) else None
  }

  lemma {:induction false} RunInv(start: State, first: set<seq<Record>>, run: seq<Action>)
    requires Inv(start, first)
    ensures var s := Outcome(start, run); s.Some? ==> Inv(s.value, first + AllSaved(run))
  {
    hide Inv, Enabled, Apply;
    if run == [] {
      assert first + {} == first;
    } else {
      var past, a := run[..|run| - 1], run[|run| - 1];
      RunInv(start, first, past);
      var p := Outcome(start, past);
      if p.Some? && Enabled(p.value, a) {
        StepInv(p.value, a, first + AllSaved(past));
        assert first + AllSaved(past) + Saved(a) == first + AllSaved(run);
      }
    }
  }

  datatype LoadStatus = Loaded(records: seq<Record>) | NotFound | Failed

  /** Opening, reading and decoding the target. */
  function Load(target: Option<File>, readOk: bool): LoadStatus {
    if target == None then NotFound
    else if !readOk then Failed
    else
      var rs := Decode(target.value.content);
      if rs == None then Failed else Loaded(rs.value)
  }

  /**
   From an absent or complete snapshot, and through any saves, failures and crashes, a
   load finds nothing or the file of one save, and then loads exactly the records of that
   save if and only if they are storable: it is never a partial file, and never fails
   otherwise short of a read error.
   */
  lemma LoadNeverFails(start: State, first: set<seq<Record>>, run: seq<Action>, s: State)
    requires Inv(start, first) && Outcome(start, run) == Some(s)
    ensures var r, saved := Load(s.target, true), first + AllSaved(run);
            && (if s.target == None then r == NotFound
                else exists rs :: rs in saved && s.target.value.content == Encode(rs)
                                  && (r == Loaded(rs) <==> AllStorable(rs)))
            && ((forall rs :: rs in saved ==> AllStorable(rs)) ==> r != Failed)
  {
    hide Decode, Encode, AllStorable;
    RunInv(start, first, run);
    if s.target.Some? {
      var rs :| rs in first + AllSaved(run) && s.target.value.content == Encode(rs);
      ReadBackExactly(rs);
    }
  }

  /** Only a rename moves the target, and then to the bytes being saved; a crash can only undo renames. */
  lemma TargetChanges(s: State, a: Action, saved: set<seq<Record>>)
    requires Inv(s, saved) && Enabled(s, a)
    ensures var s' := Apply(s, a);
            || s'.target == s.target
            || (a == Rename && s'.target == Some(File(s.stage.data, true)))
            || (a.Crash? && s'.target in s.undo)
  {
  }
}
