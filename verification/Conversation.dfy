/**
 A whole conversation between one client and the server, while other clients, sweeps and
 restores act on the database between its requests.
 */
module Conversation {
  import opened Base
  import opened Wire
  import opened Framing
  import P = Parser
  import D = DatabaseSpec
  import Runs = DatabaseRuns
  import Scan
  import E = Executor
  import TS = TableSpec

  /** The database and the number of lines of this connection executed so far. */
  datatype Server = Server(db: D.Db, served: nat)

  /** What happens around line i: the calls of others just before it, and what executing it gets from outside. */
  datatype World = World(others: nat -> seq<Runs.Call>, contexts: nat -> E.Context)

  ghost function Before(cfg: TS.Config, s: Server, w: World): D.Db
    requires D.Ok(cfg, s.db)
  {
    Scan.Later(cfg, s.db, w.others(s.served))
  }

  /** Executing one line, as the framing loop sees it. */
  ghost function Serving(cfg: TS.Config, w: World): Exec<Server> {
    (s: Server, line: Bytes) =>
      if D.Ok(cfg, s.db) then
        var (db', a) := E.Execute(cfg, Before(cfg, s, w), line, w.contexts(s.served));
        (Server(db', s.served + 1), a)
      else (s, None)
  }

  predicate Blank(line: Bytes) { P.Parse(line) == P.Success(P.Empty) }

  function Requests(lines: seq<Bytes>): nat {
    if lines == [] then 0 else Requests(lines[..|lines| - 1]) + if Blank(lines[|lines| - 1]) then 0 else 1
  }

  lemma ExecuteOk(cfg: TS.Config, db: D.Db, line: Bytes, ctx: E.Context)
    requires D.Ok(cfg, db)
    ensures D.Ok(cfg, E.Execute(cfg, db, line, ctx).0)
  {
    hide D.Ok, Runs.Step, P.Parse, E.RenderReply, E.RenderSave;
    match P.Parse(line)
    case Failure(_) =>
    case Success(c) =>
      if !c.Empty? && !c.Save? { Runs.StepOk(cfg, db, Runs.Call(E.CallOf(c).value, ctx.now)); }
  }

  lemma {:induction false} ServedOk(cfg: TS.Config, db: D.Db, w: World, lines: seq<Bytes>)
    requires D.Ok(cfg, db)
    ensures var s := After(Serving(cfg, w), Server(db, 0), lines);
            D.Ok(cfg, s.db) && s.served == |lines|
  {
    hide D.Ok, E.Execute, Scan.Later;
    if lines != [] {
      ServedOk(cfg, db, w, lines[..|lines| - 1]);
      var s := After(Serving(cfg, w), Server(db, 0), lines[..|lines| - 1]);
      ExecuteOk(cfg, Before(cfg, s, w), lines[|lines| - 1], w.contexts(s.served));
    }
  }

  /** At every line, the reply is one that the client can take apart. */
  ghost predicate Mannered(cfg: TS.Config, db: D.Db, w: World, lines: seq<Bytes>) {
    forall i :: 0 <= i < |lines| ==> ManneredAt(cfg, After(Serving(cfg, w), Server(db, 0), lines[..i]), w, lines[i])
  }

  ghost predicate ManneredAt(cfg: TS.Config, s: Server, w: World, line: Bytes) {
    D.Ok(cfg, s.db) ==> E.Readable(Before(cfg, s, w), line, w.contexts(s.served))
  }

  lemma ManneredNext(cfg: TS.Config, db: D.Db, w: World, lines: seq<Bytes>)
    requires lines != []
    ensures var rest := lines[..|lines| - 1];
            Mannered(cfg, db, w, lines) <==>
              Mannered(cfg, db, w, rest)
              && ManneredAt(cfg, After(Serving(cfg, w), Server(db, 0), rest), w, lines[|lines| - 1])
  {
    hide ManneredAt, After, Serving;
    var rest := lines[..|lines| - 1];
    assert forall i :: 0 <= i < |rest| ==> rest[..i] == lines[..i] && rest[i] == lines[i];
  }

  lemma {:induction false} OneReplyEach(cfg: TS.Config, db: D.Db, w: World, lines: seq<Bytes>)
    requires D.Ok(cfg, db)
    ensures var answers := Answers(Serving(cfg, w), Server(db, 0), lines);
            |answers| == Requests(lines) && (AllSendable(answers) <==> Mannered(cfg, db, w, lines))
  {
    if lines != [] {
      hide D.Ok, E.Execute, Scan.Later, E.Readable, Sendable, After, P.Parse, Mannered;
      var rest, line := lines[..|lines| - 1], lines[|lines| - 1];
      OneReplyEach(cfg, db, w, rest);
      ManneredNext(cfg, db, w, lines);
      ServedOk(cfg, db, w, rest);
      var s := After(Serving(cfg, w), Server(db, 0), rest);
      E.EveryReplySendable(cfg, Before(cfg, s, w), line, w.contexts(s.served));
      BlankReadable(Before(cfg, s, w), line, w.contexts(s.served));
      SendableNext(Answers(Serving(cfg, w), Server(db, 0), rest), Serving(cfg, w)(s, line).1);
    }
  }

  lemma BlankReadable(db: D.Db, line: Bytes, ctx: E.Context)
    ensures Blank(line) ==> E.Readable(db, line, ctx)
  {
  }

  lemma SendableNext(answers: seq<Answer>, a: Option<Answer>)
    ensures AllSendable(answers + if a == None then [] else [a.value])
       <==> AllSendable(answers) && (a.Some? ==> Sendable(a.value))
  {
    hide Sendable;
    var all := answers + if a == None then [] else [a.value];
    assert forall i :: 0 <= i < |answers| ==> all[i] == answers[i];
    assert a.Some? ==> all[|answers|] == a.value;
  }

  /**
   Whatever the client sends and whatever happens to the database in between, every
   request that is not blank is answered once and in order; and the client takes the stream
   apart into exactly those answers, with nothing left over, if and only if no listing was
   too long for it and no save error broke a line.
   */
  lemma EveryRequestAnswered(cfg: TS.Config, db: D.Db, w: World, stream: Bytes)
    requires D.Ok(cfg, db)
    ensures var answers := Answers(Serving(cfg, w), Server(db, 0), Lines(stream));
            && |answers| == Requests(Lines(stream))
            && (ReceiveAll(Frames(answers), |answers|) == Some((answers, [])) <==> Mannered(cfg, db, w, Lines(stream)))
  {
    hide Answers, ReceiveAll, AllSendable, Mannered, Requests, Lines, D.Ok;
    OneReplyEach(cfg, db, w, Lines(stream));
    var answers := Answers(Serving(cfg, w), Server(db, 0), Lines(stream));
    InStep(answers, []);
    assert Frames(answers) + [] == Frames(answers);
  }
}
