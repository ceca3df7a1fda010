/** From a request line to the database and back to a tagged reply. */
module Executor {
  import opened Base
  import opened Tokenizer
  import opened Wire
  import opened Decimal
  import P = Parser
  import TS = TableSpec
  import D = DatabaseSpec
  import Runs = DatabaseRuns
  import Ev = Eviction
  import DB = Database
  import Replies

  /** Lifetimes are given in seconds; the clock counts nanoseconds. */
  const Second: nat := 1_000_000_000

  const LargeHead: Bytes := "ERR value is larger than"
  const LargeRest: Bytes := " the configured max-memory"

  /** What SAVE came to. */
  datatype SaveResult = Saved | NotConfigured | SaveFailed(error: Bytes)

  /** What the executor gets from outside: the clock, the order KEYS lists its keys in, and the outcome of a save. */
  datatype Context = Context(now: TS.Time, listing: set<Key> -> seq<Key>, save: SaveResult)

  function EscapeAll(keys: seq<Key>): (r: seq<Bytes>)
    ensures |r| == |keys|
  {
    seq(|keys|, i requires 0 <= i < |keys| => Escape(keys[i]))
  }

  function RenderReply(r: Runs.Reply, ctx: Context): Option<Answer> {
    match r
    case OK => Some(Line(Status, "OK"))
    case TooLarge => Some(Line(Error, LargeHead + LargeRest))
    case Value(v) => Some(Line(Value, Escape(v)))
    case Nil => Some(Line(Nil, []))
    case Number(n) => Some(Line(Integer, Dec(n)))
    case Keys(ks) => Some(Many(EscapeAll(ctx.listing(ks))))
    case Silent => None
  }

  function RenderSave(r: SaveResult): Answer {
    match r
    case Saved => Line(Status, "OK")
    case NotConfigured => Line(Error, "ERR persistence is not configured")
    case SaveFailed(e) => Line(Error, "ERR " + e)
  }

  /** The database call a command stands for; a blank line and SAVE stand for none. */
  function CallOf(c: P.Command): Option<Runs.Op> {
    match c
    case Empty => None
    case Set(k, v, ttl) => Some(Runs.SetOp(k, v, if ttl.Some? then Some(ttl.value * Second) else None))
    case Get(k) => Some(Runs.GetOp(k))
    case Del(k) => Some(Runs.DelOp(k))
    case Exists(k) => Some(Runs.ExistsOp(k))
    case Keys => Some(Runs.KeysOp)
    case Save => None
  }

  ghost function Execute(cfg: TS.Config, db: D.Db, line: Bytes, ctx: Context): (D.Db, Option<Answer>)
    requires D.Ok(cfg, db)
  {
    match P.Parse(line)
    case Failure(e) => (db, Some(Line(Error, e)))
    case Success(c) =>
      if c.Empty? then (db, None)
      else if c.Save? then (db, Some(RenderSave(ctx.save)))
      else
        var (db', r) := Runs.Step(cfg, db, Runs.Call(CallOf(c).value, ctx.now));
        (db', RenderReply(r, ctx))
  }

  // ---------------------------------------------------------------- every reply can be read

  /** For KEYS the listing is short enough for the client to accept; for SAVE the error text, if any, is one line. */
  ghost predicate Readable(db: D.Db, line: Bytes, ctx: Context) {
    match P.Parse(line)
    case Failure(_) => true
    case Success(c) =>
      && (c.Keys? ==> |ctx.listing(Runs.LiveKeys(db, ctx.now))| <= MaxCount)
      && (c.Save? && ctx.save.SaveFailed? ==> NoNewline(ctx.save.error))
  }

  lemma EscapeNoNewline(raw: Bytes)
    ensures NoNewline(Escape(raw))
  {
    hide Escape;
    EscapePrintable(raw);
  }

  lemma DecNoNewline(n: nat)
    ensures NoNewline(Dec(n))
  {
    DecBack(n);
  }

  lemma LargeNoNewline()
    ensures NoNewline(LargeHead + LargeRest)
  {
    assert NoNewline(LargeHead);
    assert NoNewline(LargeRest);
  }

  lemma ReplySendable(r: Runs.Reply, ctx: Context)
    ensures RenderReply(r, ctx).Some? ==>
              (Sendable(RenderReply(r, ctx).value) <==> (r.Keys? ==> |ctx.listing(r.keys)| <= MaxCount))
  {
    hide Escape, Dec, NoNewline;
    match r
    case Value(v) => EscapeNoNewline(v);
    case Number(n) => DecNoNewline(n);
    case Keys(ks) => forall i | 0 <= i < |ctx.listing(ks)| { EscapeNoNewline(ctx.listing(ks)[i]); }
    case TooLarge => LargeNoNewline();
    case OK => assert NoNewline("OK") by { ShortTexts(); }
    case Nil => assert NoNewline([]) by { ShortTexts(); }
    case _ =>
  }

  lemma ShortTexts()
    ensures NoNewline("OK") && NoNewline([])
  {
  }

  lemma SaveSendable(r: SaveResult)
    ensures Sendable(RenderSave(r)) <==> (r.SaveFailed? ==> NoNewline(r.error))
  {
    hide NoNewline;
    match r
    case Saved => ShortTexts();
    case NotConfigured => NotConfiguredText();
    case SaveFailed(e) => ErrorText(e);
  }

  lemma NotConfiguredText()
    ensures NoNewline("ERR persistence is not configured")
  {
  }

  lemma ErrorText(e: Bytes)
    ensures NoNewline("ERR " + e) <==> NoNewline(e)
  {
    var t := "ERR " + e;
    assert forall i :: 0 <= i < |e| ==> t[i + 4] == e[i];
  }

  /**
   Every request gets exactly one reply, unless it is blank: then it gets none. The client
   can take the reply apart exactly when a listing is not too long and a save error is one line.
   */
  lemma EveryReplySendable(cfg: TS.Config, db: D.Db, line: Bytes, ctx: Context)
    requires D.Ok(cfg, db)
    ensures Execute(cfg, db, line, ctx).1 == None <==> P.Parse(line) == P.Success(P.Empty)
    ensures Execute(cfg, db, line, ctx).1.Some? ==>
              (Sendable(Execute(cfg, db, line, ctx).1.value) <==> Readable(db, line, ctx))
  {
    hide P.Parse, D.Ok, Sendable, Runs.LiveKeys;
    match P.Parse(line)
    case Failure(e) => ErrorSendable(line);
    case Success(c) =>
      if c.Save? {
        SaveSendable(ctx.save);
      } else if !c.Empty? {
        var call := Runs.Call(CallOf(c).value, ctx.now);
        Talks(cfg, db, call);
        ReplySendable(Runs.Step(cfg, db, call).1, ctx);
      }
  }

  lemma ErrorSendable(line: Bytes)
    requires P.Parse(line).Failure?
    ensures Sendable(Line(Error, P.Parse(line).error))
  {
    hide P.Parse;
    P.ErrorsAreShortLines(line);
  }

  lemma Talks(cfg: TS.Config, db: D.Db, c: Runs.Call)
    requires D.Ok(cfg, db) && (c.op.SetOp? || c.op.GetOp? || c.op.DelOp? || c.op.ExistsOp? || c.op.KeysOp?)
    ensures !Runs.Step(cfg, db, c).1.Silent?
    ensures Runs.Step(cfg, db, c).1.Keys? <==> c.op.KeysOp?
    ensures c.op.KeysOp? ==> Runs.Step(cfg, db, c).1.keys == Runs.LiveKeys(db, c.now)
  {
    hide D.Ok, D.Set, D.Get, D.Del, D.Exists, Runs.LiveKeys;
  }

  // ---------------------------------------------------------------- what a client stores it gets back

  function GetLine(k: Bytes): Bytes { "GET " + P.Quote(k) }

  lemma GetParses(k: Bytes)
    ensures P.Parse(GetLine(k)) == P.Success(P.Get(k))
  {
    hide Tokens, P.Quote, StripEnd;
    var q := P.Quote(k);
    assert "GET " + q == "GET" + ([' '] + q);
    assert q + [] == q;
    P.BareToken("GET", [' '] + q);
    P.SpaceFirst(q);
    P.QuotedToken(k, []);
    P.NoTokens();
    QuoteLast(k);
    P.NoStrip(GetLine(k));
    var get: Bytes := "GET";
    assert [get] + ([k] + []) == [get, k];
    assert Tokenize(GetLine(k)) == Some([get, k]);
    assert P.ToUpper("GET") == "GET";
  }

  lemma QuoteLast(k: Bytes)
    ensures P.Quote(k) != [] && P.Quote(k)[|P.Quote(k)| - 1] == '"'
  {
    hide Escape;
  }

  /**
   Any bytes whatever, stored by a SET line that is not refused, come back from GET as the
   same text that would store them again.
   */
  lemma SetThenGet(cfg: TS.Config, db: D.Db, k: Bytes, v: Bytes, ctx: Context, ctx': Context)
    requires D.Ok(cfg, db) && D.Fits(cfg, db, k, v)
    ensures var (db', a) := Execute(cfg, db, P.SetLine(k, v), ctx);
            && a == Some(Line(Status, "OK"))
            && D.Ok(cfg, db')
            && Execute(cfg, db', GetLine(k), ctx').1 == Some(Line(Value, Escape(v)))
  {
    hide P.Parse, P.SetLine, GetLine, Escape, D.ShardIndex, D.SetShard, D.Ok;
    P.SetRoundTrip(k, v, 1);
    GetParses(k);
    Runs.Parts(cfg, db);
    Runs.SetAllOk(cfg, db, k, v, None);
    Ev.SetStores(cfg, D.At(cfg, db, k), k, v, None);
  }

  // ---------------------------------------------------------------- running a line

  lemma {:induction false} ValueLinesAppend(items: seq<Bytes>, item: Bytes)
    ensures ValueLines(items + [item]) == ValueLines(items) + (['\n', '$'] + item)
    decreases |items|
  {
    if items == [] {
      assert items + [item] == [item];
      assert ValueLines([item]) == ['\n', '$'] + item + [];
    } else {
      ValueLinesAppend(items[1..], item);
      assert (items + [item])[1..] == items[1..] + [item];
      var head: Bytes := ['\n', '$'] + items[0];
      TS.Associate(head, ValueLines(items[1..]), ['\n', '$'] + item);
    }
  }

  /** The KEYS reply: the count, then one escaped key a line. */
  method RenderKeys(keys: seq<Key>) returns (response: Bytes)
    ensures response == Render(Many(EscapeAll(keys)))
  {
    hide Escape, Dec, ValueLines;
    ghost var head: Bytes := [Tag(Array)] + Dec(|keys|);
    response := [Tag(Array)] + Dec(|keys|);
    ghost var items := EscapeAll(keys);
    var i := 0;
    assert items[..0] == [] && ValueLines([]) == [] by { NoValueLines(); }
    while i < |keys|
      invariant 0 <= i <= |keys| && response == head + ValueLines(items[..i])
    {
      var escaped := EscapeForWire(keys[i]);
      assert items[..i + 1] == items[..i] + [escaped];
      ValueLinesAppend(items[..i], escaped);
      response := response + (['\n', '$'] + escaped);
      i := i + 1;
    }
    assert items[..i] == items;
  }

  lemma NoValueLines()
    ensures ValueLines([]) == []
  {
  }

  function Text(a: Option<Answer>): Option<Bytes> { if a == None then None else Some(Render(a.value)) }

  /** Parses a line, runs it against the database and renders the reply; a blank line earns none. */
  method ExecuteLine(db: DB.Database, line: Bytes, now: TS.Time, save: SaveResult)
    returns (reply: Option<Bytes>, ghost keys: seq<Key>)
    requires db.Valid()
    modifies DB.All(db.repr), db`view, db`repr
    ensures db.Valid() && D.Ok(db.cfg, old(db.view))
    ensures Distinct(keys)
    ensures P.Parse(line) == P.Success(P.Keys) ==> Elements(keys) == Runs.LiveKeys(old(db.view), now)
    ensures var (view, answer) := Execute(db.cfg, old(db.view), line, Context(now, _ => keys, save));
            db.view == view && reply == Text(answer)
  {
    hide DB.ShardsAt, D.Ok, Escape, Tokenize, D.Set, D.Get, D.Del, D.Exists, Runs.LiveKeys, Dec,
         P.ParseTokens, EscapeAll, DB.Disjoint, Replies.Stores, Replies.Finds, Replies.Deletes, Replies.Live;
    keys := [];
    var tokens := TokenizeLine(line);
    var parsed := if tokens == None then P.Failure(P.Unbalanced) else P.ParseTokens(tokens.value);
    if parsed.Failure? {
      return Some([Tag(Error)] + parsed.error), [];
    }
    match parsed.command
    case Empty => return None, [];
    case Set(k, v, ttl) =>
      var outcome := db.Set(k, v, if ttl.Some? then Some(now + ttl.value * Second) else None);
      reply := Some(if outcome == D.Rejected then [Tag(Error)] + (LargeHead + LargeRest) else [Tag(Status)] + "OK");
    case Get(k) =>
      var value := db.Get(k, now);
      if value == None {
        reply := Some([Tag(Nil)] + []);
      } else {
        var escaped := EscapeForWire(value.value);
        reply := Some([Tag(Value)] + escaped);
      }
    case Del(k) =>
      var live := db.Del(k, now);
      reply := Some([Tag(Integer)] + Dec(if live then 1 else 0));
    case Exists(k) =>
      var live := db.Exists(k, now);
      reply := Some([Tag(Integer)] + Dec(if live then 1 else 0));
    case Keys =>
      var ks := db.Keys(now);
      keys := ks;
      var response := RenderKeys(ks);
      reply := Some(response);
    case Save => reply := Some(Render(RenderSave(save)));
  }
}
