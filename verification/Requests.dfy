/**
 What each request line does and what it is answered, for any database, any memory limit
 and any bytes. Verbs may be spelled in capitals or small letters.
 */
module Requests {
  import opened Base
  import opened Tokenizer
  import opened Decimal
  import opened Wire
  import opened Replies
  import opened Commands
  import P = Parser
  import TS = TableSpec
  import D = DatabaseSpec
  import Runs = DatabaseRuns
  import E = Executor

  // ---------------------------------------------------------------- request lines

  /** One argument of a line: a plain word, or any bytes, escaped and quoted. */
  datatype Arg = Word(text: Bytes) | Raw(bytes: Bytes)

  function ArgText(a: Arg): Bytes {
    match a
    case Word(text) => text
    case Raw(bytes) => ['"'] + Escape(bytes) + ['"']
  }

  function ArgBytes(a: Arg): Bytes { if a.Word? then a.text else a.bytes }

  predicate Plain(word: Bytes) {
    word != [] && forall i :: 0 <= i < |word| ==> '0' <= word[i] <= 'z'
  }

  ghost predicate Sayable(args: seq<Arg>) {
    forall i :: 0 <= i < |args| && args[i].Word? ==> Plain(args[i].text)
  }

  /** The line, one blank between arguments. */
  function Request(args: seq<Arg>): Bytes {
    if args == [] then []
    else if |args| == 1 then ArgText(args[0])
    else ArgText(args[0]) + ([' '] + Request(args[1..]))
  }

  function Arguments(args: seq<Arg>): (r: seq<Bytes>)
    ensures |r| == |args| && forall i :: 0 <= i < |args| ==> r[i] == ArgBytes(args[i])
  {
    if args == [] then [] else [ArgBytes(args[0])] + Arguments(args[1..])
  }

  lemma ArgRead(a: Arg, rest: Bytes)
    requires Ends(rest) && (a.Word? ==> Plain(a.text))
    ensures Tokens(ArgText(a) + rest) == Cons(ArgBytes(a), Tokens(rest))
  {
    hide Tokens, Escape, Cons;
    match a
    case Word(text) => P.BareToken(text, rest);
    case Raw(bytes) => P.QuotedToken(bytes, rest);
  }

  lemma {:induction false} RequestRead(args: seq<Arg>)
    requires Sayable(args)
    ensures Tokens(Request(args)) == Some(Arguments(args))
  {
    hide Tokens, ArgText, Plain, ArgBytes;
    P.NoTokens();
    if |args| == 1 {
      ArgRead(args[0], []);
      assert ArgText(args[0]) + [] == ArgText(args[0]);
      assert Arguments(args[1..]) == [];
    } else if |args| > 1 {
      var rest := Request(args[1..]);
      RequestRead(args[1..]);
      P.SpaceFirst(rest);
      ArgRead(args[0], [' '] + rest);
    }
  }

  lemma ArgLast(a: Arg)
    requires a.Word? ==> Plain(a.text)
    ensures ArgText(a) != [] && ArgText(a)[|ArgText(a)| - 1] != '\r' && ArgText(a)[|ArgText(a)| - 1] != '\n'
  {
    hide Escape;
  }

  lemma {:induction false} RequestLast(args: seq<Arg>)
    requires Sayable(args) && args != []
    ensures var s := Request(args); s != [] && s[|s| - 1] != '\r' && s[|s| - 1] != '\n'
  {
    hide ArgText, Plain;
    ArgLast(args[0]);
    if |args| > 1 { RequestLast(args[1..]); }
  }

  /** A request stands for the command its arguments mean, whatever bytes are quoted in it. */
  lemma RequestParses(args: seq<Arg>, c: P.Command)
    requires Sayable(args) && args != [] && Means(Arguments(args), c)
    ensures P.Parse(Request(args)) == P.Success(c)
  {
    hide Tokens, Request, Arguments, Means, StripEnd, P.ParseTokens, Plain;
    RequestRead(args);
    RequestLast(args);
    P.NoStrip(Request(args));
    TokensExactly(Arguments(args), c);
  }

  lemma VerbPlain(word: Bytes, capitals: Bytes)
    requires Spells(word, capitals) && Capitals(capitals) && capitals != []
    ensures Plain(word)
  {
  }

  /** GET, DEL and EXISTS with a key. */
  function Ask(verb: Bytes, k: Key): Bytes { Request([Word(verb), Raw(k)]) }

  lemma AskParses(verb: Bytes, k: Key)
    ensures Spells(verb, "GET") ==> P.Parse(Ask(verb, k)) == P.Success(P.Get(k))
    ensures Spells(verb, "DEL") ==> P.Parse(Ask(verb, k)) == P.Success(P.Del(k))
    ensures Spells(verb, "EXISTS") ==> P.Parse(Ask(verb, k)) == P.Success(P.Exists(k))
  {
    hide P.Parse, Spells, Request, Plain, Capitals;
    VerbsAreCapitals();
    var args := [Word(verb), Raw(k)];
    if Spells(verb, "GET") { VerbPlain(verb, "GET"); RequestParses(args, P.Get(k)); }
    if Spells(verb, "DEL") { VerbPlain(verb, "DEL"); RequestParses(args, P.Del(k)); }
    if Spells(verb, "EXISTS") { VerbPlain(verb, "EXISTS"); RequestParses(args, P.Exists(k)); }
  }

  /** KEYS and SAVE alone. */
  lemma AloneParses(verb: Bytes)
    ensures Spells(verb, "KEYS") ==> P.Parse(verb) == P.Success(P.Keys)
    ensures Spells(verb, "SAVE") ==> P.Parse(verb) == P.Success(P.Save)
  {
    hide P.Parse, Spells, Plain, Capitals;
    VerbsAreCapitals();
    var args := [Word(verb)];
    assert Request(args) == verb;
    if Spells(verb, "KEYS") { VerbPlain(verb, "KEYS"); RequestParses(args, P.Keys); }
    if Spells(verb, "SAVE") { VerbPlain(verb, "SAVE"); RequestParses(args, P.Save); }
  }

  /** SET without a lifetime, and with one in seconds. */
  function Store(verb: Bytes, k: Key, v: Bytes): Bytes { Request([Word(verb), Raw(k), Raw(v)]) }

  function StoreFor(verb: Bytes, k: Key, v: Bytes, ex: Bytes, n: nat): Bytes {
    Request([Word(verb), Raw(k), Raw(v), Word(ex), Word(Dec(n))])
  }

  lemma StoreParses(verb: Bytes, k: Key, v: Bytes)
    requires Spells(verb, "SET")
    ensures P.Parse(Store(verb, k, v)) == P.Success(P.Set(k, v, None))
  {
    hide P.Parse, Spells, Request, Plain, Capitals;
    VerbsAreCapitals();
    VerbPlain(verb, "SET");
    RequestParses([Word(verb), Raw(k), Raw(v)], P.Set(k, v, None));
  }

  lemma StoreForParses(verb: Bytes, k: Key, v: Bytes, ex: Bytes, n: nat)
    requires Spells(verb, "SET") && Spells(ex, "EX") && 1 <= n <= 100 * 365 * 24 * 3600
    ensures P.Parse(StoreFor(verb, k, v, ex, n)) == P.Success(P.Set(k, v, Some(n)))
  {
    hide P.Parse, Spells, Request, Plain, Capitals, Dec, Numeral;
    VerbsAreCapitals();
    VerbPlain(verb, "SET");
    VerbPlain(ex, "EX");
    DecPlain(n);
    var args := [Word(verb), Raw(k), Raw(v), Word(ex), Word(Dec(n))];
    assert Arguments(args)[4] == Dec(n);
    RequestParses(args, P.Set(k, v, Some(n)));
  }

  lemma DecPlain(n: nat)
    ensures Plain(Dec(n)) && Numeral(Dec(n), n)
  {
    hide Dec;
    DecBack(n);
    assert Dec(n) == Zeros(0) + Dec(n);
  }

  // ---------------------------------------------------------------- the answers

  /** Different values are escaped differently. */
  lemma EscapeInjective(a: Bytes, b: Bytes)
    requires Escape(a) == Escape(b)
    ensures a == b
  {
    hide Escape, Quoted;
    QuotedEscape(a, []);
    QuotedEscape(b, []);
  }

  /**
   GET answers with a value, escaped, exactly when a shard holds the key with that value and
   its deadline is to come, and with nil otherwise. It changes no entry.
   */
  lemma GetAnswers(cfg: TS.Config, db: D.Db, verb: Bytes, k: Key, ctx: E.Context)
    requires D.Ok(cfg, db) && Spells(verb, "GET")
    ensures var (db', a) := E.Execute(cfg, db, Ask(verb, k), ctx);
            && (a == Some(Line(Nil, "")) <==> !Live(db, k, ctx.now))
            && (forall v :: a == Some(Line(Value, Escape(v))) <==> exists d :: Held(db, k, v, d) && Lasts(d, ctx.now))
            && D.Ok(cfg, db') && forall j, v, d :: Held(db', j, v, d) <==> Held(db, j, v, d)
  {
    hide Spells, Ask, Escape, D.Ok, Held, Runs.Step, E.Execute, Lasts;
    GetRuns(cfg, db, verb, k, ctx);
    GetExactly(cfg, db, k, ctx.now);
    var r := Runs.Step(cfg, db, Runs.Call(Runs.GetOp(k), ctx.now)).1;
    var a := E.Execute(cfg, db, Ask(verb, k), ctx).1;
    forall v
      ensures a == Some(Line(Value, Escape(v))) <==> exists d :: Held(db, k, v, d) && Lasts(d, ctx.now)
    {
      if r.Value? && Escape(r.bytes) == Escape(v) { EscapeInjective(r.bytes, v); }
      assert r == Runs.Value(v) <==> exists d :: Held(db, k, v, d) && Lasts(d, ctx.now);
    }
    if r.Value? {
      assert r == Runs.Value(r.bytes) <==> exists d :: Held(db, k, r.bytes, d) && Lasts(d, ctx.now);
    }
    if Live(db, k, ctx.now) {
      var v, d :| Held(db, k, v, d) && Lasts(d, ctx.now);
      assert r == Runs.Value(v) <==> exists d :: Held(db, k, v, d) && Lasts(d, ctx.now);
    }
  }

  lemma GetRuns(cfg: TS.Config, db: D.Db, verb: Bytes, k: Key, ctx: E.Context)
    requires D.Ok(cfg, db) && Spells(verb, "GET")
    ensures var (db', r) := Runs.Step(cfg, db, Runs.Call(Runs.GetOp(k), ctx.now));
            var (after, a) := E.Execute(cfg, db, Ask(verb, k), ctx);
            && after == db' && (r == Runs.Nil ==> a == Some(Line(Nil, "")))
            && forall v :: r == Runs.Value(v) ==> a == Some(Line(Value, Escape(v)))
  {
    hide P.Parse, Spells, Ask, Escape, D.Ok, Runs.Step;
    AskParses(verb, k);
  }

  /** EXISTS answers 1 or 0 and leaves the database as it was. */
  lemma ExistsAnswers(cfg: TS.Config, db: D.Db, verb: Bytes, k: Key, ctx: E.Context)
    requires D.Ok(cfg, db) && Spells(verb, "EXISTS")
    ensures E.Execute(cfg, db, Ask(verb, k), ctx)
         == (db, Some(Line(Integer, if Live(db, k, ctx.now) then "1" else "0")))
  {
    hide P.Parse, Spells, Ask, D.Ok, Live, Runs.Step;
    AskParses(verb, k);
    ExistsExactly(cfg, db, k, ctx.now);
    Digits();
  }

  lemma Digits()
    ensures Dec(1) == "1" && Dec(0) == "0"
  {
  }

  /**
   DEL answers 1 exactly when the key was live. Afterwards GET of the key answers nil, and
   GET of any other key answers as before.
   */
  lemma DelAnswers(cfg: TS.Config, db: D.Db, verb: Bytes, k: Key, ctx: E.Context)
    requires D.Ok(cfg, db) && Spells(verb, "DEL")
    ensures var (db', a) := E.Execute(cfg, db, Ask(verb, k), ctx);
            && a == Some(Line(Integer, if Live(db, k, ctx.now) then "1" else "0"))
            && D.Ok(cfg, db') && (forall v, d :: !Held(db', k, v, d)) && SameBut(db, db', k)
  {
    hide P.Parse, Spells, Ask, D.Ok, Live, Held, SameBut, Runs.Step;
    AskParses(verb, k);
    DelExactly(cfg, db, k, ctx.now);
    Digits();
  }

  lemma DelThenGet(cfg: TS.Config, db: D.Db, del: Bytes, k: Key, ctx: E.Context, get: Bytes, j: Key, ctx': E.Context)
    requires D.Ok(cfg, db) && Spells(del, "DEL") && Spells(get, "GET")
    ensures var db' := E.Execute(cfg, db, Ask(del, k), ctx).0;
            && D.Ok(cfg, db')
            && E.Execute(cfg, db', Ask(get, j), ctx').1
            == if j == k then Some(Line(Nil, "")) else E.Execute(cfg, db, Ask(get, j), ctx').1
  {
    hide Spells, Ask, D.Ok, Held, E.Execute, Escape;
    DelAnswers(cfg, db, del, k, ctx);
    var db' := E.Execute(cfg, db, Ask(del, k), ctx).0;
    GetAnswers(cfg, db', get, j, ctx');
    if j != k { SameAnswer(cfg, db, db', get, j, ctx'); }
  }

  lemma HeldAnswers(cfg: TS.Config, db: D.Db, get: Bytes, k: Key, v: Bytes, d: Option<TS.Time>, ctx: E.Context)
    requires D.Ok(cfg, db) && Spells(get, "GET") && Held(db, k, v, d)
    ensures E.Execute(cfg, db, Ask(get, k), ctx).1
         == if Lasts(d, ctx.now) then Some(Line(Value, Escape(v))) else Some(Line(Nil, ""))
  {
    hide Spells, Ask, D.Ok, Held, E.Execute, Escape;
    GetAnswers(cfg, db, get, k, ctx);
    if Live(db, k, ctx.now) {
      var v', d' :| Held(db, k, v', d') && Lasts(d', ctx.now);
      HeldOnce(cfg, db, k, v, d, v', d');
    }
  }

  /** GET depends on nothing but what is held under its key. */
  lemma SameAnswer(cfg: TS.Config, db: D.Db, db': D.Db, get: Bytes, j: Key, ctx: E.Context)
    requires D.Ok(cfg, db) && D.Ok(cfg, db') && Spells(get, "GET")
    requires forall v, d :: Held(db', j, v, d) <==> Held(db, j, v, d)
    ensures E.Execute(cfg, db', Ask(get, j), ctx).1 == E.Execute(cfg, db, Ask(get, j), ctx).1
  {
    hide Spells, Ask, D.Ok, Held, E.Execute, Escape;
    if v, d :| Held(db, j, v, d) {
      HeldAnswers(cfg, db, get, j, v, d, ctx);
      HeldAnswers(cfg, db', get, j, v, d, ctx);
    } else {
      GetAnswers(cfg, db, get, j, ctx);
      GetAnswers(cfg, db', get, j, ctx);
    }
  }

  /** KEYS answers the escaped live keys, in some order, and changes nothing. */
  lemma KeysAnswers(cfg: TS.Config, db: D.Db, verb: Bytes, ctx: E.Context)
    requires D.Ok(cfg, db) && Spells(verb, "KEYS")
    ensures exists keys: set<Key> ::
              && (forall k: Key :: k in keys <==> Live(db, k, ctx.now))
              && E.Execute(cfg, db, verb, ctx) == (db, Some(Many(E.EscapeAll(ctx.listing(keys)))))
  {
    hide P.Parse, Spells, D.Ok, Live, E.EscapeAll, Runs.Step;
    AloneParses(verb);
    KeysExactly(cfg, db, ctx.now);
    var keys := Runs.Step(cfg, db, Runs.Call(Runs.KeysOp, ctx.now)).1.keys;
    assert E.Execute(cfg, db, verb, ctx) == (db, Some(Many(E.EscapeAll(ctx.listing(keys)))));
  }

  /** SAVE changes nothing and says what came of it. */
  lemma SaveAnswers(cfg: TS.Config, db: D.Db, verb: Bytes, ctx: E.Context)
    requires D.Ok(cfg, db) && Spells(verb, "SAVE")
    ensures var (db', a) := E.Execute(cfg, db, verb, ctx);
            && db' == db
            && (ctx.save == E.Saved ==> a == Some(Line(Status, "OK")))
            && (ctx.save == E.NotConfigured ==> a == Some(Line(Error, "ERR persistence is not configured")))
            && forall e :: ctx.save == E.SaveFailed(e) ==> a == Some(Line(Error, "ERR " + e))
  {
    hide P.Parse, Spells, D.Ok, Runs.Step, E.RenderReply;
    AloneParses(verb);
  }

  // ---------------------------------------------------------------- writes and lifetimes

  /**
   A SET line is refused exactly when there is a limit and the entry alone is over the whole
   of it; then nothing changes. Otherwise every other key holds what it held or nothing.
   */
  lemma StoreAnswers(cfg: TS.Config, db: D.Db, line: Bytes, k: Key, v: Bytes, ttl: Option<nat>, ctx: E.Context)
    requires D.Ok(cfg, db) && P.Parse(line) == P.Success(P.Set(k, v, ttl))
    ensures var (db', a) := E.Execute(cfg, db, line, ctx);
            var large := db.limit != 0 && cfg.overhead + |k| + |v| > db.limit;
            var deadline := if ttl.Some? then Some(ctx.now + ttl.value * 1_000_000_000) else None;
            && (large ==> db' == db)
            && (large ==> a == Some(Line(Error, "ERR value is larger than" + " the configured max-memory")))
            && (!large ==> a == Some(Line(Status, "OK")) && D.Ok(cfg, db') && Held(db', k, v, deadline))
            && (!large ==> forall j, u, d :: Held(db', j, u, d) && j != k ==> Held(db, j, u, d))
  {
    hide P.Parse, D.Ok, Held, Runs.Step;
    var ticks := if ttl.Some? then Some(ttl.value * 1_000_000_000) else None;
    SetExactly(cfg, db, k, v, ticks, ctx.now);
  }

  lemma StoredAnswers(cfg: TS.Config, db: D.Db, line: Bytes, k: Key, v: Bytes, ttl: Option<nat>, get: Bytes,
                      ctx: E.Context, ctx': E.Context)
    requires D.Ok(cfg, db) && (db.limit == 0 || cfg.overhead + |k| + |v| <= db.limit)
    requires P.Parse(line) == P.Success(P.Set(k, v, ttl)) && Spells(get, "GET")
    ensures var (db', a) := E.Execute(cfg, db, line, ctx);
            && a == Some(Line(Status, "OK")) && D.Ok(cfg, db')
            && E.Execute(cfg, db', Ask(get, k), ctx').1
            == if ttl == None || ctx'.now < ctx.now + ttl.value * 1_000_000_000 then Some(Line(Value, Escape(v)))
               else Some(Line(Nil, ""))
  {
    hide P.Parse, Spells, Ask, D.Ok, Held, E.Execute, Escape;
    var deadline := if ttl.Some? then Some(ctx.now + ttl.value * 1_000_000_000) else None;
    StoreAnswers(cfg, db, line, k, v, ttl, ctx);
    HeldAnswers(cfg, E.Execute(cfg, db, line, ctx).0, get, k, v, deadline, ctx');
  }

  /**
   What an accepted SET with a lifetime of n seconds stores is answered until exactly n
   billion nanoseconds have passed, and not from then on.
   */
  lemma LifetimeKept(cfg: TS.Config, db: D.Db, put: Bytes, ex: Bytes, n: nat, get: Bytes,
                     k: Key, v: Bytes, ctx: E.Context, ctx': E.Context)
    requires D.Ok(cfg, db) && (db.limit == 0 || cfg.overhead + |k| + |v| <= db.limit)
    requires Spells(put, "SET") && Spells(ex, "EX") && Spells(get, "GET") && 1 <= n <= 100 * 365 * 24 * 3600
    ensures var (db', a) := E.Execute(cfg, db, StoreFor(put, k, v, ex, n), ctx);
            && a == Some(Line(Status, "OK")) && D.Ok(cfg, db')
            && E.Execute(cfg, db', Ask(get, k), ctx').1
            == if ctx'.now < ctx.now + n * 1_000_000_000 then Some(Line(Value, Escape(v))) else Some(Line(Nil, ""))
  {
    hide P.Parse, Spells, Ask, StoreFor, D.Ok, E.Execute, Escape;
    StoreForParses(put, k, v, ex, n);
    StoredAnswers(cfg, db, StoreFor(put, k, v, ex, n), k, v, Some(n), get, ctx, ctx');
  }

  /** What an accepted SET without a lifetime stores is answered at any later time. */
  lemma KeptForGood(cfg: TS.Config, db: D.Db, put: Bytes, get: Bytes, k: Key, v: Bytes, ctx: E.Context, ctx': E.Context)
    requires D.Ok(cfg, db) && (db.limit == 0 || cfg.overhead + |k| + |v| <= db.limit)
    requires Spells(put, "SET") && Spells(get, "GET")
    ensures var (db', a) := E.Execute(cfg, db, Store(put, k, v), ctx);
            && a == Some(Line(Status, "OK")) && D.Ok(cfg, db')
            && E.Execute(cfg, db', Ask(get, k), ctx').1 == Some(Line(Value, Escape(v)))
  {
    hide P.Parse, Spells, Ask, Store, D.Ok, E.Execute, Escape;
    StoreParses(put, k, v);
    StoredAnswers(cfg, db, Store(put, k, v), k, v, None, get, ctx, ctx');
  }
}
