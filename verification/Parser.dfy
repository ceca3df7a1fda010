/** Turning a request line into a command. */
module Parser {
  import opened Base
  import opened Tokenizer
  import opened Decimal

  const MaxExpireSeconds: int := 100 * 365 * 24 * 60 * 60
  const MaxEchoedVerb: nat := 32

  datatype Command =
    | Empty
    | Set(key: Bytes, value: Bytes, ttl: Option<nat>)
    | Get(key: Bytes)
    | Del(key: Bytes)
    | Exists(key: Bytes)
    | Keys
    | Save

  datatype ParseResult = Success(command: Command) | Failure(error: Bytes)

  function UpperByte(c: Byte): Byte {
    if 'a' <= c <= 'z' then (c as int - 'a' as int + 'A' as int) as char else c
  }

  function ToUpper(s: Bytes): (r: Bytes)
    ensures |r| == |s|
  {
    seq(|s|, i requires 0 <= i < |s| => UpperByte(s[i]))
  }

  /** Strict 64-bit integer: an optional minus sign and digits, nothing else, in range. */
  function ParseInt64(text: Bytes): Option<int> {
    var negative := text != [] && text[0] == '-';
    var digits := if negative then text[1..] else text;
    if digits == [] || !AllDigits(digits) then None
    else
      var v := if negative then -(DecValue(digits) as int) else DecValue(digits);
      if -0x8000_0000_0000_0000 <= v < 0x8000_0000_0000_0000 then Some(v) else None
  }

  function EchoByte(b: Byte): Byte { if Printable(b) then b else '?' }

  /** At most 32 bytes of the verb, with anything unprintable replaced. */
  function SanitizeForEcho(verb: Bytes): Bytes {
    var limit := Min(|verb|, MaxEchoedVerb);
    seq(limit, i requires 0 <= i < limit => EchoByte(verb[i])) + if |verb| > limit then "..." else ""
  }

  method UpperAscii(text: Bytes) returns (result: Bytes)
    ensures result == ToUpper(text)
  {
    result := text;
    var i := 0;
    while i < |result|
      invariant 0 <= i <= |result| == |text| && result == ToUpper(text)[..i] + text[i..]
    {
      result := result[i := UpperByte(result[i])];
      i := i + 1;
    }
  }

  method SanitizeEcho(verb: Bytes) returns (result: Bytes)
    ensures result == SanitizeForEcho(verb)
  {
    var limit := Min(|verb|, MaxEchoedVerb);
    result := [];
    var i := 0;
    while i < limit
      invariant 0 <= i <= limit && result == SanitizeForEcho(verb)[..i]
    {
      result := result + [EchoByte(verb[i])];
      i := i + 1;
    }
    if |verb| > limit {
      result := result + "...";
    }
  }

  /** The verbs with the number of arguments each takes. */
  function Arity(verb: Bytes): Option<(nat, nat)> {
    if verb == "SET" then Some((2, 4))
    else if verb == "GET" || verb == "DEL" || verb == "EXISTS" then Some((1, 1))
    else if verb == "KEYS" || verb == "SAVE" then Some((0, 0))
    else None
  }

  const SET: Bytes := "SET"
  const EX: Bytes := "EX"

  const Unbalanced: Bytes := "ERR unbalanced quotes in request"
  const SyntaxError: Bytes := "ERR syntax error"
  const NotIntegerHead: Bytes := "ERR value is not an "
  const NotIntegerRest: Bytes := "integer or out of range"
  const NotInteger: Bytes := NotIntegerHead + NotIntegerRest
  const BadExpireHead: Bytes := "ERR invalid expire "
  const BadExpireRest: Bytes := "time in 'SET' command"
  const BadExpire: Bytes := BadExpireHead + BadExpireRest
  const WrongHead: Bytes := "ERR wrong number of "
  const WrongRest: Bytes := "arguments for '"
  const WrongEnd: Bytes := "' command"

  function UnknownCommand(verb: Bytes): Bytes { "ERR unknown command '" + SanitizeForEcho(verb) + "'" }

  function WrongArguments(verb: Bytes): Bytes { WrongHead + WrongRest + verb + WrongEnd }

  function ParseSet(tokens: seq<Bytes>): ParseResult
    requires 3 <= |tokens| <= 5
  {
    if |tokens| == 3 then Success(Set(tokens[1], tokens[2], None))
    else if |tokens| != 5 || ToUpper(tokens[3]) != "EX" then Failure(SyntaxError)
    else
      var seconds := ParseInt64(tokens[4]);
      if seconds == None then Failure(NotInteger)
      else if seconds.value <= 0 || seconds.value > MaxExpireSeconds then Failure(BadExpire)
      else Success(Set(tokens[1], tokens[2], Some(seconds.value)))
  }

  function ParseTokens(tokens: seq<Bytes>): ParseResult {
    if tokens == [] then Success(Empty)
    else
      var verb := ToUpper(tokens[0]);
      var arity := Arity(verb);
      if arity == None then Failure(UnknownCommand(tokens[0]))
      else if |tokens| - 1 < arity.value.0 || |tokens| - 1 > arity.value.1 then Failure(WrongArguments(verb))
      else if verb == "SET" then ParseSet(tokens)
      else if verb == "GET" then Success(Get(tokens[1]))
      else if verb == "DEL" then Success(Del(tokens[1]))
      else if verb == "EXISTS" then Success(Exists(tokens[1]))
      else if verb == "KEYS" then Success(Keys)
      else Success(Save)
  }

  function Parse(line: Bytes): ParseResult {
    var tokens := Tokenize(line);
    if tokens == None then Failure(Unbalanced) else ParseTokens(tokens.value)
  }

  // ---------------------------------------------------------------- what the parser promises

  /** Any lifetime that gets past the parser is positive and at most a hundred years. */
  lemma LifetimeInRange(line: Bytes)
    requires Parse(line).Success? && Parse(line).command.Set? && Parse(line).command.ttl.Some?
    ensures 1 <= Parse(line).command.ttl.value <= MaxExpireSeconds
  {
    hide Tokenize, ParseInt64;
  }

  ghost predicate OneLine(s: Bytes) { forall i :: 0 <= i < |s| ==> Printable(s[i]) }

  lemma SanitizedOneLine(verb: Bytes)
    ensures OneLine(SanitizeForEcho(verb)) && |SanitizeForEcho(verb)| <= MaxEchoedVerb + 3
  {
  }

  lemma JoinOneLine(a: Bytes, b: Bytes)
    requires OneLine(a) && OneLine(b)
    ensures OneLine(a + b)
  {
  }

  lemma UnknownShort(verb: Bytes)
    ensures OneLine(UnknownCommand(verb)) && |UnknownCommand(verb)| <= 64
  {
    hide SanitizeForEcho;
    SanitizedOneLine(verb);
    var a: Bytes := "ERR unknown command '";
    assert OneLine(a) && OneLine("'");
    hide OneLine;
    JoinOneLine(a, SanitizeForEcho(verb));
    JoinOneLine(a + SanitizeForEcho(verb), "'");
  }

  lemma WrongShort(verb: Bytes)
    requires OneLine(verb) && |verb| <= 6
    ensures OneLine(WrongArguments(verb)) && |WrongArguments(verb)| <= 64
  {
    hide OneLine;
    WrongTexts();
    JoinOneLine(WrongHead, WrongRest);
    JoinOneLine(WrongHead + WrongRest, verb);
    JoinOneLine(WrongHead + WrongRest + verb, WrongEnd);
  }

  lemma WrongTexts()
    ensures OneLine(WrongHead) && OneLine(WrongRest) && OneLine(WrongEnd)
  {
  }

  lemma FixedShort()
    ensures OneLine(Unbalanced) && OneLine(SyntaxError) && |Unbalanced| <= 64 && |SyntaxError| <= 64
  {
  }

  lemma NotIntegerShort()
    ensures OneLine(NotInteger) && |NotInteger| <= 64
  {
    assert OneLine(NotIntegerHead) && OneLine(NotIntegerRest);
    hide OneLine;
    JoinOneLine(NotIntegerHead, NotIntegerRest);
  }

  lemma BadExpireShort()
    ensures OneLine(BadExpire) && |BadExpire| <= 64
  {
    assert OneLine(BadExpireHead) && OneLine(BadExpireRest);
    hide OneLine;
    JoinOneLine(BadExpireHead, BadExpireRest);
  }

  lemma VerbShort(verb: Bytes)
    requires Arity(verb).Some?
    ensures OneLine(verb) && |verb| <= 6
  {
  }

  /** Whatever bytes a client sends, the error it gets back is printable text of bounded length. */
  lemma ErrorsAreShortLines(line: Bytes)
    requires Parse(line).Failure?
    ensures OneLine(Parse(line).error) && |Parse(line).error| <= 64
  {
    hide Tokenize, ParseInt64, SanitizeForEcho, ToUpper, OneLine, UnknownCommand, WrongArguments, Arity,
         Unbalanced, SyntaxError, NotInteger, BadExpire;
    FixedShort();
    NotIntegerShort();
    BadExpireShort();
    var tokens := Tokenize(line);
    if tokens.Some? && tokens.value != [] {
      var verb := ToUpper(tokens.value[0]);
      UnknownShort(tokens.value[0]);
      if Arity(verb).Some? {
        VerbShort(verb);
        WrongShort(verb);
      }
    }
  }

  // ---------------------------------------------------------------- round trip

  function Quote(raw: Bytes): Bytes { ['"'] + Escape(raw) + ['"'] }

  /** A quoted token yields its raw bytes. */
  lemma QuotedToken(raw: Bytes, rest: Bytes)
    requires Ends(rest)
    ensures Tokens(Quote(raw) + rest) == Cons(raw, Tokens(rest))
  {
    hide Escape, Tokens, Quoted;
    var s := Quote(raw) + rest;
    assert s[1..] == Escape(raw) + ['"'] + rest;
    QuotedEscape(raw, rest);
    NoSkip(s);
    TokensStep(s, s);
  }

  lemma NoSkip(s: Bytes)
    requires s != [] && !IsSpace(s[0])
    ensures SkipSpaces(s) == s
  {
  }

  /** A bare token yields itself. */
  lemma BareToken(t: Bytes, rest: Bytes)
    requires t != [] && t[0] != '"' && Ends(rest) && forall i :: 0 <= i < |t| ==> !IsSpace(t[i])
    ensures Tokens(t + rest) == Cons(t, Tokens(rest))
  {
    hide Tokens, Quoted, BareLength;
    var s := t + rest;
    NoSkip(s);
    BareRun(t, rest);
    TokensStep(s, s);
    assert s[..|t|] == t && s[|t|..] == rest;
  }

  lemma SpaceFirst(rest: Bytes)
    ensures Tokens([' '] + rest) == Tokens(rest)
  {
    hide Quoted;
    assert ([' '] + rest)[1..] == rest;
  }

  lemma NoStrip(s: Bytes)
    requires s != [] && s[|s| - 1] != '\n' && s[|s| - 1] != '\r'
    ensures StripEnd(s) == s
  {
  }

  lemma DecTokens(n: nat)
    ensures Tokens(Dec(n)) == Some([Dec(n)])
    ensures n < 0x8000_0000_0000_0000 ==> ParseInt64(Dec(n)) == Some(n)
    ensures IsDigit(Dec(n)[|Dec(n)| - 1])
  {
    hide Tokens, Dec;
    DecBack(n);
    assert Dec(n) + [] == Dec(n);
    BareToken(Dec(n), []);
    NoTokens();
    assert [Dec(n)] + [] == [Dec(n)];
  }

  lemma NoTokens()
    ensures Tokens([]) == Some([])
  {
  }

  function SetLine(k: Bytes, v: Bytes): Bytes { "SET " + Quote(k) + " " + Quote(v) }

  lemma SetShape(k: Bytes, v: Bytes, rest: Bytes)
    ensures SetLine(k, v) + rest == "SET" + ([' '] + (Quote(k) + ([' '] + (Quote(v) + rest))))
  {
    hide Quote;
    var q, w := Quote(k), Quote(v);
    assert SetLine(k, v) + rest == "SET" + [' '] + q + [' '] + w + rest;
    assert "SET" + [' '] + q + [' '] + w + rest == "SET" + ([' '] + (q + ([' '] + (w + rest))));
  }

  lemma SetTokens(k: Bytes, v: Bytes, rest: Bytes)
    requires Ends(rest)
    ensures Tokens(SetLine(k, v) + rest) == Cons("SET", Cons(k, Cons(v, Tokens(rest))))
  {
    hide Tokens, Quote, SetLine;
    SetShape(k, v, rest);
    var c := Quote(v) + rest;
    var b := Quote(k) + ([' '] + c);
    BareToken("SET", [' '] + b);
    SpaceFirst(b);
    QuotedToken(k, [' '] + c);
    SpaceFirst(c);
    QuotedToken(v, rest);
  }

  lemma ExTokens(d: Bytes)
    requires Tokens(d) == Some([d])
    ensures Tokens(" EX " + d) == Some(["EX", d])
  {
    hide Tokens;
    assert " EX " + d == [' '] + ("EX" + ([' '] + d));
    SpaceFirst("EX" + ([' '] + d));
    BareToken("EX", [' '] + d);
    SpaceFirst(d);
    assert [EX] + [d] == ["EX", d];
  }

  lemma UpperFixed()
    ensures ToUpper("SET") == "SET" && ToUpper("EX") == "EX"
  {
  }

  lemma LastOfSet(k: Bytes, v: Bytes)
    ensures SetLine(k, v) != [] && SetLine(k, v)[|SetLine(k, v)| - 1] == '"'
  {
    hide Escape;
  }

  /**
   Any key and value, escaped and quoted, come through SET unchanged, with and without a
   lifetime. Since GET prints values escaped the same way, whatever it prints can be
   quoted back to SET.
   */
  lemma SetRoundTrip(k: Bytes, v: Bytes, n: int)
    requires 1 <= n <= MaxExpireSeconds
    ensures Parse(SetLine(k, v)) == Success(Set(k, v, None))
    ensures Parse(SetLine(k, v) + " EX " + Dec(n)) == Success(Set(k, v, Some(n)))
  {
    hide Tokens, ParseInt64, Dec, SetLine, ToUpper, StripEnd;
    UpperFixed();
    LastOfSet(k, v);
    SetTokens(k, v, []);
    NoTokens();
    assert SetLine(k, v) + [] == SetLine(k, v);
    NoStrip(SetLine(k, v));
    var set3: seq<Bytes> := ["SET", k, v];
    assert [SET] + ([k] + ([v] + [])) == set3;
    assert Tokenize(SetLine(k, v)) == Some(set3);
    var tail: Bytes := " EX " + Dec(n);
    var line := SetLine(k, v) + tail;
    assert SetLine(k, v) + " EX " + Dec(n) == line;
    DecTokens(n);
    ExTokens(Dec(n));
    SetTokens(k, v, tail);
    assert line[|line| - 1] == Dec(n)[|Dec(n)| - 1];
    NoStrip(line);
    var set5: seq<Bytes> := ["SET", k, v, "EX", Dec(n)];
    assert [SET] + ([k] + ([v] + ["EX", Dec(n)])) == set5;
    assert Tokenize(line) == Some(set5);
  }
}
