/** What each request means, written down apart from the parser. */
module Commands {
  import opened Base
  import opened Tokenizer
  import opened Decimal
  import opened Grammar
  import P = Parser

  // ---------------------------------------------------------------- words

  /** The word, which is in capitals, with any of its letters small. */
  ghost predicate Spells(word: Bytes, capitals: Bytes) {
    && |word| == |capitals|
    && forall i :: 0 <= i < |word| ==> word[i] == capitals[i] || Ord(word[i]) == Ord(capitals[i]) + 32
  }

  predicate Capitals(s: Bytes) { forall i :: 0 <= i < |s| ==> 'A' <= s[i] <= 'Z' }

  lemma SpellsExactly(word: Bytes, capitals: Bytes)
    requires Capitals(capitals)
    ensures P.ToUpper(word) == capitals <==> Spells(word, capitals)
  {
    if Spells(word, capitals) {
      forall i | 0 <= i < |word| ensures P.ToUpper(word)[i] == capitals[i] { UpperExactly(word[i], capitals[i]); }
    }
    if P.ToUpper(word) == capitals {
      forall i | 0 <= i < |word|
        ensures word[i] == capitals[i] || Ord(word[i]) == Ord(capitals[i]) + 32
      {
        assert P.ToUpper(word)[i] == P.UpperByte(word[i]);
        UpperExactly(word[i], capitals[i]);
      }
    }
  }

  lemma UpperExactly(c: Byte, capital: Byte)
    requires 'A' <= capital <= 'Z'
    ensures P.UpperByte(c) == capital <==> c == capital || Ord(c) == Ord(capital) + 32
  {
  }

  lemma VerbsAreCapitals()
    ensures Capitals("SET") && Capitals("GET") && Capitals("DEL") && Capitals("EXISTS")
    ensures Capitals("KEYS") && Capitals("SAVE") && Capitals("EX")
  {
  }

  // ---------------------------------------------------------------- numbers

  function Zeros(z: nat): (s: Bytes)
    ensures |s| == z && forall i :: 0 <= i < z ==> s[i] == '0'
  {
    if z == 0 then [] else ['0'] + Zeros(z - 1)
  }

  /** The number as usually written, possibly behind zeros. */
  ghost predicate Numeral(s: Bytes, n: nat) { exists z: nat :: s == Zeros(z) + Dec(n) }

  /** A number as usually written has no zero in front. */
  lemma {:induction false} DecFirst(n: nat)
    ensures n == 0 ==> Dec(n) == "0"
    ensures n > 0 ==> Dec(n)[0] != '0'
  {
    if n >= 10 { DecFirst(n / 10); }
  }

  lemma {:induction false} ZerosCount(z: nat, s: Bytes)
    requires AllDigits(s)
    ensures AllDigits(Zeros(z) + s) && DecValue(Zeros(z) + s) == DecValue(s)
    decreases |s|
  {
    var u := Zeros(z) + s;
    if s == [] {
      assert u == Zeros(z);
      ZerosNothing(z);
    } else {
      var n := |s| - 1;
      ZerosCount(z, s[..n]);
      assert u[..|u| - 1] == Zeros(z) + s[..n];
    }
  }

  lemma {:induction false} ZerosNothing(z: nat)
    ensures DecValue(Zeros(z)) == 0
  {
    if z > 0 {
      ZerosNothing(z - 1);
      assert Zeros(z)[..z - 1] == Zeros(z - 1);
    }
  }

  lemma {:induction false} DigitsFound(s: Bytes) returns (z: nat)
    requires s != [] && AllDigits(s)
    ensures s == Zeros(z) + Dec(DecValue(s))
  {
    var n := |s| - 1;
    var front, last := s[..n], DigitValue(s[n]);
    assert s == front + [DigitOf(last)];
    if front == [] {
      z := 0;
      assert DecValue(front) == 0;
    } else {
      z := DigitsFound(front);
      var m := DecValue(front);
      DigitsNext(front, z, m, last);
      if m == 0 { z := z + 1; }
    }
  }

  lemma DigitsNext(front: Bytes, z: nat, m: nat, last: nat)
    requires last < 10 && front == Zeros(z) + Dec(m)
    ensures front + [DigitOf(last)] == Zeros(if m == 0 then z + 1 else z) + Dec(m * 10 + last)
  {
    if m == 0 {
      assert front + [DigitOf(last)] == Zeros(z) + ['0'] + [DigitOf(last)];
      assert Zeros(z) + ['0'] == Zeros(z + 1);
    } else {
      assert (m * 10 + last) / 10 == m && (m * 10 + last) % 10 == last;
      assert Dec(m * 10 + last) == Dec(m) + [DigitOf(last)];
      hide Dec;
      assert front + [DigitOf(last)] == Zeros(z) + (Dec(m) + [DigitOf(last)]);
    }
  }

  /** Digits spell a number exactly when that is their value. */
  lemma NumeralExactly(s: Bytes, n: nat)
    ensures Numeral(s, n) <==> s != [] && AllDigits(s) && DecValue(s) == n
  {
    hide Dec, DecValue, Zeros;
    if z: nat :| s == Zeros(z) + Dec(n) {
      DecBack(n);
      ZerosCount(z, Dec(n));
    }
    if s != [] && AllDigits(s) && DecValue(s) == n {
      var z := DigitsFound(s);
      assert s == Zeros(z) + Dec(n);
    }
  }

  /** The text is the number, or a minus sign and its size, within 64 bits. */
  ghost predicate Spelled(text: Bytes, v: int) {
    && -0x8000_0000_0000_0000 <= v < 0x8000_0000_0000_0000
    && ((v >= 0 && Numeral(text, v)) || (v <= 0 && text != [] && text[0] == '-' && Numeral(text[1..], -v)))
  }

  lemma IntegerExactly(text: Bytes, v: int)
    ensures P.ParseInt64(text) == Some(v) <==> Spelled(text, v)
  {
    hide Numeral, DecValue;
    if v >= 0 { NumeralExactly(text, v); }
    if v <= 0 && text != [] { NumeralExactly(text[1..], -v); }
  }

  // ---------------------------------------------------------------- requests

  const HundredYears: nat := 3_153_600_000

  ghost predicate Means(ts: seq<Bytes>, c: P.Command) {
    match c
    case Empty => ts == []
    case Get(k) => |ts| == 2 && Spells(ts[0], "GET") && ts[1] == k
    case Del(k) => |ts| == 2 && Spells(ts[0], "DEL") && ts[1] == k
    case Exists(k) => |ts| == 2 && Spells(ts[0], "EXISTS") && ts[1] == k
    case Keys => |ts| == 1 && Spells(ts[0], "KEYS")
    case Save => |ts| == 1 && Spells(ts[0], "SAVE")
    case Set(k, v, ttl) =>
      && |ts| == (if ttl == None then 3 else 5) && Spells(ts[0], "SET") && ts[1] == k && ts[2] == v
      && (ttl.Some? ==> Spells(ts[3], "EX") && Spelled(ts[4], ttl.value) && 1 <= ttl.value <= HundredYears)
  }

  lemma TokensExactly(ts: seq<Bytes>, c: P.Command)
    ensures P.ParseTokens(ts) == P.Success(c) <==> Means(ts, c)
  {
    hide P.ToUpper, Spells, Spelled, P.ParseInt64, Capitals;
    VerbsAreCapitals();
    if ts != [] {
      Verbs(ts[0]);
      if |ts| == 5 { Lifetime(ts[3], ts[4], c); }
    }
  }

  lemma Verbs(word: Bytes)
    ensures var verb := P.ToUpper(word);
            && (verb == "SET" <==> Spells(word, "SET")) && (verb == "GET" <==> Spells(word, "GET"))
            && (verb == "DEL" <==> Spells(word, "DEL")) && (verb == "EXISTS" <==> Spells(word, "EXISTS"))
            && (verb == "KEYS" <==> Spells(word, "KEYS")) && (verb == "SAVE" <==> Spells(word, "SAVE"))
  {
    hide P.ToUpper, Spells, Capitals;
    VerbsAreCapitals();
    SpellsExactly(word, "SET");
    SpellsExactly(word, "GET");
    SpellsExactly(word, "DEL");
    SpellsExactly(word, "EXISTS");
    SpellsExactly(word, "KEYS");
    SpellsExactly(word, "SAVE");
  }

  lemma Lifetime(option: Bytes, text: Bytes, c: P.Command)
    ensures P.ToUpper(option) == "EX" <==> Spells(option, "EX")
    ensures c.Set? && c.ttl.Some? ==> (P.ParseInt64(text) == Some(c.ttl.value) <==> Spelled(text, c.ttl.value))
  {
    hide P.ToUpper, Spells, Capitals, P.ParseInt64, Spelled;
    VerbsAreCapitals();
    SpellsExactly(option, "EX");
    if c.Set? && c.ttl.Some? { IntegerExactly(text, c.ttl.value); }
  }

  /**
   A line stands for a command exactly when it is well formed, its tokens mean the command,
   and nothing but line ends follow. So every line stands for one command at most.
   */
  lemma ParseExactly(line: Bytes, c: P.Command)
    ensures P.Parse(line) == P.Success(c) <==> exists l, ends :: Written(line, l, ends) && Means(WordsOf(l), c)
  {
    hide Tokenize, P.ParseTokens, Means, WordsOf, LayoutOk, LineOf, Unended, LineEnds;
    if P.Parse(line) == P.Success(c) {
      var ts := Tokenize(line).value;
      TokenizeExactly(line, ts);
      var l, ends :| Written(line, l, ends) && WordsOf(l) == ts;
      TokensExactly(ts, c);
    }
    if l, ends :| Written(line, l, ends) && Means(WordsOf(l), c) {
      TokenizeExactly(line, WordsOf(l));
      TokensExactly(WordsOf(l), c);
    }
  }

  // ---------------------------------------------------------------- refusals

  ghost predicate Known(word: Bytes) {
    || Spells(word, "SET") || Spells(word, "GET") || Spells(word, "DEL")
    || Spells(word, "EXISTS") || Spells(word, "KEYS") || Spells(word, "SAVE")
  }

  /** A line that is not well formed is refused for its quotes. */
  lemma UnbalancedExactly(line: Bytes)
    requires forall l, ends :: !Written(line, l, ends)
    ensures P.Parse(line) == P.Failure("ERR unbalanced quotes in request")
  {
    hide Tokenize, Written, P.ParseTokens;
    if Tokenize(line).Some? { TokenizeExactly(line, Tokenize(line).value); }
  }

  /** The verbs that take one argument, and those that take none. */
  lemma CountExactly(ts: seq<Bytes>)
    requires ts != []
    ensures !Known(ts[0]) ==> P.ParseTokens(ts) == P.Failure(P.UnknownCommand(ts[0]))
    ensures Spells(ts[0], "GET") && |ts| != 2 ==> P.ParseTokens(ts) == P.Failure(P.WrongArguments("GET"))
    ensures Spells(ts[0], "DEL") && |ts| != 2 ==> P.ParseTokens(ts) == P.Failure(P.WrongArguments("DEL"))
    ensures Spells(ts[0], "EXISTS") && |ts| != 2 ==> P.ParseTokens(ts) == P.Failure(P.WrongArguments("EXISTS"))
    ensures Spells(ts[0], "KEYS") && |ts| != 1 ==> P.ParseTokens(ts) == P.Failure(P.WrongArguments("KEYS"))
    ensures Spells(ts[0], "SAVE") && |ts| != 1 ==> P.ParseTokens(ts) == P.Failure(P.WrongArguments("SAVE"))
    ensures Spells(ts[0], "SET") && !(3 <= |ts| <= 5) ==> P.ParseTokens(ts) == P.Failure(P.WrongArguments("SET"))
  {
    hide P.ToUpper, Spells, P.UnknownCommand, P.WrongArguments, P.ParseSet;
    Verbs(ts[0]);
  }

  /** SET takes a lifetime only behind EX, and only from one second to a hundred years. */
  lemma LifetimeExactly(ts: seq<Bytes>)
    requires 4 <= |ts| <= 5 && Spells(ts[0], "SET")
    ensures var r, read := P.ParseTokens(ts), |ts| == 5 && Spells(ts[3], "EX");
            && (!read ==> r == P.Failure("ERR syntax error"))
            && (read && (forall v :: !Spelled(ts[4], v)) ==> r == P.Failure(P.NotInteger))
            && forall v :: read && Spelled(ts[4], v) && !(1 <= v <= HundredYears) ==> r == P.Failure(P.BadExpire)
  {
    hide P.ToUpper, Spells, Spelled, P.ParseInt64, P.NotInteger, P.BadExpire, Capitals;
    Verbs(ts[0]);
    VerbsAreCapitals();
    if |ts| == 5 {
      SpellsExactly(ts[3], "EX");
      forall v ensures P.ParseInt64(ts[4]) == Some(v) <==> Spelled(ts[4], v) { IntegerExactly(ts[4], v); }
    }
  }

  /** The error texts; an unknown verb is named as it was sent, a known one in capitals. */
  lemma ErrorTexts(verb: Bytes)
    ensures P.UnknownCommand(verb) == "ERR unknown command '" + P.SanitizeForEcho(verb) + "'"
    ensures P.WrongArguments(verb) == "ERR wrong number of " + "arguments for '" + verb + "' command"
    ensures P.NotInteger == "ERR value is not an " + "integer or out of range"
    ensures P.BadExpire == "ERR invalid expire " + "time in 'SET' command"
  {
  }

  /** An unknown verb is echoed up to its 32nd byte, printable bytes as they are. */
  lemma EchoExactly(verb: Bytes)
    ensures var e := P.SanitizeForEcho(verb);
            && |e| == (if |verb| <= 32 then |verb| else 35) && (|verb| > 32 ==> e[32..] == "...")
            && forall i :: 0 <= i < |verb| && i < 32 ==> e[i] == if ' ' <= verb[i] <= '~' then verb[i] else '?'
  {
  }
}
