/** Splitting a request line into tokens, and the escaping that undoes the quoting. */
module Tokenizer {
  import opened Base

  predicate IsSpace(c: Byte) { c == ' ' || c == '\t' }

  predicate IsHexDigit(c: Byte) { '0' <= c <= '9' || 'a' <= c <= 'f' || 'A' <= c <= 'F' }

  function HexValue(c: Byte): (n: nat)
    requires IsHexDigit(c)
    ensures n < 16
  {
    if '0' <= c <= '9' then c as int - '0' as int
    else if 'a' <= c <= 'f' then c as int - 'a' as int + 10
    else c as int - 'A' as int + 10
  }

  // ---------------------------------------------------------------- escaping

  function HexDigit(n: nat): (c: Byte)
    requires n < 16
    ensures IsHexDigit(c) && HexValue(c) == n
  {
    if n < 10 then ('0' as int + n) as char else ('a' as int + (n - 10)) as char
  }

  function EscapeByte(b: Byte): Bytes {
    if b == '\\' then "\\\\"
    else if b == '\n' then "\\n"
    else if b == '\r' then "\\r"
    else if b == '\t' then "\\t"
    else if b == '"' then "\\\""
    else if Ord(b) < 0x20 || Ord(b) >= 0x7f then "\\x" + [HexDigit(Ord(b) / 16), HexDigit(Ord(b) % 16)]
    else [b]
  }

  function Escape(raw: Bytes): Bytes {
    if raw == [] then [] else EscapeByte(raw[0]) + Escape(raw[1..])
  }

  /** Plain text is left alone; what has a letter of its own gets it, and the rest two small hexadecimal digits. */
  lemma EscapesAre(b: Byte)
    ensures ' ' <= b <= '~' && b != '"' && b != '\\' ==> Escape([b]) == [b]
    ensures Escape("\n") == "\\n" && Escape("\r") == "\\r" && Escape("\t") == "\\t"
    ensures Escape("\"") == "\\\"" && Escape("\\") == "\\\\"
    ensures Escape([Chr(0)]) == "\\x00" && Escape([Chr(127)]) == "\\x7f" && Escape([Chr(171)]) == "\\xab"
  {
    hide Escape;
    EscapeOne(b);
    EscapeOne('\n');
    EscapeOne('\r');
    EscapeOne('\t');
    EscapeOne('"');
    EscapeOne('\\');
    EscapeOne(Chr(0));
    EscapeOne(Chr(127));
    EscapeOne(Chr(171));
  }

  lemma EscapeOne(b: Byte)
    ensures Escape([b]) == EscapeByte(b)
  {
    hide EscapeByte;
    assert [b][1..] == [];
  }

  method EscapeForWire(raw: Bytes) returns (result: Bytes)
    ensures result == Escape(raw)
  {
    hide EscapeByte;
    result := [];
    var i := 0;
    while i < |raw|
      invariant 0 <= i <= |raw| && result == Escape(raw[..i])
    {
      assert raw[..i + 1] == raw[..i] + [raw[i]];
      EscapeAppend(raw[..i], raw[i]);
      result := result + EscapeByte(raw[i]);
      i := i + 1;
    }
    assert raw[..i] == raw;
  }

  lemma {:induction false} EscapeAppend(s: Bytes, b: Byte)
    ensures Escape(s + [b]) == Escape(s) + EscapeByte(b)
  {
    hide EscapeByte;
    if s == [] {
      assert s + [b] == [b];
    } else {
      EscapeAppend(s[1..], b);
      assert (s + [b])[1..] == s[1..] + [b];
    }
  }

  predicate Printable(b: Byte) { 0x20 <= Ord(b) < 0x7f }

  /** Escaped text is printable, so it holds no newline and stays on one line. */
  lemma {:induction false} EscapePrintable(raw: Bytes)
    ensures forall i :: 0 <= i < |Escape(raw)| ==> Printable(Escape(raw)[i])
  {
    if raw != [] {
      EscapePrintable(raw[1..]);
      assert forall i :: 0 <= i < |EscapeByte(raw[0])| ==> Printable(EscapeByte(raw[0])[i]);
    }
  }

  // ---------------------------------------------------------------- quoted tokens

  /** What a backslash and the bytes after it stand for, and how many bytes that takes in all. */
  function Unescape(s: Bytes): (r: (Byte, nat))
    requires |s| >= 2
    ensures 2 <= r.1 <= |s|
  {
    match s[1]
    case 'n' => ('\n', 2)
    case 'r' => ('\r', 2)
    case 't' => ('\t', 2)
    case 'b' => (Chr(8), 2)
    case 'a' => (Chr(7), 2)
    case 'x' =>
      if |s| > 3 && IsHexDigit(s[2]) && IsHexDigit(s[3]) then (Chr(HexValue(s[2]) * 16 + HexValue(s[3])), 4)
      else ('x', 2)
    case c => (c, 2)
  }

  /** The rest of a quoted token: its bytes and what follows the closing quote, or nothing if it never closes. */
  function Quoted(s: Bytes): (r: Option<(Bytes, Bytes)>)
    ensures r.Some? ==> |r.value.1| < |s|
    decreases |s|
  {
    if s == [] then None
    else if s[0] == '\\' && |s| > 1 then
      var (b, n) := Unescape(s);
      Push(b, Quoted(s[n..]))
    else if s[0] == '"' then Some(([], s[1..]))
    else Push(s[0], Quoted(s[1..]))
  }

  function Push(b: Byte, r: Option<(Bytes, Bytes)>): Option<(Bytes, Bytes)> {
    if r == None then None else Some(([b] + r.value.0, r.value.1))
  }

  /** One escaped byte is read back as that byte. */
  lemma UnescapeByte(b: Byte, rest: Bytes)
    ensures Quoted(EscapeByte(b) + rest) == Push(b, Quoted(rest))
  {
    var e := EscapeByte(b);
    var s := e + rest;
    assert forall i :: 0 <= i < |e| ==> s[i] == e[i];
    if |e| > 1 {
      assert Unescape(s) == (b, |e|) by {
        if |e| == 4 { HexBack(b); }
      }
      assert s[|e|..] == rest;
    } else {
      assert s[1..] == rest;
    }
  }

  lemma HexBack(b: Byte)
    ensures Chr(HexValue(HexDigit(Ord(b) / 16)) * 16 + HexValue(HexDigit(Ord(b) % 16))) == b
  {
  }

  /** Quoting an escaped byte string and reading it back gives the byte string. */
  lemma {:induction false} QuotedEscape(raw: Bytes, rest: Bytes)
    ensures Quoted(Escape(raw) + ['"'] + rest) == Some((raw, rest))
  {
    hide EscapeByte, Unescape;
    if raw == [] {
      assert Escape(raw) + ['"'] + rest == ['"'] + rest;
      assert (['"'] + rest)[1..] == rest;
    } else {
      var tail := Escape(raw[1..]) + ['"'] + rest;
      assert Escape(raw) + ['"'] + rest == EscapeByte(raw[0]) + tail;
      UnescapeByte(raw[0], tail);
      QuotedEscape(raw[1..], rest);
      assert [raw[0]] + raw[1..] == raw;
    }
  }

  // ---------------------------------------------------------------- tokens

  function SkipSpaces(s: Bytes): (r: Bytes)
    ensures |r| <= |s| && (r != [] ==> !IsSpace(r[0]))
  {
    if s != [] && IsSpace(s[0]) then SkipSpaces(s[1..]) else s
  }

  /** The length of the run of non-space bytes at the front. */
  function BareLength(s: Bytes): (n: nat)
    ensures n <= |s|
  {
    if s == [] || IsSpace(s[0]) then 0 else 1 + BareLength(s[1..])
  }

  /** A token ends here: nothing follows, or a blank. */
  predicate Ends(rest: Bytes) { rest == [] || IsSpace(rest[0]) }

  lemma {:induction false} BareRun(t: Bytes, rest: Bytes)
    requires Ends(rest) && forall i :: 0 <= i < |t| ==> !IsSpace(t[i])
    ensures BareLength(t + rest) == |t|
  {
    if t == [] {
      assert t + rest == rest;
    } else {
      BareRun(t[1..], rest);
      assert (t + rest)[1..] == t[1..] + rest;
    }
  }

  function Cons(t: Bytes, r: Option<seq<Bytes>>): Option<seq<Bytes>> {
    if r == None then None else Some([t] + r.value)
  }

  function Tokens(s: Bytes): Option<seq<Bytes>>
    decreases |s|
  {
    var s' := SkipSpaces(s);
    if s' == [] then Some([])
    else if s'[0] == '"' then
      var q := Quoted(s'[1..]);
      if q == None || (q.value.1 != [] && !IsSpace(q.value.1[0])) then None
      else Cons(q.value.0, Tokens(q.value.1))
    else
      var n := BareLength(s');
      Cons(s'[..n], Tokens(s'[n..]))
  }

  /** Trailing carriage returns and newlines do not belong to the request. */
  function StripEnd(line: Bytes): (r: Bytes)
    ensures r <= line
  {
    if line != [] && (line[|line| - 1] == '\n' || line[|line| - 1] == '\r') then StripEnd(line[..|line| - 1]) else line
  }

  function Tokenize(line: Bytes): Option<seq<Bytes>> { Tokens(StripEnd(line)) }

  // ---------------------------------------------------------------- the loops

  function PushAll(t: Bytes, r: Option<(Bytes, Bytes)>): Option<(Bytes, Bytes)> {
    if r == None then None else Some((t + r.value.0, r.value.1))
  }

  lemma PushMore(t: Bytes, b: Byte, r: Option<(Bytes, Bytes)>)
    ensures PushAll(t, Push(b, r)) == PushAll(t + [b], r)
  {
    if r.Some? { assert t + ([b] + r.value.0) == t + [b] + r.value.0; }
  }

  /** Scans a quoted token from just behind its opening quote. */
  method ScanQuoted(s: Bytes, start: nat) returns (closed: bool, token: Bytes, i: nat)
    requires start <= |s|
    ensures start <= i <= |s|
    ensures closed ==> start < i && Quoted(s[start..]) == Some((token, s[i..]))
    ensures !closed ==> Quoted(s[start..]) == None
  {
    hide Unescape, Quoted, Push, PushAll;
    closed, token, i := false, [], start;
    EmptyPush(Quoted(s[start..]));
    while i < |s|
      invariant start <= i <= |s|
      invariant Quoted(s[start..]) == PushAll(token, Quoted(s[i..]))
      decreases |s| - i
    {
      QuotedStep(s, i);
      if s[i] == '\\' && i + 1 < |s| {
        var (b, n) := Unescape(s[i..]);
        PushMore(token, b, Quoted(s[i + n..]));
        token, i := token + [b], i + n;
      } else if s[i] == '"' {
        PushEnd(token, s[i + 1..]);
        return true, token, i + 1;
      } else {
        PushMore(token, s[i], Quoted(s[i + 1..]));
        token, i := token + [s[i]], i + 1;
      }
    }
    QuotedEnd(s[i..], token);
  }

  /** One step of reading a quoted token at position i. */
  lemma QuotedStep(s: Bytes, i: nat)
    requires i < |s|
    ensures s[i] == '\\' && i + 1 < |s| ==>
              var (b, n) := Unescape(s[i..]); i + n <= |s| && Quoted(s[i..]) == Push(b, Quoted(s[i + n..]))
    ensures !(s[i] == '\\' && i + 1 < |s|) && s[i] == '"' ==> Quoted(s[i..]) == Some(([], s[i + 1..]))
    ensures !(s[i] == '\\' && i + 1 < |s|) && s[i] != '"' ==> Quoted(s[i..]) == Push(s[i], Quoted(s[i + 1..]))
  {
    hide Unescape, Push;
    var t := s[i..];
    assert t[0] == s[i] && t[1..] == s[i + 1..];
    if s[i] == '\\' && i + 1 < |s| {
      var n := Unescape(t).1;
      assert t[n..] == s[i + n..];
    }
  }

  lemma PushEnd(t: Bytes, rest: Bytes)
    ensures PushAll(t, Some(([], rest))) == Some((t, rest))
  {
    assert t + [] == t;
  }

  lemma QuotedEnd(s: Bytes, t: Bytes)
    ensures s == [] ==> PushAll(t, Quoted(s)) == None
  {
  }

  lemma EmptyPush(r: Option<(Bytes, Bytes)>)
    ensures PushAll([], r) == r
  {
    if r.Some? { assert [] + r.value.0 == r.value.0; }
  }

  method ScanBare(s: Bytes, start: nat) returns (token: Bytes, i: nat)
    requires start <= |s|
    ensures i == start + BareLength(s[start..]) && token == s[start..i]
  {
    token, i := [], start;
    while i < |s| && !IsSpace(s[i])
      invariant start <= i <= |s| && token == s[start..i]
      invariant BareLength(s[start..]) == i - start + BareLength(s[i..])
    {
      assert s[i..][1..] == s[i + 1..];
      token, i := token + [s[i]], i + 1;
    }
  }

  function Before(ts: seq<Bytes>, r: Option<seq<Bytes>>): Option<seq<Bytes>> {
    if r == None then None else Some(ts + r.value)
  }

  lemma BeforeMore(ts: seq<Bytes>, t: Bytes, r: Option<seq<Bytes>>)
    ensures Before(ts, Cons(t, r)) == Before(ts + [t], r)
  {
    if r.Some? { assert ts + ([t] + r.value) == ts + [t] + r.value; }
  }

  method SkipFrom(s: Bytes, start: nat) returns (i: nat)
    requires start <= |s|
    ensures start <= i <= |s| && s[i..] == SkipSpaces(s[start..])
  {
    i := start;
    while i < |s| && IsSpace(s[i])
      invariant start <= i <= |s| && SkipSpaces(s[i..]) == SkipSpaces(s[start..])
    {
      assert s[i..][1..] == s[i + 1..];
      i := i + 1;
    }
  }

  /** One step of the tokenizer, by what stands behind the spaces. */
  lemma TokensStep(s: Bytes, s': Bytes)
    requires s' == SkipSpaces(s)
    ensures s' == [] ==> Tokens(s) == Some([])
    ensures s' != [] && s'[0] == '"' ==>
              var q := Quoted(s'[1..]);
              Tokens(s) == if q == None || (q.value.1 != [] && !IsSpace(q.value.1[0])) then None
                           else Cons(q.value.0, Tokens(q.value.1))
    ensures s' != [] && s'[0] != '"' ==>
              BareLength(s') >= 1 && Tokens(s) == Cons(s'[..BareLength(s')], Tokens(s'[BareLength(s')..]))
  {
    hide Quoted;
  }

  /** Splits a line into tokens, or reports unbalanced quotes. */
  method TokenizeLine(line: Bytes) returns (tokens: Option<seq<Bytes>>)
    ensures tokens == Tokenize(line)
  {
    hide Quoted, BareLength, Tokens, SkipSpaces, StripEnd, Before, Cons;
    var end := TrimEnd(line);
    var s := line[..end];
    var ts: seq<Bytes> := [];
    var i := 0;
    assert s[0..] == s;
    EmptyBefore(Tokens(s));
    while i < |s|
      invariant 0 <= i <= |s| && Before(ts, Tokens(s[i..])) == Tokens(s)
      decreases |s| - i
    {
      var ok, token, next := NextToken(s, i);
      if !ok {
        NoneBefore(ts);
        return None;
      }
      if token == None {
        break;
      }
      BeforeMore(ts, token.value, Tokens(s[next..]));
      ts, i := ts + [token.value], next;
    }
    NoMore(ts, s, i);
    tokens := Some(ts);
  }

  /** The position of the trailing carriage returns and newlines. */
  method TrimEnd(line: Bytes) returns (end: nat)
    ensures end <= |line| && line[..end] == StripEnd(line)
  {
    end := |line|;
    assert line[..end] == line;
    while end > 0 && (line[end - 1] == '\n' || line[end - 1] == '\r')
      invariant 0 <= end <= |line| && StripEnd(line[..end]) == StripEnd(line)
    {
      assert line[..end][..end - 1] == line[..end - 1];
      end := end - 1;
    }
  }

  /** The next token from position i and where it ends; none when only spaces are left. */
  method NextToken(s: Bytes, i: nat) returns (ok: bool, token: Option<Bytes>, next: nat)
    requires i <= |s|
    ensures next <= |s|
    ensures !ok ==> Tokens(s[i..]) == None
    ensures ok && token == None ==> Tokens(s[i..]) == Some([])
    ensures ok && token.Some? ==> next > i && Tokens(s[i..]) == Cons(token.value, Tokens(s[next..]))
  {
    hide Quoted, BareLength, Tokens, SkipSpaces, Cons;
    var at := SkipFrom(s, i);
    TokensStep(s[i..], s[at..]);
    if at >= |s| {
      return true, None, at;
    }
    if s[at] == '"' {
      assert s[at..][1..] == s[at + 1..];
      var closed, t, after := ScanQuoted(s, at + 1);
      if !closed || (after < |s| && !IsSpace(s[after])) {
        return false, None, after;
      }
      return true, Some(t), after;
    } else {
      var t, after := ScanBare(s, at);
      assert s[at..][after - at..] == s[after..];
      assert s[at..][..after - at] == s[at..after];
      return true, Some(t), after;
    }
  }

  lemma NoneBefore(ts: seq<Bytes>)
    ensures Before(ts, None) == None
  {
  }

  /** At the end of the line the tokens are the ones already found. */
  lemma NoMore(ts: seq<Bytes>, s: Bytes, i: nat)
    requires i <= |s| && (i == |s| || Tokens(s[i..]) == Some([]))
    ensures Before(ts, Tokens(s[i..])) == Some(ts)
  {
    assert i == |s| ==> s[i..] == [];
    TokensStep([], []) by { SkipNothing(); }
    assert ts + [] == ts;
  }

  lemma SkipNothing()
    ensures SkipSpaces([]) == []
  {
  }

  lemma EmptyBefore(r: Option<seq<Bytes>>)
    ensures Before([], r) == r
  {
    if r.Some? { assert [] + r.value == r.value; }
  }
}
