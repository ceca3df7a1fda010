/** Tagged replies: how the server frames them and how the client takes the stream apart. */
module Wire {
  import opened Base
  import opened Decimal
  import opened Tokenizer

  datatype ReplyType = Status | Error | Value | Nil | Integer | Array | Unknown

  function Tag(t: ReplyType): Byte {
    match t
    case Status => '+'
    case Error => '-'
    case Value => '$'
    case Nil => '_'
    case Integer => ':'
    case Array => '*'
    case Unknown => '?'
  }

  /** The type and payload of a line; an unrecognised tag has no payload. */
  function ParseTag(line: Bytes): (ReplyType, Bytes) {
    if line == [] then (Unknown, [])
    else match line[0]
         case '+' => (Status, line[1..])
         case '-' => (Error, line[1..])
         case '$' => (Value, line[1..])
         case '_' => (Nil, line[1..])
         case ':' => (Integer, line[1..])
         case '*' => (Array, line[1..])
         case _ => (Unknown, [])
  }

  /** Every tag the server writes is read back as itself, and the payload with it. */
  lemma TagBack(t: ReplyType, payload: Bytes)
    requires t != Unknown
    ensures ParseTag([Tag(t)] + payload) == (t, payload)
  {
    assert ([Tag(t)] + payload)[1..] == payload;
  }

  // ---------------------------------------------------------------- counts

  const MaxCount: nat := 100_000_000

  /** A count the client is willing to read. */
  function CountOf(payload: Bytes): Option<nat> {
    if payload != [] && AllDigits(payload) && DecValue(payload) <= MaxCount then Some(DecValue(payload)) else None
  }

  method ParseCount(payload: Bytes) returns (count: Option<nat>)
    ensures count == CountOf(payload)
  {
    if payload == [] {
      return None;
    }
    var value := 0;
    var i := 0;
    while i < |payload|
      invariant 0 <= i <= |payload| && AllDigits(payload[..i])
      invariant value == DecValue(payload[..i]) <= MaxCount
    {
      if !IsDigit(payload[i]) {
        return None;
      }
      assert payload[..i + 1][..i] == payload[..i];
      value := value * 10 + DigitValue(payload[i]);
      if value > MaxCount {
        if AllDigits(payload) { DecPrefix(payload, i + 1); }
        return None;
      }
      i := i + 1;
    }
    assert payload[..i] == payload;
    return Some(value);
  }

  /** The client reads back any count the server writes, up to a hundred million. */
  lemma CountExactly(n: nat)
    ensures CountOf(Dec(n)) == if n <= 100_000_000 then Some(n) else None
  {
    hide Dec, DecValue;
    DecBack(n);
  }

  // ---------------------------------------------------------------- framing

  /** What the server says to one request. Array items are the payloads of value lines. */
  datatype Answer = Line(kind: ReplyType, payload: Bytes) | Many(items: seq<Bytes>)

  function ValueLines(items: seq<Bytes>): Bytes {
    if items == [] then [] else ['\n', '$'] + items[0] + ValueLines(items[1..])
  }

  /** The reply text, and with the newline that ends it. */
  function Render(a: Answer): Bytes {
    match a
    case Line(kind, payload) => [Tag(kind)] + payload
    case Many(items) => [Tag(Array)] + Dec(|items|) + ValueLines(items)
  }

  /** The replies as they are written. */
  lemma SpokenAs(a: Bytes, b: Bytes)
    ensures Render(Line(Status, a)) == "+" + a && Render(Line(Error, a)) == "-" + a
    ensures Render(Line(Value, a)) == "$" + a && Render(Line(Nil, a)) == "_" + a && Render(Line(Integer, a)) == ":" + a
    ensures Render(Many([])) == "*0" && Render(Many([a, b])) == "*2\n$" + a + "\n$" + b
  {
    assert [a, b][1..] == [b] && [b][1..] == [];
    assert ValueLines([b]) == ['\n', '$'] + b;
    assert ValueLines([a, b]) == ['\n', '$'] + a + (['\n', '$'] + b);
    assert Dec(2) == "2" && Dec(0) == "0";
  }

  function Frame(a: Answer): Bytes { Render(a) + ['\n'] }

  ghost predicate NoNewline(s: Bytes) { forall i :: 0 <= i < |s| ==> s[i] != '\n' }

  /** A reply the client can take apart. */
  ghost predicate Sendable(a: Answer) {
    match a
    case Line(kind, payload) => kind != Unknown && kind != Array && NoNewline(payload)
    case Many(items) => |items| <= MaxCount && forall i :: 0 <= i < |items| ==> NoNewline(items[i])
  }

  // ---------------------------------------------------------------- receiving

  /** The first line of a stream and what follows its newline. */
  function FirstLine(s: Bytes): (r: Option<(Bytes, Bytes)>)
    ensures r.Some? ==> |r.value.1| < |s|
  {
    if s == [] then None
    else if s[0] == '\n' then Some(([], s[1..]))
    else
      var r := FirstLine(s[1..]);
      if r == None then None else Some(([s[0]] + r.value.0, r.value.1))
  }

  lemma {:induction false} FirstLineOf(line: Bytes, rest: Bytes)
    requires NoNewline(line)
    ensures FirstLine(line + ['\n'] + rest) == Some((line, rest))
  {
    var s := line + ['\n'] + rest;
    if line == [] {
      assert s[1..] == rest;
    } else {
      FirstLineOf(line[1..], rest);
      assert s[1..] == line[1..] + ['\n'] + rest;
      assert [line[0]] + line[1..] == line;
    }
  }

  /** The payloads of the next n lines, all of which must carry a known tag. */
  function Items(s: Bytes, n: nat): (r: Option<(seq<Bytes>, Bytes)>)
    ensures r.Some? ==> |r.value.0| == n
    decreases n
  {
    if n == 0 then Some(([], s))
    else
      var l := FirstLine(s);
      if l == None || ParseTag(l.value.0).0 == Unknown then None
      else
        var r := Items(l.value.1, n - 1);
        if r == None then None else Some(([ParseTag(l.value.0).1] + r.value.0, r.value.1))
  }

  /** One reply off the front of the stream, as the client reads it. */
  function Receive(s: Bytes): Option<(Answer, Bytes)> {
    var l := FirstLine(s);
    if l == None then None
    else
      var (kind, payload) := ParseTag(l.value.0);
      if kind == Unknown then None
      else if kind != Array then Some((Line(kind, payload), l.value.1))
      else
        var n := CountOf(payload);
        if n == None then None
        else
          var r := Items(l.value.1, n.value);
          if r == None then None else Some((Many(r.value.0), r.value.1))
  }

  lemma DigitsNoNewline(n: nat)
    ensures NoNewline(Dec(n)) && (n <= MaxCount ==> CountOf(Dec(n)) == Some(n))
  {
    DecBack(n);
  }

  /** The items of an array, each on its own line behind the newline before it. */
  lemma {:induction false} ItemsBack(items: seq<Bytes>, rest: Bytes)
    requires forall i :: 0 <= i < |items| ==> NoNewline(items[i])
    ensures (ValueLines(items) + ['\n'] + rest)[0] == '\n'
    ensures Items((ValueLines(items) + ['\n'] + rest)[1..], |items|) == Some((items, rest))
  {
    hide FirstLine, ParseTag, NoNewline;
    var s := ValueLines(items) + ['\n'] + rest;
    if items == [] {
      assert s[1..] == rest;
    } else {
      var tail := ValueLines(items[1..]) + ['\n'] + rest;
      ItemsBack(items[1..], rest);
      var line: Bytes := [Tag(Value)] + items[0];
      assert s == ['\n'] + (line + tail);
      assert line + tail == line + ['\n'] + tail[1..];
      assert NoNewline(line) by { TaggedNoNewline(Value, items[0]); }
      FirstLineOf(line, tail[1..]);
      TagBack(Value, items[0]);
      assert [items[0]] + items[1..] == items;
    }
  }

  lemma TaggedNoNewline(t: ReplyType, payload: Bytes)
    requires NoNewline(payload)
    ensures NoNewline([Tag(t)] + payload)
  {
  }

  /** A sendable reply is taken off the stream whole, and nothing else with it. */
  lemma SentIsReceived(a: Answer, rest: Bytes)
    requires Sendable(a)
    ensures Receive(Frame(a) + rest) == Some((a, rest))
  {
    hide FirstLine, ParseTag, Items, CountOf, Dec;
    match a
    case Line(kind, payload) =>
      assert Frame(a) + rest == [Tag(kind)] + payload + ['\n'] + rest;
      FirstLineOf([Tag(kind)] + payload, rest);
      TagBack(kind, payload);
    case Many(items) =>
      var tail := ValueLines(items) + ['\n'] + rest;
      ItemsBack(items, rest);
      DigitsNoNewline(|items|);
      var head: Bytes := [Tag(Array)] + Dec(|items|);
      assert Frame(a) + rest == head + tail;
      assert head + tail == head + ['\n'] + tail[1..];
      FirstLineOf(head, tail[1..]);
      TagBack(Array, Dec(|items|));
  }

  lemma {:induction false} LineNoNewline(s: Bytes)
    ensures FirstLine(s).Some? ==> NoNewline(FirstLine(s).value.0)
  {
    if s != [] && s[0] != '\n' { LineNoNewline(s[1..]); }
  }

  lemma TagNoNewline(line: Bytes)
    requires NoNewline(line)
    ensures NoNewline(ParseTag(line).1)
  {
  }

  lemma {:induction false} ItemsNoNewline(s: Bytes, n: nat)
    ensures Items(s, n).Some? ==> forall i :: 0 <= i < n ==> NoNewline(Items(s, n).value.0[i])
    decreases n
  {
    hide FirstLine, ParseTag, NoNewline;
    var l := FirstLine(s);
    if n > 0 && l.Some? {
      LineNoNewline(s);
      TagNoNewline(l.value.0);
      ItemsNoNewline(l.value.1, n - 1);
    }
  }

  /** Whatever the client accepts is something a server can send. */
  lemma ReceivedIsSendable(s: Bytes)
    ensures Receive(s).Some? ==> Sendable(Receive(s).value.0)
  {
    hide FirstLine, ParseTag, Items, NoNewline;
    var l := FirstLine(s);
    if l.Some? {
      LineNoNewline(s);
      TagNoNewline(l.value.0);
      var n := CountOf(ParseTag(l.value.0).1);
      if n.Some? { ItemsNoNewline(l.value.1, n.value); }
    }
  }

  /** The client takes a reply off the stream as the server sent it exactly when the reply is sendable. */
  lemma ReceiveFramed(a: Answer, rest: Bytes)
    ensures Receive(Frame(a) + rest) == Some((a, rest)) <==> Sendable(a)
  {
    hide Receive, Frame, Sendable;
    ReceivedIsSendable(Frame(a) + rest);
    if Sendable(a) { SentIsReceived(a, rest); }
  }

  function Frames(answers: seq<Answer>): Bytes {
    if answers == [] then [] else Frame(answers[0]) + Frames(answers[1..])
  }

  function ReceiveAll(s: Bytes, n: nat): Option<(seq<Answer>, Bytes)>
    decreases n
  {
    if n == 0 then Some(([], s))
    else
      var r := Receive(s);
      if r == None then None
      else
        var q := ReceiveAll(r.value.1, n - 1);
        if q == None then None else Some(([r.value.0] + q.value.0, q.value.1))
  }

  ghost predicate AllSendable(answers: seq<Answer>) {
    forall i :: 0 <= i < |answers| ==> Sendable(answers[i])
  }

  lemma {:induction false} AllReceived(answers: seq<Answer>, rest: Bytes)
    requires AllSendable(answers)
    ensures ReceiveAll(Frames(answers) + rest, |answers|) == Some((answers, rest))
    decreases |answers|
  {
    hide Receive, Frame, Sendable;
    if answers == [] {
      assert Frames(answers) + rest == rest;
    } else {
      var tail := Frames(answers[1..]) + rest;
      assert Frames(answers) + rest == Frame(answers[0]) + tail;
      SentIsReceived(answers[0], tail);
      AllReceived(answers[1..], rest);
      assert [answers[0]] + answers[1..] == answers;
    }
  }

  lemma {:induction false} ReceivedAreSendable(s: Bytes, n: nat)
    ensures ReceiveAll(s, n).Some? ==> AllSendable(ReceiveAll(s, n).value.0)
    decreases n
  {
    hide Receive, Sendable;
    var r := Receive(s);
    if n > 0 && r.Some? {
      ReceivedIsSendable(s);
      ReceivedAreSendable(r.value.1, n - 1);
    }
  }

  /**
   Over a whole conversation every reply arrives, in order, with nothing left over, exactly
   when every reply is sendable.
   */
  lemma InStep(answers: seq<Answer>, rest: Bytes)
    ensures ReceiveAll(Frames(answers) + rest, |answers|) == Some((answers, rest)) <==> AllSendable(answers)
  {
    hide ReceiveAll, AllSendable, Frames;
    ReceivedAreSendable(Frames(answers) + rest, |answers|);
    if AllSendable(answers) { AllReceived(answers, rest); }
  }
}
