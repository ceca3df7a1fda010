/** The client: a buffer over a socket that delivers the server's bytes in arbitrary chunks. */
module Client {
  import opened Base
  import opened Wire

  function Flatten(chunks: seq<Bytes>): Bytes {
    if chunks == [] then [] else chunks[0] + Flatten(chunks[1..])
  }

  class VCacheClient {
    var buffer: Bytes
    var incoming: seq<Bytes>   // what the socket has still to deliver, one element per recv()
    var connected: bool

    /** Everything the server has sent that the client has not yet consumed. */
    function Stream(): Bytes
      reads this
    {
      buffer + Flatten(incoming)
    }

    constructor (incoming: seq<Bytes>)
      ensures Stream() == Flatten(incoming) && connected
    {
      this.buffer, this.incoming, this.connected := [], incoming, true;
      new;
      assert [] + Flatten(incoming) == Flatten(incoming);
    }

    method Disconnect()
      modifies this
      ensures !connected && buffer == [] && incoming == old(incoming)
    {
      connected, buffer := false, [];
    }

    /** Takes one line off the stream, reading chunks as needed. */
    method ReadLine() returns (line: Option<Bytes>)
      modifies this`buffer, this`incoming
      ensures FirstLine(old(Stream())) == None ==> line == None
      ensures FirstLine(old(Stream())).Some? ==>
                line == Some(FirstLine(old(Stream())).value.0) && Stream() == FirstLine(old(Stream())).value.1
    {
      hide FirstLine;
      ghost var s := Stream();
      while true
        invariant Stream() == s
        decreases |incoming|
      {
        var cut := FirstLine(buffer);
        LineWithin(buffer, Flatten(incoming));
        if cut.Some? {
          buffer := cut.value.1;
          return Some(cut.value.0);
        }
        if incoming == [] {
          assert buffer + [] == buffer;
          return None;
        }
        assert buffer + (incoming[0] + Flatten(incoming[1..])) == buffer + incoming[0] + Flatten(incoming[1..]);
        buffer, incoming := buffer + incoming[0], incoming[1..];
      }
    }

    /** Reads the elements of an array reply. */
    method ReadItems(n: nat) returns (items: Option<seq<Bytes>>)
      modifies this`buffer, this`incoming
      ensures Items(old(Stream()), n) == None ==> items == None
      ensures Items(old(Stream()), n).Some? ==>
                items == Some(Items(old(Stream()), n).value.0) && Stream() == Items(old(Stream()), n).value.1
    {
      hide FirstLine, ParseTag;
      ghost var s := Stream();
      var result: seq<Bytes> := [];
      var i := 0;
      EmptyAhead(Items(s, n));
      while i < n
        invariant 0 <= i <= n && Items(s, n) == Ahead(result, Items(Stream(), n - i))
      {
        var line := ReadLine();
        if line == None || ParseTag(line.value).0 == Unknown {
          return None;
        }
        AheadMore(result, ParseTag(line.value).1, Items(Stream(), n - i - 1));
        result := result + [ParseTag(line.value).1];
        i := i + 1;
      }
      assert result + [] == result;
      return Some(result);
    }

    /** Reads the reply to a command that has just been sent; anything malformed drops the connection. */
    method ReadReply() returns (reply: Option<Answer>)
      requires connected
      modifies this
      ensures Receive(old(Stream())) == None ==> reply == None && !connected && buffer == []
      ensures Receive(old(Stream())).Some? ==>
                && reply == Some(Receive(old(Stream())).value.0)
                && Stream() == Receive(old(Stream())).value.1
                && connected
    {
      hide FirstLine, ParseTag, Items, CountOf;
      var line := ReadLine();
      if line == None || ParseTag(line.value).0 == Unknown {
        Disconnect();
        return None;
      }
      var (kind, payload) := ParseTag(line.value);
      if kind != Array {
        return Some(Line(kind, payload));
      }
      var count := ParseCount(payload);
      if count == None {
        Disconnect();
        return None;
      }
      var items := ReadItems(count.value);
      if items == None {
        Disconnect();
        return None;
      }
      return Some(Many(items.value));
    }
  }

  /** A line already complete in the buffer is the first line of the stream. */
  lemma {:induction false} LineWithin(a: Bytes, b: Bytes)
    ensures FirstLine(a).Some? ==>
              FirstLine(a + b) == Some((FirstLine(a).value.0, FirstLine(a).value.1 + b))
  {
    if a != [] {
      LineWithin(a[1..], b);
      assert (a + b)[1..] == a[1..] + b;
    }
  }

  function Ahead(done: seq<Bytes>, r: Option<(seq<Bytes>, Bytes)>): Option<(seq<Bytes>, Bytes)> {
    if r == None then None else Some((done + r.value.0, r.value.1))
  }

  lemma EmptyAhead(r: Option<(seq<Bytes>, Bytes)>)
    ensures Ahead([], r) == r
  {
    if r.Some? { assert [] + r.value.0 == r.value.0; }
  }

  lemma AheadMore(done: seq<Bytes>, t: Bytes, r: Option<(seq<Bytes>, Bytes)>)
    ensures Ahead(done + [t], r) == Ahead(done, if r == None then None else Some(([t] + r.value.0, r.value.1)))
  {
    if r.Some? { assert done + [t] + r.value.0 == done + ([t] + r.value.0); }
  }
}
