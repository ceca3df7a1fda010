/**
 The server's side of a connection: bytes arrive in arbitrary chunks, lines are cut out of
 them at newlines, executed and answered. What executing a line does is a parameter.
 */
module Framing {
  import opened Base
  import opened Wire
  import opened Client

  // ---------------------------------------------------------------- lines of a stream

  function Lines(s: Bytes): seq<Bytes>
    decreases |s|
  {
    var l := FirstLine(s);
    if l == None then [] else [l.value.0] + Lines(l.value.1)
  }

  /** What is left behind the last newline. */
  function Tail(s: Bytes): (t: Bytes)
    ensures |t| <= |s|
    decreases |s|
  {
    var l := FirstLine(s);
    if l == None then s else Tail(l.value.1)
  }

  lemma {:induction false} LinesAppend(s: Bytes, u: Bytes)
    ensures Lines(s + u) == Lines(s) + Lines(Tail(s) + u)
    ensures Tail(s + u) == Tail(Tail(s) + u)
    decreases |s|
  {
    hide FirstLine;
    var l := FirstLine(s);
    if l.Some? {
      LineWithin(s, u);
      LinesAppend(l.value.1, u);
    }
  }

  lemma {:induction false} TailHasNoLine(s: Bytes)
    ensures FirstLine(Tail(s)) == None
    decreases |s|
  {
    hide FirstLine;
    var l := FirstLine(s);
    if l.Some? { TailHasNoLine(l.value.1); }
  }

  lemma {:induction false} FirstLineExtends(t: Bytes, u: Bytes)
    requires FirstLine(t) == None
    ensures FirstLine(t + u).Some? ==> |FirstLine(t + u).value.0| >= |t|
  {
    if t != [] {
      FirstLineExtends(t[1..], u);
      assert (t + u)[1..] == t[1..] + u;
    }
  }

  /** No line of the stream, finished or not, is longer than the cap. */
  ghost predicate Short(s: Bytes, cap: nat) {
    (forall i :: 0 <= i < |Lines(s)| ==> |Lines(s)[i]| <= cap) && |Tail(s)| <= cap
  }

  /** Then no unfinished line is too long at any point of the stream. */
  lemma ShortSoFar(s: Bytes, u: Bytes, cap: nat)
    requires Short(s + u, cap)
    ensures |Tail(s)| <= cap
  {
    hide FirstLine, Tail;
    LinesAppend(s, u);
    TailHasNoLine(s);
    var t := Tail(s);
    FirstLineExtends(t, u);
    if FirstLine(t + u).Some? {
      assert Lines(t + u)[0] == FirstLine(t + u).value.0;
      assert Lines(s + u)[|Lines(s)|] == Lines(t + u)[0];
    } else {
      assert Tail(t + u) == t + u by { NoLineTail(t + u); }
    }
  }

  lemma NoLineTail(s: Bytes)
    requires FirstLine(s) == None
    ensures Tail(s) == s
  {
  }

  // ---------------------------------------------------------------- executing lines

  type Exec<!S> = (S, Bytes) -> (S, Option<Answer>)

  function After<S>(exec: Exec<S>, s: S, lines: seq<Bytes>): S {
    if lines == [] then s else exec(After(exec, s, lines[..|lines| - 1]), lines[|lines| - 1]).0
  }

  /** The answers to the lines, in order; a line may have none. */
  function Answers<S>(exec: Exec<S>, s: S, lines: seq<Bytes>): seq<Answer> {
    if lines == [] then []
    else
      var a := exec(After(exec, s, lines[..|lines| - 1]), lines[|lines| - 1]).1;
      Answers(exec, s, lines[..|lines| - 1]) + if a == None then [] else [a.value]
  }

  lemma LinesStep(s: Bytes)
    ensures FirstLine(s).Some? ==>
              Lines(s) == [FirstLine(s).value.0] + Lines(FirstLine(s).value.1) && Tail(s) == Tail(FirstLine(s).value.1)
    ensures FirstLine(s) == None ==> Lines(s) == [] && Tail(s) == s
  {
  }

  lemma {:induction false} FramesAppend(answers: seq<Answer>, a: Answer)
    ensures Frames(answers + [a]) == Frames(answers) + Frame(a)
    decreases |answers|
  {
    hide Frame;
    if answers == [] {
      assert answers + [a] == [a];
    } else {
      FramesAppend(answers[1..], a);
      assert (answers + [a])[1..] == answers[1..] + [a];
    }
  }

  const TooLarge: Answer := Line(Error, "ERR request too large")

  /** Cuts every complete line out of the pending bytes and executes it. */
  method CutLines<S>(exec: Exec<S>, ghost s0: S, ghost past: seq<Bytes>, s: S, pending: Bytes, sent: Bytes)
    returns (s': S, pending': Bytes, sent': Bytes)
    requires s == After(exec, s0, past) && sent == Frames(Answers(exec, s0, past))
    ensures pending' == Tail(pending)
    ensures s' == After(exec, s0, past + Lines(pending))
    ensures sent' == Frames(Answers(exec, s0, past + Lines(pending)))
  {
    hide FirstLine, Tail, Lines, Frame, Frames;
    s', pending', sent' := s, pending, sent;
    ghost var done := past;
    while true
      invariant done + Lines(pending') == past + Lines(pending) && Tail(pending') == Tail(pending)
      invariant s' == After(exec, s0, done) && sent' == Frames(Answers(exec, s0, done))
      decreases |pending'|
    {
      LinesStep(pending');
      var cut := FirstLine(pending');
      if cut == None {
        assert done + [] == done;
        return;
      }
      var line := cut.value.0;
      pending' := cut.value.1;
      assert (done + [line])[..|done|] == done;
      assert done + ([line] + Lines(pending')) == done + [line] + Lines(pending');
      var (next, answer) := exec(s', line);
      s' := next;
      if answer.Some? {
        FramesAppend(Answers(exec, s0, done), answer.value);
        sent' := sent' + Frame(answer.value);
      } else {
        assert Answers(exec, s0, done) + [] == Answers(exec, s0, done);
      }
      done := done + [line];
    }
  }

  /** Appends one chunk to the pending bytes and cuts the lines that are complete then. */
  method TakeChunk<S>(exec: Exec<S>, ghost s0: S, ghost before: Bytes, s: S, pending: Bytes, sent: Bytes, chunk: Bytes)
    returns (s': S, pending': Bytes, sent': Bytes)
    requires pending == Tail(before) && s == After(exec, s0, Lines(before))
    requires sent == Frames(Answers(exec, s0, Lines(before)))
    ensures pending' == Tail(before + chunk) && s' == After(exec, s0, Lines(before + chunk))
    ensures sent' == Frames(Answers(exec, s0, Lines(before + chunk)))
  {
    hide FirstLine, Tail, Lines, Frame, Frames, After, Answers;
    LinesAppend(before, chunk);
    TailTwice(before, chunk);
    s', pending', sent' := CutLines(exec, s0, Lines(before), s, pending + chunk, sent);
  }

  /** Serves one connection until its bytes run out or a line grows past the cap. */
  method Serve<S>(exec: Exec<S>, s0: S, chunks: seq<Bytes>, cap: nat, ghost chunkSize: nat)
    returns (survived: bool, s: S, pending: Bytes, sent: Bytes, ghost taken: nat, ghost buffers: seq<Bytes>)
    requires forall i :: 0 <= i < |chunks| ==> |chunks[i]| <= chunkSize
    ensures survived <==> forall i :: 0 < i <= |chunks| ==> |Tail(Flatten(chunks[..i]))| <= cap
    ensures survived ==> taken == |chunks|
    ensures !survived ==> 0 < taken <= |chunks| && |Tail(Flatten(chunks[..taken]))| > cap
    ensures taken <= |chunks| && forall i :: 0 < i < taken ==> |Tail(Flatten(chunks[..i]))| <= cap
    ensures s == After(exec, s0, Lines(Flatten(chunks[..taken])))
    ensures pending == Tail(Flatten(chunks[..taken]))
    ensures sent == Frames(Answers(exec, s0, Lines(Flatten(chunks[..taken]))))
                    + if survived then [] else Frame(TooLarge)
    ensures |buffers| == taken
    ensures forall i :: 0 <= i < taken ==>
              buffers[i] == Tail(Flatten(chunks[..i])) + chunks[i] && |buffers[i]| <= cap + chunkSize
  {
    hide FirstLine, Tail, Lines, Frame, Frames, After, Answers, Flatten;
    survived, s, pending, sent, taken, buffers := true, s0, [], [], 0, [];
    var i := 0;
    StartEmpty(exec, s0);
    assert chunks[..0] == [];
    while i < |chunks|
      invariant 0 <= i <= |chunks| && taken == i && survived
      invariant forall j :: 0 < j <= i ==> |Tail(Flatten(chunks[..j]))| <= cap
      invariant pending == Tail(Flatten(chunks[..i])) && |pending| <= cap
      invariant s == After(exec, s0, Lines(Flatten(chunks[..i])))
      invariant sent == Frames(Answers(exec, s0, Lines(Flatten(chunks[..i]))))
      invariant |buffers| == i
      invariant forall j :: 0 <= j < i ==>
                  buffers[j] == Tail(Flatten(chunks[..j])) + chunks[j] && |buffers[j]| <= cap + chunkSize
    {
      FlattenNext(chunks, i);
      buffers := buffers + [pending + chunks[i]];
      s, pending, sent := TakeChunk(exec, s0, Flatten(chunks[..i]), s, pending, sent, chunks[i]);
      i := i + 1;
      taken := i;
      if |pending| > cap {
        sent := sent + Frame(TooLarge);
        return false, s, pending, sent, taken, buffers;
      }
    }
    assert chunks[..i] == chunks;
  }

  lemma TailTwice(a: Bytes, b: Bytes)
    ensures Tail(Tail(a) + b) == Tail(a + b)
  {
    LinesAppend(a, b);
  }

  lemma StartEmpty<S>(exec: Exec<S>, s0: S)
    ensures Lines([]) == [] && Tail([]) == [] && Frames([]) == [] && Flatten([]) == []
    ensures After(exec, s0, []) == s0 && Answers(exec, s0, []) == []
  {
  }

  lemma {:induction false} FlattenNext(chunks: seq<Bytes>, i: nat)
    requires i < |chunks|
    ensures Flatten(chunks[..i + 1]) == Flatten(chunks[..i]) + chunks[i]
    decreases i
  {
    if i == 0 {
      assert chunks[..1] == [chunks[0]];
      assert Flatten([chunks[0]]) == chunks[0] + Flatten([]);
    } else {
      FlattenNext(chunks[1..], i - 1);
      assert chunks[..i + 1][1..] == chunks[1..][..i];
      assert chunks[..i][1..] == chunks[1..][..i - 1];
    }
  }

  // ---------------------------------------------------------------- independence of the split

  lemma {:induction false} FlattenSplit(chunks: seq<Bytes>, i: nat)
    requires i <= |chunks|
    ensures Flatten(chunks) == Flatten(chunks[..i]) + Flatten(chunks[i..])
    decreases i
  {
    if i == 0 {
      assert chunks[..0] == [] && chunks[0..] == chunks;
    } else {
      FlattenSplit(chunks[1..], i - 1);
      assert chunks[..i][1..] == chunks[1..][..i - 1];
      assert chunks[1..][i - 1..] == chunks[i..];
    }
  }

  /** Requests within the cap are served however the network cuts the stream up. */
  lemma ShortSurvives(chunks: seq<Bytes>, cap: nat)
    requires Short(Flatten(chunks), cap)
    ensures forall i :: 0 < i <= |chunks| ==> |Tail(Flatten(chunks[..i]))| <= cap
  {
    hide Tail, Flatten, Short;
    forall i | 0 < i <= |chunks|
      ensures |Tail(Flatten(chunks[..i]))| <= cap
    {
      FlattenSplit(chunks, i);
      ShortSoFar(Flatten(chunks[..i]), Flatten(chunks[i..]), cap);
    }
  }
}
