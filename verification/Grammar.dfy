/**
 The request grammar, written down apart from the tokenizer: which lines are well formed,
 and which tokens they hold.
 */
module Grammar {
  import opened Base
  import opened Tokenizer

  // ---------------------------------------------------------------- quoted tokens

  const Small: Bytes := "0123456789abcdef"
  const Large: Bytes := "0123456789ABCDEF"

  ghost predicate Stands(c: Byte, n: nat) { n < 16 && (c == Small[n] || c == Large[n]) }

  /** One element of a quoted token: a byte itself, a backslash and a byte, or the byte with that hexadecimal code. */
  datatype Atom = Plain(b: Byte) | Named(c: Byte) | Coded(code: nat, high: Byte, low: Byte)

  ghost predicate AtomOk(a: Atom) {
    match a
    case Plain(b) => b != '"' && b != '\\'
    case Named(_) => true
    case Coded(code, high, low) => code < 256 && Stands(high, code / 16) && Stands(low, code % 16)
  }

  function AtomText(a: Atom): Bytes {
    match a
    case Plain(b) => [b]
    case Named(c) => ['\\', c]
    case Coded(_, high, low) => ['\\', 'x', high, low]
  }

  /** A letter without a meaning of its own stands for itself. */
  ghost function AtomByte(a: Atom): Byte
    requires AtomOk(a)
  {
    match a
    case Plain(b) => b
    case Named(c) =>
      if c == 'n' then Chr(10) else if c == 'r' then Chr(13) else if c == 't' then Chr(9)
      else if c == 'b' then Chr(8) else if c == 'a' then Chr(7) else c
    case Coded(code, _, _) => Chr(code)
  }

  /** The text up to and including the closing quote. */
  function AtomsText(atoms: seq<Atom>): (s: Bytes)
    ensures s != []
  {
    if atoms == [] then ['"'] else AtomText(atoms[0]) + AtomsText(atoms[1..])
  }

  ghost predicate TwoDigits(s: Bytes) {
    |s| >= 2 && (exists m: nat :: Stands(s[0], m)) && (exists n: nat :: Stands(s[1], n))
  }

  /** An x after a backslash with two hexadecimal digits behind it is a code, not an x. */
  ghost predicate AtomsOk(atoms: seq<Atom>) {
    atoms != [] ==>
      && AtomOk(atoms[0]) && AtomsOk(atoms[1..])
      && (atoms[0] == Named('x') ==> !TwoDigits(AtomsText(atoms[1..])))
  }

  ghost function AtomsBytes(atoms: seq<Atom>): Bytes
    requires AtomsOk(atoms)
  {
    if atoms == [] then [] else [AtomByte(atoms[0])] + AtomsBytes(atoms[1..])
  }

  lemma DigitsAre(c: Byte)
    ensures forall n: nat :: Stands(c, n) ==> IsHexDigit(c) && HexValue(c) == n
    ensures IsHexDigit(c) ==> Stands(c, HexValue(c))
  {
  }

  /** Two digits in front of a longer text are the two digits it begins with. */
  lemma TwoFirst(s: Bytes, rest: Bytes)
    requires s != [] && s[|s| - 1] == '"'
    ensures TwoDigits(s) <==> |s + rest| >= 2 && IsHexDigit((s + rest)[0]) && IsHexDigit((s + rest)[1])
  {
    hide Stands, HexValue;
    DigitsAre((s + rest)[0]);
    if |s + rest| >= 2 { DigitsAre((s + rest)[1]); }
  }

  lemma {:induction false} ClosedByQuote(atoms: seq<Atom>)
    ensures AtomsText(atoms)[|AtomsText(atoms)| - 1] == '"'
  {
    if atoms != [] { ClosedByQuote(atoms[1..]); }
  }

  /** One element is read as its byte. */
  lemma AtomRead(a: Atom, s: Bytes)
    requires AtomOk(a)
    requires a == Named('x') ==> !(|s| >= 2 && IsHexDigit(s[0]) && IsHexDigit(s[1]))
    ensures Quoted(AtomText(a) + s) == Push(AtomByte(a), Quoted(s))
  {
    hide Push, HexValue, Stands, IsHexDigit, Quoted, Unescape;
    match a
    case Plain(b) => PlainRead(b, s);
    case Named(c) => NamedRead(c, s);
    case Coded(code, high, low) => CodedRead(code, high, low, s);
  }

  lemma PlainRead(b: Byte, s: Bytes)
    requires b != '"' && b != '\\'
    ensures Quoted([b] + s) == Push(b, Quoted(s))
  {
    hide Push, Unescape;
    var u := [b] + s;
    assert u[0] == b && u[1..] == s;
  }

  lemma NamedRead(c: Byte, s: Bytes)
    requires c == 'x' ==> !(|s| >= 2 && IsHexDigit(s[0]) && IsHexDigit(s[1]))
    ensures Quoted(['\\', c] + s) == Push(AtomByte(Named(c)), Quoted(s))
  {
    hide Push, HexValue, IsHexDigit, Unescape;
    var u := ['\\', c] + s;
    assert u[0] == '\\' && u[1] == c && u[2..] == s;
    assert |s| >= 2 ==> u[2] == s[0] && u[3] == s[1];
    NamedByte(u);
  }

  lemma NamedByte(u: Bytes)
    requires |u| >= 2 && !(u[1] == 'x' && |u| > 3 && IsHexDigit(u[2]) && IsHexDigit(u[3]))
    ensures Unescape(u) == (AtomByte(Named(u[1])), 2)
  {
    hide HexValue, IsHexDigit;
  }

  lemma CodedRead(code: nat, high: Byte, low: Byte, s: Bytes)
    requires code < 256 && Stands(high, code / 16) && Stands(low, code % 16)
    ensures Quoted(['\\', 'x', high, low] + s) == Push(Chr(code), Quoted(s))
  {
    var h, l := code / 16, code % 16;
    assert h * 16 + l == code;
    hide Push, HexValue, Stands, IsHexDigit, Unescape;
    DigitsAre(high);
    DigitsAre(low);
    var u := ['\\', 'x', high, low] + s;
    assert u[0] == '\\' && u[1] == 'x' && u[2] == high && u[3] == low && u[4..] == s;
    CodedByte(u);
    EscapedStep(u, Chr(code), 4);
  }

  lemma EscapedStep(u: Bytes, b: Byte, n: nat)
    requires |u| >= 2 && u[0] == '\\' && Unescape(u) == (b, n)
    ensures Quoted(u) == Push(b, Quoted(u[n..]))
  {
    hide Push, Unescape;
  }

  lemma CodedByte(u: Bytes)
    requires |u| >= 4 && u[1] == 'x' && IsHexDigit(u[2]) && IsHexDigit(u[3])
    ensures Unescape(u) == (Chr(HexValue(u[2]) * 16 + HexValue(u[3])), 4)
  {
    hide HexValue, IsHexDigit;
  }

  /** A quoted token reads as the bytes its elements stand for, whatever follows it. */
  lemma {:induction false} AtomsRead(atoms: seq<Atom>, rest: Bytes)
    requires AtomsOk(atoms)
    ensures Quoted(AtomsText(atoms) + rest) == Some((AtomsBytes(atoms), rest))
  {
    hide AtomByte, AtomText, AtomOk, TwoDigits, Unescape;
    if atoms == [] {
      assert (['"'] + rest)[1..] == rest;
    } else {
      var s := AtomsText(atoms[1..]);
      AtomsRead(atoms[1..], rest);
      ClosedByQuote(atoms[1..]);
      TwoFirst(s, rest);
      AtomRead(atoms[0], s + rest);
      assert AtomsText(atoms) + rest == AtomText(atoms[0]) + (s + rest);
    }
  }

  /** The first element of a token that goes on. */
  lemma FirstAtom(s: Bytes) returns (a: Atom, rest: Bytes)
    requires Quoted(s).Some? && s[0] != '"'
    ensures AtomOk(a) && s == AtomText(a) + rest
    ensures a == Named('x') ==> !(|rest| >= 2 && IsHexDigit(rest[0]) && IsHexDigit(rest[1]))
  {
    BackslashGoesOn(s);
    hide Quoted, HexValue, IsHexDigit, Stands;
    if s[0] != '\\' {
      a, rest := Plain(s[0]), s[1..];
    } else if s[1] == 'x' && |s| > 3 && IsHexDigit(s[2]) && IsHexDigit(s[3]) {
      a, rest := CodedFirst(s);
    } else {
      a, rest := Named(s[1]), s[2..];
      assert s == ['\\', s[1]] + rest;
    }
  }

  lemma CodedFirst(s: Bytes) returns (a: Atom, rest: Bytes)
    requires |s| > 3 && s[0] == '\\' && s[1] == 'x' && IsHexDigit(s[2]) && IsHexDigit(s[3])
    ensures a.Coded? && AtomOk(a) && s == AtomText(a) + rest
  {
    hide HexValue, IsHexDigit, Stands;
    var h, l := HexValue(s[2]), HexValue(s[3]);
    a, rest := Coded(h * 16 + l, s[2], s[3]), s[4..];
    DigitsAre(s[2]);
    DigitsAre(s[3]);
    CodeSplits(h, l);
    assert s == ['\\', 'x', s[2], s[3]] + rest;
  }

  lemma CodeSplits(h: nat, l: nat)
    requires h < 16 && l < 16
    ensures h * 16 + l < 256 && (h * 16 + l) / 16 == h && (h * 16 + l) % 16 == l
  {
  }

  lemma BackslashGoesOn(s: Bytes)
    requires Quoted(s).Some?
    ensures s[0] == '\\' ==> |s| > 1
  {
    assert Quoted([]) == None;
    assert |s| == 1 ==> s[1..] == [];
  }

  /** Every quoted token that closes is made of such elements. */
  lemma {:induction false} AtomsFound(s: Bytes) returns (atoms: seq<Atom>)
    requires Quoted(s).Some?
    ensures AtomsOk(atoms) && s == AtomsText(atoms) + Quoted(s).value.1 && AtomsBytes(atoms) == Quoted(s).value.0
    decreases |s|
  {
    if s[0] == '"' {
      atoms := [];
    } else {
      hide AtomByte, AtomText, AtomOk, TwoDigits, Unescape, Stands, Quoted;
      var a, rest := FirstAtom(s);
      AtomRead(a, rest);
      TextLonger(a);
      var more := AtomsFound(rest);
      ClosedByQuote(more);
      TwoFirst(AtomsText(more), Quoted(rest).value.1);
      atoms := [a] + more;
      hide AtomsOk, AtomsBytes, AtomsText;
      AtomsCons(a, more, Quoted(rest).value.1);
    }
  }

  lemma AtomsCons(a: Atom, more: seq<Atom>, rest: Bytes)
    requires AtomOk(a) && AtomsOk(more) && (a == Named('x') ==> !TwoDigits(AtomsText(more)))
    ensures AtomsOk([a] + more)
    ensures AtomsText([a] + more) + rest == AtomText(a) + (AtomsText(more) + rest)
    ensures AtomsBytes([a] + more) == [AtomByte(a)] + AtomsBytes(more)
  {
    hide AtomByte, AtomText, AtomOk, TwoDigits;
    assert ([a] + more)[1..] == more;
  }

  lemma TextLonger(a: Atom)
    ensures AtomText(a) != []
  {
  }

  // ---------------------------------------------------------------- lines

  /** A token as it stands in a line. */
  datatype Piece = Bare(word: Bytes) | InQuotes(atoms: seq<Atom>)

  /** A line: blanks before each token and at the end. */
  datatype Layout = End(gap: Bytes) | Item(gap: Bytes, piece: Piece, rest: Layout)

  predicate Blanks(s: Bytes) { forall i :: 0 <= i < |s| ==> s[i] == ' ' || s[i] == '\t' }

  ghost predicate PieceOk(p: Piece) {
    match p
    case Bare(w) => w != [] && w[0] != '"' && forall i :: 0 <= i < |w| ==> w[i] != ' ' && w[i] != '\t'
    case InQuotes(atoms) => AtomsOk(atoms)
  }

  /** There are blanks between any two tokens. */
  ghost predicate LayoutOk(l: Layout) {
    && Blanks(l.gap)
    && (l.Item? ==> PieceOk(l.piece) && LayoutOk(l.rest) && (l.rest.gap == [] ==> l.rest == End([])))
  }

  function PieceText(p: Piece): Bytes {
    match p
    case Bare(w) => w
    case InQuotes(atoms) => ['"'] + AtomsText(atoms)
  }

  ghost function PieceBytes(p: Piece): Bytes
    requires PieceOk(p)
  {
    match p
    case Bare(w) => w
    case InQuotes(atoms) => AtomsBytes(atoms)
  }

  function LineOf(l: Layout): Bytes {
    match l
    case End(gap) => gap
    case Item(gap, p, rest) => gap + (PieceText(p) + LineOf(rest))
  }

  ghost function WordsOf(l: Layout): seq<Bytes>
    requires LayoutOk(l)
  {
    match l
    case End(_) => []
    case Item(_, p, rest) => [PieceBytes(p)] + WordsOf(rest)
  }

  lemma {:induction false} SkipBlanks(gap: Bytes, s: Bytes)
    requires Blanks(gap) && (s != [] ==> !IsSpace(s[0]))
    ensures SkipSpaces(gap + s) == s
  {
    if gap == [] {
      assert gap + s == s;
    } else {
      SkipBlanks(gap[1..], s);
      assert (gap + s)[1..] == gap[1..] + s;
    }
  }

  lemma PieceRead(gap: Bytes, p: Piece, rest: Bytes)
    requires Blanks(gap) && PieceOk(p) && Ends(rest)
    ensures Tokens(gap + (PieceText(p) + rest)) == Cons(PieceBytes(p), Tokens(rest))
  {
    hide Tokens, Quoted, BareLength, AtomsText, AtomsOk, AtomsBytes, Blanks, Cons, SkipSpaces;
    var s := PieceText(p) + rest;
    SkipBlanks(gap, s);
    TokensStep(gap + s, s);
    match p
    case Bare(w) =>
      BareRun(w, rest);
      assert s[..|w|] == w && s[|w|..] == rest;
    case InQuotes(atoms) =>
      assert s[1..] == AtomsText(atoms) + rest;
      AtomsRead(atoms, rest);
  }

  lemma BlankFirst(l: Layout)
    requires LayoutOk(l) && (l.gap == [] ==> l == End([]))
    ensures Ends(LineOf(l))
  {
    hide PieceOk, PieceText;
  }

  /** A well-formed line splits into its tokens. */
  lemma {:induction false} LayoutRead(l: Layout)
    requires LayoutOk(l)
    ensures Tokens(LineOf(l)) == Some(WordsOf(l))
  {
    match l
    case End(gap) =>
      hide Tokens;
      SkipBlanks(gap, []);
      assert gap + [] == gap;
      TokensStep(gap, []);
    case Item(gap, p, rest) =>
      LayoutRead(rest);
      BlankFirst(rest);
      hide Tokens, PieceOk, PieceText, PieceBytes;
      PieceRead(gap, p, LineOf(rest));
  }

  /** The blanks in front. */
  lemma {:induction false} GapFound(s: Bytes) returns (gap: Bytes)
    ensures Blanks(gap) && s == gap + SkipSpaces(s)
  {
    if s != [] && IsSpace(s[0]) {
      var more := GapFound(s[1..]);
      gap := [s[0]] + more;
    } else {
      gap := [];
    }
  }

  lemma {:induction false} BareFound(s: Bytes)
    ensures forall i :: 0 <= i < BareLength(s) ==> !IsSpace(s[i])
    ensures BareLength(s) < |s| ==> IsSpace(s[BareLength(s)])
  {
    if s != [] && !IsSpace(s[0]) { BareFound(s[1..]); }
  }

  /** The token at the front, and what follows it. */
  lemma PieceFound(s: Bytes) returns (p: Piece, rest: Bytes)
    requires Tokens(s).Some? && s != [] && SkipSpaces(s) == s
    ensures PieceOk(p) && s == PieceText(p) + rest && Ends(rest) && |rest| < |s|
    ensures Tokens(rest).Some? && Tokens(s).value == [PieceBytes(p)] + Tokens(rest).value
  {
    hide Tokens, Quoted, BareLength, AtomsText, AtomsOk, AtomsBytes, SkipSpaces;
    TokensStep(s, s);
    NotBlank(s);
    if s[0] == '"' {
      var atoms := AtomsFound(s[1..]);
      p, rest := InQuotes(atoms), Quoted(s[1..]).value.1;
    } else {
      BareFound(s);
      p, rest := Bare(s[..BareLength(s)]), s[BareLength(s)..];
    }
  }

  lemma NotBlank(s: Bytes)
    requires s != [] && SkipSpaces(s) == s
    ensures !IsSpace(s[0])
  {
  }

  /** Every line that splits into tokens is a well-formed line. */
  lemma {:induction false} LayoutFound(s: Bytes) returns (l: Layout)
    requires Tokens(s).Some?
    ensures LayoutOk(l) && LineOf(l) == s && WordsOf(l) == Tokens(s).value
    decreases |s|
  {
    hide Tokens, PieceText, PieceOk, PieceBytes, SkipSpaces;
    var gap := GapFound(s);
    var s' := SkipSpaces(s);
    TokensStep(s, s');
    if s' == [] {
      l := End(gap);
    } else {
      SkipTwice(s);
      TokensSkip(s);
      var p, rest := PieceFound(s');
      var more := LayoutFound(rest);
      MoreGap(more);
      l := Item(gap, p, more);
    }
  }

  lemma {:induction false} SkipTwice(s: Bytes)
    ensures SkipSpaces(SkipSpaces(s)) == SkipSpaces(s)
  {
    if s != [] && IsSpace(s[0]) { SkipTwice(s[1..]); }
  }

  lemma TokensSkip(s: Bytes)
    ensures Tokens(SkipSpaces(s)) == Tokens(s)
  {
    hide Tokens, Quoted, BareLength, SkipSpaces;
    SkipTwice(s);
    TokensStep(s, SkipSpaces(s));
    TokensStep(SkipSpaces(s), SkipSpaces(s));
  }

  lemma MoreGap(l: Layout)
    requires LayoutOk(l) && Ends(LineOf(l))
    ensures l.gap == [] ==> l == End([])
  {
    hide AtomsText, AtomsOk;
  }

  // ---------------------------------------------------------------- the end of the line

  predicate LineEnds(s: Bytes) { forall i :: 0 <= i < |s| ==> s[i] == '\r' || s[i] == '\n' }

  predicate Unended(s: Bytes) { s != [] ==> s[|s| - 1] != '\r' && s[|s| - 1] != '\n' }

  /** All carriage returns and newlines at the end go, and nothing else. */
  lemma {:induction false} StripExactly(body: Bytes, ends: Bytes)
    requires Unended(body) && LineEnds(ends)
    ensures StripEnd(body + ends) == body
  {
    if ends == [] {
      assert body + ends == body;
    } else {
      var n := |ends| - 1;
      StripExactly(body, ends[..n]);
      assert (body + ends)[..|body| + n] == body + ends[..n];
    }
  }

  lemma {:induction false} StripFound(line: Bytes) returns (ends: Bytes)
    ensures Unended(StripEnd(line)) && LineEnds(ends) && line == StripEnd(line) + ends
  {
    hide StripEnd;
    StripOne(line);
    if Unended(line) {
      ends := [];
    } else {
      var n := |line| - 1;
      var body, last := line[..n], [line[n]];
      var more := StripFound(body);
      ends := more + last;
      hide Unended, LineEnds;
      assert line == body + last == StripEnd(body) + more + last == StripEnd(body) + ends;
    }
  }

  lemma StripOne(line: Bytes)
    ensures if Unended(line) then StripEnd(line) == line else StripEnd(line) == StripEnd(line[..|line| - 1])
  {
  }

  /** The line is laid out so, with nothing but line ends behind. */
  ghost predicate Written(line: Bytes, l: Layout, ends: Bytes) {
    LayoutOk(l) && Unended(LineOf(l)) && LineEnds(ends) && line == LineOf(l) + ends
  }

  /**
   The tokenizer accepts a line exactly when it is well formed, and its tokens are then the
   ones of the layout. Any other line has unbalanced quotes.
   */
  lemma TokenizeExactly(line: Bytes, ts: seq<Bytes>)
    ensures Tokenize(line) == Some(ts) <==> exists l, ends :: Written(line, l, ends) && WordsOf(l) == ts
  {
    hide Tokens, StripEnd, LayoutOk, LineOf, WordsOf, Unended, LineEnds;
    if Tokenize(line) == Some(ts) {
      var ends := StripFound(line);
      var l := LayoutFound(StripEnd(line));
      assert Written(line, l, ends);
    }
    if l, ends :| Written(line, l, ends) && WordsOf(l) == ts {
      StripExactly(LineOf(l), ends);
      LayoutRead(l);
    }
  }
}
