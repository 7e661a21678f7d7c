/**
 One HTTP transaction of the Tiny server, as far as it is an upload: request line, headers, PUT
 or POST. What it answers and stores is a function of the bytes on the wire, and for a request
 as a client writes it that function gives the upload back.
 */
module TinyTransaction {
  import opened Bytes
  import opened Rio
  import opened TinyFields
  import opened Multipart
  import opened TinyRequests
  import Sio

  const PUT_NAME: seq<byte> := [112, 117, 116]             // put
  const POST_NAME: seq<byte> := [112, 111, 115, 116]       // post

  predicate InWord(c: byte) {
    c != 0 && !IsSpace(c)
  }

  /** The first word of the request line, as `sscanf` finds it. */
  function MethodOf(line: seq<byte>): seq<byte> {
    var t := line[Span(line, IsSpace)..];
    t[..Span(t, InWord)]
  }

  datatype Reply =
    | NoRequest
    | ReadFailed
    | NotUpload
    | Put(put: PutResult)
    | Post(post: PostResult)

  // ----- what a transaction achieves

  function PutAnswer(length: int, body: seq<byte>, openOk: bool): (Reply, seq<byte>) {
    if length < 0 then (Put(LengthRequired), [])
    else if !openOk then (Put(PutNotOpened), [])
    else
      var n := Min(length, |body|);
      (Put(Created(n)), body[..n])
  }

  function PostAnswer(fields: Fields, body: seq<byte>, mallocOk: bool, openOk: bool): (Reply, seq<byte>) {
    if fields.length < 0 then (Post(PostLengthRequired), [])
    else if fields.length > MAX_UPLOAD then (Post(PayloadTooLarge), [])
    else if !mallocOk then (Post(OutOfMemory), [])
    else
      var upload := Extract(fields.contentType, body[..Min(fields.length, |body|)]);
      if openOk then (Post(Saved(upload)), upload.content) else (Post(PostNotOpened(upload)), [])
  }

  /** The header loop comes to an end behind the request line. */
  predicate HeadersEnd(s: seq<byte>) {
    s != [] ==> HasBlankPiece(s[PieceLen(s)..])
  }

  /** The reply to the stream `s`, and the contents of the file that it leaves. */
  function Answer(s: seq<byte>, mallocOk: bool, openOk: bool): (Reply, seq<byte>)
    requires HeadersEnd(s)
  {
    if s == [] then (NoRequest, [])
    else
      var rest := s[PieceLen(s)..];
      var name := Lowered(MethodOf(s[..PieceLen(s)]));
      var fields, body := FieldsOf(rest, NoFields), rest[HeaderLen(rest)..];
      if name == PUT_NAME then PutAnswer(fields.length, body, openOk)
      else if name == POST_NAME then PostAnswer(fields, body, mallocOk, openOk)
      else (NotUpload, [])
  }

  /** `doit` for uploads. Unless a read or a write fails, reply and file depend on the stream
      alone, however the kernel cuts it up. A read error before the body ends the call here. */
  method Doit(rp: Reader, mallocOk: bool, openOk: bool, out: Sink) returns (r: Reply)
    requires rp.Valid() && HeadersEnd(rp.remaining) && out.written == [] && !out.failed
    modifies rp, rp.buf, rp.fd, out
    ensures rp.Valid()
    ensures !rp.fd.failed && !out.failed ==>
      (r, out.written) == Answer(old(rp.remaining), mallocOk, openOk)
  {
    ghost var s := rp.remaining;
    var buf := new byte[MAXLINE];
    var rc, line := rp.ReadLine(buf, MAXLINE);
    if rc <= 0 {
      return if rc == 0 then NoRequest else ReadFailed;
    }
    PieceTaken(s, line, rp.remaining);
    var name := Lowered(MethodOf(line));
    var ok, fields := ReadRequestHeaders(rp);
    if !ok {
      return ReadFailed;
    }
    if name == PUT_NAME {
      var put := ServePut(rp, fields.length, openOk, out);
      r := Put(put);
    } else if name == POST_NAME {
      var post := ServePost(rp, fields.length, fields.contentType, mallocOk, openOk, out);
      r := Post(post);
    } else {
      r := NotUpload;
    }
  }

  /** Unless a header line ends in a blank piece, an upload is served from exactly what follows
      the headers on the stream. */
  lemma ServedFromBehindHeaders(s: seq<byte>, mallocOk: bool, openOk: bool)
    requires s != [] && HasBlankLine(s[PieceLen(s)..]) && NoFalseBlank(s[PieceLen(s)..])
    ensures HeadersEnd(s)
    ensures var rest := s[PieceLen(s)..];
      var name := Lowered(MethodOf(s[..PieceLen(s)]));
      var fields, body := FieldsOf(rest, NoFields), rest[HeaderEnd(rest)..];
      Answer(s, mallocOk, openOk) ==
        if name == PUT_NAME then PutAnswer(fields.length, body, openOk)
        else if name == POST_NAME then PostAnswer(fields, body, mallocOk, openOk)
        else (NotUpload, [])
  {
    HeaderLoopExactIff(s[PieceLen(s)..]);
  }

  // ----- a request as a client writes it

  function HeaderBlock(lines: seq<seq<byte>>): seq<byte> {
    if lines == [] then [] else (lines[0] + CRLF) + HeaderBlock(lines[1..])
  }

  function Wire(first: seq<byte>, lines: seq<seq<byte>>, body: seq<byte>): seq<byte> {
    (first + CRLF) + (HeaderBlock(lines) + (CRLF + body))
  }

  /** One line of text, of any length unless the cuts leave its line break alone. */
  predicate GoodLine(line: seq<byte>) {
    line != [] && NEWLINE !in line && !EndsInBlankPiece(line + CRLF)
  }

  /** The header lines as the reads of the header loop cut them. */
  function PiecesOf(lines: seq<seq<byte>>): seq<seq<byte>> {
    if lines == [] then [] else Pieces(lines[0] + CRLF) + PiecesOf(lines[1..])
  }

  lemma LineInFront(line: seq<byte>, rest: seq<byte>)
    requires NEWLINE !in line
    ensures var s, n := (line + CRLF) + rest, |line + CRLF|;
      WholeLine(s) == n && s[..n] == line + CRLF && s[n..] == rest
  {
    var s, text := (line + CRLF) + rest, line + [13];
    assert s == text + [NEWLINE] + rest;
    WholeLineIs(text, rest);
  }

  lemma NotBlank(line: seq<byte>)
    requires line != []
    ensures line + CRLF != CRLF
  {
    assert |line + CRLF| > |CRLF|;
  }

  lemma BlankRead(body: seq<byte>, f: Fields)
    ensures var s := CRLF + body;
      HasBlankPiece(s) && FieldsOf(s, f) == f && s[HeaderLen(s)..] == body
  {
    assert [] + CRLF == CRLF;
    LineInFront([], body);
    LastPiece(CRLF + body, 2);
    LastPieceFolds(CRLF + body, 2, f, TakeField);
  }

  /** A line that is passed whole. */
  lemma LineSkipped(s: seq<byte>, n: nat, f: Fields)
    requires s != [] && n == WholeLine(s) && s[..n] != CRLF && !EndsInBlankPiece(s[..n])
    requires HasBlankPiece(s[n..])
    ensures HasBlankPiece(s)
    ensures FieldsOf(s, f) == FieldsOf(s[n..], PieceFields(s[..n], f))
    ensures s[HeaderLen(s)..] == s[n..][HeaderLen(s[n..])..]
  {
    LinePassed(s, n);
    LineFieldsTaken(s, n, f);
    DropTwice(s, n, HeaderLen(s[n..]));
  }

  lemma DropTwice(s: seq<byte>, a: nat, b: nat)
    requires a + b <= |s|
    ensures s[a..][b..] == s[a + b..]
  {
  }

  /** The header loop takes the pieces of the lines of a request one by one and stops at its
      body. */
  lemma {:induction false} HeadersRead(lines: seq<seq<byte>>, body: seq<byte>, f: Fields)
    requires forall i | 0 <= i < |lines| :: GoodLine(lines[i])
    ensures var s := HeaderBlock(lines) + (CRLF + body);
      && HasBlankPiece(s)
      && FieldsOf(s, f) == TakeFields(PiecesOf(lines), f)
      && s[HeaderLen(s)..] == body
    decreases |lines|
  {
    var tail := CRLF + body;
    if lines == [] {
      assert HeaderBlock(lines) + tail == tail;
      BlankRead(body, f);
    } else {
      var line, s' := lines[0], HeaderBlock(lines[1..]) + tail;
      Regroup(line + CRLF, HeaderBlock(lines[1..]), tail);
      HeadersRead(lines[1..], body, PieceFields(line + CRLF, f));
      LineRead(line, s', f);
      PiecesTaken(line + CRLF, f);
      FieldsSplit(Pieces(line + CRLF), PiecesOf(lines[1..]), f);
    }
  }

  lemma LineRead(line: seq<byte>, rest: seq<byte>, f: Fields)
    requires GoodLine(line) && HasBlankPiece(rest)
    ensures var s := (line + CRLF) + rest;
      && HasBlankPiece(s)
      && FieldsOf(s, f) == FieldsOf(rest, PieceFields(line + CRLF, f))
      && s[HeaderLen(s)..] == rest[HeaderLen(rest)..]
  {
    var w := line + CRLF;
    var s := w + rest;
    LineInFront(line, rest);
    NotBlank(line);
    LineSkipped(s, |w|, f);
  }

  lemma {:induction false} PiecesSplit(a: seq<seq<byte>>, b: seq<seq<byte>>)
    ensures PiecesOf(a + b) == PiecesOf(a) + PiecesOf(b)
    decreases |a|
  {
    if a == [] {
      assert a + b == b;
    } else {
      assert (a + b)[1..] == a[1..] + b;
      PiecesSplit(a[1..], b);
    }
  }

  lemma NamedWithoutBreak(line: seq<byte>, name: seq<byte>)
    requires 13 !in name
    ensures Named(line + CRLF, name) ==> Named(line, name)
  {
    var t := line + CRLF;
    if |name| <= |line| {
      assert t[..|name|] == line[..|name|];
    } else {
      assert t[|line|] == 13 && name[|line|] != 13;
      assert |name| <= |t| ==> Lowered(t[..|name|])[|line|] == 13;
    }
  }

  /** Lines without the name of a field in any piece leave the field alone. */
  lemma {:induction false} LengthUntouched(lines: seq<seq<byte>>, f: Fields)
    requires forall i | 0 <= i < |lines| :: !Named(lines[i], LENGTH_NAME) && LengthSurvives(lines[i] + CRLF)
    ensures TakeFields(PiecesOf(lines), f).length == f.length
    decreases |lines|
  {
    if lines != [] {
      var w := lines[0] + CRLF;
      NamedWithoutBreak(lines[0], LENGTH_NAME);
      LengthKept(w, f);
      PiecesTaken(w, f);
      FieldsSplit(Pieces(w), PiecesOf(lines[1..]), f);
      LengthUntouched(lines[1..], PieceFields(w, f));
    }
  }

  lemma {:induction false} TypeUntouched(lines: seq<seq<byte>>, f: Fields)
    requires forall i | 0 <= i < |lines| :: !Named(lines[i], TYPE_NAME) && TypeSurvives(lines[i] + CRLF)
    ensures TakeFields(PiecesOf(lines), f).contentType == f.contentType
    decreases |lines|
  {
    if lines != [] {
      var w := lines[0] + CRLF;
      NamedWithoutBreak(lines[0], TYPE_NAME);
      TypeKept(w, f);
      PiecesTaken(w, f);
      FieldsSplit(Pieces(w), PiecesOf(lines[1..]), f);
      TypeUntouched(lines[1..], PieceFields(w, f));
    }
  }

  /** Line `i` is the last one with this name. */
  predicate LastNamed(lines: seq<seq<byte>>, i: nat, name: seq<byte>) {
    i < |lines| && forall k | i < k < |lines| :: !Named(lines[k], name)
  }

  /** What stands behind line `i`, after the fields that the lines before it and it itself give. */
  lemma FieldsAround(lines: seq<seq<byte>>, i: nat, f: Fields)
    requires i < |lines|
    ensures TakeFields(PiecesOf(lines), f) ==
      TakeFields(PiecesOf(lines[i + 1..]), PieceFields(lines[i] + CRLF, TakeFields(PiecesOf(lines[..i]), f)))
  {
    var before, w, after := lines[..i], lines[i] + CRLF, lines[i + 1..];
    assert lines == before + lines[i..] && lines[i..][1..] == after;
    PiecesSplit(before, lines[i..]);
    assert PiecesOf(lines[i..]) == Pieces(w) + PiecesOf(after);
    FieldsSplit(PiecesOf(before), Pieces(w) + PiecesOf(after), f);
    var f' := TakeFields(PiecesOf(before), f);
    FieldsSplit(Pieces(w), PiecesOf(after), f');
    PiecesTaken(w, f');
  }

  /** The lines from `i` on keep their fields although the reads cut them. */
  predicate LengthsSurvive(lines: seq<seq<byte>>, i: nat) {
    forall k | i <= k < |lines| :: LengthSurvives(lines[k] + CRLF)
  }

  predicate TypesSurvive(lines: seq<seq<byte>>, i: nat) {
    forall k | i <= k < |lines| :: TypeSurvives(lines[k] + CRLF)
  }

  /** A line that gives the length of the body, in any spelling and spacing of its name. */
  ghost predicate GivesLength(line: seq<byte>, n: nat) {
    exists written, pad: seq<byte> ::
      && Spells(written, LENGTH_NAME) && White(pad)
      && line == Field(written, pad, Sio.Text(n), [])
  }

  ghost predicate GivesType(line: seq<byte>, value: seq<byte>) {
    && value != [] && value[0] != SPACE && (forall k | 0 <= k < |value| :: value[k] !in VALUE_ENDS)
    && exists written, pad: seq<byte> ::
      && Spells(written, TYPE_NAME) && (forall k | 0 <= k < |pad| :: pad[k] == SPACE)
      && line == Field(written, pad, value, [])
  }

  lemma FieldBreak(written: seq<byte>, pad: seq<byte>, value: seq<byte>)
    ensures Field(written, pad, value, []) + CRLF == Field(written, pad, value, CRLF)
  {
  }

  /** The length that counts is that of the last line with the name, if the cuts spare it. */
  lemma LengthTaken(lines: seq<seq<byte>>, i: nat, n: nat, f: Fields)
    requires LastNamed(lines, i, LENGTH_NAME) && LengthsSurvive(lines, i)
    ensures GivesLength(lines[i], n) ==> TakeFields(PiecesOf(lines), f).length == n
  {
    LengthLineTaken(lines[i], n, TakeFields(PiecesOf(lines[..i]), f));
    LengthIsFrom(lines, i, f);
  }

  lemma LengthIsFrom(lines: seq<seq<byte>>, i: nat, f: Fields)
    requires LastNamed(lines, i, LENGTH_NAME) && LengthsSurvive(lines, i)
    ensures TakeFields(PiecesOf(lines), f).length ==
      TakeField(TakeFields(PiecesOf(lines[..i]), f), lines[i] + CRLF).length
  {
    var after, f' := lines[i + 1..], TakeFields(PiecesOf(lines[..i]), f);
    FieldsAround(lines, i, f);
    assert forall k | 0 <= k < |after| :: after[k] == lines[i + 1 + k];
    LengthUntouched(after, PieceFields(lines[i] + CRLF, f'));
    LengthKept(lines[i] + CRLF, f');
  }

  lemma TypeTaken(lines: seq<seq<byte>>, i: nat, value: seq<byte>, f: Fields)
    requires LastNamed(lines, i, TYPE_NAME) && TypesSurvive(lines, i)
    ensures GivesType(lines[i], value) ==> TakeFields(PiecesOf(lines), f).contentType == value
  {
    if GivesType(lines[i], value) {
      var written, pad: seq<byte> :|
        && Spells(written, TYPE_NAME) && (forall k | 0 <= k < |pad| :: pad[k] == SPACE)
        && lines[i] == Field(written, pad, value, []);
      FieldBreak(written, pad, value);
      TypeFieldRead(TakeFields(PiecesOf(lines[..i]), f), written, pad, value, CRLF);
      TypeIsFrom(lines, i, f);
    }
  }

  lemma TypeIsFrom(lines: seq<seq<byte>>, i: nat, f: Fields)
    requires LastNamed(lines, i, TYPE_NAME) && TypesSurvive(lines, i)
    ensures TakeFields(PiecesOf(lines), f).contentType ==
      TakeField(TakeFields(PiecesOf(lines[..i]), f), lines[i] + CRLF).contentType
  {
    var after, f' := lines[i + 1..], TakeFields(PiecesOf(lines[..i]), f);
    FieldsAround(lines, i, f);
    assert forall k | 0 <= k < |after| :: after[k] == lines[i + 1 + k];
    TypeUntouched(after, PieceFields(lines[i] + CRLF, f'));
    TypeKept(lines[i] + CRLF, f');
  }

  lemma LongLineTaken(fill: seq<byte>, w: seq<byte>, f: Fields)
    requires |fill| == MAXLINE - 1 && 0 < |w| <= MAXLINE - 1
    requires !Named(fill, LENGTH_NAME) && !Named(fill, TYPE_NAME)
    ensures PieceFields(fill + w, f) == TakeField(f, w) && TakeField(f, fill + w) == f
  {
    var whole := fill + w;
    assert whole[..|fill|] == fill && whole[|fill|..] == w;
    FrontNamed(whole, |fill|, LENGTH_NAME);
    FrontNamed(whole, |fill|, TYPE_NAME);
    assert TakeField(f, fill) == f;
    assert FoldPieces(w, f, TakeField) == TakeField(f, w);
  }

  lemma LengthLineTaken(line: seq<byte>, n: nat, f: Fields)
    ensures GivesLength(line, n) ==> TakeField(f, line + CRLF) == f.(length := n)
  {
    if GivesLength(line, n) {
      var written, pad: seq<byte> :|
        && Spells(written, LENGTH_NAME) && White(pad)
        && line == Field(written, pad, Sio.Text(n), []);
      FieldBreak(written, pad, Sio.Text(n));
      LengthFieldRead(f, written, pad, n, CRLF);
    }
  }

  /** A long line can set the length: in a header line of 8191 bytes and a Content-Length line, the
      latter counts, although the line as a whole gives nothing. */
  lemma LongLineSetsLength(fill: seq<byte>, line: seq<byte>, n: nat, body: seq<byte>, f: Fields)
    requires |fill| == MAXLINE - 1 && NEWLINE !in fill && !Named(fill, LENGTH_NAME) && !Named(fill, TYPE_NAME)
    requires GoodLine(line) && |line + CRLF| <= MAXLINE - 1
    ensures var s := (fill + line + CRLF) + (CRLF + body);
      && HasBlankPiece(s) && TakeField(f, fill + line + CRLF) == f
      && (GivesLength(line, n) ==> FieldsOf(s, f).length == n && !LengthSurvives(fill + line + CRLF))
  {
    var whole := fill + line + CRLF;
    Regroup(fill, line, CRLF);
    assert !EndsInBlankPiece(whole);
    BlankRead(body, PieceFields(whole, f));
    LineRead(fill + line, CRLF + body, f);
    LongLineTaken(fill, line + CRLF, f);
    LengthLineTaken(line, n, f);
    if GivesLength(line, n) {
      LongLineLost(fill, line, n);
    }
  }

  lemma LongLineLost(fill: seq<byte>, line: seq<byte>, n: nat)
    requires |fill| == MAXLINE - 1 && !Named(fill, LENGTH_NAME) && !Named(fill, TYPE_NAME)
    requires |line + CRLF| <= MAXLINE - 1
    ensures GivesLength(line, n) ==> !LengthSurvives(fill + (line + CRLF))
  {
    var g, whole := Fields(n + 1, []), fill + (line + CRLF);
    LongLineTaken(fill, line + CRLF, g);
    LengthLineTaken(line, n, g);
    if LengthSurvives(whole) { LengthKept(whole, g); }
  }

  /** A request line: white space, the method as far as the buffer reaches, then white space or
      nothing and any text. */
  predicate RequestLine(first: seq<byte>, lead: seq<byte>, verb: seq<byte>) {
    && GoodLine(first) && White(lead) && lead + verb <= first && 0 < |lead + verb| <= MAXLINE - 1
    && verb != [] && (forall k | 0 <= k < |verb| :: verb[k] !in WHITE && verb[k] != 0)
    && (|lead + verb| < |first| ==> first[|lead + verb|] in WHITE || first[|lead + verb|] == 0)
  }

  lemma MethodRead(first: seq<byte>, lead: seq<byte>, verb: seq<byte>)
    requires RequestLine(first, lead, verb)
    ensures MethodOf(Pieces(first + CRLF)[0]) == verb
  {
    var piece := Pieces(first + CRLF)[0];
    var tail := piece[|lead + verb|..];
    Regroup(lead, verb, tail);
    assert piece == lead + (verb + tail);
    assert tail != [] ==> !InWord(tail[0]);
    assert (verb + tail)[0] == verb[0];
    SpanIs(lead, verb + tail, IsSpace);
    SpanIs(verb, tail, InWord);
  }

  /** The usual spellings of the methods. */
  lemma UsualMethods()
    ensures NoCapitals(PUT_NAME) && Spells([80, 85, 84], PUT_NAME)
    ensures NoCapitals(POST_NAME) && Spells([80, 79, 83, 84], POST_NAME)
  {
  }

  /** The header lines that the transaction sees: what the buffer leaves of the request line, then
      the pieces of the others. */
  function HeaderPieces(first: seq<byte>, lines: seq<seq<byte>>): seq<seq<byte>> {
    Pieces(first + CRLF)[1..] + PiecesOf(lines)
  }

  lemma FirstRead(first: seq<byte>, rest: seq<byte>)
    requires GoodLine(first) && HasBlankPiece(rest)
    ensures var w := first + CRLF;
      var s := w + rest;
      var r := s[PieceLen(s)..];
      && s[..PieceLen(s)] == Pieces(w)[0] && HasBlankPiece(r)
      && FieldsOf(r, NoFields) == FieldsOf(rest, TakeFields(Pieces(w)[1..], NoFields))
      && r[HeaderLen(r)..] == rest[HeaderLen(rest)..]
  {
    var w, m := first + CRLF, MAXLINE - 1;
    var s := w + rest;
    LineInFront(first, rest);
    LineLenCut(s, m);
    if |w| > m {
      LongFirstRead(s, w, rest);
    } else {
      assert Pieces(w)[1..] == [];
    }
  }

  lemma LineCut(w: seq<byte>, rest: seq<byte>, m: nat)
    requires m < |w|
    ensures var s := w + rest;
      s[..m] == w[..m] && s[m..][..|w| - m] == w[m..] && s[m..][|w| - m..] == rest
  {
  }

  lemma LongFirstRead(s: seq<byte>, w: seq<byte>, rest: seq<byte>)
    requires s == w + rest && WholeLine(s) == |w| > MAXLINE - 1 && !EndsInBlankPiece(w) && HasBlankPiece(rest)
    ensures var r := s[MAXLINE - 1..];
      && s[..MAXLINE - 1] == Pieces(w)[0] && HasBlankPiece(r)
      && FieldsOf(r, NoFields) == FieldsOf(rest, TakeFields(Pieces(w)[1..], NoFields))
      && r[HeaderLen(r)..] == rest[HeaderLen(rest)..]
  {
    var m := MAXLINE - 1;
    LineLenDrop(s, m);
    LineCut(w, rest, m);
    EndsAlike(w);
    LineSkipped(s[m..], |w| - m, NoFields);
    PiecesTaken(w[m..], NoFields);
  }

  /** What the transaction sees of a request. */
  lemma WireRead(first: seq<byte>, lines: seq<seq<byte>>, body: seq<byte>)
    requires GoodLine(first) && forall i | 0 <= i < |lines| :: GoodLine(lines[i])
    ensures var s := Wire(first, lines, body);
      var rest := s[PieceLen(s)..];
      && s != [] && s[..PieceLen(s)] == Pieces(first + CRLF)[0]
      && HeadersEnd(s)
      && FieldsOf(rest, NoFields) == TakeFields(HeaderPieces(first, lines), NoFields)
      && rest[HeaderLen(rest)..] == body
  {
    var own := Pieces(first + CRLF)[1..];
    HeadersRead(lines, body, TakeFields(own, NoFields));
    FirstRead(first, HeaderBlock(lines) + (CRLF + body));
    FieldsSplit(own, PiecesOf(lines), NoFields);
  }

  /** A request with lines of any length is an upload if and only if its method is PUT or POST in
      any letter case, and an upload is served from its body, with the fields that the last pieces
      with their names give. */
  lemma RequestServed(
    first: seq<byte>, lead: seq<byte>, verb: seq<byte>, lines: seq<seq<byte>>, body: seq<byte>,
    mallocOk: bool, openOk: bool)
    requires RequestLine(first, lead, verb) && forall k | 0 <= k < |lines| :: GoodLine(lines[k])
    ensures HeadersEnd(Wire(first, lines, body))
    ensures var ps := HeaderPieces(first, lines);
      var fields := Fields(LengthAfter(ps, -1), TypeAfter(ps, []));
      Answer(Wire(first, lines, body), mallocOk, openOk) ==
        if Spells(verb, PUT_NAME) then PutAnswer(fields.length, body, openOk)
        else if Spells(verb, POST_NAME) then PostAnswer(fields, body, mallocOk, openOk)
        else (NotUpload, [])
  {
    WireAnswered(first, lines, body, mallocOk, openOk);
    VerbIs(first, lead, verb);
  }

  lemma VerbIs(first: seq<byte>, lead: seq<byte>, verb: seq<byte>)
    requires RequestLine(first, lead, verb)
    ensures var name := Lowered(MethodOf(Pieces(first + CRLF)[0]));
      && (name == PUT_NAME <==> Spells(verb, PUT_NAME))
      && (name == POST_NAME <==> Spells(verb, POST_NAME))
  {
    MethodRead(first, lead, verb);
    SpellsIff(verb, PUT_NAME);
    SpellsIff(verb, POST_NAME);
  }

  lemma WireAnswered(first: seq<byte>, lines: seq<seq<byte>>, body: seq<byte>, mallocOk: bool, openOk: bool)
    requires GoodLine(first) && forall k | 0 <= k < |lines| :: GoodLine(lines[k])
    ensures HeadersEnd(Wire(first, lines, body))
    ensures var ps, name := HeaderPieces(first, lines), Lowered(MethodOf(Pieces(first + CRLF)[0]));
      var fields := Fields(LengthAfter(ps, -1), TypeAfter(ps, []));
      Answer(Wire(first, lines, body), mallocOk, openOk) ==
        if name == PUT_NAME then PutAnswer(fields.length, body, openOk)
        else if name == POST_NAME then PostAnswer(fields, body, mallocOk, openOk)
        else (NotUpload, [])
  {
    WireRead(first, lines, body);
    FieldsDecided(HeaderPieces(first, lines), NoFields);
  }

  /** A PUT of any line lengths stores the body if and only if the last piece with the name of the
      length field gives its length, or a greater one with nothing behind the body. */
  lemma PutRoundTripIff(
    first: seq<byte>, lead: seq<byte>, verb: seq<byte>, lines: seq<seq<byte>>, body: seq<byte>, extra: seq<byte>,
    mallocOk: bool)
    requires RequestLine(first, lead, verb) && Spells(verb, PUT_NAME) && forall k | 0 <= k < |lines| :: GoodLine(lines[k])
    ensures HeadersEnd(Wire(first, lines, body + extra))
    ensures var ps := HeaderPieces(first, lines);
      var k := LastWith(ps, LENGTH_NAME);
      Answer(Wire(first, lines, body + extra), mallocOk, true) == (Put(Created(|body|)), body) <==>
        k >= 0 && var n := Atol(ps[k][|LENGTH_NAME|..]); n == |body| || (n > |body| && extra == [])
  {
    RequestServed(first, lead, verb, lines, body + extra, mallocOk, true);
    PutAnswerIff(LengthAfter(HeaderPieces(first, lines), -1), body, extra);
  }

  lemma PutAnswerIff(length: int, body: seq<byte>, extra: seq<byte>)
    ensures PutAnswer(length, body + extra, true) == (Put(Created(|body|)), body) <==>
      length == |body| || (length > |body| && extra == [])
  {
    assert (body + extra)[..|body|] == body;
  }

  /** A PUT whose last Content-Length line gives the length of the body, and keeps it where the
      reads cut the lines, stores the body: through request line, header loop, `atol` and copy
      loop, whatever follows on the connection. */
  lemma PutRoundTrip(
    first: seq<byte>, lead: seq<byte>, verb: seq<byte>, lines: seq<seq<byte>>, i: nat, body: seq<byte>,
    extra: seq<byte>, mallocOk: bool)
    requires RequestLine(first, lead, verb) && Spells(verb, PUT_NAME) && forall k | 0 <= k < |lines| :: GoodLine(lines[k])
    requires LastNamed(lines, i, LENGTH_NAME) && LengthsSurvive(lines, i)
    ensures HeadersEnd(Wire(first, lines, body + extra))
    ensures GivesLength(lines[i], |body|) ==>
      Answer(Wire(first, lines, body + extra), mallocOk, true) == (Put(Created(|body|)), body)
  {
    var own := Pieces(first + CRLF)[1..];
    RequestServed(first, lead, verb, lines, body + extra, mallocOk, true);
    FieldsDecided(HeaderPieces(first, lines), NoFields);
    FieldsSplit(own, PiecesOf(lines), NoFields);
    LengthTaken(lines, i, |body|, TakeFields(own, NoFields));
    PutAnswerIff(|body|, body, extra);
  }

  /** The header lines give the length of the body and its content type, and the cuts spare both. */
  ghost predicate Announces(lines: seq<seq<byte>>, i: nat, j: nat, length: nat, contentType: seq<byte>) {
    && LastNamed(lines, i, LENGTH_NAME) && LengthsSurvive(lines, i) && GivesLength(lines[i], length)
    && LastNamed(lines, j, TYPE_NAME) && TypesSurvive(lines, j) && GivesType(lines[j], contentType)
  }

  lemma AnnouncedRead(
    first: seq<byte>, lines: seq<seq<byte>>, i: nat, j: nat, length: nat, contentType: seq<byte>)
    ensures Announces(lines, i, j, length, contentType) ==>
      TakeFields(HeaderPieces(first, lines), NoFields) == Fields(length, contentType)
  {
    if Announces(lines, i, j, length, contentType) {
      var own := Pieces(first + CRLF)[1..];
      var f := TakeFields(own, NoFields);
      FieldsSplit(own, PiecesOf(lines), NoFields);
      LengthTaken(lines, i, length, f);
      TypeTaken(lines, j, contentType, f);
    }
  }

  lemma PostIsNotPut(verb: seq<byte>)
    ensures !(Spells(verb, PUT_NAME) && Spells(verb, POST_NAME))
  {
  }

  /** A POST that announces its body is served from the body, whatever follows. */
  lemma PostRead(
    first: seq<byte>, lead: seq<byte>, verb: seq<byte>, lines: seq<seq<byte>>, i: nat, j: nat,
    contentType: seq<byte>, body: seq<byte>, extra: seq<byte>)
    requires RequestLine(first, lead, verb) && Spells(verb, POST_NAME) && forall k | 0 <= k < |lines| :: GoodLine(lines[k])
    ensures HeadersEnd(Wire(first, lines, body + extra))
    ensures |body| <= MAX_UPLOAD && Announces(lines, i, j, |body|, contentType) ==>
      var u := Extract(contentType, body);
      Answer(Wire(first, lines, body + extra), true, true) == (Post(Saved(u)), u.content)
  {
    RequestServed(first, lead, verb, lines, body + extra, true, true);
    FieldsDecided(HeaderPieces(first, lines), NoFields);
    PostIsNotPut(verb);
    AnnouncedRead(first, lines, i, j, |body|, contentType);
    assert (body + extra)[..|body|] == body;
  }

  /** A multipart POST that announces its body stores the content of the first part if and only if
      the content lacks the separator, and otherwise a prefix of it. */
  lemma PostRoundTripIff(
    first: seq<byte>, lead: seq<byte>, verb: seq<byte>, lines: seq<seq<byte>>, i: nat, j: nat,
    typePrefix: seq<byte>, preamble: seq<byte>, boundary: seq<byte>, padding: seq<byte>,
    headers: seq<seq<byte>>, content: seq<byte>, rest: seq<byte>, extra: seq<byte>)
    requires RequestLine(first, lead, verb) && Spells(verb, POST_NAME) && forall k | 0 <= k < |lines| :: GoodLine(lines[k])
    requires !Contains(typePrefix, BOUNDARY) && WellFormed(preamble, boundary, padding, headers)
    ensures var body := Body(preamble, boundary, padding, headers, content, rest);
      var s := Wire(first, lines, body + extra);
      && HeadersEnd(s)
      && (|body| <= MAX_UPLOAD && Announces(lines, i, j, |body|, typePrefix + BOUNDARY + boundary) ==>
            var (r, file) := Answer(s, true, true);
            && r == Post(Saved(Upload(FilenameIn(padding + HeaderText(headers)), file)))
            && file <= content
            && (file == content <==> !Contains(content, CRLF + DASHES + boundary)))
  {
    var body := Body(preamble, boundary, padding, headers, content, rest);
    PostRead(first, lead, verb, lines, i, j, typePrefix + BOUNDARY + boundary, body, extra);
    ContentRoundTripIff(typePrefix, preamble, boundary, padding, headers, content, rest);
  }

  /** A POST in the other encoding, with any type that names no boundary or with none at all, stores
      exactly its body, under no name of its own, whatever follows on the connection. */
  lemma PlainPostStores(
    first: seq<byte>, lead: seq<byte>, verb: seq<byte>, lines: seq<seq<byte>>, i: nat,
    body: seq<byte>, extra: seq<byte>)
    requires RequestLine(first, lead, verb) && Spells(verb, POST_NAME) && forall k | 0 <= k < |lines| :: GoodLine(lines[k])
    requires LastNamed(lines, i, LENGTH_NAME) && LengthsSurvive(lines, i) && |body| <= MAX_UPLOAD
    ensures HeadersEnd(Wire(first, lines, body + extra))
    ensures GivesLength(lines[i], |body|) && !Contains(TypeAfter(HeaderPieces(first, lines), []), BOUNDARY) ==>
      Answer(Wire(first, lines, body + extra), true, true) == (Post(Saved(Upload([], body))), body)
  {
    var own := Pieces(first + CRLF)[1..];
    RequestServed(first, lead, verb, lines, body + extra, true, true);
    FieldsDecided(HeaderPieces(first, lines), NoFields);
    PostIsNotPut(verb);
    FieldsSplit(own, PiecesOf(lines), NoFields);
    LengthTaken(lines, i, |body|, TakeFields(own, NoFields));
    assert (body + extra)[..|body|] == body;
    NoPartNoName(TypeAfter(HeaderPieces(first, lines), []), body);
  }

  /** The same for a POST that announces a type without a boundary. */
  lemma AnnouncedPlainPost(
    first: seq<byte>, lead: seq<byte>, verb: seq<byte>, lines: seq<seq<byte>>, i: nat, j: nat,
    contentType: seq<byte>, body: seq<byte>, extra: seq<byte>)
    requires RequestLine(first, lead, verb) && Spells(verb, POST_NAME) && forall k | 0 <= k < |lines| :: GoodLine(lines[k])
    requires !Contains(contentType, BOUNDARY)
    ensures HeadersEnd(Wire(first, lines, body + extra))
    ensures |body| <= MAX_UPLOAD && Announces(lines, i, j, |body|, contentType) ==>
      Answer(Wire(first, lines, body + extra), true, true) == (Post(Saved(Upload([], body))), body)
  {
    PostRead(first, lead, verb, lines, i, j, contentType, body, extra);
    NoPartNoName(contentType, body);
  }
}
