/**
 How the Tiny server finds and stores a request body: the header loop that reads lines up to a
 blank one, the copy loop of PUT, and the reading, slicing and storing of POST.
 */
module TinyRequests {
  import opened Bytes
  import opened Rio
  import opened TinyFields
  import opened Multipart

  const MAXBUF := 8192

  // ----- the end of the headers

  /** What one `rio_readlineb` into the line buffer takes from the front of `s`. */
  function PieceLen(s: seq<byte>): (k: nat)
    ensures k <= |s| && (s != [] ==> k > 0)
  {
    LineLen(s, MAXLINE - 1)
  }

  /** Some read of the header loop yields exactly CRLF. */
  predicate HasBlankPiece(s: seq<byte>)
    decreases |s|
  {
    s != [] && (s[..PieceLen(s)] == CRLF || HasBlankPiece(s[PieceLen(s)..]))
  }

  /** How far the header loop reads. */
  function HeaderLen(s: seq<byte>): (k: nat)
    requires HasBlankPiece(s)
    ensures k <= |s|
    decreases |s|
  {
    var k := PieceLen(s);
    if s[..k] == CRLF then k else k + HeaderLen(s[k..])
  }

  /** The reads before the blank one, taken one by one. */
  function FoldReads<A>(s: seq<byte>, f: A, take: (A, seq<byte>) -> A): A
    requires HasBlankPiece(s)
    decreases |s|
  {
    var k := PieceLen(s);
    if s[..k] == CRLF then f else FoldReads(s[k..], take(f, s[..k]), take)
  }

  /** What the header loop takes from them. */
  function FieldsOf(s: seq<byte>, f: Fields): Fields
    requires HasBlankPiece(s)
  {
    FoldReads(s, f, TakeField)
  }

  /** Where the loop ends and what it has found by then. */
  ghost predicate LoopAt(all: seq<byte>, passed: seq<byte>, s: seq<byte>, f: Fields) {
    && all == passed + s && HasBlankPiece(all) && HasBlankPiece(s)
    && HeaderLen(all) == |passed| + HeaderLen(s)
    && FieldsOf(all, NoFields) == FieldsOf(s, f)
  }

  /** One line read that is not blank. */
  lemma LoopAdvances(all: seq<byte>, passed: seq<byte>, line: seq<byte>, rest: seq<byte>, f: Fields)
    requires |line| == PieceLen(line + rest) && line != CRLF && LoopAt(all, passed, line + rest, f)
    ensures LoopAt(all, passed + line, rest, TakeField(f, line))
  {
    PieceTaken(line + rest, line, rest);
    Regroup(passed, line, rest);
  }

  lemma LoopStops(all: seq<byte>, passed: seq<byte>, line: seq<byte>, rest: seq<byte>, f: Fields)
    requires |line| == PieceLen(line + rest) && line == CRLF && LoopAt(all, passed, line + rest, f)
    ensures f == FieldsOf(all, NoFields) && rest == all[HeaderLen(all)..]
  {
    PieceTaken(line + rest, line, rest);
    Regroup(passed, line, rest);
  }

  /** One read of the header loop, which is never at the end of the stream. */
  method NextHeader(rp: Reader, buf: array<byte>, ghost all: seq<byte>, ghost passed: seq<byte>, ghost f: Fields)
    returns (ok: bool, line: seq<byte>)
    requires rp.Valid() && buf.Length == MAXLINE && buf != rp.buf && LoopAt(all, passed, rp.remaining, f)
    modifies rp, rp.buf, rp.fd, buf
    ensures rp.Valid() && rp.fd.failed == (old(rp.fd.failed) || !ok)
    ensures ok ==> |rp.remaining| < |old(rp.remaining)|
    ensures ok && line != CRLF ==> LoopAt(all, passed + line, rp.remaining, TakeField(f, line))
    ensures ok && line == CRLF ==> f == FieldsOf(all, NoFields) && rp.remaining == all[HeaderLen(all)..]
  {
    var rc;
    rc, line := rp.ReadLine(buf, MAXLINE);
    ok := rc >= 0;
    if ok && line == CRLF {
      LoopStops(all, passed, line, rp.remaining, f);
    } else if ok {
      LoopAdvances(all, passed, line, rp.remaining, f);
    }
  }

  /** `read_requesthdrs` on a stream on which it ends, with the fields preset by the caller. A
      read error ends the call here. */
  method ReadRequestHeaders(rp: Reader) returns (ok: bool, fields: Fields)
    requires rp.Valid() && HasBlankPiece(rp.remaining)
    modifies rp, rp.buf, rp.fd
    ensures rp.Valid() && rp.fd.failed == (old(rp.fd.failed) || !ok)
    ensures ok ==> rp.remaining == old(rp.remaining)[HeaderLen(old(rp.remaining))..]
    ensures ok ==> fields == FieldsOf(old(rp.remaining), NoFields)
  {
    ghost var all := rp.remaining;
    ghost var passed: seq<byte> := [];
    var buf := new byte[MAXLINE];
    fields := NoFields;
    assert [] + all == all;
    var line;
    ok, line := NextHeader(rp, buf, all, passed, fields);
    while ok && line != CRLF
      invariant rp.Valid() && rp.fd.failed == (old(rp.fd.failed) || !ok)
      invariant ok && line != CRLF ==> LoopAt(all, passed + line, rp.remaining, TakeField(fields, line))
      invariant ok && line == CRLF ==> fields == FieldsOf(all, NoFields) && rp.remaining == all[HeaderLen(all)..]
      decreases if ok then |rp.remaining| + 1 else 0
    {
      fields := TakeField(fields, line);
      passed := passed + line;
      ok, line := NextHeader(rp, buf, all, passed, fields);
    }
  }

  lemma PieceTaken(s: seq<byte>, piece: seq<byte>, rest: seq<byte>)
    requires s == piece + rest && |piece| == PieceLen(s)
    ensures s[..PieceLen(s)] == piece && s[PieceLen(s)..] == rest
  {
  }

  /** The line buffer after `k` more reads of the header loop from stream `s`. */
  function LineAfter(line: seq<byte>, s: seq<byte>, k: nat): seq<byte>
    decreases k
  {
    if k == 0 || s == [] then line else LineAfter(s[..PieceLen(s)], s[PieceLen(s)..], k - 1)
  }

  lemma {:induction false} BlankIsReached(line: seq<byte>, s: seq<byte>) returns (k: nat)
    requires HasBlankPiece(s)
    ensures LineAfter(line, s, k) == CRLF
    decreases |s|
  {
    var n := PieceLen(s);
    if s[..n] == CRLF {
      k := 1;
      assert LineAfter(s[..n], s[n..], 0) == CRLF;
    } else {
      var j := BlankIsReached(s[..n], s[n..]);
      k := j + 1;
    }
  }

  lemma {:induction false} NoBlankNoEnd(line: seq<byte>, s: seq<byte>, k: nat)
    requires line != CRLF && !HasBlankPiece(s)
    ensures LineAfter(line, s, k) != CRLF
    decreases k
  {
    if k > 0 && s != [] {
      NoBlankNoEnd(s[..PieceLen(s)], s[PieceLen(s)..], k - 1);
    }
  }

  /** The header loop ends if and only if some read yields a blank line: at the end of the
      stream the line buffer keeps its contents, so without a blank line it spins forever. */
  lemma HeaderLoopEndsIff(line: seq<byte>, s: seq<byte>)
    requires line != CRLF
    ensures HasBlankPiece(s) <==> exists k: nat :: LineAfter(line, s, k) == CRLF
  {
    if HasBlankPiece(s) {
      var k := BlankIsReached(line, s);
    } else {
      forall k: nat ensures LineAfter(line, s, k) != CRLF { NoBlankNoEnd(line, s, k); }
    }
  }

  // ----- lines longer than the buffer

  /** Length of the first line, newline included, whatever its length. */
  function WholeLine(s: seq<byte>): (n: nat)
    ensures n <= |s| && (s != [] ==> n > 0)
  {
    LineLen(s, |s|)
  }

  predicate HasBlankLine(s: seq<byte>)
    decreases |s|
  {
    s != [] && (s[..WholeLine(s)] == CRLF || HasBlankLine(s[WholeLine(s)..]))
  }

  /** Where the headers really end: after the first blank line. */
  function HeaderEnd(s: seq<byte>): (k: nat)
    requires HasBlankLine(s)
    ensures 0 < k <= |s|
    decreases |s|
  {
    var n := WholeLine(s);
    if s[..n] == CRLF then n else n + HeaderEnd(s[n..])
  }

  /** A line whose last piece, cut into buffers of 8191 bytes, is just CRLF. */
  predicate EndsInBlankPiece(line: seq<byte>) {
    |line| > 2 && |line| % (MAXLINE - 1) == 2 && line[|line| - 2..] == CRLF
  }

  /** No header line before the blank one ends in such a piece. */
  predicate NoFalseBlank(s: seq<byte>)
    requires HasBlankLine(s)
    decreases |s|
  {
    var line := s[..WholeLine(s)];
    line == CRLF || (!EndsInBlankPiece(line) && NoFalseBlank(s[WholeLine(s)..]))
  }

  lemma {:induction false} LineLenCut(s: seq<byte>, m: nat)
    ensures LineLen(s, m) == Min(m, WholeLine(s))
  {
    if m > 0 && s != [] && s[0] != NEWLINE { LineLenCut(s[1..], m - 1); }
  }

  lemma {:induction false} LineLenDrop(s: seq<byte>, k: nat)
    requires k < WholeLine(s)
    ensures WholeLine(s[k..]) == WholeLine(s) - k
  {
    if k > 0 {
      LineLenDrop(s[1..], k - 1);
      assert s[1..][k - 1..] == s[k..];
    }
  }

  lemma CutTwice(s: seq<byte>, m: nat, n: nat)
    requires m <= n <= |s|
    ensures s[m..][..n - m] == s[..n][m..] && s[m..][n - m..] == s[n..]
  {
  }

  lemma ShortIsWhole(line: seq<byte>)
    requires |line| <= MAXLINE - 1
    ensures !EndsInBlankPiece(line)
  {
  }

  lemma EndsAlike(line: seq<byte>)
    requires |line| > MAXLINE - 1
    ensures var rest := line[MAXLINE - 1..];
      EndsInBlankPiece(line) <==> rest == CRLF || EndsInBlankPiece(rest)
  {
    var rest := line[MAXLINE - 1..];
    assert |line| % (MAXLINE - 1) == |rest| % (MAXLINE - 1);
    if |rest| >= 2 {
      assert line[|line| - 2..] == rest[|rest| - 2..];
    }
    if |rest| == 2 {
      assert rest[0..] == rest;
    }
  }

  /** A line longer than the buffer: its first piece is passed. */
  lemma FirstPiecePassed(s: seq<byte>, m: nat)
    requires m == MAXLINE - 1 < WholeLine(s) && HasBlankPiece(s[m..])
    ensures HasBlankPiece(s) && HeaderLen(s) == m + HeaderLen(s[m..])
  {
    LineLenCut(s, m);
    assert PieceLen(s) == m && |s[..m]| != |CRLF|;
  }

  /** A line that fits the buffer, or the last piece of one that does not. */
  lemma LastPiece(s: seq<byte>, n: nat)
    requires s != [] && n == WholeLine(s) <= MAXLINE - 1
    requires s[..n] == CRLF || HasBlankPiece(s[n..])
    ensures HasBlankPiece(s)
    ensures HeaderLen(s) == if s[..n] == CRLF then n else n + HeaderLen(s[n..])
  {
    LineLenCut(s, MAXLINE - 1);
    assert PieceLen(s) == n;
  }

  /** A line of several pieces, given what its pieces after the first do. */
  lemma LongLinePassed(s: seq<byte>, n: nat, m: nat)
    requires m == MAXLINE - 1 < n == WholeLine(s) <= |s| && HasBlankPiece(s[n..])
    requires s[m..][..n - m] != CRLF && HasBlankPiece(s[m..])
    requires HeaderLen(s[m..]) == n - m + if EndsInBlankPiece(s[m..][..n - m]) then 0 else HeaderLen(s[n..])
    ensures HasBlankPiece(s)
    ensures HeaderLen(s) == n + if EndsInBlankPiece(s[..n]) then 0 else HeaderLen(s[n..])
  {
    CutTwice(s, m, n);
    EndsAlike(s[..n]);
    FirstPiecePassed(s, m);
  }

  /** The loop passes a line that is not blank, unless the line ends in a blank piece. */
  lemma {:induction false} LinePassed(s: seq<byte>, n: nat)
    requires s != [] && n == WholeLine(s) && s[..n] != CRLF && HasBlankPiece(s[n..])
    ensures HasBlankPiece(s)
    ensures HeaderLen(s) == n + if EndsInBlankPiece(s[..n]) then 0 else HeaderLen(s[n..])
    decreases n
  {
    var m := MAXLINE - 1;
    if n <= m {
      LastPiece(s, n);
      ShortIsWhole(s[..n]);
    } else {
      LineLenDrop(s, m);
      CutTwice(s, m, n);
      if s[m..][..n - m] == CRLF {
        LastPiece(s[m..], n - m);
        FirstPiecePassed(s, m);
        EndsAlike(s[..n]);
      } else {
        LinePassed(s[m..], n - m);
        LongLinePassed(s, n, m);
      }
    }
  }

  /** The header loop never reads past the headers, and it stops exactly at their end if and
      only if no header line is cut so that its last piece is a bare line break. */
  lemma {:induction false} HeaderLoopExactIff(s: seq<byte>)
    requires HasBlankLine(s)
    ensures HasBlankPiece(s) && HeaderLen(s) <= HeaderEnd(s)
    ensures HeaderLen(s) == HeaderEnd(s) <==> NoFalseBlank(s)
    decreases |s|
  {
    var n := WholeLine(s);
    if s[..n] == CRLF {
      LineLenCut(s, MAXLINE - 1);
    } else {
      HeaderLoopExactIff(s[n..]);
      LinePassed(s, n);
    }
  }

  lemma {:induction false} WholeLineIs(text: seq<byte>, rest: seq<byte>)
    requires NEWLINE !in text
    ensures WholeLine(text + [NEWLINE] + rest) == |text| + 1
  {
    var s := text + [NEWLINE] + rest;
    if text != [] {
      WholeLineIs(text[1..], rest);
      assert s[1..] == text[1..] + [NEWLINE] + rest;
      assert s[0] == text[0] && text[0] in text;
    }
  }

  /** The failing inputs exist: a first header line of 8191 bytes and CRLF ends the loop there,
      so that the rest of the headers is taken for the body. */
  lemma LongHeaderStopsEarly(fill: seq<byte>, rest: seq<byte>)
    requires |fill| == MAXLINE - 1 && NEWLINE !in fill && HasBlankLine(rest)
    ensures var s := fill + CRLF + rest;
      HasBlankLine(s) && HasBlankPiece(s) && HeaderLen(s) == |fill| + 2 < HeaderEnd(s)
  {
    var s := fill + CRLF + rest;
    var text := fill + [13];
    assert s == text + [NEWLINE] + rest;
    WholeLineIs(text, rest);
    var n := |fill| + 2;
    assert s[..n] == fill + CRLF && s[n..] == rest;
    assert s[..n][n - 2..] == CRLF;
    HeaderLoopExactIff(rest);
    LinePassed(s, n);
  }

  // ----- fields in lines longer than the buffer

  /** A line as the reads of the header loop cut it. */
  function Pieces(line: seq<byte>): (ps: seq<seq<byte>>)
    ensures |ps| > 0 && ps[0] == line[..Min(MAXLINE - 1, |line|)]
    ensures (|ps| == 1) == (|line| <= MAXLINE - 1)
    decreases |line|
  {
    if |line| <= MAXLINE - 1 then [line] else [line[..MAXLINE - 1]] + Pieces(line[MAXLINE - 1..])
  }

  function FoldPieces<A>(line: seq<byte>, f: A, take: (A, seq<byte>) -> A): A
    decreases |line|
  {
    if |line| <= MAXLINE - 1 then take(f, line)
    else FoldPieces(line[MAXLINE - 1..], take(f, line[..MAXLINE - 1]), take)
  }

  /** What the pieces of a line give, taken one by one. */
  function PieceFields(line: seq<byte>, f: Fields): Fields {
    FoldPieces(line, f, TakeField)
  }

  lemma {:induction false} PiecesTaken(line: seq<byte>, f: Fields)
    ensures TakeFields(Pieces(line), f) == PieceFields(line, f)
    decreases |line|
  {
    var ps := Pieces(line);
    if |line| <= MAXLINE - 1 {
      assert ps[1..] == [];
    } else {
      assert ps[1..] == Pieces(line[MAXLINE - 1..]);
      PiecesTaken(line[MAXLINE - 1..], TakeField(f, ps[0]));
    }
  }

  lemma FirstPieceFolds<A>(s: seq<byte>, m: nat, f: A, take: (A, seq<byte>) -> A)
    requires m == MAXLINE - 1 < WholeLine(s) && HasBlankPiece(s[m..])
    ensures HasBlankPiece(s) && FoldReads(s, f, take) == FoldReads(s[m..], take(f, s[..m]), take)
  {
    LineLenCut(s, m);
    assert PieceLen(s) == m && |s[..m]| != |CRLF|;
  }

  lemma LastPieceFolds<A>(s: seq<byte>, n: nat, f: A, take: (A, seq<byte>) -> A)
    requires s != [] && n == WholeLine(s) <= MAXLINE - 1
    requires s[..n] == CRLF || HasBlankPiece(s[n..])
    ensures HasBlankPiece(s)
    ensures FoldReads(s, f, take) == if s[..n] == CRLF then f else FoldReads(s[n..], take(f, s[..n]), take)
  {
    LineLenCut(s, MAXLINE - 1);
    assert PieceLen(s) == n;
  }

  /** A line of two pieces of which the last is a bare line break. */
  lemma BlankTail<A>(s: seq<byte>, m: nat, f: A, take: (A, seq<byte>) -> A)
    requires m == MAXLINE - 1 && WholeLine(s) == m + 2 && s[m..][..2] == CRLF
    ensures HasBlankPiece(s) && FoldReads(s, f, take) == take(f, s[..m])
  {
    LineLenDrop(s, m);
    LastPieceFolds(s[m..], 2, take(f, s[..m]), take);
    FirstPieceFolds(s, m, f, take);
  }

  lemma {:induction false} LineFolds<A(!new)>(s: seq<byte>, n: nat, f: A, take: (A, seq<byte>) -> A)
    requires s != [] && n == WholeLine(s) && s[..n] != CRLF && HasBlankPiece(s[n..])
    requires forall g :: take(g, CRLF) == g
    ensures HasBlankPiece(s)
    ensures var f' := FoldPieces(s[..n], f, take);
      FoldReads(s, f, take) == if EndsInBlankPiece(s[..n]) then f' else FoldReads(s[n..], f', take)
    decreases n
  {
    var m := MAXLINE - 1;
    if n > m {
      var t := s[m..];
      var f1 := take(f, s[..m]);
      assert s[..n][..m] == s[..m];
      LineLenDrop(s, m);
      CutTwice(s, m, n);
      EndsAlike(s[..n]);
      if t[..n - m] == CRLF {
        BlankTail(s, m, f, take);
        assert FoldPieces(CRLF, f1, take) == f1;
      } else {
        LineFolds(t, n - m, f1, take);
        FirstPieceFolds(s, m, f, take);
      }
    } else {
      LastPieceFolds(s, n, f, take);
      ShortIsWhole(s[..n]);
    }
  }

  /** A header line of any length gives the fields what its pieces give, one by one; then the loop
      goes on behind it, unless the last piece is a bare line break. */
  lemma LineFieldsTaken(s: seq<byte>, n: nat, f: Fields)
    requires s != [] && n == WholeLine(s) && s[..n] != CRLF && HasBlankPiece(s[n..])
    ensures HasBlankPiece(s)
    ensures FieldsOf(s, f) ==
      if EndsInBlankPiece(s[..n]) then PieceFields(s[..n], f) else FieldsOf(s[n..], PieceFields(s[..n], f))
  {
    forall g ensures TakeField(g, CRLF) == g {
    }
    LineFolds(s, n, f, TakeField);
  }

  /** A line leaves a field alone, whatever it was, if and only if no piece carries its name. */
  lemma LeavesLengthIff(line: seq<byte>)
    ensures (forall f :: PieceFields(line, f).length == f.length) <==>
      LastWith(Pieces(line), LENGTH_NAME) < 0
  {
    if LastWith(Pieces(line), LENGTH_NAME) < 0 {
      forall f ensures PieceFields(line, f).length == f.length { FieldsCompared(line, f); }
    } else {
      var f := Fields(LengthAfter(Pieces(line), 0) + 1, []);
      FieldsCompared(line, f);
      assert PieceFields(line, f).length != f.length;
    }
  }

  lemma LeavesTypeIff(line: seq<byte>)
    ensures (forall f :: PieceFields(line, f).contentType == f.contentType) <==>
      LastWith(Pieces(line), TYPE_NAME) < 0
  {
    if LastWith(Pieces(line), TYPE_NAME) < 0 {
      forall f ensures PieceFields(line, f).contentType == f.contentType { FieldsCompared(line, f); }
    } else {
      var v := TypeAfter(Pieces(line), []);
      var f := Fields(0, v + [0]);
      assert |v + [0]| != |v|;
      FieldsCompared(line, f);
      assert PieceFields(line, f).contentType != f.contentType;
    }
  }

  /** A Content-Length line keeps its number although it is cut: no later piece carries the name and
      the number ends in the first piece or is zero, or the last piece with the name repeats it. A
      line of another kind has no piece with the name. */
  predicate LengthSurvives(line: seq<byte>) {
    var ps := Pieces(line);
    var k := LastWith(ps, LENGTH_NAME);
    if Named(line, LENGTH_NAME) then
      var t := line[|LENGTH_NAME|..];
      if k <= 0 then NumberEnd(t) + |LENGTH_NAME| <= MAXLINE - 1 || Atol(t) == 0
      else Atol(ps[k][|LENGTH_NAME|..]) == Atol(t)
    else k < 0
  }

  predicate TypeSurvives(line: seq<byte>) {
    var ps := Pieces(line);
    var k := LastWith(ps, TYPE_NAME);
    if Named(line, TYPE_NAME) then
      var t := line[|TYPE_NAME|..];
      if k <= 0 then ValueEnd(t) + |TYPE_NAME| <= MAXLINE - 1 || Value(t) == []
      else Value(ps[k][|TYPE_NAME|..]) == Value(t)
    else k < 0
  }

  lemma FrontNamed(line: seq<byte>, c: nat, name: seq<byte>)
    requires |name| <= c <= |line|
    ensures Named(line[..c], name) <==> Named(line, name)
    ensures line[..c][|name|..] == line[|name|..][..c - |name|]
  {
    assert line[..c][..|name|] == line[..|name|];
  }

  lemma FirstPieceNamed(line: seq<byte>, name: seq<byte>)
    requires |name| <= MAXLINE - 1
    ensures Named(Pieces(line)[0], name) <==> Named(line, name)
    ensures Named(line, name) ==>
      Pieces(line)[0][|name|..] == line[|name|..][..Min(MAXLINE - 1, |line|) - |name|]
  {
    if |name| <= |line| {
      FrontNamed(line, Min(MAXLINE - 1, |line|), name);
    }
  }

  /** What the pieces of a line with the name give: the front of its value, unless a later piece
      carries the name too. */
  lemma AfterPieces<T>(line: seq<byte>, name: seq<byte>, read: seq<byte> -> T, before: T)
    requires |name| <= MAXLINE - 1 && Named(line, name)
    ensures var ps := Pieces(line);
      var k := LastWith(ps, name);
      && k >= 0
      && After(ps, name, read, before) ==
         if k == 0 then read(line[|name|..][..Min(MAXLINE - 1, |line|) - |name|]) else read(ps[k][|name|..])
  {
    FirstPieceNamed(line, name);
  }

  lemma FrontOfNumber(line: seq<byte>, n: nat)
    requires n <= |line| && n <= MAXLINE - 1
    ensures var t := line[n..];
      Atol(t[..Min(MAXLINE - 1, |line|) - n]) == Atol(t) <==> NumberEnd(t) + n <= MAXLINE - 1 || Atol(t) == 0
  {
    AtolCutIff(line[n..], Min(MAXLINE - 1, |line|) - n);
  }

  lemma FrontOfValue(line: seq<byte>, n: nat)
    requires n <= |line| && n <= MAXLINE - 1
    ensures var t := line[n..];
      Value(t[..Min(MAXLINE - 1, |line|) - n]) == Value(t) <==> ValueEnd(t) + n <= MAXLINE - 1 || Value(t) == []
  {
    ValueCutIff(line[n..], Min(MAXLINE - 1, |line|) - n);
  }

  lemma LengthKeptIff(line: seq<byte>, before: int)
    ensures Named(line, LENGTH_NAME) ==>
      (LengthSurvives(line) <==> LengthAfter(Pieces(line), before) == LengthFrom(line, before))
  {
    if Named(line, LENGTH_NAME) {
      AfterPieces(line, LENGTH_NAME, Atol, before);
      FrontOfNumber(line, |LENGTH_NAME|);
    }
  }

  lemma TypeKeptIff(line: seq<byte>, before: seq<byte>)
    ensures Named(line, TYPE_NAME) ==>
      (TypeSurvives(line) <==> TypeAfter(Pieces(line), before) == TypeFrom(line, before))
  {
    if Named(line, TYPE_NAME) {
      AfterPieces(line, TYPE_NAME, Value, before);
      FrontOfValue(line, |TYPE_NAME|);
    }
  }

  lemma FieldsCompared(line: seq<byte>, f: Fields)
    ensures PieceFields(line, f) ==
      Fields(LengthAfter(Pieces(line), f.length), TypeAfter(Pieces(line), f.contentType))
    ensures TakeField(f, line) == Fields(LengthFrom(line, f.length), TypeFrom(line, f.contentType))
  {
    PiecesTaken(line, f);
    FieldsDecided(Pieces(line), f);
    FieldTaken(f, line);
  }

  lemma LengthKept(line: seq<byte>, f: Fields)
    requires LengthSurvives(line)
    ensures PieceFields(line, f).length == TakeField(f, line).length
  {
    FieldsCompared(line, f);
    LengthKeptIff(line, f.length);
  }

  lemma LengthLost(line: seq<byte>) returns (f: Fields)
    requires !LengthSurvives(line)
    ensures PieceFields(line, f).length != TakeField(f, line).length
  {
    f := Fields(LengthAfter(Pieces(line), 0) + 1, []);
    FieldsCompared(line, f);
    LengthKeptIff(line, f.length);
  }

  /** The pieces of a line give the length that the line gives, if and only if it survives the
      cuts. */
  lemma KeepsLengthIff(line: seq<byte>)
    ensures (forall f :: PieceFields(line, f).length == TakeField(f, line).length) <==>
      LengthSurvives(line)
  {
    if LengthSurvives(line) {
      forall f ensures PieceFields(line, f).length == TakeField(f, line).length {
        LengthKept(line, f);
      }
    } else {
      var f := LengthLost(line);
    }
  }

  lemma TypeKept(line: seq<byte>, f: Fields)
    requires TypeSurvives(line)
    ensures PieceFields(line, f).contentType == TakeField(f, line).contentType
  {
    FieldsCompared(line, f);
    TypeKeptIff(line, f.contentType);
  }

  lemma TypeLost(line: seq<byte>) returns (f: Fields)
    requires !TypeSurvives(line)
    ensures PieceFields(line, f).contentType != TakeField(f, line).contentType
  {
    var v := TypeAfter(Pieces(line), []);
    f := Fields(0, v + [0]);
    assert |v + [0]| != |v|;
    FieldsCompared(line, f);
    TypeKeptIff(line, f.contentType);
  }

  /** The same for the type. */
  lemma KeepsTypeIff(line: seq<byte>)
    ensures (forall f :: PieceFields(line, f).contentType == TakeField(f, line).contentType) <==>
      TypeSurvives(line)
  {
    if TypeSurvives(line) {
      forall f ensures PieceFields(line, f).contentType == TakeField(f, line).contentType {
        TypeKept(line, f);
      }
    } else {
      var f := TypeLost(line);
    }
  }

  /** A line that fits the buffer is not cut. */
  lemma FittingSurvives(line: seq<byte>)
    requires |line| <= MAXLINE - 1
    ensures LengthSurvives(line) && TypeSurvives(line)
  {
  }

  // ----- PUT

  datatype PutResult = LengthRequired | PutNotOpened | Created(saved: nat)

  /** `serve_put` with the file that its `open` creates empty, or with a failing `open`. The
      server does not look at the result of its writes: the count it reports is the file's
      length exactly when no write failed. */
  method ServePut(rp: Reader, contentLength: int, openOk: bool, out: Sink) returns (r: PutResult)
    requires rp.Valid() && out.written == [] && !out.failed
    modifies rp, rp.buf, rp.fd, out
    ensures rp.Valid() && (old(rp.fd.failed) ==> rp.fd.failed)
    ensures r.LengthRequired? <==> contentLength < 0
    ensures r.PutNotOpened? <==> contentLength >= 0 && !openOk
    ensures !r.Created? ==> rp.remaining == old(rp.remaining) && out.written == []
    ensures r.Created? ==> r.saved <= |old(rp.remaining)|
    ensures r.Created? && !rp.fd.failed ==>
      r.saved == Min(contentLength, |old(rp.remaining)|) && rp.remaining == old(rp.remaining)[r.saved..]
    ensures r.Created? && !out.failed ==> out.written == old(rp.remaining)[..r.saved]
    ensures r.Created? ==> (r.saved == |out.written| <==> !out.failed)
  {
    if contentLength < 0 {
      return LengthRequired;
    }
    if !openOk {
      return PutNotOpened;
    }
    ghost var all := rp.remaining;
    var remaining := contentLength;
    ghost var moved: seq<byte> := [];
    while remaining > 0
      invariant 0 <= remaining == contentLength - |moved|
      invariant rp.Valid() && all == moved + rp.remaining && rp.fd.failed == old(rp.fd.failed)
      invariant if out.failed then |out.written| < |moved| else out.written == moved
    {
      var want := if remaining < MAXBUF then remaining else MAXBUF;
      ghost var rest := rp.remaining;
      var n, buf := rp.ReadNB(want);
      if n <= 0 {
        assert n == 0 ==> rest == rp.remaining;
        assert n == 0 ==> rest == [];
        break;
      }
      Regroup(moved, buf, rp.remaining);
      moved := moved + buf;
      var rc, sent := WriteN(out, buf);
      assert buf[..|buf|] == buf;
      remaining := remaining - n;
    }
    assert all[..|moved|] == moved;
    r := Created(contentLength - remaining);
  }

  // ----- POST

  const MAX_UPLOAD := 64 * 1024 * 1024

  datatype PostResult =
    | PostLengthRequired
    | PayloadTooLarge
    | OutOfMemory
    | PostNotOpened(upload: Upload)
    | Saved(upload: Upload)

  predicate Accepts(contentLength: int, mallocOk: bool) {
    0 <= contentLength <= MAX_UPLOAD && mallocOk
  }

  /** The loop of `serve_post` that collects the body. */
  method ReadBody(rp: Reader, contentLength: nat) returns (body: seq<byte>)
    requires rp.Valid()
    modifies rp, rp.buf, rp.fd
    ensures rp.Valid() && (old(rp.fd.failed) ==> rp.fd.failed)
    ensures !rp.fd.failed ==>
      var n := Min(contentLength, |old(rp.remaining)|);
      body == old(rp.remaining)[..n] && rp.remaining == old(rp.remaining)[n..]
  {
    ghost var all := rp.remaining;
    body := [];
    while |body| < contentLength
      invariant |body| <= contentLength
      invariant rp.Valid() && all == body + rp.remaining && rp.fd.failed == old(rp.fd.failed)
    {
      ghost var rest := rp.remaining;
      var n, part := rp.ReadNB(contentLength - |body|);
      if n <= 0 {
        assert n == 0 ==> rest == rp.remaining;
        assert n == 0 ==> rest == [];
        break;
      }
      Regroup(body, part, rp.remaining);
      body := body + part;
    }
    assert all[..|body|] == body;
  }

  /** `serve_post` with its file: the whole body is read first, so what is stored depends only on
      the stream, not on how it arrived. The count it reports is `|upload.content|`, which is the
      file's length exactly when no write failed. */
  method ServePost(rp: Reader, contentLength: int, contentType: seq<byte>, mallocOk: bool, openOk: bool, out: Sink)
    returns (r: PostResult)
    requires rp.Valid() && out.written == [] && !out.failed
    modifies rp, rp.buf, rp.fd, out
    ensures rp.Valid() && (old(rp.fd.failed) ==> rp.fd.failed)
    ensures r.PostLengthRequired? <==> contentLength < 0
    ensures r.PayloadTooLarge? <==> contentLength > MAX_UPLOAD
    ensures r.OutOfMemory? <==> 0 <= contentLength <= MAX_UPLOAD && !mallocOk
    ensures r.PostNotOpened? <==> Accepts(contentLength, mallocOk) && !openOk
    ensures !Accepts(contentLength, mallocOk) ==> rp.remaining == old(rp.remaining)
    ensures !r.Saved? ==> out.written == []
    ensures (r.PostNotOpened? || r.Saved?) && !rp.fd.failed ==>
      var n := Min(contentLength, |old(rp.remaining)|);
      && r.upload == Extract(contentType, old(rp.remaining)[..n])
      && rp.remaining == old(rp.remaining)[n..]
    ensures r.Saved? ==> (out.written == r.upload.content <==> !out.failed) && out.written <= r.upload.content
  {
    if contentLength < 0 {
      return PostLengthRequired;
    }
    if contentLength > MAX_UPLOAD {
      return PayloadTooLarge;
    }
    if !mallocOk {
      return OutOfMemory;
    }
    var body := ReadBody(rp, contentLength);
    var upload := Extract(contentType, body);
    if !openOk {
      return PostNotOpened(upload);
    }
    var rc, sent := WriteN(out, upload.content);
    assert out.written == upload.content[..sent];
    r := Saved(upload);
  }
}
