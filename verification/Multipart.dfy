/**
 The multipart branch of the Tiny server's POST: finding the first part's file name and content
 in a body that is already in memory, and the printer it undoes: the body format of section
 5.1.1 of RFC 2046, with a preamble, transport padding, any headers and anything after the
 second delimiter.
 */
module Multipart {
  import opened Bytes

  const CR: byte := 13
  const LF: byte := 10
  const QUOTE: byte := 34
  const CRLF: seq<byte> := [13, 10]
  const BLANK: seq<byte> := [13, 10, 13, 10]
  const DASHES: seq<byte> := [45, 45]
  const BOUNDARY: seq<byte> := [98, 111, 117, 110, 100, 97, 114, 121, 61]          // boundary=
  const FILENAME: seq<byte> := [102, 105, 108, 101, 110, 97, 109, 101, 61, 34]     // filename="
  const MAXLINE := 8192

  // ----- searching

  predicate OccursAt(h: seq<byte>, needle: seq<byte>, j: int) {
    0 <= j && j + |needle| <= |h| && h[j..j + |needle|] == needle
  }

  ghost predicate Contains(h: seq<byte>, needle: seq<byte>) {
    exists j :: OccursAt(h, needle, j)
  }

  /** First occurrence at or after `from`, or -1: `memmem`, `strstr`, `memchr`. */
  function FindFrom(h: seq<byte>, needle: seq<byte>, from: nat): (r: int)
    requires from <= |h|
    ensures r == -1 || (from <= r && OccursAt(h, needle, r))
    ensures forall j | from <= j && (r == -1 || j < r) :: !OccursAt(h, needle, j)
    decreases |h| - from
  {
    if OccursAt(h, needle, from) then from
    else if from == |h| then -1
    else FindFrom(h, needle, from + 1)
  }

  function Find(h: seq<byte>, needle: seq<byte>): (r: int)
    ensures r == -1 <==> !Contains(h, needle)
    ensures r != -1 ==> OccursAt(h, needle, r)
    ensures forall j | 0 <= j < r :: !OccursAt(h, needle, j)
  {
    FindFrom(h, needle, 0)
  }

  // ----- extraction

  datatype Upload = Upload(filename: seq<byte>, content: seq<byte>)

  /** The text up to the next quote; empty if there is none or it does not fit. */
  function UpToQuote(tail: seq<byte>): seq<byte> {
    var e := Find(tail, [QUOTE]);
    if 0 <= e < MAXLINE then tail[..e] else []
  }

  /** The file name in a part's header text, or empty. */
  function FilenameIn(hdr: seq<byte>): seq<byte> {
    var f := Find(hdr, FILENAME);
    if f < 0 then [] else UpToQuote(hdr[f + |FILENAME|..])
  }

  /** From behind the first delimiter: headers to the blank line, content to the separator. A
      body without that structure is taken whole. */
  function FromPart(body: seq<byte>, part: seq<byte>, delimiter: seq<byte>): Upload {
    var h := Find(part, BLANK);
    if h < 0 then Upload([], body)
    else
      var text := part[h + |BLANK|..];
      var c := Find(text, CRLF + delimiter);
      Upload(FilenameIn(part[..h]), if c < 0 then body else text[..c])
  }

  function FromBody(body: seq<byte>, delimiter: seq<byte>): Upload {
    var p := Find(body, delimiter);
    if p < 0 then Upload([], body) else FromPart(body, body[p + |delimiter|..], delimiter)
  }

  /** The slicing of `serve_post`, on the content type and the body received. */
  function Extract(contentType: seq<byte>, body: seq<byte>): Upload {
    var b := Find(contentType, BOUNDARY);
    if b < 0 then Upload([], body)
    else FromBody(body, DASHES + contentType[b + |BOUNDARY|..])
  }

  // ----- when a part is found

  /** What follows the first occurrence. */
  function Behind(h: seq<byte>, needle: seq<byte>): seq<byte>
    requires Find(h, needle) >= 0
  {
    h[Find(h, needle) + |needle|..]
  }

  /** The type names a boundary; in the body a delimiter, behind it a blank line, and behind that
      the separator follow each other. */
  ghost predicate HasPart(contentType: seq<byte>, body: seq<byte>) {
    Contains(contentType, BOUNDARY) &&
    var d := DASHES + Behind(contentType, BOUNDARY);
    Contains(body, d) && Contains(Behind(body, d), BLANK) &&
    Contains(Behind(Behind(body, d), BLANK), CRLF + d)
  }

  lemma PartWholeIff(body: seq<byte>, part: seq<byte>, d: seq<byte>)
    requires |part| < |body|
    ensures FromPart(body, part, d).content == body <==>
      !(Contains(part, BLANK) && Contains(Behind(part, BLANK), CRLF + d))
    ensures !Contains(part, BLANK) ==> FromPart(body, part, d) == Upload([], body)
    ensures Contains(part, BLANK) && !Contains(part[..Find(part, BLANK)], FILENAME) ==>
      FromPart(body, part, d).filename == []
  {
  }

  lemma BodyWholeIff(body: seq<byte>, d: seq<byte>)
    requires d != []
    ensures FromBody(body, d).content == body <==>
      !(Contains(body, d) && Contains(Behind(body, d), BLANK) && Contains(Behind(Behind(body, d), BLANK), CRLF + d))
    ensures !Contains(body, d) || !Contains(Behind(body, d), BLANK) ==> FromBody(body, d) == Upload([], body)
    ensures Contains(body, d) && Contains(Behind(body, d), BLANK) ==>
      var part := Behind(body, d);
      !Contains(part[..Find(part, BLANK)], FILENAME) ==> FromBody(body, d).filename == []
  {
    if Contains(body, d) {
      PartWholeIff(body, Behind(body, d), d);
    }
  }

  /** The whole body is the upload if and only if it has no such part. */
  lemma WholeBodyIff(contentType: seq<byte>, body: seq<byte>)
    ensures Extract(contentType, body).content == body <==> !HasPart(contentType, body)
  {
    if Contains(contentType, BOUNDARY) {
      BodyWholeIff(body, DASHES + Behind(contentType, BOUNDARY));
    }
  }

  /** Without a boundary in the type, a delimiter, or a blank line behind it, there is no name; nor
      is there one where the part's headers do not give any. */
  lemma NoPartNoName(contentType: seq<byte>, body: seq<byte>)
    ensures !Contains(contentType, BOUNDARY) ==> Extract(contentType, body) == Upload([], body)
    ensures Contains(contentType, BOUNDARY) ==>
      var d := DASHES + Behind(contentType, BOUNDARY);
      && (!Contains(body, d) || !Contains(Behind(body, d), BLANK) ==>
            Extract(contentType, body) == Upload([], body))
      && (Contains(body, d) && Contains(Behind(body, d), BLANK) ==>
            var part := Behind(body, d);
            !Contains(part[..Find(part, BLANK)], FILENAME) ==> Extract(contentType, body).filename == [])
  {
    if Contains(contentType, BOUNDARY) {
      BodyWholeIff(body, DASHES + Behind(contentType, BOUNDARY));
    }
  }

  // ----- the format

  /** The header lines of a part, each after a line break. */
  function HeaderText(headers: seq<seq<byte>>): seq<byte> {
    if headers == [] then [] else CRLF + headers[0] + HeaderText(headers[1..])
  }

  /** A body whose first part has the given headers and content. */
  function Body(preamble: seq<byte>, boundary: seq<byte>, padding: seq<byte>,
                headers: seq<seq<byte>>, content: seq<byte>, rest: seq<byte>): seq<byte> {
    preamble + (DASHES + boundary) +
    (padding + HeaderText(headers) + BLANK + (content + (CRLF + DASHES + boundary) + rest))
  }

  /** No line break in a boundary or padding; header lines are not empty; a preamble is closed
      by a line break and has no delimiter in it. */
  ghost predicate WellFormed(preamble: seq<byte>, boundary: seq<byte>, padding: seq<byte>,
                             headers: seq<seq<byte>>) {
    && CR !in boundary && LF !in boundary && CR !in padding
    && (forall i | 0 <= i < |headers| :: headers[i] != [] && CR !in headers[i])
    && (preamble != [] ==> preamble[|preamble| - 1] == LF)
    && !Contains(preamble, DASHES + boundary)
  }

  // ----- first occurrences

  /** An occurrence lying inside the first part of a concatenation. */
  lemma OccursInFront(pre: seq<byte>, post: seq<byte>, needle: seq<byte>, j: int)
    requires j + |needle| <= |pre|
    ensures OccursAt(pre + post, needle, j) <==> OccursAt(pre, needle, j)
  {
    if 0 <= j {
      assert (pre + post)[j..j + |needle|] == pre[j..j + |needle|];
    }
  }

  lemma OccursInMiddle(pre: seq<byte>, needle: seq<byte>, post: seq<byte>)
    ensures OccursAt(pre + needle + post, needle, |pre|)
  {
    assert (pre + needle + post)[|pre|..|pre| + |needle|] == needle;
  }

  /** One byte that differs rules an occurrence out. */
  lemma Mismatch(h: seq<byte>, needle: seq<byte>, j: nat, t: nat)
    requires t < |needle| && j + t < |h| && h[j + t] != needle[t]
    ensures !OccursAt(h, needle, j)
  {
    if j + |needle| <= |h| {
      assert h[j..j + |needle|][t] == h[j + t];
    }
  }

  /** The first byte of the needle does not come back inside it. */
  ghost predicate Headed(needle: seq<byte>) {
    needle != [] && forall t | 0 < t < |needle| :: needle[t] != needle[0]
  }

  /** Such a needle cannot straddle the end of what precedes it, so it is found at its place
      exactly when it does not occur before. */
  lemma HeadedFoundIff(pre: seq<byte>, needle: seq<byte>, post: seq<byte>)
    requires Headed(needle)
    ensures Find(pre + needle + post, needle) == |pre| <==> !Contains(pre, needle)
    ensures 0 <= Find(pre + needle + post, needle) <= |pre|
  {
    var h := pre + needle + post;
    OccursInMiddle(pre, needle, post);
    forall j | 0 <= j < |pre| && j + |needle| > |pre| ensures !OccursAt(h, needle, j) {
      assert h[|pre|] == needle[0];
      Mismatch(h, needle, j, |pre| - j);
    }
    FoundUnlessBefore(pre, needle, post);
  }

  /** With no straddling occurrence, only the text before the needle matters. */
  lemma FoundUnlessBefore(pre: seq<byte>, needle: seq<byte>, post: seq<byte>)
    requires needle != []
    requires forall j | 0 <= j < |pre| && j + |needle| > |pre| ::
      !OccursAt(pre + needle + post, needle, j)
    ensures Find(pre + needle + post, needle) == |pre| <==> !Contains(pre, needle)
    ensures 0 <= Find(pre + needle + post, needle) <= |pre|
  {
    var h := pre + needle + post;
    OccursInMiddle(pre, needle, post);
    var r := Find(h, needle);
    assert 0 <= r <= |pre|;
    assert h == pre + (needle + post);
    forall j | j + |needle| <= |pre| ensures OccursAt(h, needle, j) <==> OccursAt(pre, needle, j) {
      OccursInFront(pre, needle + post, needle, j);
    }
  }

  /** A needle cannot straddle a byte it does not have. */
  lemma FoundAfterBreak(pre: seq<byte>, needle: seq<byte>, post: seq<byte>)
    requires needle != [] && !Contains(pre, needle)
    requires pre != [] ==> pre[|pre| - 1] !in needle
    ensures Find(pre + needle + post, needle) == |pre|
  {
    var h := pre + needle + post;
    forall j | 0 <= j < |pre| && j + |needle| > |pre| ensures !OccursAt(h, needle, j) {
      assert h[|pre| - 1] == pre[|pre| - 1];
      assert needle[|pre| - 1 - j] in needle;
      Mismatch(h, needle, j, |pre| - 1 - j);
    }
    FoundUnlessBefore(pre, needle, post);
  }

  /** No blank line starts inside text without carriage returns. */
  lemma NoBlankIn(text: seq<byte>, rest: seq<byte>, j: int)
    requires CR !in text && 0 <= j < |text|
    ensures !OccursAt(text + rest, BLANK, j)
  {
    assert text[j] in text;
    Mismatch(text + rest, BLANK, j, 0);
  }

  lemma OccursShift(pre: seq<byte>, post: seq<byte>, needle: seq<byte>, j: int)
    requires j >= |pre|
    ensures OccursAt(pre + post, needle, j) <==> OccursAt(post, needle, j - |pre|)
  {
    if j + |needle| <= |pre + post| {
      assert (pre + post)[j..j + |needle|] == post[j - |pre|..j - |pre| + |needle|];
    }
  }

  /** No blank line starts inside the header lines. */
  lemma {:induction false} NoBlankInHeaders(headers: seq<seq<byte>>, rest: seq<byte>, j: int)
    requires forall i | 0 <= i < |headers| :: headers[i] != [] && CR !in headers[i]
    requires 0 <= j < |HeaderText(headers)|
    ensures !OccursAt(HeaderText(headers) + rest, BLANK, j)
    decreases |headers|
  {
    var h := headers[0];
    var more := HeaderText(headers[1..]);
    var all := HeaderText(headers) + rest;
    assert all == CRLF + (h + (more + rest));
    if j == 0 {
      assert all[2] == h[0] && h[0] in h;
      Mismatch(all, BLANK, 0, 2);
    } else if j == 1 {
      Mismatch(all, BLANK, 1, 0);
    } else {
      OccursShift(CRLF, h + (more + rest), BLANK, j);
      if j - 2 < |h| {
        NoBlankIn(h, more + rest, j - 2);
      } else {
        OccursShift(h, more + rest, BLANK, j - 2);
        NoBlankInHeaders(headers[1..], rest, j - 2 - |h|);
      }
    }
  }

  lemma NoBlankBefore(padding: seq<byte>, headers: seq<seq<byte>>, rest: seq<byte>, j: int)
    requires CR !in padding
    requires forall i | 0 <= i < |headers| :: headers[i] != [] && CR !in headers[i]
    requires 0 <= j < |padding| + |HeaderText(headers)|
    ensures !OccursAt(padding + (HeaderText(headers) + rest), BLANK, j)
  {
    var after := HeaderText(headers) + rest;
    if j < |padding| {
      NoBlankIn(padding, after, j);
    } else {
      OccursShift(padding, after, BLANK, j);
      NoBlankInHeaders(headers, rest, j - |padding|);
    }
  }

  /** The part's headers end at the blank line after them. */
  lemma BlankFound(padding: seq<byte>, headers: seq<seq<byte>>, text: seq<byte>)
    requires CR !in padding
    requires forall i | 0 <= i < |headers| :: headers[i] != [] && CR !in headers[i]
    ensures var hdr := padding + HeaderText(headers);
      Find(hdr + BLANK + text, BLANK) == |hdr|
  {
    var hdr := padding + HeaderText(headers);
    var all := hdr + BLANK + text;
    OccursInMiddle(hdr, BLANK, text);
    Regroup(hdr, BLANK, text);
    Regroup(padding, HeaderText(headers), BLANK + text);
    forall j | 0 <= j < |hdr| ensures !OccursAt(all, BLANK, j) {
      NoBlankBefore(padding, headers, BLANK + text, j);
    }
  }

  lemma BoundaryFound(typePrefix: seq<byte>, boundary: seq<byte>, body: seq<byte>)
    requires !Contains(typePrefix, BOUNDARY)
    ensures Extract(typePrefix + BOUNDARY + boundary, body) == FromBody(body, DASHES + boundary)
  {
    HeadedFoundIff(typePrefix, BOUNDARY, boundary);
    assert (typePrefix + BOUNDARY + boundary)[|typePrefix| + |BOUNDARY|..] == boundary;
  }

  lemma DelimiterFound(preamble: seq<byte>, delimiter: seq<byte>, part: seq<byte>)
    requires delimiter != [] && LF !in delimiter && !Contains(preamble, delimiter)
    requires preamble != [] ==> preamble[|preamble| - 1] == LF
    ensures var body := preamble + delimiter + part;
      FromBody(body, delimiter) == FromPart(body, part, delimiter)
  {
    FoundAfterBreak(preamble, delimiter, part);
    assert (preamble + delimiter + part)[|preamble| + |delimiter|..] == part;
  }

  lemma PartSplit(body: seq<byte>, hdr: seq<byte>, text: seq<byte>, delimiter: seq<byte>)
    requires Find(hdr + BLANK + text, BLANK) == |hdr|
    requires 0 <= Find(text, CRLF + delimiter) <= |text|
    ensures FromPart(body, hdr + BLANK + text, delimiter) ==
      Upload(FilenameIn(hdr), text[..Find(text, CRLF + delimiter)])
  {
    var part := hdr + BLANK + text;
    assert part[..|hdr|] == hdr && part[|hdr| + |BLANK|..] == text;
  }

  /** The content comes back exactly when it does not contain the separator; otherwise it comes
      back cut short. Nothing else in the body matters. */
  lemma ContentRoundTripIff(
    typePrefix: seq<byte>, preamble: seq<byte>, boundary: seq<byte>, padding: seq<byte>,
    headers: seq<seq<byte>>, content: seq<byte>, rest: seq<byte>)
    requires !Contains(typePrefix, BOUNDARY)
    requires WellFormed(preamble, boundary, padding, headers)
    ensures var u := Extract(typePrefix + BOUNDARY + boundary,
                             Body(preamble, boundary, padding, headers, content, rest));
      && u.filename == FilenameIn(padding + HeaderText(headers))
      && u.content <= content
      && (u.content == content <==> !Contains(content, CRLF + DASHES + boundary))
  {
    var text := content + (CRLF + DASHES + boundary) + rest;
    var hdr := padding + HeaderText(headers);
    var body := Body(preamble, boundary, padding, headers, content, rest);
    BoundaryFound(typePrefix, boundary, body);
    DelimiterFound(preamble, DASHES + boundary, hdr + BLANK + text);
    BlankFound(padding, headers, text);
    PartRoundTrip(body, hdr, content, boundary, rest);
  }

  lemma PartRoundTrip(body: seq<byte>, hdr: seq<byte>, content: seq<byte>, boundary: seq<byte>, rest: seq<byte>)
    requires CR !in boundary
    requires var text := content + (CRLF + DASHES + boundary) + rest;
      Find(hdr + BLANK + text, BLANK) == |hdr|
    ensures var text := content + (CRLF + DASHES + boundary) + rest;
      var u := FromPart(body, hdr + BLANK + text, DASHES + boundary);
      && u.filename == FilenameIn(hdr)
      && u.content <= content
      && (u.content == content <==> !Contains(content, CRLF + DASHES + boundary))
  {
    var separator := CRLF + DASHES + boundary;
    var text := content + separator + rest;
    SeparatorHeaded(boundary);
    HeadedFoundIff(content, separator, rest);
    assert CRLF + (DASHES + boundary) == separator;
    PartSplit(body, hdr, text, DASHES + boundary);
    var c := Find(text, separator);
    assert text[..c] == content[..c];
  }

  lemma SeparatorHeaded(boundary: seq<byte>)
    requires CR !in boundary
    ensures Headed(CRLF + DASHES + boundary)
  {
    var separator := CRLF + DASHES + boundary;
    forall t | 0 < t < |separator| ensures separator[t] != CR {
      if t >= 4 { assert separator[t] == boundary[t - 4]; }
    }
  }

  // ----- the file name

  lemma FindStable(pre: seq<byte>, post: seq<byte>, needle: seq<byte>)
    requires Contains(pre, needle)
    ensures Find(pre + post, needle) == Find(pre, needle)
  {
    var r := Find(pre, needle);
    forall j | 0 <= j <= r ensures OccursAt(pre + post, needle, j) <==> OccursAt(pre, needle, j) {
      OccursInFront(pre, post, needle, j);
    }
  }

  /** A name is read back if no earlier header text looks like a file name; one that does not
      fit the buffer reads as empty. */
  lemma FilenameRead(before: seq<byte>, name: seq<byte>, after: seq<byte>)
    requires !Contains(before, FILENAME) && QUOTE !in name
    ensures FilenameIn(before + FILENAME + (name + [QUOTE] + after)) ==
      if |name| < MAXLINE then name else []
  {
    var tail := name + [QUOTE] + after;
    var hdr := before + FILENAME + tail;
    HeadedFoundIff(before, FILENAME, tail);
    assert hdr[|before| + |FILENAME|..] == tail;
    assert !Contains(name, [QUOTE]) by {
      forall j ensures !OccursAt(name, [QUOTE], j) {
        if 0 <= j < |name| {
          assert name[j] in name;
          Mismatch(name, [QUOTE], j, 0);
        }
      }
    }
    HeadedFoundIff(name, [QUOTE], after);
    assert tail[..|name|] == name;
  }

  lemma TailRegroup(a: seq<byte>, b: seq<byte>, c: seq<byte>, k: nat)
    requires k <= |a|
    ensures a + b + c == a + (b + c)
    ensures (a + b + c)[k..] == (a[k..] + b) + c
  {
  }

  /** If the text before contains `filename="` already, what follows has no influence. */
  lemma EarlierFilenameWins(before: seq<byte>, x: seq<byte>)
    requires Contains(before, FILENAME)
    ensures var r := Find(before, FILENAME);
      FilenameIn(before + FILENAME + x) == UpToQuote(before[r + |FILENAME|..] + FILENAME)
  {
    var r := Find(before, FILENAME);
    var front := before[r + |FILENAME|..] + FILENAME;
    TailRegroup(before, FILENAME, x, r + |FILENAME|);
    FindStable(before, FILENAME + x, FILENAME);
    assert OccursAt(front, [QUOTE], |front| - 1);
    QuoteStable(front, x);
  }

  lemma QuoteStable(front: seq<byte>, x: seq<byte>)
    requires Contains(front, [QUOTE])
    ensures UpToQuote(front + x) == UpToQuote(front)
  {
    FindStable(front, x, [QUOTE]);
    var e := Find(front, [QUOTE]);
    assert (front + x)[..e] == front[..e];
  }

  /** Every name is read back from its place if and only if nothing before that place looks
      like the start of a file name. */
  lemma FilenameRoundTripIff(before: seq<byte>, after: seq<byte>)
    ensures !Contains(before, FILENAME) <==>
      forall name: seq<byte> | QUOTE !in name && |name| < MAXLINE ::
        FilenameIn(before + FILENAME + (name + [QUOTE] + after)) == name
  {
    if !Contains(before, FILENAME) {
      forall name: seq<byte> | QUOTE !in name && |name| < MAXLINE
        ensures FilenameIn(before + FILENAME + (name + [QUOTE] + after)) == name
      {
        FilenameRead(before, name, after);
      }
    } else {
      var a: seq<byte>, b: seq<byte> := [], [65];
      EarlierFilenameWins(before, a + [QUOTE] + after);
      EarlierFilenameWins(before, b + [QUOTE] + after);
      assert a != b && QUOTE !in a && QUOTE !in b;
      assert FilenameIn(before + FILENAME + (a + [QUOTE] + after)) ==
             FilenameIn(before + FILENAME + (b + [QUOTE] + after));
    }
  }

  const FILE_PARAMETER: seq<byte> := [59, 32, 102, 105, 108, 101, 110, 97, 109, 101, 61]  // ; filename=

  /** A form field whose own name ends in `filename=` hides the file's name: whatever the file
      is called, the text between the two quotes is taken for it. */
  lemma FieldNameHidesFile(before: seq<byte>, name: seq<byte>, after: seq<byte>)
    requires !Contains(before, FILENAME)
    ensures FilenameIn(before + FILENAME + (FILE_PARAMETER + [QUOTE] + (name + [QUOTE] + after)))
            == FILE_PARAMETER
  {
    FilenameRead(before, FILE_PARAMETER, name + [QUOTE] + after);
  }
}
