/**
 The header fields that an upload needs, as the Tiny server takes them from a header line:
 `strncasecmp` on the name, `atol` on a length, and a trimmed copy of a content type. A line is
 the contents of the line buffer; a zero byte in it ends the C string. Numbers are unbounded.
 */
module TinyFields {
  import opened Bytes
  import Sio

  const LENGTH_NAME: seq<byte> := [99, 111, 110, 116, 101, 110, 116, 45, 108, 101, 110, 103, 116, 104, 58] // content-length:
  const TYPE_NAME: seq<byte> := [99, 111, 110, 116, 101, 110, 116, 45, 116, 121, 112, 101, 58]           // content-type:
  const SPACE: byte := 32
  const PLUS: byte := 43
  const MINUS: byte := 45

  datatype Fields = Fields(length: int, contentType: seq<byte>)

  /** What the caller presets. */
  const NoFields := Fields(-1, [])

  function Lower(c: byte): byte {
    if 65 <= c <= 90 then c + 32 else c
  }

  function Lowered(s: seq<byte>): seq<byte> {
    seq(|s|, i requires 0 <= i < |s| => Lower(s[i]))
  }

  predicate Named(line: seq<byte>, name: seq<byte>) {
    |name| <= |line| && Lowered(line[..|name|]) == name
  }

  predicate IsBlank(c: byte) {
    c == SPACE
  }

  predicate IsSpace(c: byte) {
    c == SPACE || 9 <= c <= 13
  }

  predicate IsDigit(c: byte) {
    48 <= c <= 57
  }

  /** Not the end of the line, nor of the string. */
  predicate InValue(c: byte) {
    c !in {0, 10, 13}
  }

  /** How many bytes at the front satisfy `p`. */
  function Span(s: seq<byte>, p: byte -> bool): (k: nat)
    ensures k <= |s|
  {
    if s == [] || !p(s[0]) then 0 else 1 + Span(s[1..], p)
  }

  function Number(s: seq<byte>): int {
    Sio.ParseDigits(s[..Span(s, IsDigit)])
  }

  /** Where the digits may begin: behind white space and one sign. */
  function NumberStart(t: seq<byte>): (b: nat)
    ensures b <= |t|
  {
    var a := Span(t, IsSpace);
    if a < |t| && t[a] in {PLUS, MINUS} then a + 1 else a
  }

  predicate Negative(t: seq<byte>) {
    var a := Span(t, IsSpace);
    a < |t| && t[a] == MINUS
  }

  function Atol(t: seq<byte>): int {
    var n := Number(t[NumberStart(t)..]);
    if Negative(t) then -n else n
  }

  function Value(s: seq<byte>): seq<byte> {
    var t := s[Span(s, IsBlank)..];
    t[..Span(t, InValue)]
  }

  /** What one header line does to the fields. */
  function TakeField(f: Fields, line: seq<byte>): Fields {
    if Named(line, LENGTH_NAME) then f.(length := Atol(line[|LENGTH_NAME|..]))
    else if Named(line, TYPE_NAME) then f.(contentType := Value(line[|TYPE_NAME|..]))
    else f
  }

  // ----- lines as a client writes them

  /** Bytes that C counts as white space, and bytes that end a header value. */
  const WHITE: set<byte> := {9, 10, 11, 12, 13, 32}
  const VALUE_ENDS: set<byte> := {0, 10, 13}

  predicate White(pad: seq<byte>) {
    forall i | 0 <= i < |pad| :: pad[i] in WHITE
  }

  /** The same letter, small or capital; anything else only itself. `k` is not a capital. */
  predicate SameLetter(c: byte, k: byte) {
    c == k || (97 <= k <= 122 && k as int == c as int + 32)
  }

  /** Any spelling of a name in small and capital letters. */
  predicate Spells(written: seq<byte>, name: seq<byte>) {
    |written| == |name| && forall i | 0 <= i < |name| :: SameLetter(written[i], name[i])
  }

  predicate NoCapitals(name: seq<byte>) {
    forall i | 0 <= i < |name| :: !(65 <= name[i] <= 90)
  }

  /** The comparison that ignores case accepts exactly the spellings of a name. */
  lemma SpellsIff(written: seq<byte>, name: seq<byte>)
    requires NoCapitals(name)
    ensures Lowered(written) == name <==> Spells(written, name)
  {
    var low := Lowered(written);
    if Spells(written, name) {
      assert forall i | 0 <= i < |name| :: SameLetter(written[i], name[i]) && low[i] == name[i];
    } else if low == name {
      forall i | 0 <= i < |name| ensures SameLetter(written[i], name[i]) {
        assert low[i] == Lower(written[i]);
      }
    }
  }

  lemma NamedIff(line: seq<byte>, name: seq<byte>)
    requires NoCapitals(name)
    ensures Named(line, name) <==> |name| <= |line| && Spells(line[..|name|], name)
  {
    if |name| <= |line| { SpellsIff(line[..|name|], name); }
  }

  /** The usual spellings are among them: Content-Length and Content-Type. */
  lemma UsualLength()
    ensures NoCapitals(LENGTH_NAME)
    ensures Spells([67, 111, 110, 116, 101, 110, 116, 45, 76, 101, 110, 103, 116, 104, 58], LENGTH_NAME)
  {
  }

  lemma UsualType()
    ensures NoCapitals(TYPE_NAME)
    ensures Spells([67, 111, 110, 116, 101, 110, 116, 45, 84, 121, 112, 101, 58], TYPE_NAME)
  {
  }

  /** `pad` is the white space in front of the value, `rest` what follows it on the line. */
  function Field(written: seq<byte>, pad: seq<byte>, value: seq<byte>, rest: seq<byte>): seq<byte> {
    written + (pad + (value + rest))
  }

  lemma FieldNamed(written: seq<byte>, name: seq<byte>, tail: seq<byte>)
    requires Spells(written, name) && NoCapitals(name)
    ensures Named(written + tail, name) && (written + tail)[|name|..] == tail
  {
    assert (written + tail)[..|name|] == written;
    SpellsIff(written, name);
  }

  lemma NamesDiffer(line: seq<byte>)
    requires Named(line, TYPE_NAME)
    ensures !Named(line, LENGTH_NAME)
  {
    assert Lowered(line[..|TYPE_NAME|])[8] == Lower(line[8]) == 116;
    if |LENGTH_NAME| <= |line| {
      assert Lowered(line[..|LENGTH_NAME|])[8] == Lower(line[8]);
    }
  }

  lemma {:induction false} SpanIs(front: seq<byte>, rest: seq<byte>, p: byte -> bool)
    requires (forall i | 0 <= i < |front| :: p(front[i])) && (rest != [] ==> !p(rest[0]))
    ensures Span(front + rest, p) == |front|
    ensures (front + rest)[..|front|] == front && (front + rest)[|front|..] == rest
  {
    if front == [] {
      assert front + rest == rest;
    } else {
      SpanIs(front[1..], rest, p);
      assert (front + rest)[1..] == front[1..] + rest;
    }
  }

  lemma TextWithSign(v: int, rest: seq<byte>)
    ensures var sign, n := if v < 0 then [MINUS] else [], if v < 0 then -v else v;
      Sio.Text(v) + rest == sign + (Sio.Text(n) + rest)
  {
    if v < 0 {
      Regroup([MINUS], Sio.Text(-v), rest);
    } else {
      assert [] + (Sio.Text(v) + rest) == Sio.Text(v) + rest;
    }
  }

  /** `atol` reads back every number printed in decimal, behind any white space. */
  lemma AtolReads(pad: seq<byte>, v: int, rest: seq<byte>)
    requires White(pad) && (rest != [] ==> !(48 <= rest[0] <= 57))
    ensures Atol(pad + (Sio.Text(v) + rest)) == v
  {
    var sign, n := if v < 0 then [MINUS] else [], if v < 0 then -v else v;
    TextWithSign(v, rest);
    SignedReads(pad, sign, n, rest);
  }

  function Signed(sign: seq<byte>, n: int): int {
    if sign == [MINUS] then -n else n
  }

  lemma NumberInFront(n: nat, rest: seq<byte>)
    requires rest != [] ==> !(48 <= rest[0] <= 57)
    ensures Number(Sio.Text(n) + rest) == n
    ensures 48 <= (Sio.Text(n) + rest)[0] <= 57
  {
    var text := Sio.Text(n);
    Sio.DigitsShape(n);
    assert forall i | 0 <= i < |text| :: IsDigit(text[i]);
    SpanIs(text, rest, IsDigit);
    Sio.DigitsParse(n);
  }

  lemma StartBehind(pad: seq<byte>, sign: seq<byte>, tail: seq<byte>)
    requires White(pad) && sign in {[], [PLUS], [MINUS]} && tail != [] && 48 <= tail[0] <= 57
    ensures var t := pad + (sign + tail);
      NumberStart(t) == |pad| + |sign| && t[NumberStart(t)..] == tail && Negative(t) == (sign == [MINUS])
  {
    assert (sign + tail)[0] == if sign == [] then tail[0] else sign[0];
    SpanIs(pad, sign + tail, IsSpace);
    assert (pad + (sign + tail))[|pad|] == (sign + tail)[0];
    DropBoth(pad, sign, tail);
  }

  /** The same with an explicit sign. */
  lemma SignedReads(pad: seq<byte>, sign: seq<byte>, n: nat, rest: seq<byte>)
    requires White(pad) && (rest != [] ==> !(48 <= rest[0] <= 57)) && (sign in {[], [PLUS], [MINUS]})
    ensures Atol(pad + (sign + (Sio.Text(n) + rest))) == Signed(sign, n)
  {
    NumberInFront(n, rest);
    StartBehind(pad, sign, Sio.Text(n) + rest);
  }

  lemma DropBoth(a: seq<byte>, b: seq<byte>, c: seq<byte>)
    ensures (a + (b + c))[|a| + |b|..] == c
  {
  }

  /** A text without digits where a number should be counts as zero. */
  lemma NoNumberIsZero(pad: seq<byte>, rest: seq<byte>)
    requires White(pad)
    requires rest != [] ==> rest[0] !in WHITE && rest[0] != PLUS && rest[0] != MINUS && !(48 <= rest[0] <= 57)
    ensures Atol(pad + rest) == 0
  {
    SpanIs(pad, rest, IsSpace);
    assert NumberStart(pad + rest) == |pad|;
    assert rest[..0] == [];
  }

  lemma TakeLength(f: Fields, written: seq<byte>, tail: seq<byte>, n: int)
    requires Spells(written, LENGTH_NAME) && Atol(tail) == n
    ensures TakeField(f, written + tail) == f.(length := n)
  {
    UsualLength();
    FieldNamed(written, LENGTH_NAME, tail);
  }

  lemma TakeType(f: Fields, written: seq<byte>, tail: seq<byte>, v: seq<byte>)
    requires Spells(written, TYPE_NAME) && Value(tail) == v
    ensures TakeField(f, written + tail) == f.(contentType := v)
  {
    UsualType();
    FieldNamed(written, TYPE_NAME, tail);
    NamesDiffer(written + tail);
  }

  /** A Content-Length line sets the length to the number written in it, and nothing else. */
  lemma LengthFieldRead(f: Fields, written: seq<byte>, pad: seq<byte>, n: int, rest: seq<byte>)
    requires Spells(written, LENGTH_NAME)
    requires White(pad) && (rest != [] ==> !(48 <= rest[0] <= 57))
    ensures TakeField(f, Field(written, pad, Sio.Text(n), rest)) == f.(length := n)
  {
    AtolReads(pad, n, rest);
    TakeLength(f, written, pad + (Sio.Text(n) + rest), n);
  }

  /** A Content-Type line sets the type to the value written in it, and nothing else. */
  lemma TypeFieldRead(f: Fields, written: seq<byte>, pad: seq<byte>, value: seq<byte>, rest: seq<byte>)
    requires Spells(written, TYPE_NAME) && (forall i | 0 <= i < |pad| :: pad[i] == SPACE)
    requires value != [] && value[0] != SPACE && forall i | 0 <= i < |value| :: value[i] !in VALUE_ENDS
    requires rest != [] ==> rest[0] in VALUE_ENDS
    ensures TakeField(f, Field(written, pad, value, rest)) == f.(contentType := value)
  {
    assert (value + rest)[0] == value[0];
    SpanIs(pad, value + rest, IsBlank);
    SpanIs(value, rest, InValue);
    TakeType(f, written, pad + (value + rest), value);
  }

  // ----- lines taken one after the other

  function TakeFields(lines: seq<seq<byte>>, f: Fields): Fields {
    if lines == [] then f else TakeFields(lines[1..], TakeField(f, lines[0]))
  }

  /** The last line with the name, or -1. */
  function LastWith(lines: seq<seq<byte>>, name: seq<byte>): (k: int)
    ensures -1 <= k < |lines|
    ensures k >= 0 ==> Named(lines[k], name)
    ensures forall i | k < i < |lines| :: !Named(lines[i], name)
  {
    if lines == [] then -1
    else
      var k := LastWith(lines[1..], name);
      if k >= 0 then k + 1 else if Named(lines[0], name) then 0 else -1
  }

  /** What `read` gives for the last line with the name; `before` without one. */
  function After<T>(lines: seq<seq<byte>>, name: seq<byte>, read: seq<byte> -> T, before: T): T {
    var k := LastWith(lines, name);
    if k < 0 then before else read(lines[k][|name|..])
  }

  function From<T>(line: seq<byte>, name: seq<byte>, read: seq<byte> -> T, before: T): T {
    if Named(line, name) then read(line[|name|..]) else before
  }

  lemma AfterFirst<T>(lines: seq<seq<byte>>, name: seq<byte>, read: seq<byte> -> T, before: T)
    requires lines != []
    ensures After(lines, name, read, before) ==
      After(lines[1..], name, read, From(lines[0], name, read, before))
  {
    var k := LastWith(lines[1..], name);
    assert k >= 0 ==> lines[k + 1] == lines[1..][k];
  }

  /** What one line, and what many lines, do to each field. */
  function LengthFrom(line: seq<byte>, before: int): int {
    From(line, LENGTH_NAME, Atol, before)
  }

  function TypeFrom(line: seq<byte>, before: seq<byte>): seq<byte> {
    From(line, TYPE_NAME, Value, before)
  }

  function LengthAfter(lines: seq<seq<byte>>, before: int): int {
    After(lines, LENGTH_NAME, Atol, before)
  }

  function TypeAfter(lines: seq<seq<byte>>, before: seq<byte>): seq<byte> {
    After(lines, TYPE_NAME, Value, before)
  }

  lemma FieldTaken(f: Fields, line: seq<byte>)
    ensures TakeField(f, line) == Fields(LengthFrom(line, f.length), TypeFrom(line, f.contentType))
  {
    if Named(line, TYPE_NAME) { NamesDiffer(line); }
  }

  /** The last line with a name decides its field; without one the field stays. */
  lemma {:induction false} FieldsDecided(lines: seq<seq<byte>>, f: Fields)
    ensures TakeFields(lines, f) == Fields(LengthAfter(lines, f.length), TypeAfter(lines, f.contentType))
    decreases |lines|
  {
    if lines != [] {
      FieldTaken(f, lines[0]);
      FieldsDecided(lines[1..], TakeField(f, lines[0]));
      AfterFirst(lines, LENGTH_NAME, Atol, f.length);
      AfterFirst(lines, TYPE_NAME, Value, f.contentType);
    }
  }

  lemma {:induction false} FieldsSplit(a: seq<seq<byte>>, b: seq<seq<byte>>, f: Fields)
    ensures TakeFields(a + b, f) == TakeFields(b, TakeFields(a, f))
    decreases |a|
  {
    if a == [] {
      assert a + b == b;
    } else {
      assert (a + b)[1..] == a[1..] + b;
      FieldsSplit(a[1..], b, TakeField(f, a[0]));
    }
  }

  // ----- values that meet the end of the buffer

  /** Where the number that `atol` reads ends. */
  function NumberEnd(t: seq<byte>): (e: nat)
    ensures e <= |t|
  {
    NumberStart(t) + Span(t[NumberStart(t)..], IsDigit)
  }

  function ValueEnd(t: seq<byte>): (e: nat)
    ensures e <= |t|
  {
    var a := Span(t, IsBlank);
    a + Span(t[a..], InValue)
  }

  lemma {:induction false} SpanCut(s: seq<byte>, c: nat, p: byte -> bool)
    requires c <= |s|
    ensures Span(s[..c], p) == Min(c, Span(s, p))
  {
    if c > 0 && p(s[0]) {
      SpanCut(s[1..], c - 1, p);
      assert s[..c][1..] == s[1..][..c - 1];
    }
  }

  lemma {:induction false} SpanHolds(s: seq<byte>, p: byte -> bool, i: nat)
    requires i < Span(s, p)
    ensures p(s[i])
  {
    if i > 0 {
      SpanHolds(s[1..], p, i - 1);
    }
  }

  /** Dropping digits at the end of a number changes it, unless it is zero. */
  lemma {:induction false} FewerDigits(x: seq<byte>, q: nat)
    requires q < |x| && forall i | 0 <= i < |x| :: IsDigit(x[i])
    ensures 0 <= Sio.ParseDigits(x[..q]) <= Sio.ParseDigits(x)
    ensures Sio.ParseDigits(x[..q]) == Sio.ParseDigits(x) <==> Sio.ParseDigits(x) == 0
    decreases |x|
  {
    var y := x[..|x| - 1];
    if q < |y| {
      FewerDigits(y, q);
      assert y[..q] == x[..q];
    } else {
      assert x[..q] == y;
      DigitsNonNegative(y);
    }
  }

  lemma {:induction false} DigitsNonNegative(x: seq<byte>)
    requires forall i | 0 <= i < |x| :: IsDigit(x[i])
    ensures Sio.ParseDigits(x) >= 0
    decreases |x|
  {
    if x != [] { DigitsNonNegative(x[..|x| - 1]); }
  }

  lemma NumberCutIff(t: seq<byte>, c: nat)
    requires c <= |t|
    ensures Number(t[..c]) == Number(t) <==> Span(t, IsDigit) <= c || Number(t) == 0
  {
    var e := Span(t, IsDigit);
    SpanCut(t, c, IsDigit);
    if e <= c {
      assert t[..c][..e] == t[..e];
    } else {
      var x := t[..e];
      forall i | 0 <= i < |x| ensures IsDigit(x[i]) { SpanHolds(t, IsDigit, i); }
      FewerDigits(x, c);
      assert x[..c] == t[..c] && t[..c][..c] == t[..c];
    }
  }

  /** `atol` reads the same number from the front of a text if and only if the number ends there,
      or is zero. */
  lemma AtolCutIff(t: seq<byte>, c: nat)
    requires c <= |t|
    ensures Atol(t[..c]) == Atol(t) <==> NumberEnd(t) <= c || Atol(t) == 0
  {
    if c <= Span(t, IsSpace) {
      CutInSpaces(t, c);
    } else {
      CutBehindStart(t, c);
      NumberCutIff(t[NumberStart(t)..], c - NumberStart(t));
    }
  }

  lemma CutInSpaces(t: seq<byte>, c: nat)
    requires c <= |t| && c <= Span(t, IsSpace)
    ensures Atol(t[..c]) == 0
    ensures NumberEnd(t) <= c ==> Atol(t) == 0
  {
    SpanCut(t, c, IsSpace);
    assert NumberStart(t[..c]) == c;
    assert t[..c][c..] == [];
    assert Number([]) == 0;
  }

  lemma CutBehindStart(t: seq<byte>, c: nat)
    requires Span(t, IsSpace) < c <= |t|
    ensures NumberStart(t[..c]) == NumberStart(t) <= c
    ensures Negative(t[..c]) == Negative(t)
    ensures t[..c][NumberStart(t)..] == t[NumberStart(t)..][..c - NumberStart(t)]
  {
    SpanCut(t, c, IsSpace);
    CutBehind(t, NumberStart(t), c);
  }

  lemma CutBehind(t: seq<byte>, a: nat, c: nat)
    requires a <= c <= |t|
    ensures t[..c][a..] == t[a..][..c - a]
  {
  }

  /** The same for a content type: its value is complete, or empty. */
  lemma ValueCutIff(t: seq<byte>, c: nat)
    requires c <= |t|
    ensures Value(t[..c]) == Value(t) <==> ValueEnd(t) <= c || Value(t) == []
  {
    var a := Span(t, IsBlank);
    SpanCut(t, c, IsBlank);
    if c <= a {
      assert Value(t[..c]) == [];
    } else {
      CutBehind(t, a, c);
      var v := t[a..];
      SpanCut(v, c - a, InValue);
      var e := Span(v, InValue);
      assert e <= c - a ==> v[..c - a][..e] == v[..e];
    }
  }
}
