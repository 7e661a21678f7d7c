/**
 Signal-safe decimal printing: digits written least significant first, then reversed in place.
 */
module Sio {
  import opened Bytes

  const LONG_MAX := 0x7fff_ffff_ffff_ffff
  const MINUS: byte := 45
  const ZERO: byte := 48

  /** The same bytes from the last to the first. */
  function Reversed(s: seq<byte>): seq<byte> {
    seq(|s|, k requires 0 <= k < |s| => s[|s| - 1 - k])
  }

  lemma ReversedCons(c: byte, s: seq<byte>)
    ensures Reversed([c] + s) == Reversed(s) + [c]
  {
  }

  lemma ReversedSnoc(s: seq<byte>, c: byte)
    ensures Reversed(s + [c]) == [c] + Reversed(s)
  {
  }

  /** `sio_reverse`, which needs a non-empty text: its upper index starts at `len - 1`. */
  method SioReverse(s: array<byte>, len: nat)
    requires 1 <= len <= s.Length
    modifies s
    ensures s[..len] == Reversed(old(s[..len]))
    ensures s[len..] == old(s[len..])
  {
    ghost var was := s[..];
    var i, j := 0, len - 1;
    while i < j
      invariant 0 <= i && i + j == len - 1
      invariant forall k | 0 <= k < i :: s[k] == was[len - 1 - k] && s[len - 1 - k] == was[k]
      invariant forall k | i <= k <= j :: s[k] == was[k]
      invariant forall k | len <= k < s.Length :: s[k] == was[k]
    {
      s[i], s[j] := s[j], s[i];
      i, j := i + 1, j - 1;
    }
    ghost var target := Reversed(was[..len]);
    forall k | 0 <= k < len ensures s[k] == target[k] {
      assert was[..len][len - 1 - k] == was[len - 1 - k];
    }
    assert s[..len] == target;
  }

  function Digit(n: nat): byte
    requires n < 10
  {
    ZERO + n as byte
  }

  /** Decimal digits, least significant first. */
  function DigitsUp(n: nat): seq<byte> {
    [Digit(n % 10)] + if n / 10 > 0 then DigitsUp(n / 10) else []
  }

  /** The text of `v`. */
  function Text(v: int): seq<byte> {
    if v < 0 then [MINUS] + Reversed(DigitsUp(-v)) else Reversed(DigitsUp(v))
  }

  function ParseDigits(t: seq<byte>): int {
    if t == [] then 0 else 10 * ParseDigits(t[..|t| - 1]) + (t[|t| - 1] as int - ZERO as int)
  }

  function Parse(t: seq<byte>): int {
    if t != [] && t[0] == MINUS then -ParseDigits(t[1..]) else ParseDigits(t)
  }

  lemma {:induction false} DigitsParse(n: nat)
    ensures ParseDigits(Reversed(DigitsUp(n))) == n
  {
    var d, more := Digit(n % 10), if n / 10 > 0 then DigitsUp(n / 10) else [];
    ReversedCons(d, more);
    var t := Reversed(DigitsUp(n));
    assert t == Reversed(more) + [d] && t[..|t| - 1] == Reversed(more);
    if n / 10 > 0 { DigitsParse(n / 10); }
  }

  lemma {:induction false} DigitsShape(n: nat)
    ensures var t := Reversed(DigitsUp(n));
      && t != []
      && (n > 0 ==> t[0] != ZERO)
      && forall k | 0 <= k < |t| :: ZERO <= t[k] <= ZERO + 9
  {
    var d, more := Digit(n % 10), if n / 10 > 0 then DigitsUp(n / 10) else [];
    ReversedCons(d, more);
    if n / 10 > 0 { DigitsShape(n / 10); }
  }

  function Pow10(k: nat): nat {
    if k == 0 then 1 else 10 * Pow10(k - 1)
  }

  lemma Pow10Of19()
    ensures Pow10(19) > LONG_MAX
  {
    assert Pow10(5) == 100_000;
    assert Pow10(10) == 100_000 * 100_000;
    assert Pow10(15) == 100_000 * 100_000 * 100_000;
  }

  lemma {:induction false} DigitsCount(n: nat, k: nat)
    requires k >= 1 && n < Pow10(k)
    ensures |DigitsUp(n)| <= k
  {
    if n / 10 > 0 { DigitsCount(n / 10, k - 1); }
  }

  lemma DigitsFit(n: nat)
    requires n <= LONG_MAX
    ensures |Reversed(DigitsUp(n))| == |DigitsUp(n)| <= 19
  {
    Pow10Of19();
    DigitsCount(n, 19);
  }

  /** Printing is undone by parsing, without leading zeros, in at most 20 characters. */
  lemma TextRoundTrip(v: int)
    requires -LONG_MAX <= v <= LONG_MAX
    ensures Parse(Text(v)) == v
    ensures 1 <= |Text(v)| <= 20
    ensures v != 0 ==> Text(v)[0] != ZERO && (v < 0 ==> Text(v)[1..] != [] && Text(v)[1] != ZERO)
  {
    var n := if v < 0 then -v else v;
    DigitsParse(n);
    DigitsShape(n);
    DigitsFit(n);
    if v < 0 { assert Text(v)[1..] == Reversed(DigitsUp(n)); }
  }

  lemma DigitMoves(done: seq<byte>, n: nat)
    ensures done + DigitsUp(n) ==
      (done + [Digit(n % 10)]) + if n / 10 > 0 then DigitsUp(n / 10) else []
  {
  }

  /** The digit loop of `sio_ltoa`. */
  method WriteDigits(n: nat, s: array<byte>) returns (i: nat)
    requires |DigitsUp(n)| <= s.Length
    modifies s
    ensures i == |DigitsUp(n)| && s[..i] == DigitsUp(n)
  {
    i := 0;
    var left := n;
    ghost var done: seq<byte> := [];
    while true
      invariant done + DigitsUp(left) == DigitsUp(n)
      invariant i == |done| < s.Length && s[..i] == done
      decreases left
    {
      DigitMoves(done, left);
      s[i] := Digit(left % 10);
      i, done := i + 1, done + [Digit(left % 10)];
      left := left / 10;
      if left <= 0 {
        break;
      }
    }
  }

  /** `sio_ltoa`, for every value that can be negated. */
  method SioLtoa(v: int, s: array<byte>) returns (len: nat)
    requires -LONG_MAX <= v <= LONG_MAX && s.Length >= 21
    modifies s
    ensures len <= 20 && s[..len] == Text(v) && s[len] == 0
  {
    var n := if v < 0 then -v else v;
    DigitsFit(n);
    var i := WriteDigits(n, s);
    if v < 0 {
      s[i] := MINUS;
      i := i + 1;
    }
    s[i] := 0;
    ghost var text := DigitsUp(n) + if v < 0 then [MINUS] else [];
    assert s[..i] == text;
    if v < 0 { ReversedSnoc(DigitsUp(n), MINUS); }
    assert Reversed(text) == Text(v);
    SioReverse(s, i);
    assert s[i..][0] == 0;
    len := i;
  }
}
