/** Bitwise AND on unbounded naturals, and why the sources may write `x & (c - 1)` for `x % c`. */
module Bits {

  function BitAnd(a: nat, b: nat): nat
  {
    if a == 0 || b == 0 then 0
    else (a % 2) * (b % 2) + 2 * BitAnd(a / 2, b / 2)
  }

  /** The sources' power-of-two test: `(c & (c - 1)) == 0`. */
  predicate PowerOfTwo(c: nat) {
    c >= 1 && BitAnd(c, c - 1) == 0
  }

  lemma {:induction false} BitAndSelf(a: nat)
    ensures BitAnd(a, a) == a
  {
    if a != 0 {
      BitAndSelf(a / 2);
      assert (a % 2) * (a % 2) == a % 2;
    }
  }

  lemma {:induction false} PowerOfTwoHalves(c: nat)
    requires PowerOfTwo(c) && c > 1
    ensures c % 2 == 0 && PowerOfTwo(c / 2)
  {
    if c % 2 == 1 {
      assert (c - 1) / 2 == c / 2;
      BitAndSelf(c / 2);
    } else {
      assert (c - 1) / 2 == c / 2 - 1;
    }
  }

  lemma {:induction false} PowerOfTwoDoubles(c: nat)
    requires PowerOfTwo(c)
    ensures PowerOfTwo(2 * c)
  {
    assert (2 * c - 1) / 2 == c - 1;
  }

  lemma {:induction false} ModByHalves(a: nat, d: nat)
    requires d >= 1
    ensures a % (2 * d) == a % 2 + 2 * ((a / 2) % d)
  {
    var q, r := (a / 2) / d, (a / 2) % d;
    assert a / 2 == d * q + r;
    assert a == 2 * d * q + (2 * r + a % 2);
    ModUnique(a, 2 * d, q, 2 * r + a % 2);
  }

  lemma {:induction false} PositiveMultiple(c: int, k: int)
    requires c > 0 && k >= 1
    ensures c * k >= c
  {
    if k > 1 {
      PositiveMultiple(c, k - 1);
      assert c * k == c * (k - 1) + c;
    }
  }

  lemma MultipleOutOfRange(c: int, k: int)
    requires c > 0 && k != 0
    ensures c * k >= c || c * k <= -c
  {
    if k > 0 {
      PositiveMultiple(c, k);
    } else {
      PositiveMultiple(c, -k);
      assert c * k == -(c * -k);
    }
  }

  lemma ModUnique(a: int, c: int, q: int, r: int)
    requires c > 0 && a == c * q + r && 0 <= r < c
    ensures a % c == r
  {
    var q', r' := a / c, a % c;
    assert a == c * q' + r';
    assert c * (q' - q) == c * q' - c * q;
    if q' != q {
      MultipleOutOfRange(c, q' - q);
    }
  }

  /** Masking with `c - 1` is reduction modulo `c` for every power of two `c`. */
  lemma {:induction false} MaskIsMod(a: nat, c: nat)
    requires PowerOfTwo(c)
    ensures BitAnd(a, c - 1) == a % c
    decreases c
  {
    if c > 1 {
      PowerOfTwoHalves(c);
      var d := c / 2;
      assert (c - 1) / 2 == d - 1 && (c - 1) % 2 == 1;
      MaskIsMod(a / 2, d);
      ModByHalves(a, d);
    }
  }

  /** Two naturals with the same residue are equal or at least one modulus apart. */
  lemma SameSlotApart(a: nat, b: nat, c: nat)
    requires c > 0 && a % c == b % c && a < b
    ensures a + c <= b
  {
    var k := b / c - a / c;
    assert a == c * (a / c) + a % c && b == c * (b / c) + b % c;
    assert b - a == c * k;
    MultipleOutOfRange(c, k);
  }

  lemma NextSlotDiffers(a: nat, c: nat)
    requires c >= 2
    ensures (a + 1) % c != a % c
  {
    if (a + 1) % c == a % c {
      SameSlotApart(a, a + 1, c);
    }
  }

  lemma SameSlotNextLap(a: nat, c: nat)
    requires c > 0
    ensures (a + c) % c == a % c
  {
    ModUnique(a + c, c, a / c + 1, a % c);
  }

  /** Stepping round a table of power-of-two size. */
  lemma MaskWraps(k: nat, c: nat)
    requires PowerOfTwo(c) && k < c
    ensures BitAnd(k + 1, c - 1) == if k + 1 == c then 0 else k + 1
  {
    MaskIsMod(k + 1, c);
    if k + 1 == c {
      ModUnique(k + 1, c, 1, 0);
    } else {
      ModUnique(k + 1, c, 0, k + 1);
    }
  }

  function Pow2(e: nat): (c: nat)
    ensures c >= 1
  {
    if e == 0 then 1 else 2 * Pow2(e - 1)
  }

  lemma {:induction false} Pow2IsPowerOfTwo(e: nat)
    ensures PowerOfTwo(Pow2(e))
  {
    if e > 0 {
      Pow2IsPowerOfTwo(e - 1);
      PowerOfTwoDoubles(Pow2(e - 1));
    }
  }

  lemma {:induction false} Pow2Monotone(d: nat, e: nat)
    requires d < e
    ensures 2 * Pow2(d) <= Pow2(e)
    decreases e
  {
    if d < e - 1 {
      Pow2Monotone(d, e - 1);
    }
  }
}
