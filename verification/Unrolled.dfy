/**
 Unrolled reductions: a product over any number of accumulators, and a strided sum over four.
 */
module Unrolled {

  /** The plain product, left to right. */
  function Product(s: seq<int>): int {
    if s == [] then 1 else Product(s[..|s| - 1]) * s[|s| - 1]
  }

  lemma ProductSnoc(s: seq<int>, x: int)
    ensures Product(s + [x]) == Product(s) * x
  {
    assert (s + [x])[..|s|] == s;
  }

  lemma Rotate(a: int, b: int, c: int)
    ensures a * b * c == a * c * b == a * (b * c)
  {
  }

  /** Multiplying one factor multiplies the product. */
  lemma {:induction false} ProductUpdate(s: seq<int>, j: nat, x: int)
    requires j < |s|
    ensures Product(s[j := s[j] * x]) == Product(s) * x
  {
    var n := |s| - 1;
    var r := s[j := s[j] * x];
    Rotate(Product(s[..n]), s[n], x);
    if j < n {
      ProductUpdate(s[..n], j, x);
      assert r[..n] == s[..n][j := s[j] * x];
    } else {
      assert r[..n] == s[..n];
    }
  }

  lemma {:induction false} ProductOfOnes(s: seq<int>)
    requires forall k | 0 <= k < |s| :: s[k] == 1
    ensures Product(s) == 1
  {
    if s != [] { ProductOfOnes(s[..|s| - 1]); }
  }

  /** `acc[j] *= d[i]`: one more factor of `d` goes into the accumulators. */
  method Absorb(acc: array<int>, j: nat, d: seq<int>, i: nat)
    requires j < acc.Length && i < |d| && Product(acc[..]) == Product(d[..i])
    modifies acc
    ensures Product(acc[..]) == Product(d[..i + 1])
  {
    ghost var before := acc[..];
    acc[j] := acc[j] * d[i];
    ProductUpdate(before, j, d[i]);
    assert acc[..] == before[j := before[j] * d[i]];
    ProductSnoc(d[..i], d[i]);
    assert d[..i + 1] == d[..i] + [d[i]];
  }

  /** `combineK`, for any number `k` of accumulators: the plain product of the input. */
  method Combine(k: nat, d: seq<int>) returns (r: int)
    requires k >= 1
    ensures r == Product(d)
  {
    var n := |d|;
    var acc := new int[k](_ => 1);
    ProductOfOnes(acc[..]);
    var i := 0;
    while i + k <= n
      invariant 0 <= i <= n && Product(acc[..]) == Product(d[..i])
    {
      for j := 0 to k
        invariant Product(acc[..]) == Product(d[..i + j])
      {
        Absorb(acc, j, d, i + j);
      }
      i := i + k;
    }
    while i < n
      invariant 0 <= i <= n && Product(acc[..]) == Product(d[..i])
    {
      Absorb(acc, 0, d, i);
      i := i + 1;
    }
    assert d[..n] == d;
    r := 1;
    for j := 0 to k
      invariant r == Product(acc[..j]) && Product(acc[..]) == Product(d)
    {
      ProductSnoc(acc[..j], acc[j]);
      assert acc[..j + 1] == acc[..j] + [acc[j]];
      r := r * acc[j];
    }
    assert acc[..k] == acc[..];
  }

  /** The plain strided sum from `i` on. */
  function StridedSum(d: seq<int>, i: nat, stride: nat): int
    requires stride >= 1
    decreases |d| - i
  {
    if i >= |d| then 0 else d[i] + StridedSum(d, i + stride, stride)
  }

  /** `test`: four strides at a time while more than four are left, then one at a time. */
  method FourWaySum(d: seq<int>, stride: nat) returns (r: int)
    requires stride >= 1
    ensures r == StridedSum(d, 0, stride)
  {
    var sx2, sx3, sx4 := stride * 2, stride * 3, stride * 4;
    var acc0, acc1, acc2, acc3 := 0, 0, 0, 0;
    var limit := |d| - sx4;
    var i := 0;
    while i < limit
      invariant i >= 0
      invariant acc0 + acc1 + acc2 + acc3 + StridedSum(d, i, stride) == StridedSum(d, 0, stride)
    {
      FourSteps(d, i, stride);
      acc0 := acc0 + d[i];
      acc1 := acc1 + d[i + stride];
      acc2 := acc2 + d[i + sx2];
      acc3 := acc3 + d[i + sx3];
      i := i + sx4;
    }
    while i < |d|
      invariant i >= 0
      invariant acc0 + acc1 + acc2 + acc3 + StridedSum(d, i, stride) == StridedSum(d, 0, stride)
    {
      acc0 := acc0 + d[i];
      i := i + stride;
    }
    r := (acc0 + acc1) + (acc2 + acc3);
  }

  lemma FourSteps(d: seq<int>, i: nat, stride: nat)
    requires stride >= 1 && i + stride * 4 < |d|
    ensures StridedSum(d, i, stride) ==
      d[i] + d[i + stride] + d[i + stride * 2] + d[i + stride * 3] +
      StridedSum(d, i + stride * 4, stride)
  {
    var a, b, c := i + stride, i + stride * 2, i + stride * 3;
    assert StridedSum(d, i, stride) == d[i] + StridedSum(d, a, stride);
    assert StridedSum(d, a, stride) == d[a] + StridedSum(d, b, stride);
    assert StridedSum(d, b, stride) == d[b] + StridedSum(d, c, stride);
  }
}
