/**
 The pointer-chase benchmark: a Sattolo shuffle of the identity, then a walk `p = idx[p]`.
 The random source is a sequence of arbitrary naturals, one per swap.
 */
module PtrChase {
  import Bits

  /** `k` hops from `p`. */
  function Hop(idx: seq<nat>, p: nat, k: nat): (q: nat)
    requires p < |idx| && forall i | 0 <= i < |idx| :: idx[i] < |idx|
    ensures q < |idx|
  {
    if k == 0 then p else idx[Hop(idx, p, k - 1)]
  }

  ghost predicate InRange(idx: seq<nat>) {
    forall i | 0 <= i < |idx| :: idx[i] < |idx|
  }

  ghost predicate Visits(idx: seq<nat>, v: nat)
    requires idx != [] && InRange(idx)
  {
    exists k: nat :: k < |idx| && Hop(idx, 0, k) == v
  }

  /** One cycle through all slots: the first `n` stops of the walk from 0 are all the slots,
      each once, and hop `n` is the first to come back. */
  ghost predicate SingleCycle(idx: seq<nat>)
    requires idx != [] && InRange(idx)
  {
    && (forall j, k | 0 <= j < k < |idx| :: Hop(idx, 0, j) != Hop(idx, 0, k))
    && (forall v: nat | v < |idx| :: Visits(idx, v))
    && Hop(idx, 0, |idx|) == 0
  }

  // ----- cycles as sequences

  ghost predicate NoRepeats(c: seq<nat>) {
    forall i, j | 0 <= i < j < |c| :: c[i] != c[j]
  }

  /** `c` lists a cycle of `idx`: each entry points at the next, the last at the first. */
  ghost predicate IsCycle(idx: seq<nat>, c: seq<nat>) {
    && c != []
    && NoRepeats(c)
    && (forall m | 0 <= m < |c| :: c[m] < |idx|)
    && (forall m | 0 <= m < |c| - 1 :: idx[c[m]] == c[m + 1])
    && idx[c[|c| - 1]] == c[0]
  }

  ghost predicate Disjoint(a: seq<nat>, b: seq<nat>) {
    forall v | v in a :: v !in b
  }

  ghost predicate Covers(cyc: seq<seq<nat>>, v: nat) {
    exists k :: 0 <= k < |cyc| && v in cyc[k]
  }

  /** The shuffle's invariant: `idx` splits into cycles, one for each slot up to `i`, and
      the cycle of `k` starts at `k`; so each cycle holds exactly one slot `<= i`. */
  ghost predicate Cycles(idx: seq<nat>, cyc: seq<seq<nat>>) {
    && (forall k | 0 <= k < |cyc| :: IsCycle(idx, cyc[k]) && cyc[k][0] == k)
    && (forall j, k | 0 <= j < k < |cyc| :: Disjoint(cyc[j], cyc[k]))
    && (forall v: nat | v < |idx| :: Covers(cyc, v))
  }

  function Swapped(idx: seq<nat>, i: nat, j: nat): seq<nat>
    requires i < |idx| && j < |idx|
  {
    idx[i := idx[j]][j := idx[i]]
  }

  function Joined(a: seq<nat>, b: seq<nat>): seq<nat>
    requires a != [] && b != []
  {
    [a[0]] + b[1..] + [b[0]] + a[1..]
  }

  lemma JoinedAt(a: seq<nat>, b: seq<nat>, m: nat)
    requires a != [] && b != [] && m < |a| + |b|
    ensures |Joined(a, b)| == |a| + |b|
    ensures Joined(a, b)[m] ==
      if m == 0 then a[0] else if m < |b| then b[m] else if m == |b| then b[0] else a[m - |b|]
  {
  }

  lemma JoinedMembers(a: seq<nat>, b: seq<nat>, v: nat)
    requires a != [] && b != []
    ensures v in Joined(a, b) <==> v in a || v in b
  {
    assert a == [a[0]] + a[1..] && b == [b[0]] + b[1..];
  }

  lemma JoinedNoRepeats(a: seq<nat>, b: seq<nat>)
    requires a != [] && b != [] && NoRepeats(a) && NoRepeats(b) && Disjoint(a, b)
    ensures NoRepeats(Joined(a, b))
  {
    var c := Joined(a, b);
    forall m, k | 0 <= m < k < |c| ensures c[m] != c[k] {
      JoinedAt(a, b, m);
      JoinedAt(a, b, k);
      assert a[0] in a && b[0] in b;
      if m >= |b| { assert m == |b| || a[m - |b|] in a; } else { assert b[m] in b; }
      if k >= |b| { assert k == |b| || a[k - |b|] in a; } else { assert b[k] in b; }
    }
  }

  /** Swapping the pointers of two cycles' heads joins them into one cycle. */
  lemma SwapJoins(idx: seq<nat>, a: seq<nat>, b: seq<nat>)
    requires IsCycle(idx, a) && IsCycle(idx, b) && Disjoint(a, b)
    ensures IsCycle(Swapped(idx, b[0], a[0]), Joined(a, b))
  {
    var i, j := b[0], a[0];
    assert i in b && j in a;
    var r, c := Swapped(idx, i, j), Joined(a, b);
    JoinedNoRepeats(a, b);
    forall m | 0 <= m < |c| ensures c[m] < |r| && (m < |c| - 1 ==> r[c[m]] == c[m + 1]) {
      JoinedAt(a, b, m);
      if m < |c| - 1 { JoinedAt(a, b, m + 1); }
    }
    JoinedAt(a, b, 0);
    JoinedAt(a, b, |c| - 1);
  }

  lemma SwapKeepsOther(idx: seq<nat>, i: nat, j: nat, c: seq<nat>)
    requires i < |idx| && j < |idx| && IsCycle(idx, c) && i !in c && j !in c
    ensures IsCycle(Swapped(idx, i, j), c)
  {
    assert forall m | 0 <= m < |c| :: c[m] in c;
  }

  /** The cycles after the swap at heads `i == |cyc| - 1` and `j`. */
  function Merged(cyc: seq<seq<nat>>, j: nat): seq<seq<nat>>
    requires j < |cyc| - 1 && cyc[j] != [] && cyc[|cyc| - 1] != []
  {
    cyc[..|cyc| - 1][j := Joined(cyc[j], cyc[|cyc| - 1])]
  }

  lemma MergedMembers(cyc: seq<seq<nat>>, j: nat, k: nat, v: nat)
    requires j < |cyc| - 1 && cyc[j] != [] && cyc[|cyc| - 1] != [] && k < |cyc| - 1
    ensures v in Merged(cyc, j)[k] <==> v in cyc[k] || (k == j && v in cyc[|cyc| - 1])
  {
    JoinedMembers(cyc[j], cyc[|cyc| - 1], v);
  }

  lemma MergedDisjoint(idx: seq<nat>, cyc: seq<seq<nat>>, j: nat, k: nat, l: nat)
    requires Cycles(idx, cyc) && j < |cyc| - 1 && k < l < |cyc| - 1
    ensures Disjoint(Merged(cyc, j)[k], Merged(cyc, j)[l])
  {
    var b := cyc[|cyc| - 1];
    assert Disjoint(cyc[k], cyc[l]) && Disjoint(cyc[k], b) && Disjoint(cyc[l], b);
    forall v | v in Merged(cyc, j)[k] ensures v !in Merged(cyc, j)[l] {
      MergedMembers(cyc, j, k, v);
      MergedMembers(cyc, j, l, v);
    }
  }

  lemma MergedOther(idx: seq<nat>, cyc: seq<seq<nat>>, j: nat, k: nat)
    requires Cycles(idx, cyc) && j < |cyc| - 1 && |cyc| <= |idx| && k < |cyc| - 1 && k != j
    ensures IsCycle(Swapped(idx, |cyc| - 1, j), cyc[k]) && cyc[k][0] == k
  {
    var i := |cyc| - 1;
    var a, b, c := cyc[j], cyc[i], cyc[k];
    assert IsCycle(idx, a) && IsCycle(idx, b) && IsCycle(idx, c);
    assert a[0] in a && b[0] in b;
    assert if k < j then Disjoint(c, a) else Disjoint(a, c);
    assert Disjoint(c, b);
    SwapKeepsOther(idx, i, j, c);
  }

  lemma MergedCycle(idx: seq<nat>, cyc: seq<seq<nat>>, j: nat, k: nat)
    requires Cycles(idx, cyc) && j < |cyc| - 1 && |cyc| <= |idx| && k < |cyc| - 1
    ensures IsCycle(Swapped(idx, |cyc| - 1, j), Merged(cyc, j)[k]) && Merged(cyc, j)[k][0] == k
  {
    var i := |cyc| - 1;
    var a, b := cyc[j], cyc[i];
    assert IsCycle(idx, a) && IsCycle(idx, b);
    if k == j {
      assert Disjoint(a, b);
      SwapJoins(idx, a, b);
    } else {
      MergedOther(idx, cyc, j, k);
    }
  }

  /** One swap of the shuffle merges the cycle of the last head into that of a smaller one. */
  lemma SwapMerges(idx: seq<nat>, cyc: seq<seq<nat>>, j: nat)
    requires Cycles(idx, cyc) && j < |cyc| - 1 && |cyc| <= |idx|
    ensures Cycles(Swapped(idx, |cyc| - 1, j), Merged(cyc, j))
  {
    var r, cyc' := Swapped(idx, |cyc| - 1, j), Merged(cyc, j);
    forall k | 0 <= k < |cyc'| ensures IsCycle(r, cyc'[k]) && cyc'[k][0] == k {
      MergedCycle(idx, cyc, j, k);
    }
    forall k, l | 0 <= k < l < |cyc'| ensures Disjoint(cyc'[k], cyc'[l]) {
      MergedDisjoint(idx, cyc, j, k, l);
    }
    forall v: nat | v < |idx| ensures Covers(cyc', v) {
      assert Covers(cyc, v);
      var k :| 0 <= k < |cyc| && v in cyc[k];
      var m := if k == |cyc| - 1 then j else k;
      MergedMembers(cyc, j, m, v);
      assert v in cyc'[m];
    }
  }

  ghost function Elements(c: seq<nat>): (r: set<nat>)
    ensures forall v: nat :: v in r <==> v in c
  {
    set v | v in c
  }

  lemma {:induction false} NoRepeatsCount(c: seq<nat>)
    requires NoRepeats(c)
    ensures |Elements(c)| == |c|
  {
    if c != [] {
      NoRepeatsCount(c[1..]);
      assert c[0] !in c[1..];
      assert Elements(c) == Elements(c[1..]) + {c[0]};
    }
  }

  function Slots(n: nat): (r: set<nat>)
    ensures forall v: nat :: v in r <==> v < n
    ensures |r| == n
  {
    if n == 0 then {} else Slots(n - 1) + {n - 1}
  }

  lemma {:induction false} HopFollowsCycle(idx: seq<nat>, c: seq<nat>, k: nat)
    requires IsCycle(idx, c) && InRange(idx) && k <= |c|
    ensures Hop(idx, c[0], k) == if k < |c| then c[k] else c[0]
  {
    if k > 0 {
      HopFollowsCycle(idx, c, k - 1);
    }
  }

  /** With one cycle left, that cycle has all the slots. */
  lemma LastCycleHasAll(idx: seq<nat>, cyc: seq<seq<nat>>)
    requires Cycles(idx, cyc) && |cyc| == 1
    ensures IsCycle(idx, cyc[0]) && cyc[0][0] == 0
    ensures |cyc[0]| == |idx| && forall v: nat | v < |idx| :: v in cyc[0]
  {
    var c := cyc[0];
    assert IsCycle(idx, c);
    forall v: nat | v < |idx| ensures v in c {
      assert Covers(cyc, v);
    }
    NoRepeatsCount(c);
    assert Elements(c) == Slots(|idx|);
  }

  lemma FullCycleIsSingle(idx: seq<nat>, c: seq<nat>)
    requires InRange(idx) && IsCycle(idx, c) && c[0] == 0
    requires |c| == |idx| && forall v: nat | v < |idx| :: v in c
    ensures SingleCycle(idx)
  {
    forall k: nat | k <= |idx| ensures Hop(idx, 0, k) == if k < |c| then c[k] else c[0] {
      HopFollowsCycle(idx, c, k);
    }
    forall v: nat | v < |idx| ensures Visits(idx, v) {
      assert v in c;
      var k: nat :| k < |c| && c[k] == v;
      assert Hop(idx, 0, k) == v;
    }
  }

  function Singletons(n: nat): (c: seq<seq<nat>>)
    ensures |c| == n && forall k: nat | k < n :: c[k] == [k]
  {
    if n == 0 then [] else Singletons(n - 1) + [[n - 1]]
  }

  lemma IdentityCycles(idx: seq<nat>)
    requires forall k: nat | k < |idx| :: idx[k] == k
    ensures Cycles(idx, Singletons(|idx|))
  {
    var cyc := Singletons(|idx|);
    forall k: nat | k < |cyc| ensures IsCycle(idx, cyc[k]) && cyc[k][0] == k {
      assert cyc[k] == [k];
    }
    forall j: nat, k: nat | j < k < |cyc| ensures Disjoint(cyc[j], cyc[k]) {
      assert cyc[j] == [j] && cyc[k] == [k];
    }
    forall v: nat | v < |idx| ensures Covers(cyc, v) {
      assert v in cyc[v];
    }
  }

  // ----- the shuffle as a function of the random numbers

  /** The swaps for indexes `i` down to 1, on random numbers taken in turn. */
  function SwapDown(a: seq<nat>, i: nat, rand: seq<nat>): (r: seq<nat>)
    requires i < |a| && i <= |rand|
    ensures |r| == |a|
    decreases i
  {
    if i == 0 then a else SwapDown(Swapped(a, i, rand[0] % i), i - 1, rand[1..])
  }

  function Identity(n: nat): (a: seq<nat>)
    ensures |a| == n && forall k | 0 <= k < n :: a[k] == k
  {
    seq(n, k requires 0 <= k < n => k)
  }

  lemma {:induction false} AboveIsFinal(a: seq<nat>, i: nat, rand: seq<nat>, k: nat)
    requires i < |a| && i <= |rand| && i < k < |a|
    ensures SwapDown(a, i, rand)[k] == a[k]
    decreases i
  {
    if i > 0 { AboveIsFinal(Swapped(a, i, rand[0] % i), i - 1, rand[1..], k); }
  }

  lemma SwapKeepsNoRepeats(a: seq<nat>, i: nat, j: nat)
    requires NoRepeats(a) && i < |a| && j < |a|
    ensures NoRepeats(Swapped(a, i, j))
  {
  }

  lemma ChoiceShows(a: seq<nat>, i: nat, rand: seq<nat>, j: nat)
    requires 0 < i < |a| && i <= |rand| && j == rand[0] % i
    ensures SwapDown(a, i, rand)[i] == a[j]
  {
    AboveIsFinal(Swapped(a, i, j), i - 1, rand[1..], i);
  }

  /** No two choices lead to the same array: the random number of every swap, reduced to its
      range, can be read off the result. */
  lemma {:induction false} ShuffleInjective(a: seq<nat>, i: nat, x: seq<nat>, y: seq<nat>, k: nat)
    requires NoRepeats(a) && i < |a| && i <= |x| && i <= |y| && k < i
    ensures SwapDown(a, i, x) == SwapDown(a, i, y) ==> x[k] % (i - k) == y[k] % (i - k)
    decreases i
  {
    if SwapDown(a, i, x) == SwapDown(a, i, y) {
      var j := x[0] % i;
      ChoiceShows(a, i, x, j);
      ChoiceShows(a, i, y, y[0] % i);
      assert j == y[0] % i;
      if k > 0 {
        SwapKeepsNoRepeats(a, i, j);
        var x', y' := x[1..], y[1..];
        ShuffleInjective(Swapped(a, i, j), i - 1, x', y', k - 1);
        assert x'[k - 1] == x[k] && y'[k - 1] == y[k];
      }
    }
  }

  /** `t = idx[i]; idx[i] = idx[j]; idx[j] = t;` */
  method SwapAt(idx: array<nat>, i: nat, j: nat)
    requires i < idx.Length && j < idx.Length && InRange(idx[..])
    modifies idx
    ensures idx[..] == Swapped(old(idx[..]), i, j) && InRange(idx[..])
  {
    var t := idx[i];
    idx[i] := idx[j];
    idx[j] := t;
  }

  lemma SwapKeepsRange(a: seq<nat>, i: nat, j: nat)
    requires InRange(a) && i < |a| && j < |a|
    ensures InRange(Swapped(a, i, j))
  {
  }

  /** From one cycle for each slot up to `i`, the remaining swaps make a single cycle. */
  lemma {:induction false} SwapDownMergesAll(a: seq<nat>, i: nat, rand: seq<nat>, cyc: seq<seq<nat>>)
    requires i < |a| && i <= |rand| && InRange(a) && Cycles(a, cyc) && |cyc| == i + 1
    ensures InRange(SwapDown(a, i, rand)) && SingleCycle(SwapDown(a, i, rand))
    decreases i
  {
    if i == 0 {
      LastCycleHasAll(a, cyc);
      FullCycleIsSingle(a, cyc[0]);
    } else {
      var j := rand[0] % i;
      SwapMerges(a, cyc, j);
      SwapKeepsRange(a, i, j);
      SwapDownMergesAll(Swapped(a, i, j), i - 1, rand[1..], Merged(cyc, j));
    }
  }

  /** Whatever the random numbers, the shuffle of the identity is one cycle through all slots. */
  lemma ShuffleIsSingleCycle(a: seq<nat>, i: nat, rand: seq<nat>)
    requires |a| == i + 1 && a == Identity(i + 1) && i <= |rand|
    ensures InRange(SwapDown(a, i, rand)) && SingleCycle(SwapDown(a, i, rand))
  {
    IdentityCycles(a);
    var cyc := Singletons(i + 1);
    assert InRange(a) && |cyc| == i + 1;
    SwapDownMergesAll(a, i, rand, cyc);
  }

  method NewIdentity(n: nat) returns (idx: array<nat>)
    ensures fresh(idx) && idx[..] == Identity(n)
  {
    idx := new nat[n];
    for k := 0 to n
      invariant forall m | 0 <= m < k :: idx[m] == m
    {
      idx[k] := k;
    }
  }

  lemma SwapDownStep(a: seq<nat>, i: nat, rand: seq<nat>, r: nat)
    requires 0 < i < |a| && i + r <= |rand|
    ensures SwapDown(a, i, rand[r..]) == SwapDown(Swapped(a, i, rand[r] % i), i - 1, rand[r + 1..])
  {
    assert rand[r..][1..] == rand[r + 1..];
  }

  /** The downward swap loop of `main`. */
  method SwapAllDown(idx: array<nat>, rand: seq<nat>)
    requires 1 <= idx.Length <= |rand| + 1 && InRange(idx[..])
    modifies idx
    ensures idx[..] == SwapDown(old(idx[..]), idx.Length - 1, rand) && InRange(idx[..])
  {
    ghost var target := SwapDown(idx[..], idx.Length - 1, rand);
    var i, r := idx.Length - 1, 0;
    assert rand[0..] == rand;
    while i > 0
      invariant 0 <= i < idx.Length && r == idx.Length - 1 - i
      invariant InRange(idx[..])
      invariant SwapDown(idx[..], i, rand[r..]) == target
    {
      ghost var a := idx[..];
      SwapDownStep(a, i, rand, r);
      var j := rand[r] % i;
      SwapAt(idx, i, j);
      i, r := i - 1, r + 1;
    }
  }

  /** The array set-up of `main`: identity, then the downward swap loop. */
  method Shuffle(n: nat, rand: seq<nat>) returns (idx: array<nat>)
    requires n >= 1 && |rand| >= n - 1
    ensures fresh(idx) && idx.Length == n
    ensures idx[..] == SwapDown(Identity(n), n - 1, rand)
    ensures InRange(idx[..]) && SingleCycle(idx[..])
  {
    idx := NewIdentity(n);
    SwapAllDown(idx, rand);
    ShuffleIsSingleCycle(Identity(n), n - 1, rand);
  }

  /** The timed loop of `main`. */
  method Chase(idx: array<nat>, iters: nat) returns (p: nat)
    requires idx.Length > 0 && InRange(idx[..])
    ensures p == Hop(idx[..], 0, iters)
  {
    p := 0;
    for k := 0 to iters
      invariant p == Hop(idx[..], 0, k)
    {
      p := idx[p];
    }
  }

  lemma {:induction false} HopAdds(idx: seq<nat>, p: nat, j: nat, k: nat)
    requires InRange(idx) && p < |idx|
    ensures Hop(idx, p, j + k) == Hop(idx, Hop(idx, p, j), k)
  {
    if k > 0 {
      HopAdds(idx, p, j, k - 1);
    }
  }

  lemma {:induction false} HopPeriodic(idx: seq<nat>, k: nat)
    requires idx != [] && InRange(idx) && Hop(idx, 0, |idx|) == 0
    ensures Hop(idx, 0, k) == Hop(idx, 0, k % |idx|)
  {
    if k >= |idx| {
      HopAdds(idx, 0, |idx|, k - |idx|);
      HopPeriodic(idx, k - |idx|);
      Bits.SameSlotNextLap(k - |idx|, |idx|);
    } else {
      Bits.ModUnique(k, |idx|, 0, k);
    }
  }

  /** On a single cycle the walk is periodic with period exactly `n`: it is at slot 0
      after `k` hops if and only if `n` divides `k`. */
  lemma ReturnsExactlyAtMultiples(idx: seq<nat>, k: nat)
    requires idx != [] && InRange(idx) && SingleCycle(idx)
    ensures Hop(idx, 0, k) == Hop(idx, 0, k % |idx|)
    ensures Hop(idx, 0, k) == 0 <==> k % |idx| == 0
  {
    HopPeriodic(idx, k);
    assert Hop(idx, 0, 0) == 0;
  }

  lemma EverySlotPointedAt(idx: seq<nat>, v: nat)
    requires idx != [] && InRange(idx) && SingleCycle(idx) && v < |idx|
    ensures v in idx
  {
    assert Visits(idx, v);
    var k: nat :| k < |idx| && Hop(idx, 0, k) == v;
    var before := if k == 0 then |idx| - 1 else k - 1;
    assert idx[Hop(idx, 0, before)] == v;
  }

  /** A single cycle is a permutation: every slot is pointed at, by exactly one slot. */
  lemma SingleCycleIsPermutation(idx: seq<nat>, a: nat, b: nat)
    requires idx != [] && InRange(idx) && SingleCycle(idx) && a < |idx| && b < |idx|
    ensures a in idx
    ensures idx[a] == idx[b] ==> a == b
  {
    EverySlotPointedAt(idx, a);
    assert Visits(idx, a) && Visits(idx, b);
    var j: nat :| j < |idx| && Hop(idx, 0, j) == a;
    var k: nat :| k < |idx| && Hop(idx, 0, k) == b;
    assert idx[a] == Hop(idx, 0, j + 1) && idx[b] == Hop(idx, 0, k + 1);
    HopWraps(idx, j + 1);
    HopWraps(idx, k + 1);
  }

  lemma HopWraps(idx: seq<nat>, k: nat)
    requires idx != [] && InRange(idx) && SingleCycle(idx) && 1 <= k <= |idx|
    ensures Hop(idx, 0, k) == Hop(idx, 0, if k == |idx| then 0 else k)
  {
  }

  // ----- every single cycle is a possible result

  /** What points at a slot lies on the slot's cycle. */
  lemma Predecessor(idx: seq<nat>, c: seq<nat>, v: nat) returns (p: nat)
    requires IsCycle(idx, c) && v in c
    ensures p in c && p < |idx| && idx[p] == v
  {
    var m :| 0 <= m < |c| && c[m] == v;
    p := if m == 0 then c[|c| - 1] else c[m - 1];
  }

  /** A walk that starts off a closed cycle never enters it. */
  lemma {:induction false} WalkStaysOff(pi: seq<nat>, c: seq<nat>, k: nat)
    requires pi != [] && InRange(pi) && SingleCycle(pi) && IsCycle(pi, c) && 0 !in c
    ensures Hop(pi, 0, k) !in c
  {
    if k > 0 {
      WalkStaysOff(pi, c, k - 1);
      var h := Hop(pi, 0, k - 1);
      forall v | v in c ensures pi[h] != v {
        var p := Predecessor(pi, c, v);
        SingleCycleIsPermutation(pi, h, p);
      }
    }
  }

  lemma NoClosedCycleOff(pi: seq<nat>, c: seq<nat>)
    requires pi != [] && InRange(pi) && SingleCycle(pi) && IsCycle(pi, c)
    ensures 0 in c
  {
    assert c[0] in c && Visits(pi, c[0]);
    var k: nat :| k < |pi| && Hop(pi, 0, k) == c[0];
    if 0 !in c {
      WalkStaysOff(pi, c, k);
    }
  }

  /** What the array and the wanted cycle have in common when slot `i` is next. */
  ghost predicate OnTheWay(a: seq<nat>, i: nat, cyc: seq<seq<nat>>, pi: seq<nat>) {
    && i < |a| == |pi| && |cyc| == i + 1
    && InRange(a) && Cycles(a, cyc)
    && InRange(pi) && SingleCycle(pi)
    && forall k | i < k < |a| :: a[k] == pi[k]
  }

  /** Apart from its head, the cycle of `i` lies above `i`. */
  lemma CycleLiesAbove(a: seq<nat>, i: nat, cyc: seq<seq<nat>>, v: nat)
    requires |cyc| == i + 1 && Cycles(a, cyc) && v in cyc[i] && v != i
    ensures v > i
  {
    forall w: nat | w < i ensures w !in cyc[i] {
      assert Disjoint(cyc[w], cyc[i]) && cyc[w][0] in cyc[w];
    }
  }

  /** Slot `i` does not hold its final value yet: that would close a cycle too early. */
  lemma NotYetFinal(a: seq<nat>, i: nat, cyc: seq<seq<nat>>, pi: seq<nat>)
    requires OnTheWay(a, i, cyc, pi) && i > 0
    ensures a[i] != pi[i]
  {
    var c := cyc[i];
    assert IsCycle(a, c);
    if a[i] == pi[i] {
      forall v | v in c ensures a[v] == pi[v] {
        if v != i { CycleLiesAbove(a, i, cyc, v); }
      }
      SameCycle(a, pi, c);
      NoClosedCycleOff(pi, c);
      CycleLiesAbove(a, i, cyc, 0);
    }
  }

  lemma SameCycle(a: seq<nat>, pi: seq<nat>, c: seq<nat>)
    requires IsCycle(a, c) && |a| == |pi|
    requires forall v | v in c :: v < |a| && a[v] == pi[v]
    ensures IsCycle(pi, c)
  {
    assert forall m | 0 <= m < |c| :: c[m] in c;
  }

  /** The value wanted at slot `i` stands at or below `i`. */
  lemma WantedBelow(a: seq<nat>, i: nat, cyc: seq<seq<nat>>, pi: seq<nat>) returns (p: nat)
    requires OnTheWay(a, i, cyc, pi)
    ensures p <= i && a[p] == pi[i]
  {
    var v := pi[i];
    assert Covers(cyc, v);
    var k :| 0 <= k < |cyc| && v in cyc[k];
    p := Predecessor(a, cyc[k], v);
    SingleCycleIsPermutation(pi, p, i);
  }

  /** For every single cycle there are choices that produce it, whatever was swapped so far. */
  lemma {:induction false} ShuffleReaches(a: seq<nat>, i: nat, cyc: seq<seq<nat>>, pi: seq<nat>)
    returns (rand: seq<nat>)
    requires OnTheWay(a, i, cyc, pi)
    ensures |rand| == i && SwapDown(a, i, rand) == pi
    decreases i
  {
    var p := WantedBelow(a, i, cyc, pi);
    if i == 0 {
      rand := [];
      assert a == pi;
    } else {
      NotYetFinal(a, i, cyc, pi);
      SwapMerges(a, cyc, p);
      SwapKeepsRange(a, i, p);
      var rest := ShuffleReaches(Swapped(a, i, p), i - 1, Merged(cyc, p), pi);
      rand := [p] + rest;
      Bits.ModUnique(p, i, 0, p);
      assert rand[1..] == rest;
    }
  }

  /** The shuffle can produce every single cycle; by injectivity, from exactly one choice. */
  lemma ShuffleReachesAll(pi: seq<nat>) returns (rand: seq<nat>)
    requires pi != [] && InRange(pi) && SingleCycle(pi)
    ensures |rand| == |pi| - 1 && SwapDown(Identity(|pi|), |pi| - 1, rand) == pi
  {
    var a := Identity(|pi|);
    IdentityCycles(a);
    rand := ShuffleReaches(a, |pi| - 1, Singletons(|pi|), pi);
  }
}
