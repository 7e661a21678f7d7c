/**
 Order-preserving removal of duplicate words: the quadratic scan and the open-addressing hash
 set. A word is the bytes of a C string before its terminator.
 */
module Dedup {
  import opened Bits
  import opened Bytes

  type Word = seq<byte>

  /** The reference: every word at its first occurrence, in input order. */
  function FirstOccurrences(ws: seq<Word>): seq<Word>
    decreases |ws|
  {
    if ws == [] then []
    else
      var w, r := ws[|ws| - 1], FirstOccurrences(ws[..|ws| - 1]);
      if w in r then r else r + [w]
  }

  ghost predicate NoRepeats(ws: seq<Word>) {
    forall i, j | 0 <= i < j < |ws| :: ws[i] != ws[j]
  }

  /** The reference lists exactly the words of the input, each once. */
  lemma {:induction false} FirstOccurrencesExact(ws: seq<Word>)
    ensures NoRepeats(FirstOccurrences(ws))
    ensures forall w :: w in FirstOccurrences(ws) <==> w in ws
    ensures |FirstOccurrences(ws)| <= |ws|
    decreases |ws|
  {
    if ws != [] {
      FirstOccurrencesExact(ws[..|ws| - 1]);
      assert ws == ws[..|ws| - 1] + [ws[|ws| - 1]];
    }
  }

  /** Index of the first occurrence. */
  function FirstAt(ws: seq<Word>, w: Word): (k: nat)
    requires w in ws
    ensures k < |ws| && ws[k] == w && w !in ws[..k]
  {
    if ws[0] == w then 0
    else
      assert ws == [ws[0]] + ws[1..];
      var k := FirstAt(ws[1..], w);
      assert ws[..k + 1] == [ws[0]] + ws[1..][..k];
      k + 1
  }

  lemma FirstAtPrefix(ws: seq<Word>, n: nat, w: Word)
    requires n <= |ws| && w in ws[..n]
    ensures FirstAt(ws, w) == FirstAt(ws[..n], w)
  {
    var a, b := FirstAt(ws, w), FirstAt(ws[..n], w);
    assert ws[b] == w;
    assert ws[..n][..b] == ws[..b];
    assert forall k | 0 <= k < b :: ws[k] == ws[..b][k];
    assert forall k | 0 <= k < a :: ws[k] == ws[..a][k];
  }

  /** A word that comes last and was not there before appears after all the others. */
  lemma NewWordIsLast(ws: seq<Word>, u: Word, n: nat)
    requires |ws| == n + 1 && u in ws[..n] && ws[n] !in ws[..n]
    ensures u in ws && FirstAt(ws, u) < FirstAt(ws, ws[n])
  {
    FirstAtPrefix(ws, n, u);
    assert forall k | 0 <= k < n :: ws[k] == ws[..n][k];
  }

  /** The reference keeps the order in which the words first appear. */
  lemma {:induction false} FirstOccurrencesOrdered(ws: seq<Word>, i: nat, j: nat)
    requires i < j < |FirstOccurrences(ws)|
    ensures FirstOccurrences(ws)[i] in ws && FirstOccurrences(ws)[j] in ws
    ensures FirstAt(ws, FirstOccurrences(ws)[i]) < FirstAt(ws, FirstOccurrences(ws)[j])
    decreases |ws|
  {
    var n := |ws| - 1;
    var front := ws[..n];
    var firsts := FirstOccurrences(front);
    FirstOccurrencesExact(front);
    if j < |firsts| {
      assert FirstOccurrences(ws)[i] == firsts[i] && FirstOccurrences(ws)[j] == firsts[j];
      FirstOccurrencesOrdered(front, i, j);
      FirstAtPrefix(ws, n, firsts[i]);
      FirstAtPrefix(ws, n, firsts[j]);
    } else {
      assert FirstOccurrences(ws) == firsts + [ws[n]];
      NewWordIsLast(ws, firsts[i], n);
    }
  }

  /** The quadratic version. */
  method DedupQuadratic(words: seq<Word>, uniq: array<Word>) returns (u: nat)
    requires uniq.Length >= |words|
    modifies uniq
    ensures u <= uniq.Length && uniq[..u] == FirstOccurrences(words)
  {
    u := 0;
    for i := 0 to |words|
      invariant u <= i
      invariant uniq[..u] == FirstOccurrences(words[..i])
    {
      var found := false;
      var j := 0;
      while j < u
        invariant j <= u && !found
        invariant words[i] !in uniq[..j]
      {
        if words[i] == uniq[j] {
          found := true;
          break;
        }
        j := j + 1;
      }
      assert found <==> words[i] in uniq[..u];
      assert words[..i + 1][..i] == words[..i];
      if !found {
        uniq[u] := words[i];
        u := u + 1;
      }
    }
    assert words[..|words|] == words;
  }

  // ----- the hash version

  const ULONG_RANGE := 0x1_0000_0000_0000_0000
  const INT_MAX := 0x7fff_ffff

  /** djb2 on 64-bit unsigned arithmetic. */
  function Djb2(w: Word): (h: nat)
    ensures h < ULONG_RANGE
  {
    if w == [] then 5381
    else (Djb2(w[..|w| - 1]) * 33 + w[|w| - 1] as int) % ULONG_RANGE
  }

  method HashWord(w: Word) returns (h: nat)
    ensures h == Djb2(w)
  {
    h := 5381;
    for i := 0 to |w|
      invariant h == Djb2(w[..i])
    {
      h := (h * 33 + w[i] as int) % ULONG_RANGE;
      assert w[..i + 1][..i] == w[..i];
    }
    assert w[..|w|] == w;
  }

  /** The table size without the bound of a C `int`. */
  function TableSize(cap: nat, n: nat): nat
    requires cap >= 1
    decreases 2 * n - cap
  {
    if cap < 2 * n then TableSize(2 * cap, n) else cap
  }

  lemma {:induction false} TableSizeIsPow2(e: nat, n: nat) returns (d: nat)
    ensures d >= e && TableSize(Pow2(e), n) == Pow2(d) >= 2 * n
    ensures d == e || Pow2(d - 1) < 2 * n
    decreases 2 * n - Pow2(e)
  {
    if Pow2(e) < 2 * n {
      assert Pow2(e + 1) == 2 * Pow2(e);
      d := TableSizeIsPow2(e + 1, n);
    } else {
      d := e;
    }
  }

  lemma Pow2Of30()
    ensures Pow2(30) == 0x4000_0000
  {
    assert Pow2(10) == 1024;
    assert Pow2(20) == 1024 * 1024;
  }

  /** The doubling stays inside a 32-bit `int` exactly for at most 2^29 words. */
  lemma TableSizeFitsInt(n: nat)
    ensures TableSize(1, n) <= INT_MAX <==> n <= 0x2000_0000
  {
    var d := TableSizeIsPow2(0, n);
    Pow2Of30();
    if d > 30 {
      Pow2Monotone(30, d);
      if d > 31 { Pow2Monotone(30, d - 1); }
    } else if d < 30 {
      Pow2Monotone(d, 30);
    }
  }

  /** `cap = 1; while (cap < g_n * 2) cap <<= 1;` */
  method Capacity(n: nat) returns (cap: nat)
    requires n <= 0x2000_0000
    ensures cap == TableSize(1, n) <= INT_MAX
    ensures PowerOfTwo(cap) && 2 * n <= cap && (cap == 1 || cap < 4 * n)
  {
    cap := 1;
    while cap < n * 2
      invariant cap == 1 || cap < 4 * n
      invariant cap >= 1 && TableSize(cap, n) == TableSize(1, n)
      decreases n * 2 - cap
    {
      cap := cap * 2;
    }
    TableSizeFitsInt(n);
    ghost var d := TableSizeIsPow2(0, n);
    Pow2IsPowerOfTwo(d);
  }

  // ----- linear probing

  /** The slot `d` probes after the home slot of `w`. */
  function Probe(w: Word, d: nat, cap: nat): (k: nat)
    requires cap > 0
    ensures k < cap
  {
    if d == 0 then Djb2(w) % cap
    else
      var k := Probe(w, d - 1, cap);
      if k + 1 == cap then 0 else k + 1
  }

  /** Every slot is reached by fewer than `cap` probes from any home. */
  lemma {:induction false} ProbeReaches(w: Word, e: nat, cap: nat) returns (d: nat)
    requires e < cap
    ensures d < cap && Probe(w, d, cap) == e
  {
    var h := Probe(w, 0, cap);
    d := if h <= e then e - h else e + cap - h;
    ProbeFrom(w, d, cap);
  }

  lemma {:induction false} ProbeFrom(w: Word, d: nat, cap: nat)
    requires d < cap
    ensures var h := Probe(w, 0, cap);
      Probe(w, d, cap) == if h + d < cap then h + d else h + d - cap
  {
    if d > 0 { ProbeFrom(w, d - 1, cap); }
  }

  predicate Occupied(tab: seq<int>, w: Word, t: nat)
    requires |tab| > 0
  {
    tab[Probe(w, t, |tab|)] != -1
  }

  /** Entry `j` sits `dist[j]` probes from its home, and the probe path to it has no hole. */
  ghost predicate Placed(tab: seq<int>, uniq: seq<Word>, dist: seq<nat>, j: nat)
    requires |tab| > 0 && j < |uniq| == |dist|
  {
    && tab[Probe(uniq[j], dist[j], |tab|)] == j
    && forall t: nat | t <= dist[j] :: Occupied(tab, uniq[j], t)
  }

  /** How many of the first `n` slots are in use. */
  function UsedSlots(tab: seq<int>, n: nat): (c: nat)
    requires n <= |tab|
    ensures c <= n
  {
    if n == 0 then 0 else UsedSlots(tab, n - 1) + if tab[n - 1] != -1 then 1 else 0
  }

  ghost predicate AllPlaced(tab: seq<int>, uniq: seq<Word>, dist: seq<nat>)
    requires |tab| > 0 && |uniq| == |dist|
  {
    forall j | 0 <= j < |uniq| :: Placed(tab, uniq, dist, j)
  }

  ghost predicate TableOk(tab: seq<int>, uniq: seq<Word>, dist: seq<nat>) {
    && |tab| > 0 && |uniq| == |dist|
    && (forall k | 0 <= k < |tab| :: -1 <= tab[k] < |uniq|)
    && AllPlaced(tab, uniq, dist)
    && UsedSlots(tab, |tab|) == |uniq|
  }

  lemma {:induction false} FullPrefix(tab: seq<int>, n: nat)
    requires n <= |tab| && forall k: nat | k < n :: tab[k] != -1
    ensures UsedSlots(tab, n) == n
  {
    if n > 0 { FullPrefix(tab, n - 1); }
  }

  lemma {:induction false} NoneUsed(tab: seq<int>, n: nat)
    requires n <= |tab| && forall k: nat | k < n :: tab[k] == -1
    ensures UsedSlots(tab, n) == 0
  {
    if n > 0 { NoneUsed(tab, n - 1); }
  }

  /** A table with fewer entries than slots has an empty slot. */
  lemma HasHole(tab: seq<int>, uniq: seq<Word>, dist: seq<nat>) returns (e: nat)
    requires TableOk(tab, uniq, dist) && |uniq| < |tab|
    ensures e < |tab| && tab[e] == -1
  {
    if forall k: nat | k < |tab| :: tab[k] != -1 {
      FullPrefix(tab, |tab|);
      assert false;
    }
    e :| e < |tab| && tab[e] == -1;
  }

  /** Probe `t` for `w` met an entry holding another word. */
  ghost predicate Passed(tab: seq<int>, uniq: seq<Word>, w: Word, t: nat)
    requires |tab| > 0
  {
    var e := tab[Probe(w, t, |tab|)];
    0 <= e < |uniq| && uniq[e] != w
  }

  /** A miss is absence: if the probes before `d` met only other words and probe `d` found
      a hole, then the word is not stored at all. */
  lemma MissMeansAbsent(tab: seq<int>, uniq: seq<Word>, dist: seq<nat>, w: Word, d: nat)
    requires TableOk(tab, uniq, dist) && tab[Probe(w, d, |tab|)] == -1
    requires forall t: nat | t < d :: Passed(tab, uniq, w, t)
    ensures w !in uniq
  {
    forall j | 0 <= j < |uniq| ensures uniq[j] != w {
      assert Placed(tab, uniq, dist, j);
      assert dist[j] < d ==> Passed(tab, uniq, w, dist[j]);
      assert dist[j] >= d ==> Occupied(tab, uniq[j], d);
    }
  }

  lemma {:induction false} OneMoreUsed(tab: seq<int>, k: nat, v: int, n: nat)
    requires k < |tab| && tab[k] == -1 && v != -1 && n <= |tab|
    ensures UsedSlots(tab[k := v], n) == UsedSlots(tab, n) + if k < n then 1 else 0
  {
    if n > 0 { OneMoreUsed(tab, k, v, n - 1); }
  }

  lemma InsertKeepsPlaced(
    tab: seq<int>, uniq: seq<Word>, dist: seq<nat>, w: Word, d: nat, k: nat, j: nat)
    requires |tab| > 0 && j < |uniq| == |dist| && k < |tab| && tab[k] == -1
    requires Placed(tab, uniq, dist, j)
    ensures Placed(tab[k := |uniq|], uniq + [w], dist + [d], j)
  {
    var tab' := tab[k := |uniq|];
    forall t: nat | t <= dist[j] ensures Occupied(tab', uniq[j], t) {
      assert Occupied(tab, uniq[j], t);
    }
    assert Occupied(tab, uniq[j], dist[j]);
  }

  lemma InsertPlaces(
    tab: seq<int>, uniq: seq<Word>, dist: seq<nat>, w: Word, d: nat, k: nat)
    requires |tab| > 0 && |uniq| == |dist| && k == Probe(w, d, |tab|)
    requires forall t: nat | t < d :: Occupied(tab, w, t)
    ensures Placed(tab[k := |uniq|], uniq + [w], dist + [d], |uniq|)
  {
    var tab' := tab[k := |uniq|];
    forall t: nat | t <= d ensures Occupied(tab', w, t) {
      assert t < d ==> Occupied(tab, w, t);
    }
  }

  lemma InsertKeepsAllPlaced(
    tab: seq<int>, uniq: seq<Word>, dist: seq<nat>, w: Word, d: nat, k: nat)
    requires |tab| > 0 && |uniq| == |dist| && AllPlaced(tab, uniq, dist)
    requires k == Probe(w, d, |tab|) && tab[k] == -1
    requires forall t: nat | t < d :: Occupied(tab, w, t)
    ensures AllPlaced(tab[k := |uniq|], uniq + [w], dist + [d])
  {
    var tab', uniq', dist' := tab[k := |uniq|], uniq + [w], dist + [d];
    InsertPlaces(tab, uniq, dist, w, d, k);
    forall j | 0 <= j < |uniq'| ensures Placed(tab', uniq', dist', j) {
      if j < |uniq| {
        assert Placed(tab, uniq, dist, j);
        InsertKeepsPlaced(tab, uniq, dist, w, d, k, j);
      }
    }
  }

  /** Storing a new word in the hole its probe ended at keeps the table sound. */
  lemma InsertKeepsTable(
    tab: seq<int>, uniq: seq<Word>, dist: seq<nat>, w: Word, d: nat, k: nat)
    requires TableOk(tab, uniq, dist) && k == Probe(w, d, |tab|) && tab[k] == -1
    requires forall t: nat | t < d :: Occupied(tab, w, t)
    ensures TableOk(tab[k := |uniq|], uniq + [w], dist + [d])
  {
    InsertKeepsAllPlaced(tab, uniq, dist, w, d, k);
    OneMoreUsed(tab, k, |uniq|, |tab|);
  }

  /** The probe loop for one word: finds the word, or the hole where it belongs. */
  method FindSlot(tab: array<int>, uniq: array<Word>, u: nat, w: Word, ghost dist: seq<nat>)
    returns (k: nat, dup: bool, ghost d: nat)
    requires u <= uniq.Length && u < tab.Length && PowerOfTwo(tab.Length)
    requires TableOk(tab[..], uniq[..u], dist)
    ensures dup <==> w in uniq[..u]
    ensures !dup ==> k == Probe(w, d, tab.Length) && tab[k] == -1
    ensures !dup ==> forall t: nat | t < d :: Occupied(tab[..], w, t)
  {
    var cap := tab.Length;
    ghost var table, stored := tab[..], uniq[..u];
    var h := HashWord(w);
    k, d, dup := BitAnd(h, cap - 1), 0, false;
    MaskIsMod(h, cap);
    ghost var e := HasHole(table, stored, dist);
    ghost var far := ProbeReaches(w, e, cap);
    while tab[k] != -1
      invariant k == Probe(w, d, cap) && d <= far
      invariant forall t: nat | t < d :: Passed(table, stored, w, t)
      decreases far - d
    {
      if uniq[tab[k]] == w {
        assert stored[tab[k]] == w;
        dup := true;
        return;
      }
      assert Passed(table, stored, w, d);
      MaskWraps(k, cap);
      k := BitAnd(k + 1, cap - 1);
      d := d + 1;
    }
    MissMeansAbsent(table, stored, dist, w, d);
    forall t: nat | t < d ensures Occupied(table, w, t) {
      assert Passed(table, stored, w, t);
    }
  }

  method EmptyTable(cap: nat) returns (tab: array<int>)
    requires cap > 0
    ensures fresh(tab) && tab.Length == cap
    ensures TableOk(tab[..], [], [])
  {
    tab := new int[cap];
    for i := 0 to cap
      invariant forall k | 0 <= k < i :: tab[k] == -1
    {
      tab[i] := -1;
    }
    NoneUsed(tab[..], cap);
  }

  /** The loop body for one word: record it if it is new. */
  method AddWord(tab: array<int>, uniq: array<Word>, u: nat, w: Word, ghost dist: seq<nat>)
    returns (u': nat, ghost dist': seq<nat>)
    requires u < uniq.Length && u < tab.Length && PowerOfTwo(tab.Length)
    requires TableOk(tab[..], uniq[..u], dist)
    modifies tab, uniq
    ensures u' == (if w in old(uniq[..u]) then u else u + 1)
    ensures uniq[..u'] == old(uniq[..u]) + if w in old(uniq[..u]) then [] else [w]
    ensures TableOk(tab[..], uniq[..u'], dist')
  {
    ghost var seen, stored := tab[..], uniq[..u];
    var k, dup, d := FindSlot(tab, uniq, u, w, dist);
    u', dist' := u, dist;
    assert tab[..] == seen && uniq[..u] == stored;
    if !dup {
      InsertKeepsTable(seen, stored, dist, w, d, k);
      dist' := dist + [d];
      tab[k] := u;
      uniq[u] := w;
      u' := u + 1;
      assert tab[..] == seen[k := u];
      assert uniq[..u'] == stored + [w];
    }
  }

  /** The hash version. */
  method DedupHash(words: seq<Word>, uniq: array<Word>) returns (u: nat)
    requires |words| <= 0x2000_0000
    requires uniq.Length >= |words|
    modifies uniq
    ensures u <= uniq.Length && uniq[..u] == FirstOccurrences(words)
  {
    var cap := Capacity(|words|);
    var tab := EmptyTable(cap);
    ghost var dist: seq<nat> := [];
    u := 0;
    for i := 0 to |words|
      invariant u <= i
      invariant uniq[..u] == FirstOccurrences(words[..i])
      invariant TableOk(tab[..], uniq[..u], dist)
    {
      assert words[..i + 1][..i] == words[..i];
      u, dist := AddWord(tab, uniq, u, words[i], dist);
    }
    assert words[..|words|] == words;
  }
}
