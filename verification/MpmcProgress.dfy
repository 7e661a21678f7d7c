/**
 Progress of the ring: an exchange is lost only to another thread, a thread left alone finishes
 its call in a few steps, and a push may fail although the ring is not full.
 */
module MpmcProgress {
  import opened Bits
  import opened MpmcRing

  // ----- why an exchange fails

  /** The position a thread loaded is the next one to claim, or somebody else claimed it since. */
  predicate LoadedOk<T>(s: Ring<T>, t: Tid) {
    match At(s, t)
    case PushCheck(_, pos) => pos <= |s.claims| && (pos < |s.claims| ==> s.claims[pos].0 != t)
    case PushCas(_, pos) => pos <= |s.claims| && (pos < |s.claims| ==> s.claims[pos].0 != t)
    case PopCheck(pos) => pos <= |s.takes| && (pos < |s.takes| ==> s.takes[pos] != t)
    case PopCas(pos) => pos <= |s.takes| && (pos < |s.takes| ==> s.takes[pos] != t)
    case _ => true
  }

  /** What a step adds to the history, it adds in the name of its thread. */
  lemma AddsOwn<T>(s: Ring<T>, a: Action<T>, p: nat)
    requires Shape(s)
    ensures |s.claims| <= p < |Step(s, a).claims| ==> Step(s, a).claims[p].0 == a.t
    ensures |s.takes| <= p < |Step(s, a).takes| ==> Step(s, a).takes[p] == a.t
  {
    match At(s, a.t)
    case PushCas(_, _) =>
    case PopCas(_) =>
    case _ =>
  }

  lemma OthersKeepLoaded<T>(s: Ring<T>, a: Action<T>, t: Tid)
    requires Shape(s) && LoadedOk(s, t) && a.t != t
    ensures LoadedOk(Step(s, a), t)
  {
    OtherStays(s, a, t);
    StepExtendsHistory(s, a);
    var c := At(s, t);
    if c.PushCheck? || c.PushCas? || c.PopCheck? || c.PopCas? {
      AddsOwn(s, a, c.pos);
    }
  }

  lemma OwnStepKeepsLoaded<T>(s: Ring<T>, a: Action<T>)
    requires Inv(s) && LoadedOk(s, a.t)
    ensures LoadedOk(Step(s, a), a.t)
  {
  }

  lemma {:induction false} ReachableLoaded<T>(cap: nat, fill: T, acts: seq<Action<T>>, t: Tid)
    requires ValidCapacity(cap)
    ensures LoadedOk(Run(Init(cap, fill), acts), t)
    decreases |acts|
  {
    if acts != [] {
      var before, a := acts[..|acts| - 1], acts[|acts| - 1];
      ReachableLoaded(cap, fill, before, t);
      ReachableInv(cap, fill, before);
      var s := Run(Init(cap, fill), before);
      if a.t == t { OwnStepKeepsLoaded(s, a); } else { OthersKeepLoaded(s, a, t); }
    }
  }

  /** A compare-exchange that does not fail spuriously succeeds exactly if the position is still
      the next one, and otherwise another thread has claimed it in the meantime. */
  ghost predicate ExchangeExplained<T>(s: Ring<T>, t: Tid)
    requires Shape(s)
  {
    var r := Step(s, Advance(t, false));
    match At(s, t)
    case PushCas(v, pos) =>
      && (At(r, t) == PushWrite(v, pos) <==> pos == s.enq)
      && (pos != s.enq ==>
            pos < s.enq == |s.claims| && s.claims[pos].0 != t && At(r, t) == PushCheck(v, s.enq))
    case PopCas(pos) =>
      && (At(r, t) == PopRead(pos) <==> pos == s.deq)
      && (pos != s.deq ==>
            pos < s.deq == |s.takes| && s.takes[pos] != t && At(r, t) == PopCheck(s.deq))
    case _ => true
  }

  /** In every interleaving a lost exchange is another thread's progress. */
  lemma LostToAnother<T>(cap: nat, fill: T, acts: seq<Action<T>>, t: Tid)
    requires ValidCapacity(cap)
    ensures ExchangeExplained(Run(Init(cap, fill), acts), t)
  {
    ReachableInv(cap, fill, acts);
    ReachableLoaded(cap, fill, acts, t);
  }

  // ----- a thread left alone

  /** How many steps a thread needs at most to finish its call alone: two more if the position it
      holds is stale. */
  function SoloLeft<T>(s: Ring<T>, t: Tid): (n: nat)
    ensures n <= 6
  {
    match At(s, t)
    case Idle => 0
    case PushLoad(_) => 5
    case PushCheck(_, pos) => if pos == s.enq then 4 else 6
    case PushCas(_, pos) => if pos == s.enq then 3 else 5
    case PushWrite(_, _) => 2
    case PushPublish(_, _) => 1
    case PopLoad => 5
    case PopCheck(pos) => if pos == s.deq then 4 else 6
    case PopCas(pos) => if pos == s.deq then 3 else 5
    case PopRead(_) => 2
    case PopRelease(_, _) => 1
  }

  /** At the next position to claim, a producer never finds the cell already ahead. */
  lemma NotAheadPush<T>(s: Ring<T>)
    requires Inv(s)
    ensures s.cells[s.enq % s.cap].sequence <= s.enq
  {
    var i := s.enq % s.cap;
    assert CellOk(s, i);
    var p := Gen(s, i);
    if s.enq < p { SameSlotApart(s.enq, p, s.cap); }
  }

  lemma NotAheadPop<T>(s: Ring<T>)
    requires Inv(s)
    ensures s.cells[s.deq % s.cap].sequence <= s.deq + 1
  {
    var i := s.deq % s.cap;
    assert CellOk(s, i);
    var p := Gen(s, i);
    if s.deq < p { SameSlotApart(s.deq, p, s.cap); }
  }

  lemma SoloStep<T>(s: Ring<T>, t: Tid)
    requires Inv(s) && !At(s, t).Idle?
    ensures SoloLeft(Step(s, Advance(t, false)), t) < SoloLeft(s, t)
  {
    NotAheadPush(s);
    NotAheadPop(s);
  }

  /** `n` steps of thread `t` and nobody else. */
  function Alone<T>(t: Tid, n: nat): seq<Action<T>> {
    if n == 0 then [] else Alone(t, n - 1) + [Advance(t, false)]
  }

  lemma AloneStep<T>(s: Ring<T>, t: Tid, n: nat)
    requires Shape(s) && n > 0
    ensures Run(s, Alone(t, n)) == Step(Run(s, Alone(t, n - 1)), Advance(t, false))
  {
    var acts, before: seq<Action<T>> := Alone(t, n), Alone(t, n - 1);
    assert acts[..|acts| - 1] == before && acts[|acts| - 1] == Advance(t, false);
  }

  lemma IdleStays<T>(s: Ring<T>, t: Tid)
    requires Shape(s) && At(s, t).Idle?
    ensures Step(s, Advance(t, false)) == s
  {
  }

  lemma {:induction false} SoloAfter<T>(s: Ring<T>, t: Tid, n: nat)
    requires Inv(s)
    ensures var r := Run(s, Alone(t, n)); At(r, t).Idle? || SoloLeft(r, t) + n <= SoloLeft(s, t)
  {
    if n > 0 {
      SoloAfter(s, t, n - 1);
      AloneStep(s, t, n);
      RunKeepsInv(s, Alone(t, n - 1));
      var r := Run(s, Alone(t, n - 1));
      if At(r, t).Idle? { IdleStays(r, t); } else { SoloStep(r, t); }
    }
  }

  lemma LeftMeansBusy<T>(s: Ring<T>, t: Tid)
    ensures SoloLeft(s, t) == 0 ==> At(s, t).Idle?
  {
  }

  /** From every reachable state a thread that runs alone, without spurious failures, has finished
      its call after six steps: nobody has to be waited for. */
  lemma FinishesAlone<T>(cap: nat, fill: T, acts: seq<Action<T>>, t: Tid)
    requires ValidCapacity(cap)
    ensures At(Run(Init(cap, fill), acts + Alone(t, 6)), t).Idle?
  {
    var s := Run(Init(cap, fill), acts);
    ReachableInv(cap, fill, acts);
    SoloAfter(s, t, 6);
    LeftMeansBusy(Run(s, Alone(t, 6)), t);
    RunAppend(Init(cap, fill), acts, Alone(t, 6));
  }

  // ----- a failed push does not mean a full ring

  /** Left alone, a consumer that finds its cell full claims the next position. */
  lemma SoloTake<T>(s: Ring<T>, t: Tid) returns (acts: seq<Action<T>>)
    requires Shape(s) && At(s, t).Idle? && s.cells[s.deq % s.cap].sequence == s.deq + 1
    ensures Run(s, acts) == s.(
      deq := s.deq + 1, takes := s.takes + [t], pc := s.pc[t := PopRead(s.deq)])
  {
    var go: Action<T> := Advance(t, false);
    acts := [StartPop(t), go] + [go, go];
    RunTwo(s, StartPop(t), go);
    var s2 := Run(s, [StartPop(t), go]);
    assert s2.pc == s.pc[t := PopCheck(s.deq)];
    RunTwo(s2, go, go);
    RunAppend(s, [StartPop(t), go], [go, go]);
    assert Run(s, acts).pc == s.pc[t := PopRead(s.deq)];
  }

  /** Left alone, a consumer that holds a position frees its cell. */
  lemma SoloFree<T>(s: Ring<T>, t: Tid, pos: nat) returns (acts: seq<Action<T>>)
    requires Shape(s) && At(s, t) == PopRead(pos)
    ensures var r := Run(s, acts);
      && r.enq == s.enq && r.deq == s.deq
      && r.cells == s.cells[pos % s.cap := s.cells[pos % s.cap].(sequence := pos + s.cap)]
      && forall w | w != t :: At(r, w) == At(s, w)
  {
    var go: Action<T> := Advance(t, false);
    acts := [go, go];
    RunTwo(s, go, go);
    var s1 := Step(s, go);
    assert s1.cells == s.cells && At(s1, t).PopRelease? && At(s1, t).pos == pos;
    OtherStays2(s, go, go, t);
  }

  lemma OtherStays2<T>(s: Ring<T>, a: Action<T>, b: Action<T>, t: Tid)
    requires Shape(s) && a.t == t && b.t == t
    ensures forall w | w != t :: At(Step(Step(s, a), b), w) == At(s, w)
  {
    forall w | w != t ensures At(Step(Step(s, a), b), w) == At(s, w) {
      OtherStays(s, a, w);
      OtherStays(Step(s, a), b, w);
    }
  }

  lemma SoloPop<T>(s: Ring<T>, t: Tid) returns (acts: seq<Action<T>>)
    requires Shape(s) && At(s, t).Idle? && s.cells[s.deq % s.cap].sequence == s.deq + 1
    ensures var r := Run(s, acts);
      && r.enq == s.enq && r.deq == s.deq + 1
      && r.cells == s.cells[s.deq % s.cap := s.cells[s.deq % s.cap].(sequence := s.deq + s.cap)]
      && forall w | w != t :: At(r, w) == At(s, w)
  {
    var a := SoloTake(s, t);
    var s1 := Run(s, a);
    var b := SoloFree(s1, t, s.deq);
    assert Run(s1, b).cells == s.cells[s.deq % s.cap := s.cells[s.deq % s.cap].(sequence := s.deq + s.cap)];
    acts := a + b;
    RunAppend(s, a, b);
  }

  /** Thread `t` claims the oldest position and stalls; thread `u` removes the next one. */
  lemma StalledThenPopped<T>(s: Ring<T>, t: Tid, u: Tid) returns (acts: seq<Action<T>>)
    requires Shape(s) && At(s, t).Idle? && At(s, u).Idle? && t != u
    requires s.cells[s.deq % s.cap].sequence == s.deq + 1
    requires s.cells[(s.deq + 1) % s.cap].sequence == s.deq + 2
    ensures var r := Run(s, acts);
      && r.enq == s.enq && r.deq == s.deq + 2
      && r.cells[s.deq % s.cap].sequence == s.deq + 1
      && r.cells[(s.deq + 1) % s.cap].sequence == s.deq + 1 + s.cap
      && forall w | w != t && w != u :: At(r, w) == At(s, w)
  {
    NextSlotDiffers(s.deq, s.cap);
    var a := SoloTake(s, t);
    var s1 := Run(s, a);
    var b := SoloPop(s1, u);
    acts := a + b;
    RunAppend(s, a, b);
  }

  /** A push whose cell is not free loads the position and then fails. */
  lemma SoloPushFails<T>(s: Ring<T>, w: Tid, v: T) returns (acts: seq<Action<T>>)
    requires Shape(s) && At(s, w).Idle? && s.cells[s.enq % s.cap].sequence < s.enq
    ensures At(Run(s, acts), w) == PushCheck(v, s.enq)
    ensures Run(s, acts).cells == s.cells && Run(s, acts).deq == s.deq && Run(s, acts).enq == s.enq
    ensures At(Step(Run(s, acts), Advance(w, false)), w).Idle?
  {
    acts := [StartPush(w, v), Advance(w, false)];
    RunTwo(s, StartPush(w, v), Advance(w, false));
  }

  lemma PushFailsBehindStall<T>(s: Ring<T>, t: Tid, u: Tid, w: Tid, v: T) returns (acts: seq<Action<T>>)
    requires Shape(s) && At(s, t).Idle? && At(s, u).Idle? && At(s, w).Idle?
    requires t != u && u != w && t != w && s.enq == s.deq + s.cap
    requires s.cells[s.deq % s.cap].sequence == s.deq + 1
    requires s.cells[(s.deq + 1) % s.cap].sequence == s.deq + 2
    ensures At(Run(s, acts), w) == PushCheck(v, s.enq)
    ensures At(Step(Run(s, acts), Advance(w, false)), w).Idle?
    ensures Run(s, acts).enq == s.enq && Run(s, acts).deq == s.deq + 2
    ensures Run(s, acts).cells[(s.deq + 1) % s.cap].sequence == s.deq + 1 + s.cap
  {
    SameSlotNextLap(s.deq, s.cap);
    var a := StalledThenPopped(s, t, u);
    var d := SoloPushFails(Run(s, a), w, v);
    acts := a + d;
    RunAppend(s, a, d);
  }

  /** A failed push does not mean a full ring. From every full ring: thread `t` claims the oldest
      position and stalls, thread `u` completes the pop behind it, and the push of thread `w` fails
      although two positions are claimed for removal and the cell that `u` emptied is free. */
  lemma FalseIsNotFull<T>(s: Ring<T>, t: Tid, u: Tid, w: Tid, v: T) returns (acts: seq<Action<T>>)
    requires Inv(s) && Quiescent(s) && s.enq == s.deq + s.cap
    requires t != u && u != w && t != w
    ensures At(Run(s, acts), w) == PushCheck(v, s.enq)
    ensures At(Step(Run(s, acts), Advance(w, false)), w).Idle?
    ensures Run(s, acts).enq - Run(s, acts).deq == s.cap - 2
    ensures Run(s, acts).cells[(s.deq + 1) % s.cap].sequence == s.deq + 1 + s.cap
  {
    IdleStored(s, s.deq);
    IdleStored(s, s.deq + 1);
    acts := PushFailsBehindStall(s, t, u, w, v);
  }
}
