/**
 Whose values the ring holds: every claimed position belongs to one call of `try_push`, and the
 value claimed for it is the argument of that call, however often the call had to retry.
 */
module MpmcCalls {
  import opened MpmcRing

  /** Action `a` begins a push: thread `t` calls `try_push` while it is in no call. */
  predicate Begins<T>(s: Ring<T>, a: Action<T>, t: Tid) {
    a.StartPush? && a.t == t && At(s, t).Idle?
  }

  /** The place in the run of the last `try_push` that thread `t` began, or -1. */
  function LastCall<T>(s: Ring<T>, acts: seq<Action<T>>, t: Tid): (k: int)
    requires Shape(s)
    ensures -1 <= k < |acts|
    decreases |acts|
  {
    if acts == [] then -1
    else
      var before := acts[..|acts| - 1];
      if Begins(Run(s, before), acts[|acts| - 1], t) then |before| else LastCall(s, before, t)
  }

  /** For each position claimed in the run, the call that its claimant was in. */
  function Callers<T>(s: Ring<T>, acts: seq<Action<T>>): seq<int>
    requires Shape(s)
    decreases |acts|
  {
    if acts == [] then []
    else
      var before, a := acts[..|acts| - 1], acts[|acts| - 1];
      if |Run(s, acts).claims| > |Run(s, before).claims| then Callers(s, before) + [LastCall(s, before, a.t)]
      else Callers(s, before)
  }

  /** Place `k` of the run is a call of `try_push(v)` by thread `t`. */
  ghost predicate IsCall<T>(acts: seq<Action<T>>, k: int, t: Tid, v: T) {
    0 <= k < |acts| && acts[k] == StartPush(t, v)
  }

  predicate BeforeClaim<T>(c: Pc<T>) {
    c.PushLoad? || c.PushCheck? || c.PushCas?
  }

  predicate InPush<T>(c: Pc<T>) {
    BeforeClaim(c) || c.PushWrite? || c.PushPublish?
  }

  /** A thread inside `try_push` carries the argument of its last call, and that call has claimed
      nothing before the exchange. */
  ghost predicate CarriesArgument<T>(s: Ring<T>, acts: seq<Action<T>>, t: Tid)
    requires Shape(s)
  {
    var c := At(Run(s, acts), t);
    var k := LastCall(s, acts, t);
    && (InPush(c) ==> IsCall(acts, k, t, c.v))
    && (BeforeClaim(c) ==> k !in Callers(s, acts))
  }

  ghost predicate ClaimIsCall<T>(s: Ring<T>, acts: seq<Action<T>>, p: nat)
    requires Shape(s)
  {
    var r, cs := Run(s, acts), Callers(s, acts);
    |cs| == |r.claims| && (p < |cs| ==> IsCall(acts, cs[p], r.claims[p].0, r.claims[p].1))
  }

  ghost predicate Distinct(cs: seq<int>) {
    forall p, q | 0 <= p < q < |cs| :: cs[p] != cs[q]
  }

  ghost predicate CallsOk<T>(s: Ring<T>, acts: seq<Action<T>>)
    requires Shape(s)
  {
    && (forall t: Tid :: CarriesArgument(s, acts, t))
    && (forall p: nat :: ClaimIsCall(s, acts, p))
    && Distinct(Callers(s, acts))
  }

  /** What one step does to the claims: nothing, or one claim by a thread about to exchange. */
  lemma StepClaims<T>(s: Ring<T>, a: Action<T>)
    requires Shape(s)
    ensures var c, r := At(s, a.t), Step(s, a);
      || r.claims == s.claims
      || (c.PushCas? && r.claims == s.claims + [(a.t, c.v)] && At(r, a.t) == PushWrite(c.v, c.pos))
  {
    match At(s, a.t)
    case PushCas(_, _) =>
    case _ =>
  }

  /** What one step does to its thread: it begins a call, or it goes on with the same argument. */
  lemma StepCarries<T>(s: Ring<T>, a: Action<T>)
    requires Shape(s)
    ensures var c, d := At(s, a.t), At(Step(s, a), a.t);
      if Begins(s, a, a.t) then d == PushLoad(a.v)
      else (InPush(d) ==> InPush(c) && d.v == c.v) && (BeforeClaim(d) ==> BeforeClaim(c))
  {
    if a.Advance? && (At(s, a.t).Idle? || !InPush(At(s, a.t))) {
      PopStepStays(s, a);
    }
  }

  lemma PopStepStays<T>(s: Ring<T>, a: Action<T>)
    requires Shape(s) && a.Advance? && !InPush(At(s, a.t))
    ensures !InPush(At(Step(s, a), a.t))
  {
  }

  lemma LastSplit<T>(s: Ring<T>, before: seq<Action<T>>, a: Action<T>, t: Tid)
    requires Shape(s)
    ensures Run(s, before + [a]) == Step(Run(s, before), a)
    ensures LastCall(s, before + [a], t) ==
      if Begins(Run(s, before), a, t) then |before| else LastCall(s, before, t)
    ensures Callers(s, before + [a]) == Callers(s, before) +
      if |Step(Run(s, before), a).claims| > |Run(s, before).claims| then [LastCall(s, before, a.t)] else []
  {
    var acts := before + [a];
    assert acts[..|acts| - 1] == before;
  }

  lemma CallersBefore<T>(s: Ring<T>, acts: seq<Action<T>>, k: int)
    requires Shape(s) && CallsOk(s, acts) && k in Callers(s, acts)
    ensures 0 <= k < |acts|
  {
    var p :| 0 <= p < |Callers(s, acts)| && Callers(s, acts)[p] == k;
    assert ClaimIsCall(s, acts, p);
  }

  lemma OwnStepCarries<T>(s: Ring<T>, before: seq<Action<T>>, a: Action<T>)
    requires Shape(s) && CallsOk(s, before)
    ensures CarriesArgument(s, before + [a], a.t)
  {
    var r, n := Run(s, before), |before|;
    LastSplit(s, before, a, a.t);
    StepClaims(r, a);
    StepCarries(r, a);
    if Begins(r, a, a.t) {
      if n in Callers(s, before) { CallersBefore(s, before, n); }
    } else {
      assert CarriesArgument(s, before, a.t);
    }
  }

  lemma OtherStepCarries<T>(s: Ring<T>, before: seq<Action<T>>, a: Action<T>, t: Tid)
    requires Shape(s) && CallsOk(s, before) && a.t != t
    ensures CarriesArgument(s, before + [a], t)
  {
    LastSplit(s, before, a, t);
    StepClaims(Run(s, before), a);
    OtherStays(Run(s, before), a, t);
    assert CarriesArgument(s, before, t) && CarriesArgument(s, before, a.t);
  }

  lemma StepKeepsClaims<T>(s: Ring<T>, before: seq<Action<T>>, a: Action<T>, p: nat)
    requires Shape(s) && CallsOk(s, before)
    ensures ClaimIsCall(s, before + [a], p)
  {
    LastSplit(s, before, a, a.t);
    StepClaims(Run(s, before), a);
    assert CarriesArgument(s, before, a.t) && ClaimIsCall(s, before, p);
  }

  lemma StepKeepsDistinct<T>(s: Ring<T>, before: seq<Action<T>>, a: Action<T>)
    requires Shape(s) && CallsOk(s, before)
    ensures Distinct(Callers(s, before + [a]))
  {
    LastSplit(s, before, a, a.t);
    StepClaims(Run(s, before), a);
    assert CarriesArgument(s, before, a.t);
  }

  lemma {:induction false} RunKeepsCalls<T>(cap: nat, fill: T, acts: seq<Action<T>>)
    requires ValidCapacity(cap)
    ensures CallsOk(Init(cap, fill), acts)
    decreases |acts|
  {
    var s := Init(cap, fill);
    if acts != [] {
      var before, a := acts[..|acts| - 1], acts[|acts| - 1];
      assert acts == before + [a];
      RunKeepsCalls(cap, fill, before);
      forall t: Tid ensures CarriesArgument(s, acts, t) {
        if t == a.t { OwnStepCarries(s, before, a); } else { OtherStepCarries(s, before, a, t); }
      }
      forall p: nat ensures ClaimIsCall(s, acts, p) { StepKeepsClaims(s, before, a, p); }
      StepKeepsDistinct(s, before, a);
    }
  }

  /** In every run, each claimed position was claimed by a call of its own, with the argument of
      that call: nothing is pushed that was not given, and no argument is pushed twice. */
  lemma PushesAreCalls<T>(cap: nat, fill: T, acts: seq<Action<T>>)
    requires ValidCapacity(cap)
    ensures var s, cs := Run(Init(cap, fill), acts), Callers(Init(cap, fill), acts);
      && |cs| == |s.claims|
      && (forall p | 0 <= p < |cs| :: IsCall(acts, cs[p], s.claims[p].0, s.claims[p].1))
      && (forall p, q | 0 <= p < q < |cs| :: cs[p] != cs[q])
  {
    RunKeepsCalls(cap, fill, acts);
    var cs := Callers(Init(cap, fill), acts);
    assert ClaimIsCall(Init(cap, fill), acts, 0);
    forall p: nat | p < |cs|
      ensures var s := Run(Init(cap, fill), acts); IsCall(acts, cs[p], s.claims[p].0, s.claims[p].1)
    {
      assert ClaimIsCall(Init(cap, fill), acts, p);
    }
  }

  /** At every point of every push, retries included, a thread carries the argument of the call it
      is in. */
  lemma ArgumentKept<T>(cap: nat, fill: T, acts: seq<Action<T>>, t: Tid)
    requires ValidCapacity(cap)
    ensures var c := At(Run(Init(cap, fill), acts), t);
      c.PushLoad? || c.PushCheck? || c.PushCas? || c.PushWrite? || c.PushPublish? ==>
        IsCall(acts, LastCall(Init(cap, fill), acts, t), t, c.v)
  {
    RunKeepsCalls(cap, fill, acts);
    assert CarriesArgument(Init(cap, fill), acts, t);
  }
}
