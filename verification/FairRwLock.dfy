/**
 The FIFO reader-writer lock: one queue of waiters, granted one writer or one run of readers
 at a time. Every public operation runs under the internal mutex, so it is one step here;
 a caller is through `lock` or `lock_shared` once its request is in `granted`.
 */
module FairRwLock {

  datatype Request = Request(id: nat, writer: bool)

  /** The lock's fields; `granted` lists the waiters whose flag was set, oldest first. */
  datatype Core = Core(
    waiters: seq<Request>,
    activeReaders: nat,
    writerActive: bool,
    granted: seq<Request>)

  function GrantReaders(c: Core): Core
    decreases |c.waiters|
  {
    if c.waiters != [] && !c.waiters[0].writer then
      GrantReaders(Core(c.waiters[1..], c.activeReaders + 1, c.writerActive,
                        c.granted + [c.waiters[0]]))
    else c
  }

  function Grant(c: Core): Core {
    if c.writerActive || c.activeReaders != 0 || c.waiters == [] then c
    else if c.waiters[0].writer then
      Core(c.waiters[1..], c.activeReaders, true, c.granted + [c.waiters[0]])
    else GrantReaders(c)
  }

  function Enqueue(c: Core, r: Request): Core {
    Grant(c.(waiters := c.waiters + [r]))
  }

  function ReleaseReader(c: Core): Core
    requires c.activeReaders > 0
  {
    var d := c.(activeReaders := c.activeReaders - 1);
    if d.activeReaders == 0 then Grant(d) else d
  }

  function ReleaseWriter(c: Core): Core {
    Grant(c.(writerActive := false))
  }

  // ----- the class

  class Lock {
    var waiters: seq<Request>
    var activeReaders: nat
    var writerActive: bool
    var granted: seq<Request>

    constructor ()
      ensures View() == Core([], 0, false, [])
    {
      waiters, activeReaders, writerActive, granted := [], 0, false, [];
    }

    function View(): Core
      reads this
    {
      Core(waiters, activeReaders, writerActive, granted)
    }

    method GrantWaiters()
      modifies this
      ensures View() == Grant(old(View()))
    {
      if writerActive || activeReaders != 0 || waiters == [] {
        return;
      }
      if waiters[0].writer {
        var waiter := waiters[0];
        waiters := waiters[1..];
        writerActive := true;
        granted := granted + [waiter];
        return;
      }
      while waiters != [] && !waiters[0].writer
        invariant GrantReaders(View()) == GrantReaders(old(View()))
        decreases |waiters|
      {
        var waiter := waiters[0];
        waiters := waiters[1..];
        activeReaders := activeReaders + 1;
        granted := granted + [waiter];
      }
    }

    /** `lock` when `r.writer`, otherwise `lock_shared`, up to the wait for the grant. */
    method Acquire(r: Request)
      modifies this
      ensures View() == Enqueue(old(View()), r)
    {
      waiters := waiters + [r];
      GrantWaiters();
    }

    method UnlockShared()
      requires activeReaders > 0
      modifies this
      ensures View() == ReleaseReader(old(View()))
    {
      activeReaders := activeReaders - 1;
      if activeReaders == 0 {
        GrantWaiters();
      }
    }

    method Unlock()
      modifies this
      ensures View() == ReleaseWriter(old(View()))
    {
      writerActive := false;
      GrantWaiters();
    }
  }

  // ----- runs of the lock

  /** The lock with the history of its callers: who ever asked, and who is inside now. */
  datatype State = State(core: Core, arrivals: seq<Request>, holding: set<Request>)

  datatype Action = Arrive(r: Request) | Release(r: Request)

  const Start := State(Core([], 0, false, []), [], {})

  function Granted(c: Core, d: Core): set<Request> {
    set r | r in d.granted && r !in c.granted
  }

  predicate Fresh(s: State, r: Request) {
    forall q | q in s.arrivals :: q.id != r.id
  }

  /** One call. A caller releases only what it holds, in the mode it holds it. */
  function Step(s: State, a: Action): State {
    match a
    case Arrive(r) =>
      if !Fresh(s, r) then s
      else
        var d := Enqueue(s.core, r);
        State(d, s.arrivals + [r], s.holding + Granted(s.core, d))
    case Release(r) =>
      if r !in s.holding || (!r.writer && s.core.activeReaders == 0) then s
      else
        var d := if r.writer then ReleaseWriter(s.core) else ReleaseReader(s.core);
        State(d, s.arrivals, s.holding - {r} + Granted(s.core, d))
  }

  function Run(s: State, acts: seq<Action>): State
    decreases |acts|
  {
    if acts == [] then s else Step(Run(s, acts[..|acts| - 1]), acts[|acts| - 1])
  }

  ghost predicate Distinct(q: seq<Request>) {
    forall i, j | 0 <= i < j < |q| :: q[i].id != q[j].id
  }

  predicate Idle(c: Core) {
    !c.writerActive && c.activeReaders == 0
  }

  /** A lone writer, or `activeReaders` readers and no writer. */
  ghost predicate HoldersOk(c: Core, holding: set<Request>) {
    && (forall r | r in holding :: r in c.granted)
    && (c.writerActive ==> c.activeReaders == 0 && |holding| == 1 && forall r | r in holding :: r.writer)
    && (!c.writerActive ==> |holding| == c.activeReaders && forall r | r in holding :: !r.writer)
  }

  ghost predicate Inv(s: State) {
    && s.arrivals == s.core.granted + s.core.waiters
    && Distinct(s.arrivals)
    && HoldersOk(s.core, s.holding)
    && (Idle(s.core) ==> s.core.waiters == [])
  }

  /** A batch grant takes a run of readers off the front, and stops at a writer or at the end. */
  lemma {:induction false} GrantReadersTakes(c: Core) returns (n: nat)
    requires !c.writerActive
    ensures n <= |c.waiters|
    ensures GrantReaders(c) ==
      Core(c.waiters[n..], c.activeReaders + n, false, c.granted + c.waiters[..n])
    ensures forall i | 0 <= i < n :: !c.waiters[i].writer
    ensures n == |c.waiters| || c.waiters[n].writer
    decreases |c.waiters|
  {
    if c.waiters != [] && !c.waiters[0].writer {
      var d := Core(c.waiters[1..], c.activeReaders + 1, false, c.granted + [c.waiters[0]]);
      var m := GrantReadersTakes(d);
      n := m + 1;
      assert c.waiters[n..] == d.waiters[m..];
      assert c.granted + c.waiters[..n] == d.granted + d.waiters[..m];
    } else {
      n := 0;
      assert c.granted + c.waiters[..0] == c.granted;
    }
  }

  /** A grant moves `n` requests off the front: none if the lock is taken or nobody waits,
      otherwise one writer or the longest run of readers. */
  lemma GrantTakes(c: Core) returns (n: nat)
    ensures n <= |c.waiters|
    ensures Grant(c).waiters == c.waiters[n..] && Grant(c).granted == c.granted + c.waiters[..n]
    ensures !Idle(c) || c.waiters == [] ==> n == 0 && Grant(c) == c
    ensures Idle(c) && c.waiters != [] ==> n >= 1 && !Idle(Grant(c))
    ensures Idle(c) && c.waiters != [] && c.waiters[0].writer ==>
      n == 1 && Grant(c).writerActive && Grant(c).activeReaders == 0
    ensures Idle(c) && c.waiters != [] && !c.waiters[0].writer ==>
      && !Grant(c).writerActive && Grant(c).activeReaders == n
      && (forall i | 0 <= i < n :: !c.waiters[i].writer)
      && (n == |c.waiters| || c.waiters[n].writer)
  {
    if !Idle(c) || c.waiters == [] {
      n := 0;
      assert c.granted + c.waiters[..0] == c.granted;
    } else if c.waiters[0].writer {
      n := 1;
    } else {
      n := GrantReadersTakes(c);
    }
  }

  lemma {:induction false} DistinctCount(q: seq<Request>)
    requires Distinct(q)
    ensures |set r | r in q| == |q|
  {
    if q != [] {
      DistinctCount(q[1..]);
      assert (set r | r in q) == (set r | r in q[1..]) + {q[0]};
    }
  }

  lemma BatchIsNew(granted: seq<Request>, batch: seq<Request>, rest: seq<Request>)
    requires Distinct(granted + batch + rest)
    ensures Distinct(batch)
    ensures forall r | r in batch :: r !in granted
  {
    var all := granted + batch + rest;
    assert forall i | 0 <= i < |batch| :: batch[i] == all[|granted| + i];
    assert forall j | 0 <= j < |granted| :: granted[j] == all[j];
  }

  /** The holders after a grant, given the holders and queue before it. */
  lemma GrantKeepsHolders(c: Core, holding: set<Request>, arrivals: seq<Request>)
    requires arrivals == c.granted + c.waiters && Distinct(arrivals) && HoldersOk(c, holding)
    ensures HoldersOk(Grant(c), holding + Granted(c, Grant(c)))
    ensures arrivals == Grant(c).granted + Grant(c).waiters
    ensures Idle(Grant(c)) ==> Grant(c).waiters == []
  {
    var n := GrantTakes(c);
    var d := Grant(c);
    var batch := c.waiters[..n];
    assert arrivals == c.granted + batch + c.waiters[n..];
    BatchIsNew(c.granted, batch, c.waiters[n..]);
    assert Granted(c, d) == set r | r in batch;
    DistinctCount(batch);
    if n > 0 {
      assert holding == {};
      assert holding + Granted(c, d) == Granted(c, d);
      if c.waiters[0].writer { assert batch == [c.waiters[0]]; }
    } else {
      assert holding + Granted(c, d) == holding;
    }
  }

  lemma ArriveKeepsInv(s: State, r: Request)
    requires Inv(s) && Fresh(s, r)
    ensures Inv(Step(s, Arrive(r)))
  {
    var c := s.core.(waiters := s.core.waiters + [r]);
    assert s.arrivals + [r] == c.granted + c.waiters;
    GrantKeepsHolders(c, s.holding, s.arrivals + [r]);
  }

  lemma ReleaseKeepsInv(s: State, r: Request)
    requires Inv(s) && r in s.holding && (r.writer || s.core.activeReaders != 0)
    ensures Inv(Step(s, Release(r)))
  {
    var c := if r.writer then s.core.(writerActive := false)
             else s.core.(activeReaders := s.core.activeReaders - 1);
    assert |s.holding - {r}| == |s.holding| - 1;
    assert HoldersOk(c, s.holding - {r});
    GrantKeepsHolders(c, s.holding - {r}, s.arrivals);
    if !r.writer && c.activeReaders != 0 {
      var n := GrantTakes(c);
      assert s.holding - {r} + Granted(s.core, c) == s.holding - {r};
    }
  }

  lemma StepKeepsInv(s: State, a: Action)
    requires Inv(s)
    ensures Inv(Step(s, a))
  {
    match a
    case Arrive(r) => if Fresh(s, r) { ArriveKeepsInv(s, r); }
    case Release(r) =>
      if r in s.holding && (r.writer || s.core.activeReaders != 0) { ReleaseKeepsInv(s, r); }
  }

  lemma {:induction false} SubsetCard<T>(a: set<T>, b: set<T>)
    requires a <= b
    ensures |a| <= |b|
  {
    assert b == a + (b - a);
  }

  lemma {:induction false} ReachableInv(acts: seq<Action>)
    ensures Inv(Run(Start, acts))
    decreases |acts|
  {
    if acts != [] {
      ReachableInv(acts[..|acts| - 1]);
      StepKeepsInv(Run(Start, acts[..|acts| - 1]), acts[|acts| - 1]);
    }
  }

  // ----- what every run guarantees

  /** A writer inside is alone inside; readers share only with readers. */
  lemma WriterExclusion(acts: seq<Action>, q: Request, r: Request)
    ensures var s := Run(Start, acts);
      q in s.holding && r in s.holding && q.writer ==> q == r
  {
    ReachableInv(acts);
    var s := Run(Start, acts);
    if q in s.holding && r in s.holding && q != r {
      SubsetCard({q, r}, s.holding);
    }
  }

  /** The lock is never free while somebody waits. */
  lemma NeverIdleWithWaiters(acts: seq<Action>)
    ensures var s := Run(Start, acts); s.core.waiters != [] ==> s.holding != {}
  {
    ReachableInv(acts);
  }

  /** Any call appends at most its own request to the queue, then grants `n` from the front. */
  lemma StepTakes(s: State, a: Action) returns (q: seq<Request>, n: nat)
    requires Inv(s)
    ensures q == s.core.waiters || q == s.core.waiters + [a.r]
    ensures n <= |q|
    ensures Step(s, a).core.waiters == q[n..]
    ensures Step(s, a).core.granted == s.core.granted + q[..n]
    ensures EndsPhase(s, a) && q != [] ==> n >= 1
  {
    var c := s.core;
    q, n := c.waiters, 0;
    match a
    case Arrive(r) =>
      if Fresh(s, r) {
        q := c.waiters + [r];
        n := GrantTakes(c.(waiters := q));
      }
    case Release(r) =>
      if r in s.holding && r.writer {
        n := GrantTakes(c.(writerActive := false));
      } else if r in s.holding && c.activeReaders == 1 {
        n := GrantTakes(c.(activeReaders := 0));
      }
  }

  /** Grants follow arrival order: those granted so far are the first to have arrived, the
      queue is everyone else, and a later state only extends the granted list. */
  lemma GrantsInArrivalOrder(acts: seq<Action>, a: Action)
    ensures var s := Run(Start, acts);
      && s.arrivals == s.core.granted + s.core.waiters
      && s.core.granted <= Step(s, a).core.granted
  {
    ReachableInv(acts);
    var q, n := StepTakes(Run(Start, acts), a);
  }

  /** A release after which nobody is inside, before the next grant. */
  predicate EndsPhase(s: State, a: Action) {
    a.Release? && s.holding == {a.r}
  }

  function PhaseEnds(s: State, acts: seq<Action>): nat
    decreases |acts|
  {
    if acts == [] then 0
    else
      var before := acts[..|acts| - 1];
      PhaseEnds(s, before) + if EndsPhase(Run(s, before), acts[|acts| - 1]) then 1 else 0
  }

  /** No overtaking: a waiting request keeps its place or moves forward, and the end of a
      phase moves it forward or lets it in. */
  lemma StepMovesForward(s: State, a: Action, k: nat)
    requires Inv(s) && k < |s.core.waiters|
    ensures var d := Step(s, a).core; var r := s.core.waiters[k];
      || r in d.granted
      || exists j: nat :: j < |d.waiters| && d.waiters[j] == r && j <= k &&
                          (EndsPhase(s, a) ==> j < k)
  {
    var q, n := StepTakes(s, a);
    var r := q[k];
    if n <= k {
      assert q[n..][k - n] == r;
    } else {
      assert q[..n][k] == r;
    }
  }

  /** Starvation freedom with a bound: a request with `k` requests ahead is inside, or has
      already left, once `k + 1` phases have ended, whatever arrived in the meantime. */
  lemma {:induction false} BoundedWait(s: State, k: nat, acts: seq<Action>)
    requires Inv(s) && k < |s.core.waiters|
    ensures Inv(Run(s, acts))
    ensures var d := Run(s, acts).core; var r := s.core.waiters[k];
      || r in d.granted
      || exists j: nat :: j < |d.waiters| && d.waiters[j] == r && j + PhaseEnds(s, acts) <= k
    ensures PhaseEnds(s, acts) > k ==> s.core.waiters[k] in Run(s, acts).core.granted
    decreases |acts|
  {
    if acts != [] {
      var before, a := acts[..|acts| - 1], acts[|acts| - 1];
      BoundedWait(s, k, before);
      var m := Run(s, before);
      StepKeepsInv(m, a);
      var r := s.core.waiters[k];
      if r in m.core.granted {
        var q, n := StepTakes(m, a);
      } else {
        var j: nat :| j < |m.core.waiters| && m.core.waiters[j] == r && j + PhaseEnds(s, before) <= k;
        StepMovesForward(m, a, j);
      }
    }
  }

  // ----- who gets in when

  /** An arrival at a free lock is let in at once and alone; at a taken lock it goes to the end of
      the queue and lets nobody in, whatever it asks for and whoever is inside. */
  lemma ArrivalWaits(s: State, r: Request)
    requires Inv(s) && Fresh(s, r)
    ensures var d := Step(s, Arrive(r));
      if s.holding == {} then d.core.waiters == [] && d.core.granted == s.core.granted + [r] && d.holding == {r}
      else d.core.waiters == s.core.waiters + [r] && d.core.granted == s.core.granted && d.holding == s.holding
  {
    var c := s.core.(waiters := s.core.waiters + [r]);
    var n := GrantTakes(c);
    if s.holding == {} {
      assert c.waiters == [r];
      assert n == 1 && c.waiters[..1] == [r];
      assert r !in s.core.granted;
      assert Granted(s.core, Grant(c)) == {r};
    } else {
      assert Granted(s.core, c) == {};
    }
  }

  /** A release that leaves somebody inside lets nobody in. */
  lemma ReleaseInPhase(s: State, r: Request)
    requires Inv(s) && r in s.holding && s.holding != {r}
    ensures var d := Step(s, Release(r));
      d.core.waiters == s.core.waiters && d.core.granted == s.core.granted && d.holding == s.holding - {r}
  {
    var q :| q in s.holding && q != r;
    SubsetCard({q, r}, s.holding);
    assert Granted(s.core, Step(s, Release(r)).core) == {};
  }

  /** The release that empties the lock lets in the writer at the front of the queue, or the
      readers up to the first writer, and nobody else. */
  lemma PhaseEndGrants(s: State, r: Request) returns (n: nat)
    requires Inv(s) && s.holding == {r}
    ensures n <= |s.core.waiters|
    ensures var d, q := Step(s, Release(r)), s.core.waiters;
      && d.core.waiters == q[n..] && d.core.granted == s.core.granted + q[..n]
      && d.holding == (set x | x in q[..n])
      && (q != [] && q[0].writer ==> n == 1)
      && (q != [] && !q[0].writer ==>
            (forall i | 0 <= i < n :: !q[i].writer) && (n == |q| || q[n].writer))
  {
    var c, q := if r.writer then s.core.(writerActive := false) else s.core.(activeReaders := 0), s.core.waiters;
    assert |{r}| == 1;
    n := GrantTakes(c);
    assert s.arrivals == s.core.granted + q[..n] + q[n..];
    BatchIsNew(s.core.granted, q[..n], q[n..]);
    assert Granted(s.core, Grant(c)) == set x | x in q[..n];
  }

  /** A batch never grows after its grant: until the next phase end nobody is let in, whoever
      arrives, and those inside can only leave. */
  lemma {:induction false} BatchNeverGrows(s: State, acts: seq<Action>)
    requires Inv(s) && s.holding != {} && PhaseEnds(s, acts) == 0
    ensures var d := Run(s, acts);
      Inv(d) && d.holding != {} && d.holding <= s.holding && d.core.granted == s.core.granted
    decreases |acts|
  {
    if acts != [] {
      var before, a := acts[..|acts| - 1], acts[|acts| - 1];
      BatchNeverGrows(s, before);
      var m := Run(s, before);
      StepKeepsInv(m, a);
      match a
      case Arrive(r) => if Fresh(m, r) { ArrivalWaits(m, r); }
      case Release(r) => if r in m.holding { ReleaseInPhase(m, r); }
    }
  }
}
