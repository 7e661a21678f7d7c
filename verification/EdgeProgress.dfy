/**
 What the edge-triggered server achieves: a stretch of work between two sleeps is bounded, every
 byte is accounted for, and from every reachable state the connection can still come to a close
 with everything echoed.
 */
module EdgeProgress {
  import opened EdgeTrigger

  predicate Busy(s: State) {
    !s.pc.Sleeping? && !s.pc.Closed?
  }

  // ----- a stretch of work is bounded

  /** What the bytes at hand may cost: each one unread a read, a write and the way back to the
      read, each one pending a write. */
  function BytesLeft(s: State): nat {
    3 * s.inbox + s.pending
  }

  function Rank(pc: Pc): nat {
    match pc
    case Sleeping => 0
    case Closed => 0
    case Deciding => 1
    case Flushing => 2
    case Reading => 3
    case Echoing => 4
  }

  /** Steps to the next sleep at most. */
  function WorkLeft(s: State): nat {
    BytesLeft(s) + Rank(s.pc)
  }

  lemma CountIsSome(n: nat, limit: nat)
    requires limit > 0
    ensures 1 <= Count(n, limit) <= limit
  {
  }

  lemma WriteWorks(s: State, n: nat, fills: bool)
    requires s.pending > 0
    ensures WorkLeft(Write(s, n, fills)) < WorkLeft(s)
  {
    CountIsSome(n, s.pending);
  }

  lemma MoveWorks(s: State, pc: Pc)
    requires Rank(pc) < Rank(s.pc)
    ensures WorkLeft(s.(pc := pc)) < WorkLeft(s)
  {
  }

  lemma ReadingWorks(s: State, n: nat, fills: bool, rules: Rules)
    requires s.pc.Reading?
    ensures WorkLeft(ServerStep(s, n, fills, rules)) < WorkLeft(s)
  {
    if s.inbox > 0 { CountIsSome(n, s.inbox); }
  }

  lemma WritingWorks(s: State, n: nat, fills: bool, rules: Rules)
    requires s.pc.Echoing? || s.pc.Flushing?
    ensures WorkLeft(ServerStep(s, n, fills, rules)) < WorkLeft(s)
  {
    if s.pending > 0 && !s.full {
      WriteWorks(s, n, fills);
    } else {
      MoveWorks(s, ServerStep(s, n, fills, rules).pc);
    }
  }

  lemma ModifyMovesNothing(s: State, rules: Rules)
    ensures var r := Modify(s, rules); r.pc.Sleeping? && r.inbox == s.inbox && r.pending == s.pending
  {
  }

  lemma DecidingWorks(s: State, n: nat, fills: bool, rules: Rules)
    requires s.pc.Deciding?
    ensures WorkLeft(ServerStep(s, n, fills, rules)) < WorkLeft(s)
  {
    ModifyMovesNothing(s, rules);
    MoveWorks(s, Closed);
    assert BytesLeft(Modify(s, rules)) == BytesLeft(s);
  }

  lemma ServingWorks(s: State, n: nat, fills: bool, rules: Rules)
    requires Busy(s)
    ensures WorkLeft(ServerStep(s, n, fills, rules)) < WorkLeft(s)
  {
    if s.pc.Reading? {
      ReadingWorks(s, n, fills, rules);
    } else if s.pc.Deciding? {
      DecidingWorks(s, n, fills, rules);
    } else {
      WritingWorks(s, n, fills, rules);
    }
  }

  function ServerSteps(acts: seq<Action>): nat {
    if acts == [] then 0 else (if acts[0].Serve? then 1 else 0) + ServerSteps(acts[1..])
  }

  function Arriving(acts: seq<Action>): nat {
    if acts == [] then 0 else (if acts[0].Arrive? then acts[0].n else 0) + Arriving(acts[1..])
  }

  /** The server works all along: it is busy before each step of the run. */
  predicate BusyAllAlong(s: State, acts: seq<Action>, rules: Rules)
    decreases |acts|
  {
    acts == [] || (Busy(s) && BusyAllAlong(Step(s, acts[0], rules), acts[1..], rules))
  }

  lemma KernelAdds(s: State, a: Action, rules: Rules)
    requires !a.Serve?
    ensures WorkLeft(Step(s, a, rules)) <= WorkLeft(s) + 3 * if a.Arrive? then a.n else 0
  {
  }

  /** Whatever the kernel does meanwhile, the server goes back to sleep or closes after a number of
      steps bounded by the work at hand and three per byte arriving. */
  lemma {:induction false} WorkIsBounded(s: State, acts: seq<Action>, rules: Rules)
    requires BusyAllAlong(s, acts, rules)
    ensures ServerSteps(acts) + WorkLeft(Run(s, acts, rules)) <= WorkLeft(s) + 3 * Arriving(acts)
    decreases |acts|
  {
    if acts != [] {
      var a := acts[0];
      if a.Serve? { ServingWorks(s, a.n, a.fills, rules); } else { KernelAdds(s, a, rules); }
      WorkIsBounded(Step(s, a, rules), acts[1..], rules);
    }
  }

  // ----- every byte is accounted for

  predicate Tidy(s: State) {
    && s.arrived == s.inbox + s.pending + s.echoed
    && (s.edgeIn ==> s.wantIn) && (s.edgeOut ==> s.wantOut)
    && (s.pc.Reading? || s.pc.Echoing? ==> !s.peerEof)
    && (s.pc.Sleeping? && s.peerEof ==> s.pending > 0)
    && (s.pc.Closed? ==> s.fin && s.inbox == 0 && s.pending == 0)
  }

  lemma ReadingKeepsTidy(s: State, n: nat, fills: bool, rules: Rules)
    requires Tidy(s) && s.pc.Reading?
    ensures Tidy(ServerStep(s, n, fills, rules))
  {
    if s.inbox > 0 { CountIsSome(n, s.inbox); }
  }

  lemma WritingKeepsTidy(s: State, n: nat, fills: bool, rules: Rules)
    requires Tidy(s) && (s.pc.Echoing? || s.pc.Flushing?)
    ensures Tidy(ServerStep(s, n, fills, rules))
  {
    if s.pending > 0 && !s.full {
      WriteKeepsTidy(s, n, fills);
    } else {
      assert ServerStep(s, n, fills, rules) == s.(pc := ServerStep(s, n, fills, rules).pc);
    }
  }

  lemma WriteKeepsTidy(s: State, n: nat, fills: bool)
    requires Tidy(s) && (s.pc.Echoing? || s.pc.Flushing?) && s.pending > 0
    ensures Tidy(Write(s, n, fills))
  {
    CountIsSome(n, s.pending);
  }

  lemma WakingKeepsTidy(s: State, n: nat, fills: bool, rules: Rules)
    requires Inv(s, rules) && Tidy(s) && (s.pc.Sleeping? || s.pc.Deciding? || s.pc.Closed?)
    ensures Tidy(ServerStep(s, n, fills, rules))
  {
  }

  lemma ServingKeepsTidy(s: State, n: nat, fills: bool, rules: Rules)
    requires Inv(s, rules) && Tidy(s)
    ensures Tidy(ServerStep(s, n, fills, rules))
  {
    if s.pc.Reading? {
      ReadingKeepsTidy(s, n, fills, rules);
    } else if s.pc.Echoing? || s.pc.Flushing? {
      WritingKeepsTidy(s, n, fills, rules);
    } else {
      WakingKeepsTidy(s, n, fills, rules);
    }
  }

  lemma StepKeepsTidy(s: State, a: Action, rules: Rules)
    requires Inv(s, rules) && Tidy(s)
    ensures Tidy(Step(s, a, rules))
  {
    match a
    case Arrive(_) =>
    case Finish =>
    case FreeSpace =>
    case Serve(n, fills) => ServingKeepsTidy(s, n, fills, rules);
  }

  lemma {:induction false} RunKeepsTidy(s: State, acts: seq<Action>, rules: Rules)
    requires Inv(s, rules) && Tidy(s) && Sound(rules)
    ensures Inv(Run(s, acts, rules), rules) && Tidy(Run(s, acts, rules))
    decreases |acts|
  {
    if acts != [] {
      StepKeepsInv(s, acts[0], rules);
      StepKeepsTidy(s, acts[0], rules);
      RunKeepsTidy(Step(s, acts[0], rules), acts[1..], rules);
    }
  }

  /** In every run bytes that came in are unread, pending or echoed, and a closed connection has
      echoed them all. */
  lemma EchoesEverything(acts: seq<Action>, rules: Rules)
    requires Sound(rules)
    ensures var s := Run(Start, acts, rules);
      && s.arrived == s.inbox + s.pending + s.echoed
      && (s.pc.Closed? ==> s.fin && s.echoed == s.arrived)
  {
    RunKeepsTidy(Start, acts, rules);
  }

  // ----- the close stays within reach

  /** Once the peer has finished and the socket takes bytes: how far the server is from its next
      piece of progress, be it a byte moved or the end of the stream noticed. */
  function Distance(s: State): nat {
    match s.pc
    case Echoing => 5
    case Flushing => if s.pending > 0 then 0 else 4
    case Deciding => 3
    case Sleeping => 2
    case Reading => 0
    case Closed => 0
  }

  /** Closer to the close: by the peer's end, by send space, by bytes, by the end of the stream
      noticed, or by the server's place in its loop. */
  predicate Closer(r: State, s: State) {
    || (r.fin && !s.fin)
    || (r.fin == s.fin &&
        (|| (!r.full && s.full)
         || (r.full == s.full &&
             (|| BytesLeft(r) < BytesLeft(s)
              || (BytesLeft(r) == BytesLeft(s) &&
                  (|| (r.peerEof && !s.peerEof)
                   || (r.peerEof == s.peerEof && Distance(r) < Distance(s))))))))
  }

  lemma ServingIsCloser(s: State, rules: Rules)
    requires Inv(s, rules) && Tidy(s) && Sound(rules) && !s.pc.Closed? && s.fin && !s.full
    ensures Closer(ServerStep(s, 1, false, rules), s)
  {
    if s.pc.Reading? || s.pc.Echoing? || s.pc.Flushing? {
      MovingIsCloser(s, rules);
    } else {
      WakingIsCloser(s, rules);
    }
  }

  lemma MovingIsCloser(s: State, rules: Rules)
    requires Tidy(s) && (s.pc.Reading? || s.pc.Echoing? || s.pc.Flushing?) && s.fin && !s.full
    ensures Closer(ServerStep(s, 1, false, rules), s)
  {
    if s.pc.Reading? && s.inbox > 0 { CountIsSome(1, s.inbox); }
    if !s.pc.Reading? && s.pending > 0 { CountIsSome(1, s.pending); }
  }

  lemma WakingIsCloser(s: State, rules: Rules)
    requires Inv(s, rules) && Tidy(s) && (s.pc.Sleeping? || s.pc.Deciding?) && s.fin && !s.full
    ensures Closer(ServerStep(s, 1, false, rules), s)
  {
  }

  lemma SomethingIsCloser(s: State, rules: Rules) returns (a: Action)
    requires Inv(s, rules) && Tidy(s) && Sound(rules) && !s.pc.Closed?
    ensures Closer(Step(s, a, rules), s)
  {
    if !s.fin {
      a := Finish;
    } else if s.full {
      a := FreeSpace;
    } else {
      a := Serve(1, false);
      ServingIsCloser(s, rules);
    }
  }

  lemma {:induction false} RunAppend(s: State, a: seq<Action>, b: seq<Action>, rules: Rules)
    ensures Run(s, a + b, rules) == Run(Run(s, a, rules), b, rules)
    decreases |a|
  {
    if a == [] {
      assert a + b == b;
    } else {
      assert (a + b)[1..] == a[1..] + b;
      RunAppend(Step(s, a[0], rules), a[1..], b, rules);
    }
  }

  lemma {:induction false} CloseIsReachable(s: State, rules: Rules) returns (more: seq<Action>)
    requires Inv(s, rules) && Tidy(s) && Sound(rules)
    ensures Run(s, more, rules).pc.Closed?
    decreases if s.fin then 0 else 1, if s.full then 1 else 0, BytesLeft(s),
      if s.peerEof then 0 else 1, Distance(s)
  {
    if s.pc.Closed? {
      more := [];
    } else {
      var a := SomethingIsCloser(s, rules);
      StepKeepsInv(s, a, rules);
      StepKeepsTidy(s, a, rules);
      var rest := CloseIsReachable(Step(s, a, rules), rules);
      more := [a] + rest;
      assert more[1..] == rest;
    }
  }

  /** From every reachable state some continuation closes the connection, and everything that came
      in is echoed by then. */
  lemma CanAlwaysClose(acts: seq<Action>, rules: Rules) returns (more: seq<Action>)
    requires Sound(rules)
    ensures var s := Run(Start, acts + more, rules); s.pc.Closed? && s.echoed == s.arrived
  {
    RunKeepsTidy(Start, acts, rules);
    more := CloseIsReachable(Run(Start, acts, rules), rules);
    RunAppend(Start, acts, more, rules);
    EchoesEverything(acts + more, rules);
  }
}
