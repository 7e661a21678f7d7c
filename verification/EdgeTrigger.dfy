/**
 Why the edge-triggered server may go back to sleep: one connection as a state machine in which
 the kernel and the server interleave freely. The kernel queues an event only at an edge: when
 data or the peer's FIN arrives, when send space frees up, or when `EPOLL_CTL_MOD` meets an
 interest that is ready at that moment. Byte counts stand for the bytes themselves.

 Linux looks at every interest on every MOD; the weaker promise is to look at added ones only.
 `Rules` covers both, and both ways to read and to register. The server of the source drains
 and always modifies.
 */
module EdgeTrigger {

  datatype Pc =
    | Sleeping                  // in epoll_wait
    | Reading                   // drain_input, about to read
    | Echoing                   // drain_input, about to write what was just buffered
    | Flushing                  // flush_output after EPOLLOUT
    | Deciding                  // about to close or to modify the registration
    | Closed

  datatype Rules = Rules(
    drains: bool,               // read until EAGAIN, or once per event
    always: bool,               // MOD after every event, or only to change the interests
    rechecks: bool)             // MOD signals every ready interest, or only added ones

  datatype State = State(
    pc: Pc,
    outReady: bool,             // the event being handled had EPOLLOUT
    pending: nat,
    peerEof: bool,
    wantIn: bool,               // registered interests
    wantOut: bool,
    inbox: nat,                 // received by the kernel, not yet read
    fin: bool,
    full: bool,                 // no send space
    edgeIn: bool,               // queued, not yet reported
    edgeOut: bool,
    arrived: nat,               // history: bytes that came in, and bytes written back
    echoed: nat)

  datatype Action =
    | Arrive(n: nat)
    | Finish
    | FreeSpace
    | Serve(n: nat, fills: bool) // next server step: up to n bytes move, and may fill the socket

  const Start := State(Sleeping, false, 0, false, true, false, 0, false, false, false, false, 0, 0)

  function AfterRead(s: State): State {
    s.(pc := if s.outReady then Flushing else Deciding)
  }

  /** Between 1 and `limit`. */
  function Count(n: nat, limit: nat): nat
    requires limit > 0
  {
    if n == 0 then 1 else if n > limit then limit else n
  }

  function Write(s: State, n: nat, fills: bool): State
    requires s.pending > 0
  {
    var k := Count(n, s.pending);
    s.(pending := s.pending - k, full := fills, echoed := s.echoed + k)
  }

  /** EPOLL_CTL_MOD with the events of `connection_events`. */
  function Modify(s: State, rules: Rules): State {
    var wantIn, wantOut := !s.peerEof, s.pending > 0;
    if !rules.always && wantIn == s.wantIn && wantOut == s.wantOut then s.(pc := Sleeping)
    else
      s.(pc := Sleeping, wantIn := wantIn, wantOut := wantOut,
         edgeIn := wantIn && (s.edgeIn || ((rules.rechecks || !s.wantIn) && (s.inbox > 0 || s.fin))),
         edgeOut := wantOut && (s.edgeOut || ((rules.rechecks || !s.wantOut) && !s.full)))
  }

  function ServerStep(s: State, n: nat, fills: bool, rules: Rules): State {
    match s.pc
    case Sleeping =>
      if s.edgeIn || s.edgeOut then
        s.(pc := if s.edgeIn then Reading else Flushing, outReady := s.edgeOut,
           edgeIn := false, edgeOut := false)
      else s
    case Reading =>
      if s.inbox > 0 then
        var k := Count(n, s.inbox);
        s.(pc := Echoing, inbox := s.inbox - k, pending := s.pending + k)
      else if s.fin then AfterRead(s.(peerEof := true))
      else AfterRead(s)
    case Echoing =>
      if s.pending == 0 || s.full then (if rules.drains then s.(pc := Reading) else AfterRead(s))
      else Write(s, n, fills)
    case Flushing =>
      if s.pending == 0 || s.full then s.(pc := Deciding) else Write(s, n, fills)
    case Deciding =>
      if s.peerEof && s.pending == 0 then s.(pc := Closed) else Modify(s, rules)
    case Closed => s
  }

  function Step(s: State, a: Action, rules: Rules): State {
    match a
    case Arrive(n) =>
      if s.fin || n == 0 then s
      else s.(inbox := s.inbox + n, edgeIn := s.edgeIn || s.wantIn, arrived := s.arrived + n)
    case Finish => s.(fin := true, edgeIn := s.edgeIn || s.wantIn)
    case FreeSpace => s.(full := false, edgeOut := s.edgeOut || s.wantOut)
    case Serve(n, fills) => ServerStep(s, n, fills, rules)
  }

  function Run(s: State, acts: seq<Action>, rules: Rules): State
    decreases |acts|
  {
    if acts == [] then s else Run(Step(s, acts[0], rules), acts[1..], rules)
  }

  /** Nothing is forgotten: the server drains, or every MOD looks at the input again. */
  predicate Sound(rules: Rules) {
    rules.drains || (rules.always && rules.rechecks)
  }

  /** Unread input is announced, or the server is still reading, or its next MOD will tell. */
  predicate InputAnnounced(s: State, rules: Rules) {
    s.inbox > 0 || (s.fin && !s.peerEof) ==>
      s.edgeIn || s.pc.Reading? || s.pc.Echoing? || (!rules.drains && (s.pc.Flushing? || s.pc.Deciding?))
  }

  /** A backlog meets a full socket, or a queued event, or a write still to be tried, or a
      registration still to be made. */
  predicate BacklogAnnounced(s: State) {
    s.pending > 0 ==>
      || s.full || s.edgeOut || !s.wantOut
      || s.pc.Echoing? || s.pc.Flushing? || (s.pc.Reading? && s.outReady)
  }

  predicate Inv(s: State, rules: Rules) {
    || s.pc.Closed?
    || (&& InputAnnounced(s, rules)
        && BacklogAnnounced(s)
        && (s.wantIn || s.peerEof)
        && (s.peerEof ==> s.fin && s.inbox == 0)
        && (s.pc.Sleeping? ==> s.wantIn == !s.peerEof && s.wantOut == (s.pending > 0)))
  }

  lemma ReadingKeepsInv(s: State, n: nat, rules: Rules)
    requires Inv(s, rules) && (s.pc.Sleeping? || s.pc.Reading?)
    ensures Inv(ServerStep(s, n, false, rules), rules)
  {
  }

  lemma WriteKeepsInv(s: State, n: nat, fills: bool, rules: Rules)
    requires Inv(s, rules) && (s.pc.Echoing? || s.pc.Flushing?) && s.pending > 0
    ensures Inv(Write(s, n, fills), rules)
  {
    assert Write(s, n, fills).pending < s.pending;
  }

  lemma EchoingKeepsInv(s: State, n: nat, fills: bool, rules: Rules)
    requires Inv(s, rules) && s.pc.Echoing?
    ensures Inv(ServerStep(s, n, fills, rules), rules)
  {
    if s.pending > 0 && !s.full {
      WriteKeepsInv(s, n, fills, rules);
    } else if rules.drains {
      assert ServerStep(s, n, fills, rules) == s.(pc := Reading);
    } else {
      assert ServerStep(s, n, fills, rules) == AfterRead(s);
    }
  }

  lemma FlushingKeepsInv(s: State, n: nat, fills: bool, rules: Rules)
    requires Inv(s, rules) && s.pc.Flushing?
    ensures Inv(ServerStep(s, n, fills, rules), rules)
  {
    if s.pending > 0 && !s.full {
      WriteKeepsInv(s, n, fills, rules);
    } else {
      assert ServerStep(s, n, fills, rules) == s.(pc := Deciding);
    }
  }

  lemma DecidingKeepsInv(s: State, rules: Rules)
    requires Inv(s, rules) && s.pc.Deciding? && Sound(rules)
    ensures Inv(ServerStep(s, 0, false, rules), rules)
  {
  }

  lemma ServerKeepsInv(s: State, n: nat, fills: bool, rules: Rules)
    requires Inv(s, rules) && Sound(rules)
    ensures Inv(ServerStep(s, n, fills, rules), rules)
  {
    if s.pc.Sleeping? || s.pc.Reading? {
      ReadingKeepsInv(s, n, rules);
    } else if s.pc.Echoing? {
      EchoingKeepsInv(s, n, fills, rules);
    } else if s.pc.Flushing? {
      FlushingKeepsInv(s, n, fills, rules);
    } else if s.pc.Deciding? {
      DecidingKeepsInv(s, rules);
    }
  }

  lemma StepKeepsInv(s: State, a: Action, rules: Rules)
    requires Inv(s, rules) && Sound(rules)
    ensures Inv(Step(s, a, rules), rules)
  {
    match a
    case Arrive(_) =>
    case Finish =>
    case FreeSpace =>
    case Serve(n, fills) => ServerKeepsInv(s, n, fills, rules);
  }

  lemma {:induction false} RunKeepsInv(s: State, acts: seq<Action>, rules: Rules)
    requires Inv(s, rules) && Sound(rules)
    ensures Inv(Run(s, acts, rules), rules)
    decreases |acts|
  {
    if acts != [] {
      StepKeepsInv(s, acts[0], rules);
      RunKeepsInv(Step(s, acts[0], rules), acts[1..], rules);
    }
  }

  /** No stall, in every interleaving and on either kernel: asleep with no event queued, the
      server has read everything there is, and it has a backlog only if the socket is full. */
  lemma NoStall(acts: seq<Action>, rules: Rules)
    requires Sound(rules)
    ensures var s := Run(Start, acts, rules);
      s.pc.Sleeping? && !s.edgeIn && !s.edgeOut ==>
        && s.inbox == 0
        && (s.fin ==> s.peerEof)
        && (s.pending > 0 ==> s.full && s.wantOut)
        && (s.pending == 0 ==> !s.wantOut)
  {
    RunKeepsInv(Start, acts, rules);
  }

  /** Asleep with unread input, nothing queued and nothing else to wake up for. */
  predicate Stuck(s: State) {
    s.pc.Sleeping? && !s.edgeIn && !s.edgeOut && !s.wantOut && s.inbox > 0
  }

  /** Only the peer can end it, by sending more or closing: no step of the server and no free
      space does. */
  lemma {:induction false} StuckStays(s: State, acts: seq<Action>, rules: Rules)
    requires Stuck(s) && forall i | 0 <= i < |acts| :: acts[i].Serve? || acts[i].FreeSpace?
    ensures Stuck(Run(s, acts, rules)) && Run(s, acts, rules).inbox == s.inbox
    decreases |acts|
  {
    if acts != [] {
      StuckStays(Step(s, acts[0], rules), acts[1..], rules);
    }
  }

  /** Without that, a message of `n` bytes of which the only event reads one is a stall. */
  lemma ReadOnceStalls(n: nat, rules: Rules) returns (acts: seq<Action>)
    requires n >= 2 && !Sound(rules)
    ensures [Arrive(n)] <= acts && Stuck(Run(Start, acts, rules))
  {
    acts := [Arrive(n), Serve(0, false), Serve(1, false), Serve(1, false), Serve(0, false), Serve(0, false)];
    var s1 := Step(Start, acts[0], rules);
    var s2 := Step(s1, acts[1], rules);
    var s3 := Step(s2, acts[2], rules);
    var s4 := Step(s3, acts[3], rules);
    var s5 := Step(s4, acts[4], rules);
    var s6 := Step(s5, acts[5], rules);
    assert Stuck(s6);
    assert acts[1..][1..] == acts[2..] && acts[2..][1..] == acts[3..];
    assert acts[3..][1..] == acts[4..] && acts[4..][1..] == acts[5..] && acts[5..][1..] == [];
    assert Run(s5, acts[5..], rules) == s6;
    assert Run(s4, acts[4..], rules) == s6;
    assert Run(s3, acts[3..], rules) == s6;
    assert Run(s2, acts[2..], rules) == s6;
    assert Run(s1, acts[1..], rules) == s6;
  }

  predicate StuckAfter(acts: seq<Action>, rules: Rules) {
    Stuck(Run(Start, acts, rules))
  }

  /** When input can be left behind: exactly if the server reads once per event and either skips
      a MOD that changes nothing or runs on a kernel that looks only at added interests. */
  lemma StallsIff(rules: Rules)
    ensures (exists acts :: StuckAfter(acts, rules)) <==>
      !rules.drains && !(rules.always && rules.rechecks)
  {
    if Sound(rules) {
      forall acts ensures !StuckAfter(acts, rules) {
        NoStall(acts, rules);
      }
    } else {
      var acts := ReadOnceStalls(2, rules);
      assert StuckAfter(acts, rules);
    }
  }
}
