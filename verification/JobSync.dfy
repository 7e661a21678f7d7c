/**
 The synchronisation demo: five forks with SIGCHLD masked around each fork and add, and a
 handler that waits for children until none is left. The job list is a dense array whose
 removal moves the last entry into the hole.
 */
module JobSync {

  type Pid = nat

  const MAXJOBS := 16
  const CHILDREN := 5

  // ----- the job list

  function IndexOf(l: seq<Pid>, pid: Pid): (i: nat)
    ensures i <= |l|
    ensures i < |l| ==> l[i] == pid
    ensures forall k | 0 <= k < i :: l[k] != pid
  {
    if l == [] || l[0] == pid then 0 else 1 + IndexOf(l[1..], pid)
  }

  function Add(l: seq<Pid>, pid: Pid): seq<Pid> {
    if |l| >= MAXJOBS then l else l + [pid]
  }

  function SwapRemove(l: seq<Pid>, i: nat): seq<Pid>
    requires i < |l|
  {
    l[i := l[|l| - 1]][..|l| - 1]
  }

  function Delete(l: seq<Pid>, pid: Pid): seq<Pid> {
    var i := IndexOf(l, pid);
    if i == |l| then l else SwapRemove(l, i)
  }

  ghost predicate NoRepeats(l: seq<Pid>) {
    forall i, j | 0 <= i < j < |l| :: l[i] != l[j]
  }

  /** Removal by swapping loses the removed entry and nothing else. */
  lemma DeleteEffect(l: seq<Pid>, pid: Pid)
    requires NoRepeats(l)
    ensures NoRepeats(Delete(l, pid))
    ensures forall q :: q in Delete(l, pid) <==> q in l && q != pid
    ensures pid in l ==> |Delete(l, pid)| == |l| - 1
  {
    var i := IndexOf(l, pid);
    if i < |l| {
      var r := SwapRemove(l, i);
      assert forall k | 0 <= k < |r| :: r[k] == if k == i then l[|l| - 1] else l[k];
      forall q | q in l && q != pid ensures q in r {
        var k :| 0 <= k < |l| && l[k] == q;
        assert r[if k == |l| - 1 then i else k] == q;
      }
    }
  }

  class JobList {
    const jobs: array<Pid>
    var njobs: nat

    ghost predicate Valid()
      reads this
    {
      jobs.Length == MAXJOBS && njobs <= MAXJOBS
    }

    ghost function View(): seq<Pid>
      requires Valid()
      reads this, jobs
    {
      jobs[..njobs]
    }

    constructor ()
      ensures Valid() && fresh(jobs) && View() == []
    {
      njobs := 0;
      jobs := new Pid[MAXJOBS](i => 0);
    }

    method AddJob(pid: Pid)
      requires Valid()
      modifies jobs, `njobs
      ensures Valid() && View() == Add(old(View()), pid)
    {
      if njobs >= MAXJOBS {
        return;
      }
      jobs[njobs] := pid;
      njobs := njobs + 1;
    }

    method DeleteJob(pid: Pid) returns (found: bool)
      requires Valid()
      modifies jobs, `njobs
      ensures Valid() && View() == Delete(old(View()), pid)
      ensures found <==> pid in old(View())
    {
      ghost var l := View();
      for i := 0 to njobs
        invariant Valid() && View() == l && njobs == |l|
        invariant forall k | 0 <= k < i :: l[k] != pid
      {
        if jobs[i] == pid {
          assert l[i] == pid && IndexOf(l, pid) == i;
          njobs := njobs - 1;
          jobs[i] := jobs[njobs];
          assert View() == SwapRemove(l, i);
          return true;
        }
      }
      return false;
    }
  }

  // ----- the protocol

  datatype Main =
    | Looping(i: nat)                     // top of the fork loop, SIGCHLD unblocked
    | Masked(i: nat)                      // about to fork
    | Forked(i: nat, pid: Pid)            // about to block all signals
    | Adding(i: nat, pid: Pid)            // about to add the job
    | Added(i: nat)                       // about to restore the mask
    | Polling                             // while (jobs_remaining() > 0) sleep(1)
    | Exited

  datatype Handler =
    | Off
    | Waiting                             // in waitpid(-1, NULL, 0)
    | Deleting(pid: Pid)
    | Returning                           // waitpid failed with ECHILD

  datatype State = State(
    main: Main,
    handler: Handler,
    blocked: bool,
    pending: bool,
    live: set<Pid>,
    zombies: set<Pid>,
    jobs: seq<Pid>)

  datatype Action = Exit(pid: Pid) | Deliver | Handle(pid: Pid) | Advance(pid: Pid)

  const Start := State(Looping(0), Off, false, false, {}, {}, [])

  predicate Deliverable(s: State) {
    s.pending && s.handler.Off? && !s.blocked && !s.main.Exited?
  }

  function HandlerStep(s: State, pid: Pid): State {
    match s.handler
    case Off => s
    case Waiting =>
      if pid in s.zombies then s.(handler := Deleting(pid), zombies := s.zombies - {pid})
      else if s.zombies == {} && s.live == {} then s.(handler := Returning)
      else s                              // waitpid blocks
    case Deleting(p) => s.(handler := Waiting, jobs := Delete(s.jobs, p))
    case Returning => s.(handler := Off)
  }

  function MainStep(s: State, pid: Pid): State {
    match s.main
    case Looping(i) =>
      if i < CHILDREN then s.(main := Masked(i), blocked := true) else s.(main := Polling)
    case Masked(i) =>
      if pid == 0 || pid in s.live || pid in s.zombies then s
      else s.(main := Forked(i, pid), live := s.live + {pid})
    case Forked(i, p) => s.(main := Adding(i, p), blocked := true)
    case Adding(i, p) => s.(main := Added(i), jobs := Add(s.jobs, p))
    case Added(i) => s.(main := Looping(i + 1), blocked := false)
    case Polling => if s.jobs == [] then s.(main := Exited) else s
    case Exited => s
  }

  function Step(s: State, a: Action): State {
    match a
    case Exit(p) =>
      if p !in s.live then s
      else s.(live := s.live - {p}, zombies := s.zombies + {p}, pending := true)
    case Deliver => if Deliverable(s) then s.(handler := Waiting, pending := false) else s
    case Handle(p) => HandlerStep(s, p)
    case Advance(p) => if s.handler.Off? then MainStep(s, p) else s
  }

  function Run(s: State, acts: seq<Action>): State
    decreases |acts|
  {
    if acts == [] then s else Step(Run(s, acts[..|acts| - 1]), acts[|acts| - 1])
  }

  predicate Unreaped(s: State, p: Pid) {
    p in s.live || p in s.zombies || s.handler == Deleting(p)
  }

  predicate BeingAdded(s: State, p: Pid) {
    (s.main.Forked? || s.main.Adding?) && s.main.pid == p
  }

  /** How many adds the loop has done. */
  function Adds(m: Main): nat {
    match m
    case Looping(i) => i
    case Masked(i) => i
    case Forked(i, _) => i
    case Adding(i, _) => i
    case Added(i) => i + 1
    case Polling => CHILDREN
    case Exited => CHILDREN
  }

  ghost predicate ListOk(s: State) {
    && NoRepeats(s.jobs)
    && (forall p: Pid :: p in s.jobs <==> Unreaped(s, p) && !BeingAdded(s, p))
    && |s.jobs| <= Adds(s.main) <= CHILDREN
  }

  ghost predicate Inv(s: State) {
    && ListOk(s)
    && s.live !! s.zombies
    && (s.handler.Deleting? ==> s.handler.pid !in s.live && s.handler.pid !in s.zombies)
    && (s.handler.Returning? ==> s.live == {} && s.zombies == {})
    && (s.zombies != {} ==> s.pending || s.handler.Waiting? || s.handler.Deleting?)
    && (s.blocked <==> s.main.Masked? || s.main.Forked? || s.main.Adding? || s.main.Added?)
    && (!s.handler.Off? ==> s.main.Looping? || s.main.Polling?)
    && (s.main.Forked? || s.main.Adding? ==> Unreaped(s, s.main.pid))
    && ((s.main.Masked? || s.main.Forked? || s.main.Adding?) ==> s.main.i < CHILDREN)
    && (s.main.Exited? ==> s.jobs == [])
  }

  lemma HandlerKeepsInv(s: State, p: Pid)
    requires Inv(s)
    ensures Inv(HandlerStep(s, p))
  {
    var r := HandlerStep(s, p);
    if s.handler.Deleting? {
      DeleteEffect(s.jobs, s.handler.pid);
      assert s.handler.pid in s.jobs;
    } else {
      assert forall q :: Unreaped(r, q) == Unreaped(s, q);
    }
  }

  lemma MainKeepsInv(s: State, p: Pid)
    requires Inv(s) && s.handler.Off?
    ensures Inv(MainStep(s, p))
  {
    var r := MainStep(s, p);
    match s.main
    case Adding(i, q) =>
      assert q !in s.jobs;
      assert r.jobs == s.jobs + [q];
      assert forall q :: Unreaped(r, q) == Unreaped(s, q);
    case Masked(_) =>
      assert forall q :: Unreaped(s, q) ==> Unreaped(r, q);
    case _ =>
      assert forall q :: Unreaped(r, q) == Unreaped(s, q);
  }

  lemma StepKeepsInv(s: State, a: Action)
    requires Inv(s)
    ensures Inv(Step(s, a))
  {
    match a
    case Exit(_) => assert forall q :: Unreaped(Step(s, a), q) == Unreaped(s, q);
    case Deliver => assert forall q :: Unreaped(Step(s, a), q) == Unreaped(s, q);
    case Handle(p) => HandlerKeepsInv(s, p);
    case Advance(p) => if s.handler.Off? { MainKeepsInv(s, p); }
  }

  lemma {:induction false} ReachableInv(acts: seq<Action>)
    ensures Inv(Run(Start, acts))
    decreases |acts|
  {
    if acts != [] {
      ReachableInv(acts[..|acts| - 1]);
      StepKeepsInv(Run(Start, acts[..|acts| - 1]), acts[|acts| - 1]);
    }
  }

  // ----- what holds in every interleaving

  /** The "not found" branch of deletejob is dead code, the list never fills up and never
      holds a child twice. */
  lemma DeleteAlwaysFinds(acts: seq<Action>)
    ensures var s := Run(Start, acts);
      && (s.handler.Deleting? ==> s.handler.pid in s.jobs)
      && |s.jobs| <= CHILDREN < MAXJOBS && NoRepeats(s.jobs)
  {
    ReachableInv(acts);
    var s := Run(Start, acts);
    if s.handler.Deleting? { assert Unreaped(s, s.handler.pid); }
  }

  /** An empty list outside the add section means that every child forked so far was reaped;
      in particular the program exits without leaving a child behind. */
  lemma EmptyMeansAllReaped(acts: seq<Action>)
    ensures var s := Run(Start, acts);
      && (s.jobs == [] && !s.main.Forked? && !s.main.Adding? ==> s.live == {} && s.zombies == {})
      && (s.main.Exited? ==> s.live == {} && s.zombies == {})
  {
    ReachableInv(acts);
    var s := Run(Start, acts);
    if s.jobs == [] && !s.main.Forked? && !s.main.Adding? {
      forall p: Pid ensures p !in s.live && p !in s.zombies {
        assert p !in s.jobs && !BeingAdded(s, p);
      }
      assert s.live == {} && s.zombies == {};
    }
  }

  /** How many steps of a run add a child. */
  function Forks(acts: seq<Action>): nat
    decreases |acts|
  {
    if acts == [] then 0
    else
      var before := acts[..|acts| - 1];
      Forks(before) + if Run(Start, acts).live <= Run(Start, before).live then 0 else 1
  }

  /** Forks done when the main flow stands at `m`. */
  function ForksAt(m: Main): nat {
    match m
    case Looping(i) => i
    case Masked(i) => i
    case Forked(i, _) => i + 1
    case Adding(i, _) => i + 1
    case Added(i) => i + 1
    case Polling => CHILDREN
    case Exited => CHILDREN
  }

  lemma StepForks(s: State, a: Action)
    requires Inv(s)
    ensures ForksAt(Step(s, a).main) == ForksAt(s.main) + if Step(s, a).live <= s.live then 0 else 1
  {
    if a.Advance? && s.handler.Off? && s.main.Masked? && Step(s, a) != s {
      assert a.pid in Step(s, a).live;
    }
  }

  /** The program forks its five children, no fewer and no more, before it polls or exits. */
  lemma {:induction false} ForksAll(acts: seq<Action>)
    ensures var s := Run(Start, acts);
      && Forks(acts) == ForksAt(s.main)
      && (s.main.Polling? || s.main.Exited? ==> Forks(acts) == CHILDREN)
    decreases |acts|
  {
    if acts != [] {
      var before := acts[..|acts| - 1];
      ForksAll(before);
      ReachableInv(before);
      StepForks(Run(Start, before), acts[|acts| - 1]);
    }
  }

  lemma SomeMember(l: seq<Pid>) returns (p: Pid)
    requires l != []
    ensures p in l
  {
    p := l[0];
  }

  /** The polling loop never waits in vain: a child is still running, or a zombie's signal can
      be delivered, or the handler is at work. */
  lemma PollingMakesProgress(acts: seq<Action>)
    ensures var s := Run(Start, acts);
      s.main.Polling? && s.jobs != [] ==> s.live != {} || Deliverable(s) || !s.handler.Off?
  {
    ReachableInv(acts);
    var s := Run(Start, acts);
    if s.main.Polling? && s.jobs != [] && s.handler.Off? {
      var p := SomeMember(s.jobs);
    }
  }

  lemma {:induction false} RunAppend(s: State, a: seq<Action>, b: seq<Action>)
    ensures Run(s, a + b) == Run(Run(s, a), b)
    decreases |b|
  {
    if b == [] {
      assert a + b == a;
    } else {
      assert (a + b)[..|a + b| - 1] == a + b[..|b| - 1];
      RunAppend(s, a, b[..|b| - 1]);
    }
  }

  lemma RunOne(s: State, a: Action)
    ensures Run(s, [a]) == Step(s, a)
  {
    assert [a][..0] == [];
  }

  /** How far the main flow is from its end. */
  function MainWork(m: Main): int {
    match m
    case Looping(i) => 5 * (CHILDREN - i) + 3
    case Masked(i) => 5 * (CHILDREN - i) + 2
    case Forked(i, _) => 5 * (CHILDREN - i) + 1
    case Adding(i, _) => 5 * (CHILDREN - i)
    case Added(i) => 5 * (CHILDREN - i) - 1
    case Polling => 1
    case Exited => 0
  }

  /** How far handler and signal are from rest, with the children as they are. */
  function SignalWork(s: State): nat {
    (match s.handler
     case Off => 0
     case Returning => 1
     case Waiting => 2
     case Deleting(_) => 3) + if s.pending then 3 else 0
  }

  function ChildWork(s: State): nat {
    2 * |s.live| + |s.zombies|
  }

  /** Closer to the end: by main flow, else by children, else by handler and signal. */
  predicate Closer(r: State, s: State) {
    || 0 <= MainWork(r.main) < MainWork(s.main)
    || (MainWork(r.main) == MainWork(s.main) &&
        (ChildWork(r) < ChildWork(s) ||
         (ChildWork(r) == ChildWork(s) && SignalWork(r) < SignalWork(s))))
  }

  lemma ExitIsCloser(s: State) returns (a: Action)
    requires Inv(s) && s.live != {}
    ensures Closer(Step(s, a), s)
  {
    var p :| p in s.live;
    a := Exit(p);
  }

  lemma ReapIsCloser(s: State) returns (a: Action)
    requires s.handler.Waiting? && s.zombies != {}
    ensures Closer(Step(s, a), s)
  {
    var p :| p in s.zombies;
    a := Handle(p);
    assert |s.zombies - {p}| < |s.zombies|;
  }

  lemma HandlerIsCloser(s: State) returns (a: Action)
    requires Inv(s) && !s.handler.Off?
    ensures Closer(Step(s, a), s)
  {
    if s.handler.Waiting? && s.zombies != {} {
      a := ReapIsCloser(s);
    } else if s.handler.Waiting? && s.live != {} {
      a := ExitIsCloser(s);
    } else {
      a := Handle(0);
    }
  }

  lemma {:induction false} FreshPid(used: set<Pid>) returns (p: Pid)
    ensures p > 0 && p !in used && forall q | q in used :: q < p
  {
    if used == {} {
      p := 1;
    } else {
      var q :| q in used;
      var r := FreshPid(used - {q});
      p := if q < r then r else q + 1;
      assert forall x | x in used :: x == q || x in used - {q};
    }
  }

  lemma MainIsCloser(s: State) returns (a: Action)
    requires Inv(s) && s.handler.Off? && !s.main.Exited? && (s.main.Polling? ==> s.jobs == [])
    ensures Closer(Step(s, a), s)
  {
    var p := FreshPid(s.live + s.zombies);
    a := Advance(p);
  }

  lemma DeliverIsCloser(s: State)
    requires Inv(s) && s.handler.Off? && s.main.Polling? && s.jobs != [] && s.live == {}
    ensures Closer(Step(s, Deliver), s)
  {
    var p := SomeMember(s.jobs);
    assert Unreaped(s, p);
  }

  /** Whatever the state, somebody can take a step towards the end. */
  lemma SomethingIsCloser(s: State) returns (a: Action)
    requires Inv(s) && !s.main.Exited?
    ensures Closer(Step(s, a), s)
  {
    if !s.handler.Off? {
      a := HandlerIsCloser(s);
    } else if !s.main.Polling? || s.jobs == [] {
      a := MainIsCloser(s);
    } else if s.live != {} {
      a := ExitIsCloser(s);
    } else {
      a := Deliver;
      DeliverIsCloser(s);
    }
  }

  lemma {:induction false} EndIsReachable(s: State) returns (more: seq<Action>)
    requires Inv(s)
    ensures Run(s, more).main.Exited?
    decreases MainWork(s.main), ChildWork(s), SignalWork(s)
  {
    if s.main.Exited? {
      more := [];
    } else {
      var a := SomethingIsCloser(s);
      StepKeepsInv(s, a);
      var rest := EndIsReachable(Step(s, a));
      RunOne(s, a);
      RunAppend(s, [a], rest);
      more := [a] + rest;
    }
  }

  /** No run is ever stuck: from every reachable state, in the fork loop as in the polling loop
      and inside the blocking handler, some continuation ends the program, and by then every
      child was reaped. */
  lemma CanAlwaysExit(acts: seq<Action>) returns (more: seq<Action>)
    ensures var s := Run(Start, acts + more);
      s.main.Exited? && s.live == {} && s.zombies == {}
  {
    ReachableInv(acts);
    more := EndIsReachable(Run(Start, acts));
    RunAppend(Start, acts, more);
    EmptyMeansAllReaped(acts + more);
  }

  /** A handler run ends only when there is no child left, so it leaves an empty list. */
  lemma HandlerEmptiesList(acts: seq<Action>)
    ensures var s := Run(Start, acts);
      s.handler.Returning? ==> s.jobs == [] && s.live == {} && s.zombies == {}
  {
    ReachableInv(acts);
    var s := Run(Start, acts);
    if s.handler.Returning? && s.jobs != [] {
      var p := SomeMember(s.jobs);
    }
  }
}
