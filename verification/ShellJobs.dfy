/**
 The shell's job control. Main flow, SIGCHLD handler and exiting children share a job table of
 sixteen slots. SIGCHLD is one pending bit, so signals coalesce. One step is one system call
 or one table operation, and children exit at any moment.
 */
module ShellJobs {

  type Pid = nat

  const MAXJOBS := 16

  /** `pid == 0` marks a free slot. */
  datatype Slot = Slot(pid: Pid, bg: bool)

  type Table = t: seq<Slot> | |t| == MAXJOBS witness seq(MAXJOBS, i => Slot(0, false))

  const EmptyTable: Table := seq(MAXJOBS, i => Slot(0, false))

  // ----- the table as a value

  /** First slot holding `pid`, or the length if there is none. */
  function IndexOf(t: seq<Slot>, pid: Pid): (i: nat)
    ensures i <= |t|
    ensures i < |t| ==> t[i].pid == pid
    ensures forall k | 0 <= k < i :: t[k].pid != pid
  {
    if t == [] || t[0].pid == pid then 0 else 1 + IndexOf(t[1..], pid)
  }

  function Add(t: Table, pid: Pid, bg: bool): Table {
    var i := IndexOf(t, 0);
    if i == MAXJOBS then t else t[i := Slot(pid, bg)]
  }

  /** What `delete_job` returns: the job's bg flag, or -1. */
  datatype Found = NotFound | Foreground | Background

  function Delete(t: Table, pid: Pid): (Table, Found) {
    var i := IndexOf(t, pid);
    if i == MAXJOBS then (t, NotFound)
    else (t[i := Slot(0, t[i].bg)], if t[i].bg then Background else Foreground)
  }

  ghost predicate Has(t: Table, pid: Pid) {
    exists i :: 0 <= i < MAXJOBS && t[i].pid == pid
  }

  ghost predicate HasForeground(t: Table, pid: Pid) {
    exists i :: 0 <= i < MAXJOBS && t[i] == Slot(pid, false)
  }

  ghost predicate NoRepeats(t: Table) {
    forall i, j | 0 <= i < j < MAXJOBS && t[i].pid != 0 :: t[i].pid != t[j].pid
  }

  lemma AddEffect(t: Table, pid: Pid, bg: bool, q: Pid)
    requires pid != 0 && q != 0 && NoRepeats(t) && !Has(t, pid)
    ensures NoRepeats(Add(t, pid, bg))
    ensures Has(Add(t, pid, bg), q) <==> Has(t, q) || (q == pid && Has(t, 0))
    ensures HasForeground(Add(t, pid, bg), q) <==>
      HasForeground(t, q) || (q == pid && !bg && Has(t, 0))
  {
    var i := IndexOf(t, 0);
    var r := Add(t, pid, bg);
    if i < MAXJOBS {
      assert Has(t, 0);
      assert r[i] == Slot(pid, bg);
      assert forall k | 0 <= k < MAXJOBS && k != i :: r[k] == t[k];
    }
  }

  lemma DeleteEffect(t: Table, pid: Pid, q: Pid)
    requires pid != 0 && q != 0 && NoRepeats(t)
    ensures NoRepeats(Delete(t, pid).0)
    ensures Has(Delete(t, pid).0, q) <==> Has(t, q) && q != pid
    ensures HasForeground(Delete(t, pid).0, q) <==> HasForeground(t, q) && q != pid
    ensures Delete(t, pid).1 == NotFound <==> !Has(t, pid)
    ensures Delete(t, pid).1 == Foreground <==> HasForeground(t, pid)
  {
    var i := IndexOf(t, pid);
    var r := Delete(t, pid).0;
    assert forall k | 0 <= k < MAXJOBS && k != i :: r[k] == t[k];
    if i < MAXJOBS {
      assert Has(t, pid);
      assert r[i].pid == 0;
    }
  }

  // ----- the table as the program updates it

  class JobTable {
    const jobs: array<Slot>

    ghost predicate Valid()
      reads this
    {
      jobs.Length == MAXJOBS
    }

    ghost function View(): Table
      requires Valid()
      reads this, jobs
    {
      jobs[..]
    }

    constructor ()
      ensures Valid() && fresh(jobs) && View() == EmptyTable
    {
      jobs := new Slot[MAXJOBS](i => Slot(0, false));
    }

    method AddJob(pid: Pid, bg: bool)
      requires Valid()
      modifies jobs
      ensures View() == Add(old(View()), pid, bg)
    {
      ghost var t := View();
      for i := 0 to MAXJOBS
        invariant View() == t
        invariant forall k | 0 <= k < i :: t[k].pid != 0
      {
        if jobs[i].pid == 0 {
          jobs[i] := Slot(pid, bg);
          return;
        }
      }
    }

    method DeleteJob(pid: Pid) returns (found: Found)
      requires Valid()
      modifies jobs
      ensures (View(), found) == Delete(old(View()), pid)
    {
      ghost var t := View();
      for i := 0 to MAXJOBS
        invariant View() == t
        invariant forall k | 0 <= k < i :: t[k].pid != pid
      {
        if jobs[i].pid == pid {
          found := if jobs[i].bg then Background else Foreground;
          jobs[i] := Slot(0, jobs[i].bg);
          return;
        }
      }
      found := NotFound;
    }
  }

  // ----- the protocol

  /** Where the main flow stands. `listed` records whether the add found a free slot. */
  datatype Main =
    | Prompt
    | Listing                                       // the jobs command, all signals blocked
    | Masked(bg: bool)                              // SIGCHLD blocked, about to fork
    | Forked(pid: Pid, bg: bool)                    // about to block all signals
    | Adding(pid: Pid, bg: bool)                    // about to add the job
    | Added(pid: Pid, bg: bool, listed: bool)       // about to go back to SIGCHLD only
    | Lowered(pid: Pid, bg: bool, listed: bool)     // about to clear fg_done, or to announce
    | Checking(pid: Pid, listed: bool)              // top of the wait loop
    | Suspended(pid: Pid, listed: bool)             // inside sigsuspend(&prev)
    | Unmasking(pid: Pid)                           // about to restore prev

  datatype Handler =
    | Off
    | Reaping                                       // about to call waitpid
    | Deleting(pid: Pid)                            // waitpid returned this child
    | Flagging(found: Found)                        // delete_job returned
    | Returning                                     // waitpid found no zombie

  datatype Shell = Shell(
    main: Main,
    handler: Handler,
    blocked: bool,                                  // SIGCHLD in the main flow's mask
    prev: bool,                                     // the mask saved by eval
    pending: bool,
    live: set<Pid>,
    zombies: set<Pid>,
    table: Table,
    fgDone: bool,
    dropped: set<Pid>)                              // unreaped children whose add found no slot

  datatype Action =
    | Exit(pid: Pid)                                // a child ends
    | Deliver                                       // the kernel runs the handler
    | Handle(pid: Pid)                              // next handler step; waitpid picks pid
    | List                                          // the user types jobs
    | Eval(bg: bool)                                // the user types a command
    | Advance(pid: Pid)                             // next main-flow step; fork returns pid

  const Start := Shell(Prompt, Off, false, false, false, {}, {}, EmptyTable, false, {})

  /** SIGCHLD is blocked for the main flow; sigsuspend runs under the saved mask. */
  predicate Shut(s: Shell) {
    if s.main.Suspended? then s.prev else s.blocked
  }

  predicate Deliverable(s: Shell) {
    s.pending && s.handler.Off? && !Shut(s)
  }

  function HandlerStep(s: Shell, pid: Pid): Shell {
    match s.handler
    case Off => s
    case Reaping =>
      if s.zombies == {} then s.(handler := Returning)
      else if pid in s.zombies then s.(handler := Deleting(pid), zombies := s.zombies - {pid})
      else s
    case Deleting(p) =>
      var (t, found) := Delete(s.table, p);
      s.(handler := Flagging(found), table := t, dropped := s.dropped - {p})
    case Flagging(found) =>
      s.(handler := Reaping, fgDone := s.fgDone || found.Foreground?)
    case Returning =>
      s.(handler := Off,
         main := if s.main.Suspended? then Checking(s.main.pid, s.main.listed) else s.main)
  }

  function MainStep(s: Shell, pid: Pid): Shell {
    match s.main
    case Prompt => s
    case Listing => s.(main := Prompt, blocked := s.prev)
    case Masked(bg) =>
      if pid == 0 || pid in s.live || pid in s.zombies then s
      else s.(main := Forked(pid, bg), live := s.live + {pid})
    case Forked(p, bg) => s.(main := Adding(p, bg), blocked := true)
    case Adding(p, bg) =>
      var listed := IndexOf(s.table, 0) < MAXJOBS;
      s.(main := Added(p, bg, listed), table := Add(s.table, p, bg),
         dropped := if listed then s.dropped else s.dropped + {p})
    case Added(p, bg, listed) => s.(main := Lowered(p, bg, listed), blocked := true)
    case Lowered(p, bg, listed) =>
      if bg then s.(main := Unmasking(p)) else s.(main := Checking(p, listed), fgDone := false)
    case Checking(p, listed) =>
      if s.fgDone then s.(main := Unmasking(p)) else s.(main := Suspended(p, listed))
    case Suspended(_, _) => s
    case Unmasking(_) => s.(main := Prompt, blocked := s.prev)
  }

  /** One step. The handler interrupts the main flow; a step nobody can take changes nothing. */
  function Step(s: Shell, a: Action): Shell {
    match a
    case Exit(p) =>
      if p !in s.live then s
      else s.(live := s.live - {p}, zombies := s.zombies + {p}, pending := true)
    case Deliver => if Deliverable(s) then s.(handler := Reaping, pending := false) else s
    case Handle(p) => HandlerStep(s, p)
    case List =>
      if s.main.Prompt? && s.handler.Off? then s.(main := Listing, prev := s.blocked, blocked := true)
      else s
    case Eval(bg) =>
      if s.main.Prompt? && s.handler.Off? then s.(main := Masked(bg), prev := s.blocked, blocked := true)
      else s
    case Advance(p) => if s.handler.Off? then MainStep(s, p) else s
  }

  function Run(s: Shell, acts: seq<Action>): Shell
    decreases |acts|
  {
    if acts == [] then s else Run(Step(s, acts[0]), acts[1..])
  }

  // ----- the invariant

  /** Forked and not yet waited for, or waited for and still being removed by the handler. */
  predicate Unreaped(s: Shell, p: Pid) {
    p in s.live || p in s.zombies || s.handler == Deleting(p)
  }

  /** Forked but not yet offered to the table. */
  predicate BeingAdded(s: Shell, p: Pid) {
    (s.main.Forked? || s.main.Adding?) && s.main.pid == p
  }

  /** In the wait for foreground child `p`. */
  predicate WaitsFor(s: Shell, p: Pid, listed: bool) {
    s.main == Checking(p, listed) || s.main == Suspended(p, listed)
  }

  ghost predicate TableOk(s: Shell) {
    && NoRepeats(s.table)
    && (forall p: Pid | p != 0 ::
          Has(s.table, p) <==> Unreaped(s, p) && p !in s.dropped && !BeingAdded(s, p))
    && (forall p | p in s.dropped :: Unreaped(s, p) && !BeingAdded(s, p))
  }

  predicate KernelOk(s: Shell) {
    && s.live !! s.zombies && 0 !in s.live && 0 !in s.zombies
    && (s.handler.Deleting? ==> s.handler.pid != 0 && s.handler.pid !in s.live && s.handler.pid !in s.zombies)
    && (s.zombies != {} ==> s.pending || (!s.handler.Off? && !s.handler.Returning?))
  }

  /** SIGCHLD is blocked from before the fork to the return of eval, except in sigsuspend. */
  predicate MaskOk(s: Shell) {
    && s.blocked == !s.main.Prompt?
    && (!s.main.Prompt? ==> !s.prev)
    && (!s.handler.Off? ==> s.main.Prompt? || s.main.Suspended?)
  }

  /** The one child that may be in the table as a foreground job, if any. */
  predicate IsCurrentForeground(s: Shell, p: Pid) {
    match s.main
    case Added(q, bg, listed) => p == q && !bg && listed
    case Lowered(q, bg, listed) => p == q && !bg && listed
    case Checking(q, listed) => p == q && listed && !s.fgDone
    case Suspended(q, listed) => p == q && listed && !s.fgDone && s.handler != Flagging(Foreground)
    case _ => false
  }

  ghost predicate ForegroundOk(s: Shell) {
    && (forall p: Pid | p != 0 :: HasForeground(s.table, p) <==> IsCurrentForeground(s, p))
    && (s.handler == Flagging(Foreground) ==> s.main.Suspended?)
    && (s.main.Suspended? && s.handler.Off? ==> !s.fgDone)
    && (s.main.Forked? ==> s.main.pid != 0 && Unreaped(s, s.main.pid))
    && (s.main.Adding? ==> s.main.pid != 0 && Unreaped(s, s.main.pid))
    && (s.main.Added? ==> s.main.pid != 0)
    && (s.main.Lowered? ==> s.main.pid != 0)
    && (s.main.Checking? || s.main.Suspended? ==>
          && s.main.pid != 0
          && (!s.main.listed ==> !s.fgDone && s.handler != Flagging(Foreground))
          && (s.main.listed && (s.fgDone || s.handler == Flagging(Foreground)) ==>
                !Unreaped(s, s.main.pid)))
  }

  ghost predicate Inv(s: Shell) {
    KernelOk(s) && MaskOk(s) && TableOk(s) && ForegroundOk(s)
  }

  lemma StartInv()
    ensures Inv(Start)
  {
  }

  /** Steps that neither touch the table nor change which children it should list. */
  lemma TableStays(s: Shell, r: Shell)
    requires TableOk(s) && r.table == s.table && r.dropped == s.dropped
    requires forall q :: Unreaped(r, q) == Unreaped(s, q)
    requires forall q :: BeingAdded(r, q) == BeingAdded(s, q)
    ensures TableOk(r)
  {
  }

  lemma ExitKeepsInv(s: Shell, p: Pid)
    requires Inv(s)
    ensures Inv(Step(s, Exit(p)))
  {
    var r := Step(s, Exit(p));
    assert forall q :: Unreaped(r, q) == Unreaped(s, q);
  }

  lemma DeliverKeepsInv(s: Shell)
    requires Inv(s)
    ensures Inv(Step(s, Deliver))
  {
    var r := Step(s, Deliver);
    assert forall q :: Unreaped(r, q) == Unreaped(s, q);
  }

  lemma ReapKeepsInv(s: Shell, p: Pid)
    requires Inv(s) && s.handler.Reaping?
    ensures Inv(HandlerStep(s, p))
  {
    var r := HandlerStep(s, p);
    assert forall q :: Unreaped(r, q) == Unreaped(s, q);
    TableStays(s, r);
    assert forall q :: IsCurrentForeground(r, q) == IsCurrentForeground(s, q);
  }

  lemma DeleteKeepsInv(s: Shell, p: Pid)
    requires Inv(s) && s.handler == Deleting(p)
    ensures Inv(HandlerStep(s, p))
  {
    var r := HandlerStep(s, p);
    forall q: Pid | q != 0
      ensures Has(r.table, q) <==> Unreaped(r, q) && q !in r.dropped && !BeingAdded(r, q)
      ensures HasForeground(r.table, q) <==> IsCurrentForeground(r, q)
      ensures NoRepeats(r.table)
    {
      DeleteEffect(s.table, p, q);
    }
    DeleteEffect(s.table, p, p);
  }

  lemma AddKeepsInv(s: Shell, p: Pid)
    requires Inv(s) && s.handler.Off? && s.main.Adding?
    ensures Inv(MainStep(s, p))
  {
    var r := MainStep(s, p);
    assert r.main.listed <==> Has(s.table, 0);
    forall q: Pid | q != 0
      ensures Has(r.table, q) <==> Unreaped(r, q) && q !in r.dropped && !BeingAdded(r, q)
      ensures HasForeground(r.table, q) <==> IsCurrentForeground(r, q)
      ensures NoRepeats(r.table)
    {
      AddEffect(s.table, s.main.pid, s.main.bg, q);
    }
  }

  lemma FlagKeepsInv(s: Shell, p: Pid)
    requires Inv(s) && s.handler.Flagging?
    ensures Inv(HandlerStep(s, p))
  {
    assert forall q :: Unreaped(HandlerStep(s, p), q) == Unreaped(s, q);
  }

  lemma ReturnKeepsInv(s: Shell, p: Pid)
    requires Inv(s) && s.handler.Returning?
    ensures Inv(HandlerStep(s, p))
  {
    assert forall q :: Unreaped(HandlerStep(s, p), q) == Unreaped(s, q);
  }

  lemma HandlerKeepsInv(s: Shell, p: Pid)
    requires Inv(s)
    ensures Inv(HandlerStep(s, p))
  {
    match s.handler
    case Off =>
    case Reaping => ReapKeepsInv(s, p);
    case Deleting(q) => DeleteKeepsInv(s, q);
    case Flagging(_) => FlagKeepsInv(s, p);
    case Returning => ReturnKeepsInv(s, p);
  }

  lemma ForkKeepsInv(s: Shell, p: Pid)
    requires Inv(s) && s.handler.Off? && s.main.Masked?
    ensures Inv(MainStep(s, p))
  {
    var r := MainStep(s, p);
    assert forall q :: q != 0 && Unreaped(s, q) ==> Unreaped(r, q);
  }

  /** Steps of the main flow that touch neither children nor table. */
  lemma OwnStepKeepsInv(s: Shell, p: Pid)
    requires Inv(s) && s.handler.Off? && !s.main.Masked? && !s.main.Adding?
    ensures Inv(MainStep(s, p))
  {
    var r := MainStep(s, p);
    assert forall q :: Unreaped(r, q) == Unreaped(s, q);
    TableStays(s, r);
    assert forall q :: IsCurrentForeground(r, q) == IsCurrentForeground(s, q);
  }

  lemma MainKeepsInv(s: Shell, p: Pid)
    requires Inv(s) && s.handler.Off?
    ensures Inv(MainStep(s, p))
  {
    match s.main
    case Adding(_, _) => AddKeepsInv(s, p);
    case Masked(_) => ForkKeepsInv(s, p);
    case _ => OwnStepKeepsInv(s, p);
  }

  lemma StepKeepsInv(s: Shell, a: Action)
    requires Inv(s)
    ensures Inv(Step(s, a))
  {
    match a
    case Exit(p) => ExitKeepsInv(s, p);
    case Deliver => DeliverKeepsInv(s);
    case Handle(p) => HandlerKeepsInv(s, p);
    case List => assert forall q :: Unreaped(Step(s, a), q) == Unreaped(s, q);
    case Eval(bg) => assert forall q :: Unreaped(Step(s, a), q) == Unreaped(s, q);
    case Advance(p) => if s.handler.Off? { MainKeepsInv(s, p); }
  }

  lemma {:induction false} RunKeepsInv(s: Shell, acts: seq<Action>)
    requires Inv(s)
    ensures Inv(Run(s, acts))
    decreases |acts|
  {
    if acts != [] {
      StepKeepsInv(s, acts[0]);
      RunKeepsInv(Step(s, acts[0]), acts[1..]);
    }
  }

  lemma ReachableInv(acts: seq<Action>)
    ensures Inv(Run(Start, acts))
  {
    StartInv();
    RunKeepsInv(Start, acts);
  }

  // ----- what holds in every interleaving

  /** No forgotten zombie: although signals coalesce, an ended child is always announced by a
      pending SIGCHLD or about to be collected by the running handler loop. */
  lemma ZombiesAreAnnounced(acts: seq<Action>)
    ensures var s := Run(Start, acts);
      s.zombies != {} ==>
        s.pending || s.handler.Reaping? || s.handler.Deleting? || s.handler.Flagging?
  {
    ReachableInv(acts);
  }

  /** In every state the table lists, each once, exactly the children not yet reaped, apart from
      those whose add met a full table and the one between its fork and its add. Whenever
      SIGCHLD is unblocked outside the handler, at the prompt or in sigsuspend, the last
      exception is void, and listed means running or a zombie. */
  lemma TableExactWhenUnblocked(acts: seq<Action>, p: Pid)
    requires p != 0
    ensures var s := Run(Start, acts);
      && NoRepeats(s.table)
      && (Has(s.table, p) <==> Unreaped(s, p) && p !in s.dropped && !BeingAdded(s, p))
      && (!Shut(s) <==> s.main.Prompt? || s.main.Suspended?)
      && (s.handler.Off? && !Shut(s) ==>
            (Has(s.table, p) <==> (p in s.live || p in s.zombies) && p !in s.dropped))
      && (p in s.dropped ==> Unreaped(s, p) && !BeingAdded(s, p))
  {
    ReachableInv(acts);
  }

  /** delete_job finds every reaped child that the table accepted. */
  lemma DeleteFindsTheJob(acts: seq<Action>)
    ensures var s := Run(Start, acts);
      s.handler.Deleting? ==>
        (Delete(s.table, s.handler.pid).1 == NotFound <==> s.handler.pid in s.dropped)
  {
    ReachableInv(acts);
    var s := Run(Start, acts);
    if s.handler.Deleting? {
      DeleteEffect(s.table, s.handler.pid, s.handler.pid);
    }
  }

  /** There is at most one foreground job, and it is the command being run. */
  lemma OneForegroundJob(acts: seq<Action>, p: Pid, q: Pid)
    requires p != 0 && q != 0
    ensures var s := Run(Start, acts);
      && (HasForeground(s.table, p) && HasForeground(s.table, q) ==> p == q)
      && (HasForeground(s.table, p) ==> !s.main.Prompt? && !s.main.Listing? && !s.main.Masked?)
  {
    ReachableInv(acts);
  }

  /** eval leaves the wait only when the child it waited for was reaped. */
  lemma WaitEndsAfterReap(acts: seq<Action>, a: Action, p: Pid, listed: bool)
    ensures var s := Run(Start, acts);
      WaitsFor(s, p, listed) && !WaitsFor(Step(s, a), p, listed) ==>
        listed && s.fgDone && !Unreaped(s, p) && Step(s, a).main == Unmasking(p)
  {
    ReachableInv(acts);
  }

  /** No lost wakeup: suspended with nothing pending and no handler running, the child that
      the shell waits for is still alive. */
  lemma NoLostWakeup(acts: seq<Action>, p: Pid)
    ensures var s := Run(Start, acts);
      s.main == Suspended(p, true) && s.handler.Off? && !s.pending ==> p in s.live
  {
    ReachableInv(acts);
    var s := Run(Start, acts);
    if s.main == Suspended(p, true) && s.handler.Off? && !s.pending {
      assert IsCurrentForeground(s, p);
      assert HasForeground(s.table, p);
      assert Has(s.table, p);
    }
  }

  // ----- the wait ends if and only if the add found a slot

  /** A foreground child whose add met a full table is waited for forever. */
  lemma {:induction false} DroppedWaitNeverEnds(s: Shell, p: Pid, acts: seq<Action>)
    requires Inv(s) && WaitsFor(s, p, false)
    ensures WaitsFor(Run(s, acts), p, false)
    decreases |acts|
  {
    if acts != [] {
      StepKeepsInv(s, acts[0]);
      DroppedWaitNeverEnds(Step(s, acts[0]), p, acts[1..]);
    }
  }

  lemma {:induction false} RunAppend(s: Shell, a: seq<Action>, b: seq<Action>)
    ensures Run(s, a + b) == Run(Run(s, a), b)
    decreases |a|
  {
    if a == [] {
      assert a + b == b;
    } else {
      assert (a + b)[1..] == a[1..] + b;
      RunAppend(Step(s, a[0]), a[1..], b);
    }
  }

  lemma RunOne(s: Shell, a: Action, rest: seq<Action>)
    ensures Run(s, [a] + rest) == Run(Step(s, a), rest)
  {
    assert ([a] + rest)[1..] == rest;
  }

  /** How much a handler has left to do before it looks for the next zombie. */
  function HandlerWork(h: Handler): nat {
    match h
    case Off => 0
    case Returning => 1
    case Reaping => 2
    case Flagging(_) => 3
    case Deleting(_) => 4
  }

  lemma HandlerMoves(s: Shell) returns (a: Action)
    requires Inv(s) && !s.handler.Off?
    ensures var r := Step(s, a);
      && Inv(r) && r.live == s.live
      && (|r.zombies| < |s.zombies| ||
          (r.zombies == s.zombies && HandlerWork(r.handler) < HandlerWork(s.handler)))
      && (r.handler.Off? ==> s.handler.Returning?)
      && (r.handler.Returning? ==> r.zombies == {})
      && r.main == (if r.handler.Off? && s.main.Suspended? then Checking(s.main.pid, s.main.listed) else s.main)
  {
    a := Handle(if s.handler.Reaping? && s.zombies != {} then PickZombie(s) else 0);
    StepKeepsInv(s, a);
  }

  /** The handler, once running, reaps every zombie and returns. */
  lemma {:induction false} HandlerDrains(s: Shell) returns (acts: seq<Action>)
    requires Inv(s) && !s.handler.Off?
    ensures var r := Run(s, acts);
      && Inv(r) && r.handler.Off? && r.live == s.live
      && r.zombies == (if s.handler.Returning? then s.zombies else {})
      && (s.main.Suspended? ==> r.main == Checking(s.main.pid, s.main.listed))
    decreases |s.zombies|, HandlerWork(s.handler)
  {
    var a := HandlerMoves(s);
    var s1 := Step(s, a);
    var rest := [];
    if !s1.handler.Off? {
      rest := HandlerDrains(s1);
    }
    acts := [a] + rest;
    RunOne(s, a, rest);
  }

  ghost function PickZombie(s: Shell): (p: Pid)
    requires s.zombies != {}
    ensures p in s.zombies
  {
    var p :| p in s.zombies; p
  }

  /** In the wait with the handler off and the child dead, the wait comes to its end. */
  lemma DeadChildEndsWait(s: Shell, p: Pid) returns (acts: seq<Action>)
    requires Inv(s) && WaitsFor(s, p, true) && s.handler.Off? && p !in s.live
    ensures Run(s, acts).main == Unmasking(p)
  {
    if s.main.Checking? && s.fgDone {
      acts := [Advance(0)];
      RunOne(s, Advance(0), []);
    } else {
      var enter := if s.main.Checking? then [Advance(0)] else [];
      if s.main.Checking? { RunOne(s, Advance(0), []); }
      var s1 := Run(s, enter);
      RunKeepsInv(s, enter);
      acts := SuspendedEnds(s1, p);
      RunAppend(s, enter, acts);
      acts := enter + acts;
    }
  }

  lemma SuspendedEnds(s: Shell, p: Pid) returns (acts: seq<Action>)
    requires Inv(s) && s.main == Suspended(p, true) && s.handler.Off? && p !in s.live
    ensures Run(s, acts).main == Unmasking(p)
  {
    assert HasForeground(s.table, p);
    assert Has(s.table, p);
    assert p in s.zombies && Deliverable(s);
    var s1 := Step(s, Deliver);
    StepKeepsInv(s, Deliver);
    var drain := HandlerDrains(s1);
    var s2 := Run(s1, drain);
    assert !Unreaped(s2, p);
    assert s2.fgDone by {
      if !s2.fgDone {
        assert HasForeground(s2.table, p);
        assert Has(s2.table, p);
      }
    }
    RunOne(s2, Advance(0), []);
    RunAppend(s1, drain, [Advance(0)]);
    acts := [Deliver] + (drain + [Advance(0)]);
    RunOne(s, Deliver, drain + [Advance(0)]);
  }

  /** From every point of the wait the shell can still reach its end exactly when the add of
      the foreground child found a free slot. */
  lemma WaitCanEndIffListed(s: Shell, p: Pid, listed: bool)
    requires Inv(s) && WaitsFor(s, p, listed)
    ensures listed <==> exists acts: seq<Action> :: Run(s, acts).main == Unmasking(p)
  {
    if !listed {
      forall acts: seq<Action> ensures Run(s, acts).main != Unmasking(p) {
        DroppedWaitNeverEnds(s, p, acts);
      }
    } else {
      var first: seq<Action> := [];
      if !s.handler.Off? { first := HandlerDrains(s); }
      var s1 := Run(s, first);
      var s2 := Step(s1, Exit(p));
      StepKeepsInv(s1, Exit(p));
      var rest := DeadChildEndsWait(s2, p);
      RunOne(s1, Exit(p), rest);
      RunAppend(s, first, [Exit(p)] + rest);
    }
  }

  // ----- the full table is reachable

  lemma RunThree(s: Shell, a: Action, b: Action, c: Action)
    ensures Run(s, [a, b, c]) == Step(Step(Step(s, a), b), c)
  {
    RunOne(s, a, [b, c]);
    RunOne(Step(s, a), b, [c]);
    RunOne(Step(Step(s, a), b), c, []);
  }

  lemma CommandForks(s: Shell, p: Pid, bg: bool)
    requires s.main.Prompt? && s.handler.Off? && !s.blocked
    requires p != 0 && p !in s.live && p !in s.zombies
    ensures Run(s, [Eval(bg), Advance(p), Advance(p)]) ==
      s.(main := Adding(p, bg), blocked := true, prev := false, live := s.live + {p})
  {
    RunThree(s, Eval(bg), Advance(p), Advance(p));
  }

  lemma CommandOffers(s: Shell, p: Pid, bg: bool)
    requires s.main == Adding(p, bg) && s.handler.Off?
    ensures var r := Step(s, Advance(p));
      && r.main == Added(p, bg, IndexOf(s.table, 0) < MAXJOBS)
      && r == s.(main := r.main, table := Add(s.table, p, bg), dropped := r.dropped)
  {
  }

  lemma CommandLowers(s: Shell, p: Pid, bg: bool, listed: bool)
    requires s.main == Added(p, bg, listed) && s.handler.Off?
    ensures var r := Step(Step(s, Advance(p)), Advance(p));
      && r.main == (if bg then Unmasking(p) else Checking(p, listed))
      && r == s.(main := r.main, blocked := true, fgDone := r.fgDone)
  {
  }

  lemma CommandAdds(s: Shell, p: Pid, bg: bool)
    requires s.main == Adding(p, bg) && s.handler.Off? && !s.prev
    ensures var r := Run(s, [Advance(p), Advance(p), Advance(p)]);
      && r.main == (if bg then Unmasking(p) else Checking(p, IndexOf(s.table, 0) < MAXJOBS))
      && r.handler.Off? && r.blocked && !r.prev && r.live == s.live && r.zombies == s.zombies
      && r.table == Add(s.table, p, bg)
  {
    RunThree(s, Advance(p), Advance(p), Advance(p));
    CommandOffers(s, p, bg);
    var s1 := Step(s, Advance(p));
    CommandLowers(s1, p, bg, s1.main.listed);
  }

  /** Typing one command with a fresh child, as far as the next prompt or the wait. */
  lemma CommandRuns(s: Shell, p: Pid, bg: bool) returns (acts: seq<Action>)
    requires s.main.Prompt? && s.handler.Off? && !s.blocked
    requires p != 0 && p !in s.live && p !in s.zombies
    ensures var r := Run(s, acts);
      && r.main == (if bg then Prompt else Checking(p, IndexOf(s.table, 0) < MAXJOBS))
      && r.handler.Off? && r.blocked == !bg && r.live == s.live + {p} && r.zombies == s.zombies
      && r.table == Add(s.table, p, bg)
  {
    var go := Advance(p);
    CommandForks(s, p, bg);
    var s1 := Run(s, [Eval(bg), go, go]);
    CommandAdds(s1, p, bg);
    RunAppend(s, [Eval(bg), go, go], [go, go, go]);
    acts := [Eval(bg), go, go] + [go, go, go];
    if bg {
      var s2 := Run(s, acts);
      RunOne(s2, go, []);
      RunAppend(s, acts, [go]);
      acts := acts + [go];
    }
  }

  /** `k` background commands that keep running fill the first `k` slots. */
  lemma {:induction false} BackgroundFills(k: nat) returns (acts: seq<Action>)
    requires k <= MAXJOBS
    ensures var r := Run(Start, acts);
      && r.main.Prompt? && r.handler.Off? && !r.blocked && r.zombies == {}
      && (forall p :: p in r.live ==> 1 <= p <= k)
      && (forall i | 0 <= i < MAXJOBS :: r.table[i].pid == if i < k then i + 1 else 0)
  {
    if k == 0 {
      acts := [];
    } else {
      var before := BackgroundFills(k - 1);
      var s := Run(Start, before);
      assert s.table[k - 1].pid == 0;
      assert IndexOf(s.table, 0) == k - 1;
      var more := CommandRuns(s, k, true);
      acts := before + more;
      RunAppend(Start, before, more);
    }
  }

  /** Sixteen running background jobs and one foreground command hang the shell: from there no
      run, whatever exits and signals it contains, leaves the wait. */
  lemma FullTableHangsForeground() returns (acts: seq<Action>)
    ensures WaitsFor(Run(Start, acts), 17, false)
    ensures forall more :: WaitsFor(Run(Start, acts + more), 17, false)
  {
    var fill := BackgroundFills(MAXJOBS);
    var s := Run(Start, fill);
    var last := CommandRuns(s, 17, false);
    acts := fill + last;
    RunAppend(Start, fill, last);
    ReachableInv(acts);
    forall more: seq<Action> ensures WaitsFor(Run(Start, acts + more), 17, false) {
      RunAppend(Start, acts, more);
      DroppedWaitNeverEnds(Run(Start, acts), 17, more);
    }
  }
}
