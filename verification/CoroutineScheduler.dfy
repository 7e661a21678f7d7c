/**
 The single-threaded coroutine scheduler: a FIFO of ready handles, an unsorted vector of timers
 and a logical clock. A task is the list of delays its body awaits; `await_ready` lets a
 non-positive delay pass without suspending. Tasks are spawned once, in index order.
 */
module CoroutineScheduler {

  const INT_MAX := 0x7fff_ffff

  type Task = nat

  datatype Timer = Timer(wake: int, task: Task)

  /** One resumption: the `k`-th of `task`, at `tick`. `cause` is the place in the log of the
      resumption that scheduled it; spawned tasks come before all of the log, in spawn order. */
  datatype Event = Event(task: Task, k: nat, tick: int, cause: int)

  // ----- delays

  /** The delays that suspend, in order. */
  function Suspending(d: seq<int>): (r: seq<int>)
    ensures |r| <= |d| && forall i | 0 <= i < |r| :: r[i] > 0
  {
    if d == [] then []
    else Suspending(d[..|d| - 1]) + if d[|d| - 1] > 0 then [d[|d| - 1]] else []
  }

  function Sum(d: seq<int>): int {
    if d == [] then 0 else Sum(d[..|d| - 1]) + d[|d| - 1]
  }

  /** When the `k`-th resumption is due: after the first `k` suspending delays. */
  function DueTick(d: seq<int>, k: nat): int
    requires k <= |Suspending(d)|
  {
    Sum(Suspending(d)[..k])
  }

  /** How often and for how long the body has suspended on its way to position `a`. */
  function Suspensions(d: seq<int>, a: nat): nat
    requires a <= |d|
  {
    if a == 0 then 0 else Suspensions(d, a - 1) + if d[a - 1] > 0 then 1 else 0
  }

  function Elapsed(d: seq<int>, a: nat): int
    requires a <= |d|
  {
    if a == 0 then 0 else Elapsed(d, a - 1) + if d[a - 1] > 0 then d[a - 1] else 0
  }

  lemma SumSnoc(p: seq<int>, x: int)
    ensures Sum(p + [x]) == Sum(p) + x
  {
    assert (p + [x])[..|p|] == p;
  }

  lemma SuspendingSnoc(d: seq<int>, x: int)
    ensures Suspending(d + [x]) == if x > 0 then Suspending(d) + [x] else Suspending(d)
  {
    assert (d + [x])[..|d|] == d;
  }

  lemma OneMoreDelay(d: seq<int>, x: int)
    ensures |Suspending(d + [x])| == |Suspending(d)| + if x > 0 then 1 else 0
    ensures Sum(Suspending(d + [x])) == Sum(Suspending(d)) + if x > 0 then x else 0
  {
    SuspendingSnoc(d, x);
    if x > 0 { SumSnoc(Suspending(d), x); }
  }

  lemma PrefixOneMore(d: seq<int>, a: nat)
    requires a < |d|
    ensures d[..a + 1] == d[..a] + [d[a]]
  {
  }

  lemma {:induction false} ElapsedIsSum(d: seq<int>, a: nat)
    requires a <= |d|
    ensures |Suspending(d[..a])| == Suspensions(d, a)
    ensures Sum(Suspending(d[..a])) == Elapsed(d, a)
  {
    if a > 0 {
      var b := a - 1;
      ElapsedIsSum(d, b);
      PrefixOneMore(d, b);
      var before, x := d[..b], d[b];
      OneMoreDelay(before, x);
    }
  }

  lemma {:induction false} SuspendingPrefix(d: seq<int>, a: nat)
    requires a <= |d|
    ensures Suspending(d[..a]) <= Suspending(d)
    decreases |d|
  {
    if a == |d| {
      assert d[..a] == d;
    } else {
      SuspendingPrefix(d[..|d| - 1], a);
      assert d[..|d| - 1][..a] == d[..a];
    }
  }

  /** A body at position `a` is resumed at exactly the due tick of its next resumption. */
  lemma ElapsedIsDue(d: seq<int>, a: nat)
    requires a <= |d|
    ensures Suspensions(d, a) <= |Suspending(d)| == Suspensions(d, |d|)
    ensures DueTick(d, Suspensions(d, a)) == Elapsed(d, a)
  {
    ElapsedIsSum(d, a);
    ElapsedIsSum(d, |d|);
    SuspendingPrefix(d, a);
    assert d[..|d|] == d;
    assert Suspending(d)[..Suspensions(d, a)] == Suspending(d[..a]);
  }

  lemma {:induction false} SumMonotone(d: seq<int>, j: nat, k: nat)
    requires j <= k <= |d| && forall i | 0 <= i < |d| :: d[i] > 0
    ensures Sum(d[..j]) <= Sum(d[..k]) && (j < k ==> Sum(d[..j]) < Sum(d[..k]))
    decreases k - j
  {
    if j < k {
      SumMonotone(d, j, k - 1);
      assert d[..k][..k - 1] == d[..k - 1];
    }
  }

  /** Where the body suspends next, having reached position `a`; `|d|` if it runs to its end. */
  function NextSuspension(d: seq<int>, a: nat): (j: nat)
    requires a <= |d|
    ensures a <= j <= |d|
    ensures j < |d| ==> d[j] > 0
    ensures forall i | a <= i < j :: d[i] <= 0
    decreases |d| - a
  {
    if a == |d| || d[a] > 0 then a else NextSuspension(d, a + 1)
  }

  lemma {:induction false} PassingTakesNoTime(d: seq<int>, a: nat, j: nat)
    requires a <= j <= |d| && forall i | a <= i < j :: d[i] <= 0
    ensures Suspensions(d, j) == Suspensions(d, a) && Elapsed(d, j) == Elapsed(d, a)
    decreases j - a
  {
    if a < j {
      PassingTakesNoTime(d, a, j - 1);
    }
  }

  // ----- timers

  function DueTasks(timers: seq<Timer>, tick: int): seq<Task> {
    if timers == [] then []
    else (if timers[0].wake <= tick then [timers[0].task] else []) + DueTasks(timers[1..], tick)
  }

  function NotDue(timers: seq<Timer>, tick: int): seq<Timer> {
    if timers == [] then []
    else (if timers[0].wake <= tick then [] else [timers[0]]) + NotDue(timers[1..], tick)
  }

  // ----- the state

  datatype Sim = Sim(
    tick: int,
    ready: seq<Task>,
    timers: seq<Timer>,
    at: seq<nat>,              // where each task's body stands
    done: seq<bool>,
    resumed: seq<nat>,         // how often each task was resumed
    last: seq<int>,            // where in the log each task was last scheduled
    log: seq<Event>)

  function Wake(s: Sim): Sim {
    s.(ready := s.ready + DueTasks(s.timers, s.tick), timers := NotDue(s.timers, s.tick))
  }

  /** Resume `t` until it suspends or ends. */
  function Resume(ds: seq<seq<int>>, s: Sim, t: Task): Sim
    requires Shape(ds, s) && t < |ds|
  {
    var j := NextSuspension(ds[t], s.at[t]);
    var r := s.(
      resumed := s.resumed[t := s.resumed[t] + 1],
      last := s.last[t := |s.log|],
      log := s.log + [Event(t, s.resumed[t], s.tick, s.last[t])]);
    if j < |ds[t]| then
      r.(at := s.at[t := j + 1], timers := s.timers + [Timer(s.tick + ds[t][j], t)])
    else
      r.(at := s.at[t := j], done := s.done[t := true])
  }

  predicate Shape(ds: seq<seq<int>>, s: Sim) {
    && |s.at| == |s.done| == |s.resumed| == |s.last| == |ds|
    && forall i | 0 <= i < |ds| :: s.at[i] <= |ds[i]|
  }

  // ----- the specification

  ghost predicate Logged(log: seq<Event>, t: Task, k: nat) {
    exists x :: 0 <= x < |log| && log[x].task == t && log[x].k == k
  }

  /** The entry at `x` is due when it says, and names the resumption that scheduled it. */
  ghost predicate EntryOk(ds: seq<seq<int>>, log: seq<Event>, x: int) {
    0 <= x < |log| ==>
      var e := log[x];
      && e.task < |ds| && e.k <= |Suspending(ds[e.task])|
      && e.tick == DueTick(ds[e.task], e.k)
      && if e.k == 0 then e.cause == e.task - |ds|
         else 0 <= e.cause < x && log[e.cause].task == e.task && log[e.cause].k == e.k - 1
  }

  /** Entries at `x < y` are different events, in time order, and in scheduling order within
      one tick. */
  ghost predicate InOrder(log: seq<Event>, x: int, y: int) {
    0 <= x < y < |log| ==>
      && (log[x].task != log[y].task || log[x].k != log[y].k)
      && log[x].tick <= log[y].tick
      && (log[x].tick == log[y].tick ==> log[x].cause < log[y].cause)
  }

  ghost predicate OrderedLog(ds: seq<seq<int>>, log: seq<Event>) {
    && (forall x: int :: EntryOk(ds, log, x))
    && (forall x: int, y: int :: InOrder(log, x, y))
  }

  ghost predicate Complete(ds: seq<seq<int>>, log: seq<Event>) {
    forall t: Task, k: nat | t < |ds| && k <= |Suspending(ds[t])| :: Logged(log, t, k)
  }

  ghost predicate ExactSchedule(ds: seq<seq<int>>, log: seq<Event>) {
    OrderedLog(ds, log) && Complete(ds, log)
  }

  // ----- the specification has one solution

  /** An event after the common prefix of two logs is after it in both. */
  lemma FindEvent(ds: seq<seq<int>>, a: seq<Event>, b: seq<Event>, m: nat, x: nat)
    returns (y: nat)
    requires ExactSchedule(ds, a) && ExactSchedule(ds, b)
    requires m <= x < |a| && m <= |b| && a[..m] == b[..m]
    ensures m <= y < |b| && b[y].task == a[x].task && b[y].k == a[x].k && b[y].tick == a[x].tick
  {
    assert EntryOk(ds, a, x);
    assert Logged(b, a[x].task, a[x].k);
    y :| 0 <= y < |b| && b[y].task == a[x].task && b[y].k == a[x].k;
    assert EntryOk(ds, b, y);
    assert InOrder(a, y, x);
    assert forall z | 0 <= z < m :: a[z] == a[..m][z] && b[z] == b[..m][z];
  }

  /** What scheduled an event lies strictly earlier in time. */
  lemma CauseEarlier(ds: seq<seq<int>>, a: seq<Event>, x: nat)
    requires OrderedLog(ds, a) && x < |a| && a[x].k > 0
    ensures 0 <= a[x].cause < x && a[a[x].cause].tick < a[x].tick
  {
    assert EntryOk(ds, a, x);
    assert EntryOk(ds, a, a[x].cause);
    SumMonotone(Suspending(ds[a[x].task]), a[x].k - 1, a[x].k);
  }

  /** Two places of one event, both at the first tick after the common prefix: same cause. */
  lemma CauseShared(ds: seq<seq<int>>, a: seq<Event>, b: seq<Event>, m: nat, x: nat, y: nat)
    requires OrderedLog(ds, a) && OrderedLog(ds, b)
    requires m <= x < |a| && m <= y < |b| && a[..m] == b[..m]
    requires a[x].task == b[y].task && a[x].k == b[y].k
    requires a[m].tick == a[x].tick && b[m].tick == b[y].tick
    ensures a[x].cause == b[y].cause
  {
    assert EntryOk(ds, a, x) && EntryOk(ds, b, y);
    if a[x].k > 0 {
      CauseEarlier(ds, a, x);
      CauseEarlier(ds, b, y);
      var p, q := a[x].cause, b[y].cause;
      assert InOrder(a, m, p) && InOrder(b, m, q);
      assert p < m && q < m;
      assert a[p] == a[..m][p] && b[q] == b[..m][q] && b[p] == b[..m][p];
      assert InOrder(b, p, q) && InOrder(b, q, p);
    }
  }

  lemma SameNextEvent(ds: seq<seq<int>>, a: seq<Event>, b: seq<Event>, m: nat)
    requires ExactSchedule(ds, a) && ExactSchedule(ds, b)
    requires m < |a| && m < |b| && a[..m] == b[..m]
    ensures a[m] == b[m]
  {
    var y := FindEvent(ds, a, b, m, m);
    var x := FindEvent(ds, b, a, m, m);
    assert InOrder(a, m, x) && InOrder(b, m, y);
    CauseShared(ds, a, b, m, m, y);
    CauseShared(ds, b, a, m, m, x);
  }

  lemma NoExtraEvent(ds: seq<seq<int>>, a: seq<Event>, b: seq<Event>, y: nat)
    requires ExactSchedule(ds, a) && ExactSchedule(ds, b) && a <= b && y < |b|
    ensures y < |a|
  {
    assert EntryOk(ds, b, y);
    assert Logged(a, b[y].task, b[y].k);
    var x :| 0 <= x < |a| && a[x].task == b[y].task && a[x].k == b[y].k;
    assert InOrder(b, x, y) && InOrder(b, y, x);
  }

  lemma PrefixIsAll(ds: seq<seq<int>>, a: seq<Event>, b: seq<Event>)
    requires ExactSchedule(ds, a) && ExactSchedule(ds, b) && a <= b
    ensures a == b
  {
    if b != [] { NoExtraEvent(ds, a, b, |b| - 1); }
  }

  /** The schedule is determined by the delays alone. */
  lemma ScheduleUnique(ds: seq<seq<int>>, a: seq<Event>, b: seq<Event>)
    requires ExactSchedule(ds, a) && ExactSchedule(ds, b)
    ensures a == b
  {
    AgreeFrom(ds, a, b, 0);
  }

  lemma {:induction false} AgreeFrom(ds: seq<seq<int>>, a: seq<Event>, b: seq<Event>, m: nat)
    requires ExactSchedule(ds, a) && ExactSchedule(ds, b)
    requires m <= |a| && m <= |b| && a[..m] == b[..m]
    ensures a == b
    decreases |a| - m
  {
    if m == |a| {
      PrefixIsAll(ds, a, b);
    } else if m == |b| {
      PrefixIsAll(ds, b, a);
    } else {
      SameNextEvent(ds, a, b, m);
      assert a[..m + 1] == a[..m] + [a[m]] && b[..m + 1] == b[..m] + [b[m]];
      AgreeFrom(ds, a, b, m + 1);
    }
  }

  // ----- the scheduler's invariant

  function NextTick(ds: seq<seq<int>>, s: Sim, i: Task): int
    requires Shape(ds, s) && i < |ds|
  {
    Elapsed(ds[i], s.at[i])
  }

  /** A task's counters agree with its place in its body and with the log. */
  ghost predicate TaskOk(ds: seq<seq<int>>, s: Sim, i: Task)
    requires Shape(ds, s)
  {
    i < |ds| ==>
      && s.resumed[i] ==
           (if s.done[i] then |Suspending(ds[i])| + 1 else Suspensions(ds[i], s.at[i]))
      && (if s.resumed[i] == 0 then s.last[i] == i - |ds|
          else 0 <= s.last[i] < |s.log| && s.log[s.last[i]].task == i
               && s.log[s.last[i]].k == s.resumed[i] - 1)
      && (forall k: nat | k < s.resumed[i] :: Logged(s.log, i, k))
  }

  /** A task that is not done is waiting somewhere. */
  ghost predicate Queued(ds: seq<seq<int>>, s: Sim, i: Task)
    requires Shape(ds, s)
  {
    i < |ds| ==> s.done[i] || i in s.ready || Sleeping(s.timers, i)
  }

  ghost predicate Sleeping(timers: seq<Timer>, i: Task) {
    exists x :: 0 <= x < |timers| && timers[x].task == i
  }

  ghost predicate ReadyOk(ds: seq<seq<int>>, s: Sim, i: Task)
    requires Shape(ds, s)
  {
    i < |ds| && !s.done[i] && NextTick(ds, s, i) == s.tick
  }

  ghost predicate TimerOk(ds: seq<seq<int>>, s: Sim, m: Timer)
    requires Shape(ds, s)
  {
    m.task < |ds| && !s.done[m.task] && m.wake == NextTick(ds, s, m.task)
  }

  /** The tasks stand in the order in which they were scheduled. */
  ghost predicate ByLast(last: seq<int>, tasks: seq<Task>) {
    && (forall x | 0 <= x < |tasks| :: tasks[x] < |last|)
    && forall x, y | 0 <= x < y < |tasks| :: last[tasks[x]] < last[tasks[y]]
  }

  function TasksOf(timers: seq<Timer>): (r: seq<Task>)
    ensures |r| == |timers| && forall x | 0 <= x < |r| :: r[x] == timers[x].task
  {
    seq(|timers|, x requires 0 <= x < |timers| => timers[x].task)
  }

  /** A logged event is past, and precedes what is ready now. */
  ghost predicate PastOk(ds: seq<seq<int>>, s: Sim, x: int)
    requires Shape(ds, s)
  {
    0 <= x < |s.log| ==>
      && s.log[x].tick <= s.tick
      && s.log[x].task < |ds| && s.log[x].k < s.resumed[s.log[x].task]
      && (s.log[x].tick == s.tick ==>
            forall i | i in s.ready && i < |ds| :: s.log[x].cause < s.last[i])
  }

  ghost predicate QueuesOk(ds: seq<seq<int>>, s: Sim)
    requires Shape(ds, s)
  {
    && (forall i | i in s.ready :: ReadyOk(ds, s, i))
    && (forall m | m in s.timers :: TimerOk(ds, s, m))
    && ByLast(s.last, s.ready)
    && ByLast(s.last, TasksOf(s.timers))
  }

  ghost predicate Ok(ds: seq<seq<int>>, s: Sim) {
    && Shape(ds, s)
    && (forall i: Task :: TaskOk(ds, s, i))
    && (forall i: Task :: Queued(ds, s, i))
    && QueuesOk(ds, s)
    && (forall m | m in s.timers :: m.wake > s.tick)
    && (forall x: int :: PastOk(ds, s, x))
    && OrderedLog(ds, s.log)
  }

  /** After all spawns and before `run`. */
  function Spawned(ds: seq<seq<int>>): Sim {
    var n := |ds|;
    Sim(0, seq(n, i requires 0 <= i < n => i), [],
        seq(n, i requires 0 <= i < n => 0), seq(n, i requires 0 <= i < n => false),
        seq(n, i requires 0 <= i < n => 0), seq(n, i requires 0 <= i < n => i - n), [])
  }

  lemma SpawnedOk(ds: seq<seq<int>>)
    ensures Ok(ds, Spawned(ds))
  {
    var s := Spawned(ds);
    forall i: Task ensures TaskOk(ds, s, i) && Queued(ds, s, i) {
      if i < |ds| {
        assert s.ready[i] == i;
      }
    }
  }

  // ----- resuming the front task

  function ResumeFront(ds: seq<seq<int>>, s: Sim): Sim
    requires Shape(ds, s) && s.ready != [] && s.ready[0] < |ds|
  {
    Resume(ds, s.(ready := s.ready[1..]), s.ready[0])
  }

  /** Running to the next suspension adds exactly that one delay; running to the end adds
      none and uses up all of them. */
  lemma BodyAdvances(d: seq<int>, a: nat)
    requires a <= |d|
    ensures var j := NextSuspension(d, a);
      if j < |d| then
        && Suspensions(d, j + 1) == Suspensions(d, a) + 1
        && Elapsed(d, j + 1) == Elapsed(d, a) + d[j]
      else |Suspending(d)| == Suspensions(d, a)
  {
    var j := NextSuspension(d, a);
    PassingTakesNoTime(d, a, j);
    if j == |d| { ElapsedIsDue(d, j); }
  }

  lemma AppendKeepsOrder(ds: seq<seq<int>>, log: seq<Event>, e: Event)
    requires OrderedLog(ds, log)
    requires EntryOk(ds, log + [e], |log|)
    requires forall x: int :: InOrder(log + [e], x, |log|)
    ensures OrderedLog(ds, log + [e])
  {
    var log' := log + [e];
    forall x: int ensures EntryOk(ds, log', x) {
      assert EntryOk(ds, log, x);
    }
    forall x: int, y: int ensures InOrder(log', x, y) {
      assert InOrder(log, x, y) && InOrder(log', x, |log|);
    }
  }

  lemma NewEventDue(ds: seq<seq<int>>, s: Sim, t: Task)
    requires Ok(ds, s) && t in s.ready
    ensures t < |ds|
    ensures EntryOk(ds, s.log + [Event(t, s.resumed[t], s.tick, s.last[t])], |s.log|)
  {
    assert ReadyOk(ds, s, t) && TaskOk(ds, s, t);
    ElapsedIsDue(ds[t], s.at[t]);
  }

  lemma ResumeKeepsLog(ds: seq<seq<int>>, s: Sim)
    requires Ok(ds, s) && s.ready != []
    ensures s.ready[0] < |ds| && OrderedLog(ds, ResumeFront(ds, s).log)
  {
    var t := s.ready[0];
    assert t in s.ready;
    NewEventDue(ds, s, t);
    var e := Event(t, s.resumed[t], s.tick, s.last[t]);
    var log' := s.log + [e];
    forall x: int ensures InOrder(log', x, |s.log|) {
      assert PastOk(ds, s, x);
    }
    AppendKeepsOrder(ds, s.log, e);
  }

  /** The front task waits nowhere else. */
  lemma FrontIsAlone(ds: seq<seq<int>>, s: Sim)
    requires Ok(ds, s) && s.ready != []
    ensures s.ready[0] !in s.ready[1..]
    ensures forall m | m in s.timers :: m.task != s.ready[0]
  {
    var t := s.ready[0];
    assert t in s.ready && ReadyOk(ds, s, t);
    forall x | 0 <= x < |s.ready[1..]| ensures s.ready[1..][x] != t {
      assert s.ready[1..][x] == s.ready[x + 1];
    }
    forall m | m in s.timers ensures m.task != t {
      assert TimerOk(ds, s, m);
    }
  }

  lemma ResumeKeepsReady(ds: seq<seq<int>>, s: Sim, i: Task)
    requires Ok(ds, s) && s.ready != [] && s.ready[0] < |ds| && i in s.ready[1..]
    ensures Shape(ds, ResumeFront(ds, s)) && ReadyOk(ds, ResumeFront(ds, s), i)
  {
    FrontIsAlone(ds, s);
    assert i in s.ready && ReadyOk(ds, s, i);
  }

  lemma ResumeKeepsTimer(ds: seq<seq<int>>, s: Sim, m: Timer)
    requires Ok(ds, s) && s.ready != [] && s.ready[0] < |ds| && m in ResumeFront(ds, s).timers
    ensures Shape(ds, ResumeFront(ds, s)) && TimerOk(ds, ResumeFront(ds, s), m) && m.wake > s.tick
  {
    var t := s.ready[0];
    FrontIsAlone(ds, s);
    assert t in s.ready && ReadyOk(ds, s, t);
    BodyAdvances(ds[t], s.at[t]);
    if m in s.timers { assert TimerOk(ds, s, m); }
  }

  lemma ResumeKeepsQueues(ds: seq<seq<int>>, s: Sim)
    requires Ok(ds, s) && s.ready != []
    ensures s.ready[0] < |ds|
    ensures Shape(ds, ResumeFront(ds, s)) && QueuesOk(ds, ResumeFront(ds, s))
    ensures forall m | m in ResumeFront(ds, s).timers :: m.wake > s.tick
  {
    assert s.ready[0] in s.ready && ReadyOk(ds, s, s.ready[0]);
    var r := ResumeFront(ds, s);
    assert Shape(ds, r);
    forall i | i in r.ready ensures ReadyOk(ds, r, i) {
      ResumeKeepsReady(ds, s, i);
    }
    forall m | m in r.timers ensures TimerOk(ds, r, m) && m.wake > s.tick {
      ResumeKeepsTimer(ds, s, m);
    }
    LastKeepsOrder(ds, s);
  }

  lemma LastKeepsReadyOrder(ds: seq<seq<int>>, s: Sim)
    requires Ok(ds, s) && s.ready != [] && s.ready[0] < |ds|
    ensures ByLast(ResumeFront(ds, s).last, s.ready[1..])
  {
    FrontIsAlone(ds, s);
    var rest := s.ready[1..];
    assert forall x | 0 <= x < |rest| :: rest[x] == s.ready[x + 1] && rest[x] in rest;
  }

  lemma LastKeepsTimerOrder(ds: seq<seq<int>>, s: Sim, x: nat, y: nat)
    requires Ok(ds, s) && s.ready != [] && s.ready[0] < |ds|
    requires x < y < |ResumeFront(ds, s).timers|
    ensures var r := ResumeFront(ds, s); var a, b := r.timers[x].task, r.timers[y].task;
      a < |ds| == |r.last| && b < |ds| && r.last[a] < r.last[b]
  {
    FrontIsAlone(ds, s);
    assert s.timers[x] in s.timers;
    assert TimerOk(ds, s, s.timers[x]) && TaskOk(ds, s, s.timers[x].task);
    if y < |s.timers| {
      assert s.timers[y] in s.timers;
      assert ByLast(s.last, TasksOf(s.timers));
      assert s.last[TasksOf(s.timers)[x]] < s.last[TasksOf(s.timers)[y]];
    }
  }

  lemma LastKeepsOrder(ds: seq<seq<int>>, s: Sim)
    requires Ok(ds, s) && s.ready != [] && s.ready[0] < |ds|
    ensures ByLast(ResumeFront(ds, s).last, s.ready[1..])
    ensures ByLast(ResumeFront(ds, s).last, TasksOf(ResumeFront(ds, s).timers))
  {
    LastKeepsReadyOrder(ds, s);
    var r := ResumeFront(ds, s);
    var tasks := TasksOf(r.timers);
    forall x | 0 <= x < |tasks| ensures tasks[x] < |r.last| {
      if x < |s.timers| { assert s.timers[x] in s.timers && TimerOk(ds, s, s.timers[x]); }
    }
    forall x, y | 0 <= x < y < |tasks| ensures r.last[tasks[x]] < r.last[tasks[y]] {
      LastKeepsTimerOrder(ds, s, x, y);
    }
  }

  lemma {:induction false} LoggedStays(log: seq<Event>, e: Event, t: Task, k: nat)
    ensures Logged(log, t, k) ==> Logged(log + [e], t, k)
    ensures Logged(log + [e], e.task, e.k)
  {
    var log' := log + [e];
    assert log'[|log|] == e;
    if Logged(log, t, k) {
      var x :| 0 <= x < |log| && log[x].task == t && log[x].k == k;
      assert log'[x] == log[x];
    }
  }

  lemma ResumeKeepsFrontTask(ds: seq<seq<int>>, s: Sim)
    requires Ok(ds, s) && s.ready != []
    ensures s.ready[0] < |ds|
    ensures Shape(ds, ResumeFront(ds, s)) && TaskOk(ds, ResumeFront(ds, s), s.ready[0])
  {
    var t := s.ready[0];
    assert t in s.ready && ReadyOk(ds, s, t) && TaskOk(ds, s, t);
    BodyAdvances(ds[t], s.at[t]);
    var r := ResumeFront(ds, s);
    forall k: nat | k < r.resumed[t] ensures Logged(r.log, t, k) {
      LoggedStays(s.log, Event(t, s.resumed[t], s.tick, s.last[t]), t, k);
    }
  }

  lemma ResumeKeepsTask(ds: seq<seq<int>>, s: Sim, i: Task)
    requires Ok(ds, s) && s.ready != []
    ensures s.ready[0] < |ds|
    ensures Shape(ds, ResumeFront(ds, s)) && TaskOk(ds, ResumeFront(ds, s), i)
  {
    ResumeKeepsFrontTask(ds, s);
    var t := s.ready[0];
    if i < |ds| && i != t {
      assert TaskOk(ds, s, i);
      var r := ResumeFront(ds, s);
      forall k: nat | k < r.resumed[i] ensures Logged(r.log, i, k) {
        LoggedStays(s.log, Event(t, s.resumed[t], s.tick, s.last[t]), i, k);
      }
    }
  }

  lemma ResumeKeepsQueued(ds: seq<seq<int>>, s: Sim, i: Task)
    requires Ok(ds, s) && s.ready != []
    ensures s.ready[0] < |ds|
    ensures Shape(ds, ResumeFront(ds, s)) && Queued(ds, ResumeFront(ds, s), i)
  {
    var t := s.ready[0];
    assert t in s.ready && ReadyOk(ds, s, t) && Queued(ds, s, i);
    var r := ResumeFront(ds, s);
    assert s.ready == [t] + s.ready[1..];
    if Sleeping(s.timers, i) {
      var x :| 0 <= x < |s.timers| && s.timers[x].task == i;
      assert r.timers[x] == s.timers[x];
    }
    if i == t && !r.done[t] {
      assert r.timers[|s.timers|].task == t;
    }
  }

  lemma ResumeKeepsPast(ds: seq<seq<int>>, s: Sim, x: int)
    requires Ok(ds, s) && s.ready != []
    ensures s.ready[0] < |ds|
    ensures Shape(ds, ResumeFront(ds, s)) && PastOk(ds, ResumeFront(ds, s), x)
  {
    var t := s.ready[0];
    assert t in s.ready && ReadyOk(ds, s, t);
    FrontIsAlone(ds, s);
    assert PastOk(ds, s, x);
    var r := ResumeFront(ds, s);
    forall i | i in r.ready && i < |ds| ensures s.last[t] < r.last[i] && i in s.ready {
      var y :| 0 <= y < |r.ready| && r.ready[y] == i;
      assert s.ready[y + 1] == i;
    }
  }

  lemma ResumeKeepsOk(ds: seq<seq<int>>, s: Sim)
    requires Ok(ds, s) && s.ready != []
    ensures s.ready[0] < |ds| && Ok(ds, ResumeFront(ds, s))
  {
    ResumeKeepsLog(ds, s);
    ResumeKeepsQueues(ds, s);
    var r := ResumeFront(ds, s);
    forall i: Task ensures TaskOk(ds, r, i) && Queued(ds, r, i) {
      ResumeKeepsTask(ds, s, i);
      ResumeKeepsQueued(ds, s, i);
    }
    forall x: int ensures PastOk(ds, r, x) { ResumeKeepsPast(ds, s, x); }
  }

  // ----- moving the clock

  lemma {:induction false} NothingDue(timers: seq<Timer>, tick: int)
    requires forall m | m in timers :: m.wake > tick
    ensures DueTasks(timers, tick) == [] && NotDue(timers, tick) == timers
  {
    if timers != [] { NothingDue(timers[1..], tick); }
  }

  lemma {:induction false} WakeSplits(timers: seq<Timer>, tick: int)
    ensures forall m :: m in NotDue(timers, tick) <==> m in timers && m.wake > tick
    ensures forall t | t in DueTasks(timers, tick) :: exists m :: m in timers && m.task == t && m.wake <= tick
    ensures forall m | m in timers && m.wake <= tick :: m.task in DueTasks(timers, tick)
  {
    if timers != [] {
      WakeSplits(timers[1..], tick);
      assert timers == [timers[0]] + timers[1..];
    }
  }

  lemma HeadScheduledFirst(last: seq<int>, timers: seq<Timer>, m: Timer)
    requires timers != [] && ByLast(last, TasksOf(timers)) && m in timers[1..]
    ensures timers[0].task < |last| && m.task < |last|
    ensures last[timers[0].task] < last[m.task]
  {
    var y :| 0 <= y < |timers[1..]| && timers[1..][y] == m;
    var tasks := TasksOf(timers);
    assert tasks[0] == timers[0].task && tasks[y + 1] == m.task;
  }

  lemma ConsKeepsOrder(last: seq<int>, t: Task, tasks: seq<Task>)
    requires t < |last| && ByLast(last, tasks)
    requires forall x | 0 <= x < |tasks| :: last[t] < last[tasks[x]]
    ensures ByLast(last, [t] + tasks)
  {
  }

  lemma {:induction false} DueKeepsOrder(last: seq<int>, timers: seq<Timer>, tick: int)
    requires ByLast(last, TasksOf(timers))
    ensures ByLast(last, DueTasks(timers, tick))
  {
    if timers != [] {
      var rest := timers[1..];
      assert TasksOf(rest) == TasksOf(timers)[1..];
      DueKeepsOrder(last, rest, tick);
      var due := DueTasks(rest, tick);
      if timers[0].wake <= tick {
        WakeSplits(rest, tick);
        forall x | 0 <= x < |due| ensures last[timers[0].task] < last[due[x]] {
          assert due[x] in due;
          var m :| m in rest && m.task == due[x] && m.wake <= tick;
          HeadScheduledFirst(last, timers, m);
        }
        assert TasksOf(timers)[0] == timers[0].task;
        ConsKeepsOrder(last, timers[0].task, due);
      }
    }
  }

  lemma ConsTimerKeepsOrder(last: seq<int>, timers: seq<Timer>, later: seq<Timer>)
    requires timers != [] && ByLast(last, TasksOf(timers)) && ByLast(last, TasksOf(later))
    requires forall m | m in later :: m in timers[1..]
    ensures ByLast(last, TasksOf([timers[0]] + later))
  {
    var tasks := TasksOf(later);
    assert TasksOf(timers)[0] == timers[0].task;
    forall x | 0 <= x < |tasks| ensures last[timers[0].task] < last[tasks[x]] {
      assert later[x] in later;
      HeadScheduledFirst(last, timers, later[x]);
    }
    ConsKeepsOrder(last, timers[0].task, tasks);
    assert TasksOf([timers[0]] + later) == [timers[0].task] + tasks;
  }

  lemma {:induction false} NotDueKeepsOrder(last: seq<int>, timers: seq<Timer>, tick: int)
    requires ByLast(last, TasksOf(timers))
    ensures ByLast(last, TasksOf(NotDue(timers, tick)))
  {
    if timers != [] {
      var rest := timers[1..];
      assert TasksOf(rest) == TasksOf(timers)[1..];
      NotDueKeepsOrder(last, rest, tick);
      if timers[0].wake > tick {
        WakeSplits(rest, tick);
        ConsTimerKeepsOrder(last, timers, NotDue(rest, tick));
      }
    }
  }

  /** The clock jumps to the earliest wake-up, and all tasks due then become ready. */
  lemma JumpKeepsOk(ds: seq<seq<int>>, s: Sim, tick: int)
    requires Ok(ds, s) && s.ready == [] && s.timers != []
    requires (forall m | m in s.timers :: tick <= m.wake) && exists m :: m in s.timers && m.wake == tick
    ensures Ok(ds, Wake(s.(tick := tick))) && Wake(s.(tick := tick)).ready != []
  {
    var r := Wake(s.(tick := tick));
    WakeSplits(s.timers, tick);
    DueKeepsOrder(s.last, s.timers, tick);
    NotDueKeepsOrder(s.last, s.timers, tick);
    forall i | i in r.ready ensures ReadyOk(ds, r, i) {
      var m :| m in s.timers && m.task == i && m.wake <= tick;
      assert TimerOk(ds, s, m);
    }
    forall m | m in r.timers ensures TimerOk(ds, r, m) {
      assert TimerOk(ds, s, m);
    }
    forall i: Task ensures TaskOk(ds, r, i) && Queued(ds, r, i) {
      assert TaskOk(ds, s, i) && Queued(ds, s, i);
      JumpKeepsQueued(s.timers, tick, i);
    }
    forall x: int ensures PastOk(ds, r, x) {
      assert PastOk(ds, s, x);
    }
  }

  lemma JumpKeepsQueued(timers: seq<Timer>, tick: int, i: Task)
    ensures Sleeping(timers, i) ==> i in DueTasks(timers, tick) || Sleeping(NotDue(timers, tick), i)
  {
    WakeSplits(timers, tick);
    if Sleeping(timers, i) {
      var x :| 0 <= x < |timers| && timers[x].task == i;
      var m := timers[x];
      assert m in timers;
      if m.wake > tick {
        var later := NotDue(timers, tick);
        assert m in later;
        var y :| 0 <= y < |later| && later[y] == m;
      }
    }
  }

  /** With both queues empty every task is done, and the log is the whole schedule. */
  lemma EmptyQueuesMeanComplete(ds: seq<seq<int>>, s: Sim)
    requires Ok(ds, s) && s.ready == [] && s.timers == []
    ensures forall i: Task | i < |ds| :: s.done[i]
    ensures ExactSchedule(ds, s.log)
  {
    forall i: Task | i < |ds| ensures s.done[i] {
      assert Queued(ds, s, i);
    }
    forall t: Task, k: nat | t < |ds| && k <= |Suspending(ds[t])| ensures Logged(s.log, t, k) {
      assert TaskOk(ds, s, t);
    }
  }

  // ----- termination

  /** Delays not yet reached, over the first `n` tasks. */
  function Left(ds: seq<seq<int>>, at: seq<nat>, n: nat): (r: nat)
    requires n <= |ds| == |at| && forall i | 0 <= i < n :: at[i] <= |ds[i]|
  {
    if n == 0 then 0 else Left(ds, at, n - 1) + |ds[n - 1]| - at[n - 1]
  }

  lemma {:induction false} LeftDrops(ds: seq<seq<int>>, at: seq<nat>, n: nat, t: nat, v: nat)
    requires n <= |ds| == |at| && forall i | 0 <= i < n :: at[i] <= |ds[i]|
    requires t < |ds| && at[t] <= v <= |ds[t]|
    ensures Left(ds, at[t := v], n) == Left(ds, at, n) - if t < n then v - at[t] else 0
  {
    if n > 0 { LeftDrops(ds, at, n - 1, t, v); }
  }

  function Work(ds: seq<seq<int>>, s: Sim): nat
    requires Shape(ds, s)
  {
    Left(ds, s.at, |ds|) + |s.ready| + |s.timers|
  }

  lemma ResumeWorks(ds: seq<seq<int>>, s: Sim)
    requires Shape(ds, s) && s.ready != [] && s.ready[0] < |ds|
    ensures Shape(ds, ResumeFront(ds, s)) && Work(ds, ResumeFront(ds, s)) < Work(ds, s)
  {
    var t := s.ready[0];
    LeftDrops(ds, s.at, |ds|, t, ResumeFront(ds, s).at[t]);
  }

  lemma {:induction false} WakeMoves(timers: seq<Timer>, tick: int)
    ensures |DueTasks(timers, tick)| + |NotDue(timers, tick)| == |timers|
  {
    if timers != [] { WakeMoves(timers[1..], tick); }
  }

  /** No wake-up time exceeds the total delay of its task. */
  lemma WakeFits(ds: seq<seq<int>>, s: Sim, m: Timer)
    requires Ok(ds, s) && m in s.timers && forall i | 0 <= i < |ds| :: Sum(Suspending(ds[i])) <= INT_MAX
    ensures m.wake <= INT_MAX
  {
    assert TimerOk(ds, s, m);
    var d := ds[m.task];
    var all := Suspending(d);
    ElapsedIsDue(d, s.at[m.task]);
    SumMonotone(all, Suspensions(d, s.at[m.task]), |all|);
    assert all[..|all|] == all;
  }

  lemma DueStep(woken: seq<Task>, todo: seq<Timer>, tick: int)
    requires todo != []
    ensures woken + DueTasks(todo, tick) ==
      (if todo[0].wake <= tick then woken + [todo[0].task] else woken) + DueTasks(todo[1..], tick)
  {
  }

  lemma NotDueStep(kept: seq<Timer>, todo: seq<Timer>, tick: int)
    requires todo != []
    ensures kept + NotDue(todo, tick) ==
      (if todo[0].wake <= tick then kept else kept + [todo[0]]) + NotDue(todo[1..], tick)
  {
  }

  // ----- the class

  class Scheduler {
    const ds: seq<seq<int>>
    var tick: int
    var ready: seq<Task>
    var timers: seq<Timer>
    var at: seq<nat>
    var done: seq<bool>
    ghost var resumed: seq<nat>
    ghost var last: seq<int>
    ghost var log: seq<Event>

    ghost function View(): Sim
      reads this
    {
      Sim(tick, ready, timers, at, done, resumed, last, log)
    }

    /** Creates the tasks and starts each one, as `main` does before `run`. */
    constructor (ds: seq<seq<int>>)
      ensures this.ds == ds && View() == Spawned(ds)
    {
      var n := |ds|;
      this.ds := ds;
      tick, ready, timers := 0, [], [];
      at, done := seq(n, i requires 0 <= i < n => 0), seq(n, i requires 0 <= i < n => false);
      resumed, last, log :=
        seq(n, i requires 0 <= i < n => 0), seq(n, i requires 0 <= i < n => i - n), [];
      new;
      for i := 0 to n
        invariant ready == seq(i, k requires 0 <= k < i => k)
        invariant View() == Spawned(ds).(ready := ready)
      {
        Spawn(i);
      }
    }

    method Spawn(t: Task)
      modifies `ready
      ensures ready == old(ready) + [t]
    {
      ready := ready + [t];
    }

    method ScheduleAfter(t: Task, ticks: int)
      modifies `timers
      ensures timers == old(timers) + [Timer(tick + ticks, t)]
    {
      timers := timers + [Timer(tick + ticks, t)];
    }

    method WakeDueTimers()
      modifies `ready, `timers
      ensures View() == Wake(old(View()))
    {
      var it := 0;
      ghost var woken, kept, todo := [], [], timers;
      assert [] + DueTasks(todo, tick) == DueTasks(todo, tick);
      assert [] + NotDue(todo, tick) == NotDue(todo, tick);
      while it < |timers|
        invariant it == |kept| && timers == kept + todo && ready == old(ready) + woken
        invariant woken + DueTasks(todo, tick) == DueTasks(old(timers), tick)
        invariant kept + NotDue(todo, tick) == NotDue(old(timers), tick)
        decreases |todo|
      {
        DueStep(woken, todo, tick);
        NotDueStep(kept, todo, tick);
        if timers[it].wake <= tick {
          ready := ready + [timers[it].task];
          woken := woken + [todo[0].task];
          timers := timers[..it] + timers[it + 1..];
        } else {
          kept := kept + [todo[0]];
          it := it + 1;
        }
        todo := todo[1..];
      }
      assert todo == [] && woken + [] == woken && kept + [] == kept;
    }

    method NextTimerTick() returns (next: int)
      requires timers != [] && forall m | m in timers :: m.wake <= INT_MAX
      ensures forall m | m in timers :: next <= m.wake
      ensures exists m :: m in timers && m.wake == next
    {
      next := INT_MAX;
      for i := 0 to |timers|
        invariant forall m | m in timers[..i] :: next <= m.wake
        invariant next == INT_MAX || exists m :: m in timers && m.wake == next
        invariant next <= INT_MAX
      {
        if timers[i].wake < next {
          assert timers[i] in timers;
          next := timers[i].wake;
        }
      }
      assert timers[..|timers|] == timers;
      assert timers[0] in timers && next <= timers[0].wake;
    }

    /** `handle.resume()`: runs the body from its suspension point to the next one or its end. */
    method ResumeTask(t: Task)
      requires t < |ds| && Shape(ds, View())
      modifies `timers, `at, `done, `resumed, `last, `log
      ensures View() == Resume(ds, old(View()), t)
    {
      log := log + [Event(t, resumed[t], tick, last[t])];
      resumed, last := resumed[t := resumed[t] + 1], last[t := |log| - 1];
      var i := at[t];
      while i < |ds[t]| && ds[t][i] <= 0
        invariant at[t] <= i <= |ds[t]|
        invariant NextSuspension(ds[t], i) == NextSuspension(ds[t], at[t])
      {
        i := i + 1;
      }
      if i < |ds[t]| {
        ScheduleAfter(t, ds[t][i]);
        at := at[t := i + 1];
      } else {
        at := at[t := i];
        done := done[t := true];
      }
    }

    /** One turn of the scheduler's loop. */
    method Turn()
      requires Ok(ds, View()) && (ready != [] || timers != [])
      requires forall i | 0 <= i < |ds| :: Sum(Suspending(ds[i])) <= INT_MAX
      modifies this
      ensures Ok(ds, View()) && Work(ds, View()) < old(Work(ds, View()))
    {
      ghost var s := View();
      NothingDue(timers, tick);
      WakeDueTimers();
      assert View() == s;
      if ready == [] {
        JumpToNextTimer();
      }
      RunFront();
    }

    /** With no handle ready, the clock moves to the earliest timer. */
    method JumpToNextTimer()
      requires Ok(ds, View()) && ready == [] && timers != []
      requires forall i | 0 <= i < |ds| :: Sum(Suspending(ds[i])) <= INT_MAX
      modifies this
      ensures Ok(ds, View()) && ready != [] && Work(ds, View()) == old(Work(ds, View()))
    {
      ghost var s := View();
      forall m | m in timers ensures m.wake <= INT_MAX { WakeFits(ds, s, m); }
      tick := NextTimerTick();
      JumpKeepsOk(ds, s, tick);
      WakeMoves(timers, tick);
      WakeDueTimers();
    }

    method RunFront()
      requires Ok(ds, View()) && ready != []
      modifies this
      ensures Ok(ds, View()) && Work(ds, View()) < old(Work(ds, View()))
    {
      ghost var s := View();
      ResumeKeepsOk(ds, s);
      ResumeWorks(ds, s);
      var handle := ready[0];
      ready := ready[1..];
      assert handle in s.ready && ReadyOk(ds, s, handle);
      if !done[handle] {
        ResumeTask(handle);
      }
      assert View() == ResumeFront(ds, s);
    }

    /** The scheduler's loop. It ends with every task finished and no one waiting, and its
        resumptions are exactly the schedule that the delays determine. */
    method Run()
      requires View() == Spawned(ds)
      requires forall i | 0 <= i < |ds| :: Sum(Suspending(ds[i])) <= INT_MAX
      modifies this
      ensures ready == [] && timers == []
      ensures |done| == |ds| && forall i: Task | i < |ds| :: done[i]
      ensures ExactSchedule(ds, log)
    {
      SpawnedOk(ds);
      while ready != [] || timers != []
        invariant Ok(ds, View())
        decreases Work(ds, View())
      {
        Turn();
      }
      EmptyQueuesMeanComplete(ds, View());
    }
  }
}
