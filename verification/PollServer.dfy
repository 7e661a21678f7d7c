/**
 One round of the poll server: the listener in slot 0, clients behind it, and a scan that
 removes a closed client by moving the last entry into its slot and looks at that slot again.
 */
module PollServer {

  const MAX_CLIENTS := 1024

  /** `input`: POLLIN was reported; `hup`: POLLHUP was; `bad`: POLLERR or POLLNVAL was. */
  datatype PollFd = PollFd(fd: int, input: bool, hup: bool, bad: bool) {
    predicate Ready() { input || hup || bad }
  }

  /** Which descriptors `echo_once` fails on in this round. */
  type Failing = set<int>

  predicate Closes(e: PollFd, failing: Failing) {
    ((e.input || e.hup) && e.fd in failing) || e.bad
  }

  function CountReady(s: seq<PollFd>): nat {
    if s == [] then 0 else (if s[0].Ready() then 1 else 0) + CountReady(s[1..])
  }

  // ----- the scan as a function

  datatype Round = Round(kept: seq<PollFd>, handled: seq<PollFd>)

  /** The scan from `kept`, the slots already passed, over `todo`, those still to visit. */
  function Scan(kept: seq<PollFd>, todo: seq<PollFd>, failing: Failing): Round
    decreases |todo|
  {
    if todo == [] then Round(kept, [])
    else if !todo[0].Ready() then Scan(kept + [todo[0]], todo[1..], failing)
    else
      var r := if Closes(todo[0], failing) then Scan(kept, Removed(todo), failing)
               else Scan(kept + [todo[0]], todo[1..], failing);
      r.(handled := [todo[0]] + r.handled)
  }

  /** The first entry replaced by the last. */
  function Removed(todo: seq<PollFd>): seq<PollFd>
    requires todo != []
  {
    if |todo| == 1 then [] else [todo[|todo| - 1]] + todo[1..|todo| - 1]
  }

  /** How often `e` is in `s`. */
  function Occurs(s: seq<PollFd>, e: PollFd): nat {
    if s == [] then 0 else (if s[0] == e then 1 else 0) + Occurs(s[1..], e)
  }

  lemma {:induction false} CountAppend(a: seq<PollFd>, b: seq<PollFd>)
    ensures CountReady(a + b) == CountReady(a) + CountReady(b)
  {
    if a == [] {
      assert a + b == b;
    } else {
      CountAppend(a[1..], b);
      assert (a + b)[1..] == a[1..] + b;
    }
  }

  lemma {:induction false} OccursAppend(a: seq<PollFd>, b: seq<PollFd>, e: PollFd)
    ensures Occurs(a + b, e) == Occurs(a, e) + Occurs(b, e)
  {
    if a == [] {
      assert a + b == b;
    } else {
      OccursAppend(a[1..], b, e);
      assert (a + b)[1..] == a[1..] + b;
    }
  }

  /** Moving the last entry forward loses only the first. */
  lemma RemovedCounts(todo: seq<PollFd>, e: PollFd)
    requires todo != []
    ensures Occurs(Removed(todo), e) == Occurs(todo[1..], e)
    ensures CountReady(Removed(todo)) == CountReady(todo[1..])
  {
    var n := |todo|;
    if n > 1 {
      var last, mid := [todo[n - 1]], todo[1..n - 1];
      assert todo[1..] == mid + last;
      CountAppend(last, mid);
      CountAppend(mid, last);
      OccursAppend(last, mid, e);
      OccursAppend(mid, last, e);
    } else {
      assert todo[1..] == [];
    }
  }

  /** An error was reported for the entry, or input or a hang-up and its echo fails. */
  predicate Leaves(e: PollFd, failing: Failing) {
    e.bad || (e.fd in failing && (e.input || e.hup))
  }

  /** Every entry is handled as often as it stands there ready, and not at all otherwise; it
      stays unless it closes. */
  lemma {:induction false} ScanExact(kept: seq<PollFd>, todo: seq<PollFd>, failing: Failing, e: PollFd)
    ensures var r := Scan(kept, todo, failing);
      && Occurs(r.handled, e) == (if e.input || e.hup || e.bad then Occurs(todo, e) else 0)
      && Occurs(r.kept, e) == Occurs(kept, e) + (if Leaves(e, failing) then 0 else Occurs(todo, e))
    decreases |todo|
  {
    if todo != [] {
      var x := todo[0];
      if x.Ready() && Closes(x, failing) {
        RemovedCounts(todo, e);
        ScanExact(kept, Removed(todo), failing, e);
        HandledCons(x, Scan(kept, Removed(todo), failing).handled, e);
      } else {
        OccursAppend(kept, [x], e);
        ScanExact(kept + [x], todo[1..], failing, e);
        HandledCons(x, Scan(kept + [x], todo[1..], failing).handled, e);
      }
    }
  }

  lemma HandledCons(x: PollFd, rest: seq<PollFd>, e: PollFd)
    ensures Occurs([x] + rest, e) == (if x == e then 1 else 0) + Occurs(rest, e)
  {
    assert ([x] + rest)[1..] == rest;
  }

  /** With nothing ready left, stopping early changes nothing. */
  lemma {:induction false} NothingReadyLeft(kept: seq<PollFd>, todo: seq<PollFd>, failing: Failing)
    requires CountReady(todo) == 0
    ensures Scan(kept, todo, failing) == Round(kept + todo, [])
    decreases |todo|
  {
    if todo != [] {
      NothingReadyLeft(kept + [todo[0]], todo[1..], failing);
      assert kept + [todo[0]] + todo[1..] == kept + todo;
    } else {
      assert kept + todo == kept;
    }
  }

  ghost predicate DistinctFds(s: seq<PollFd>) {
    forall i, j | 0 <= i < j < |s| :: s[i].fd != s[j].fd
  }

  lemma {:induction false} HandledAreTodo(kept: seq<PollFd>, todo: seq<PollFd>, failing: Failing)
    ensures forall e | e in Scan(kept, todo, failing).handled :: e in todo
    decreases |todo|
  {
    if todo != [] {
      if todo[0].Ready() && Closes(todo[0], failing) {
        HandledAreTodo(kept, Removed(todo), failing);
      } else {
        HandledAreTodo(kept + [todo[0]], todo[1..], failing);
      }
    }
  }

  /** Distinct descriptors stay distinct, and none is handled twice. */
  lemma {:induction false} ScanKeepsDistinct(kept: seq<PollFd>, todo: seq<PollFd>, failing: Failing)
    requires DistinctFds(kept + todo)
    ensures DistinctFds(Scan(kept, todo, failing).kept)
    ensures DistinctFds(Scan(kept, todo, failing).handled)
    decreases |todo|
  {
    if todo == [] {
      assert kept + todo == kept;
    } else {
      var e := todo[0];
      var closes := e.Ready() && Closes(e, failing);
      var kept', todo' := if closes then kept else kept + [e], if closes then Removed(todo) else todo[1..];
      assert DistinctFds(kept' + todo') && forall f | f in todo' :: f.fd != e.fd by {
        if closes { RemovedDistinct(kept, todo); } else { TailDistinct(kept, todo); }
      }
      ScanKeepsDistinct(kept', todo', failing);
      HandledAreTodo(kept', todo', failing);
    }
  }

  lemma TailDistinct(kept: seq<PollFd>, todo: seq<PollFd>)
    requires todo != [] && DistinctFds(kept + todo)
    ensures DistinctFds(kept + [todo[0]] + todo[1..])
    ensures forall f | f in todo[1..] :: f.fd != todo[0].fd
  {
    var all := kept + todo;
    assert kept + [todo[0]] + todo[1..] == all;
    forall x | 0 <= x < |todo[1..]| ensures todo[1..][x].fd != todo[0].fd {
      assert all[|kept|] == todo[0] && all[|kept| + 1 + x] == todo[1..][x];
    }
  }

  lemma RemovedDistinct(kept: seq<PollFd>, todo: seq<PollFd>)
    requires todo != [] && DistinctFds(kept + todo)
    ensures DistinctFds(kept + Removed(todo))
    ensures forall f | f in Removed(todo) :: f.fd != todo[0].fd
  {
    var all, some := kept + todo, kept + Removed(todo);
    forall i, j | 0 <= i < j < |some| ensures some[i].fd != some[j].fd {
      var i' := CameFrom(kept, todo, i);
      var j' := CameFrom(kept, todo, j);
      assert all[i'].fd != all[j'].fd;
    }
    forall x | 0 <= x < |Removed(todo)| ensures Removed(todo)[x].fd != todo[0].fd {
      var y := CameFrom(kept, todo, |kept| + x);
      assert all[|kept|] == todo[0] && some[|kept| + x] == Removed(todo)[x];
    }
  }

  /** Where an entry was before the removal. */
  lemma CameFrom(kept: seq<PollFd>, todo: seq<PollFd>, i: nat) returns (j: nat)
    requires todo != [] && i < |kept + Removed(todo)|
    ensures j < |kept + todo| && (kept + Removed(todo))[i] == (kept + todo)[j]
    ensures j == if i == |kept| then |kept + todo| - 1 else i
    ensures j != |kept|
  {
    j := if i == |kept| then |kept + todo| - 1 else i;
  }

  // ----- the round as the program runs it

  datatype Accept = NoConnection | Connection(fd: int)

  /** `add_client`: a connection over the limit is refused. */
  method AddClient(fds: array<PollFd>, nfds: nat, connfd: int) returns (n: nat)
    requires fds.Length == MAX_CLIENTS + 1 && nfds <= fds.Length
    modifies fds
    ensures n == (if nfds < fds.Length then nfds + 1 else nfds)
    ensures fds[..n] == old(fds[..nfds]) +
      if nfds < fds.Length then [PollFd(connfd, false, false, false)] else []
  {
    if nfds >= MAX_CLIENTS + 1 {
      return nfds;
    }
    fds[nfds] := PollFd(connfd, false, false, false);
    n := nfds + 1;
  }

  /** `remove_pollfd`, up to the close of the descriptor. */
  method RemovePollFd(fds: array<PollFd>, nfds: nat, i: nat) returns (n: nat)
    requires i < nfds <= fds.Length
    modifies fds
    ensures n == nfds - 1
    ensures fds[..i] == old(fds[..i]) && fds[i..n] == Removed(old(fds[i..nfds]))
  {
    fds[i] := fds[nfds - 1];
    n := nfds - 1;
  }

  /** The scan loop, with the removal and the early exit on `nready`. */
  method ScanClients(fds: array<PollFd>, nfds: nat, nready: nat, failing: Failing)
    returns (n: nat, handled: seq<PollFd>)
    requires 1 <= nfds <= fds.Length && nready == CountReady(fds[1..nfds])
    modifies fds
    ensures 1 <= n <= nfds && fds[0] == old(fds[0])
    ensures Round(fds[1..n], handled) == Scan([], old(fds[1..nfds]), failing)
  {
    ghost var all := Scan([], fds[1..nfds], failing);
    var i, left := 1, nready;
    n, handled := nfds, [];
    assert fds[1..1] == [];
    while i < n && left > 0
      invariant 1 <= i <= n <= nfds && fds[0] == old(fds[0])
      invariant left == CountReady(fds[i..n])
      invariant all == Prefixed(handled, Scan(fds[1..i], fds[i..n], failing))
      decreases n - i
    {
      ghost var kept, todo := fds[1..i], fds[i..n];
      var e := fds[i];
      if !e.Ready() {
        i := i + 1;
        assert fds[1..i] == kept + [e] && fds[i..n] == todo[1..];
      } else {
        left := left - 1;
        PrefixedTwice(handled, e, Scan(kept, Removed(todo), failing));
        PrefixedTwice(handled, e, Scan(kept + [e], todo[1..], failing));
        handled := handled + [e];
        if Closes(e, failing) {
          ghost var before := fds[..i];
          n := RemovePollFd(fds, n, i);
          RemovedCounts(todo, e);
          assert fds[1..i] == before[1..] == kept && fds[0] == before[0];
        } else {
          i := i + 1;
          assert fds[1..i] == kept + [e] && fds[i..n] == todo[1..];
        }
      }
    }
    NothingReadyLeft(fds[1..i], fds[i..n], failing);
    assert fds[1..i] + fds[i..n] == fds[1..n];
  }

  /** The clients of a round: those polled, and the one accepted in it, if there is room. */
  function Clients(polled: seq<PollFd>, listener: PollFd, accept: Accept): seq<PollFd> {
    if listener.input && accept.Connection? && |polled| < MAX_CLIENTS
    then polled + [PollFd(accept.fd, false, false, false)] else polled
  }

  /** One round after `poll` returned, which reports how many of the entries are ready. */
  method PollRound(fds: array<PollFd>, nfds: nat, nready: nat, accept: Accept, failing: Failing)
    returns (n: nat, handled: seq<PollFd>)
    requires fds.Length == MAX_CLIENTS + 1 && 1 <= nfds <= fds.Length
    requires nready == CountReady(fds[..nfds])
    modifies fds
    ensures 1 <= n <= fds.Length && fds[0] == old(fds[0])
    ensures var clients := Clients(old(fds[1..nfds]), old(fds[0]), accept);
      Round(fds[1..n], handled) == Scan([], clients, failing)
  {
    ghost var listener, polled := fds[0], fds[1..nfds];
    assert fds[..nfds] == [listener] + polled;
    CountAppend([listener], polled);
    n := nfds;
    var left := nready;
    if fds[0].Ready() {
      if fds[0].input && accept.Connection? {
        n := AddClient(fds, nfds, accept.fd);
        assert fds[0] == fds[..n][0] == listener;
        assert fds[1..n] == fds[..n][1..] == Clients(polled, listener, accept);
        if n > nfds { CountAppend(polled, [PollFd(accept.fd, false, false, false)]); }
      }
      left := left - 1;
      if left == 0 {
        handled := [];
        NothingReadyLeft([], fds[1..n], failing);
        assert [] + fds[1..n] == fds[1..n];
        return;
      }
    }
    assert fds[1..n] == Clients(polled, listener, accept);
    n, handled := ScanClients(fds, n, left, failing);
  }

  /** What a round achieves: it handles each ready client exactly as often as it was polled,
      and nobody else; a client, old or new, stays unless it closes. */
  lemma RoundExact(polled: seq<PollFd>, listener: PollFd, accept: Accept, failing: Failing, e: PollFd)
    ensures var r := Scan([], Clients(polled, listener, accept), failing);
      var joins := listener.input && |polled| < MAX_CLIENTS &&
        accept == Connection(e.fd) && !e.input && !e.hup && !e.bad;
      && Occurs(r.handled, e) == (if e.input || e.hup || e.bad then Occurs(polled, e) else 0)
      && Occurs(r.kept, e) == (if Leaves(e, failing) then 0 else Occurs(polled, e)) + (if joins then 1 else 0)
  {
    var clients := Clients(polled, listener, accept);
    ScanExact([], clients, failing, e);
    if clients != polled {
      OccursAppend(polled, [PollFd(accept.fd, false, false, false)], e);
    }
  }

  lemma {:induction false} KeptAreThere(kept: seq<PollFd>, todo: seq<PollFd>, failing: Failing)
    ensures forall e | e in Scan(kept, todo, failing).kept :: e in kept || e in todo
    decreases |todo|
  {
    if todo != [] {
      if todo[0].Ready() && Closes(todo[0], failing) {
        KeptAreThere(kept, Removed(todo), failing);
      } else {
        KeptAreThere(kept + [todo[0]], todo[1..], failing);
      }
    }
  }

  lemma DistinctCons(x: PollFd, s: seq<PollFd>)
    ensures DistinctFds([x] + s) <==> DistinctFds(s) && forall e | e in s :: e.fd != x.fd
  {
    var all := [x] + s;
    assert all[0] == x && all[1..] == s;
    if DistinctFds(all) {
      forall k | 0 <= k < |s| ensures s[k].fd != x.fd {
        assert all[k + 1] == s[k];
      }
    }
  }

  lemma ClientsDistinct(polled: seq<PollFd>, listener: PollFd, accept: Accept)
    requires DistinctFds([listener] + polled)
    requires accept.Connection? ==> forall e | e in [listener] + polled :: e.fd != accept.fd
    ensures var clients := Clients(polled, listener, accept);
      DistinctFds(clients) && forall e | e in clients :: e.fd != listener.fd
  {
    var clients := Clients(polled, listener, accept);
    DistinctCons(listener, polled);
    assert listener in [listener] + polled && forall e | e in polled :: e in [listener] + polled;
    forall i, j | 0 <= i < j < |clients| ensures clients[i].fd != clients[j].fd {
      if j == |polled| { assert clients[i] in polled; }
    }
    forall e | e in clients ensures e.fd != listener.fd {
      if e !in polled { assert e.fd == accept.fd; }
    }
  }

  /** The descriptors of listener and clients stay distinct, and no client is handled twice. */
  lemma RoundKeepsDistinct(polled: seq<PollFd>, listener: PollFd, accept: Accept, failing: Failing)
    requires DistinctFds([listener] + polled)
    requires accept.Connection? ==> forall e | e in [listener] + polled :: e.fd != accept.fd
    ensures var r := Scan([], Clients(polled, listener, accept), failing);
      && DistinctFds([listener] + r.kept) && DistinctFds(r.handled)
      && forall e | e in r.handled :: e.fd != listener.fd
  {
    var clients := Clients(polled, listener, accept);
    ClientsDistinct(polled, listener, accept);
    assert [] + clients == clients;
    ScanKeepsDistinct([], clients, failing);
    KeptAreThere([], clients, failing);
    HandledAreTodo([], clients, failing);
    var r := Scan([], clients, failing);
    forall e | e in r.kept ensures e.fd != listener.fd {
      assert e in clients;
    }
    forall e | e in r.handled ensures e.fd != listener.fd {
      assert e in clients;
    }
    DistinctCons(listener, r.kept);
  }

  function Prefixed(handled: seq<PollFd>, r: Round): Round {
    r.(handled := handled + r.handled)
  }

  lemma PrefixedTwice(handled: seq<PollFd>, e: PollFd, r: Round)
    ensures Prefixed(handled, r.(handled := [e] + r.handled)) == Prefixed(handled + [e], r)
  {
    assert handled + ([e] + r.handled) == handled + [e] + r.handled;
  }
}
