/**
 One round of the select server: descriptor sets, a scan from 0 up to `maxfd` that stops when
 all ready descriptors were seen, and `maxfd` lowered when the top descriptor closes.
 */
module SelectServer {

  const FD_SETSIZE := 1024

  type Fd = nat

  ghost predicate IsMax(m: int, s: set<Fd>) {
    (m == -1 && s == {}) || (m >= 0 && m in s && forall f | f in s :: f <= m)
  }

  /** The members of `s` from `fd` on. */
  ghost function From(s: set<Fd>, fd: nat): (r: set<Fd>)
    ensures forall f: Fd :: f in r <==> f in s && fd <= f
  {
    set f | f in s && fd <= f
  }

  lemma FromStep(s: set<Fd>, fd: nat)
    ensures From(s, fd) == if fd in s then From(s, fd + 1) + {fd} else From(s, fd + 1)
    ensures |From(s, fd)| == |From(s, fd + 1)| + if fd in s then 1 else 0
  {
    assert From(s, fd) == if fd in s then From(s, fd + 1) + {fd} else From(s, fd + 1);
  }

  ghost predicate Ascending(s: seq<Fd>) {
    forall i, j | 0 <= i < j < |s| :: s[i] < s[j]
  }

  /** `recompute_maxfd`: down to the greatest member, or to -1. */
  method RecomputeMaxFd(maxfd: int, all: set<Fd>) returns (m: int)
    requires maxfd >= -1 && forall f | f in all :: f <= maxfd
    ensures IsMax(m, all)
  {
    m := maxfd;
    while m >= 0 && m !in all
      invariant m >= -1 && forall f | f in all :: f <= m
    {
      m := m - 1;
    }
    assert m == -1 ==> all == {};
  }

  datatype Accept = NoConnection | Connection(fd: Fd)

  lemma AscendingSnoc(s: seq<Fd>, f: Fd)
    requires Ascending(s) && forall x | x in s :: x < f
    ensures Ascending(s + [f])
  {
    assert forall i | 0 <= i < |s| :: s[i] in s;
  }

  /** The scan over the clients: the ready ones, in ascending order, each once; those whose
      echo fails leave the watched set, and `maxfd` follows its greatest member. */
  method ScanClients(all: set<Fd>, ready: set<Fd>, listenfd: Fd, maxfd: int, nready: nat, failing: set<Fd>)
    returns (all': set<Fd>, maxfd': int, handled: seq<Fd>)
    requires IsMax(maxfd, all) && ready <= all && nready == |ready - {listenfd}|
    ensures all' == all - ((ready - {listenfd}) * failing) && IsMax(maxfd', all')
    ensures Ascending(handled) && forall f :: f in handled <==> f in ready - {listenfd}
  {
    ghost var clients := ready - {listenfd};
    all', maxfd', handled := all, maxfd, [];
    var fd, left := 0, nready;
    assert From(clients, 0) == clients;
    while fd <= maxfd' && left > 0
      invariant fd >= 0 && maxfd' >= -1
      invariant IsMax(maxfd', all')
      invariant forall f | f in all' :: f in all
      invariant forall f | f in all :: f in all' <==> !(f < fd && f in clients && f in failing)
      invariant left == |From(clients, fd)|
      invariant Ascending(handled) && forall f :: f in handled <==> f in clients && f < fd
      decreases maxfd - fd, left
    {
      FromStep(clients, fd);
      if fd != listenfd && fd in ready {
        left := left - 1;
        AscendingSnoc(handled, fd);
        handled := handled + [fd];
        if fd in failing {
          all' := all' - {fd};
          if fd == maxfd' {
            maxfd' := RecomputeMaxFd(maxfd', all');
          }
        }
      }
      fd := fd + 1;
    }
    forall f | f in clients ensures f < fd {
      assert f in From(clients, fd) <==> fd <= f;
    }
  }

  lemma OthersReady(ready: set<Fd>, listenfd: Fd)
    ensures |ready - {listenfd}| == |ready| - if listenfd in ready then 1 else 0
  {
    if listenfd in ready {
      assert ready == (ready - {listenfd}) + {listenfd};
    } else {
      assert ready - {listenfd} == ready;
    }
  }

  /** A connection is watched if its number fits the set; `maxfd` goes up with it. */
  method AcceptClient(all: set<Fd>, maxfd: int, accept: Accept) returns (all': set<Fd>, maxfd': int)
    requires IsMax(maxfd, all)
    ensures all' == all + if accept.Connection? && accept.fd < FD_SETSIZE then {accept.fd} else {}
    ensures IsMax(maxfd', all')
  {
    all', maxfd' := all, maxfd;
    if accept.Connection? && accept.fd < FD_SETSIZE {
      all' := all' + {accept.fd};
      if accept.fd > maxfd' {
        maxfd' := accept.fd;
      }
    }
  }

  /** One round after `select` returned `ready`, a part of the watched set, and its size. */
  method SelectRound(all: set<Fd>, ready: set<Fd>, listenfd: Fd, maxfd: int, nready: nat,
                     accept: Accept, failing: set<Fd>)
    returns (all': set<Fd>, maxfd': int, handled: seq<Fd>)
    requires IsMax(maxfd, all) && listenfd in all && ready <= all && nready == |ready|
    requires accept.Connection? ==> accept.fd !in all
    ensures forall f: Fd :: f in all' <==>
      || (f in all && !(f != listenfd && f in ready && f in failing))
      || (listenfd in ready && accept == Connection(f) && f < FD_SETSIZE)
    ensures IsMax(maxfd', all') && listenfd in all'
    ensures Ascending(handled) && forall f :: f in handled <==> f in ready - {listenfd}
  {
    all', maxfd', handled := all, maxfd, [];
    var left := nready;
    OthersReady(ready, listenfd);
    if listenfd in ready {
      all', maxfd' := AcceptClient(all, maxfd, accept);
      left := left - 1;
      if left == 0 {
        return;
      }
    }
    all', maxfd', handled := ScanClients(all', ready, listenfd, maxfd', left, failing);
  }
}
