/** Listening sockets across a reload (ngx_cycle.c, ngx_connection.c): a new listener inherits the
    descriptor of an equal old one or opens its own; commit and rollback close the rest. */
module Listeners {
  import opened Bytes
  import opened System

  const NONE := -1

  const SOCK_STREAM: nat := 1

  /** `ngx_listening_t`, an element of the cycle's array; `address` stands for the socket address. */
  datatype Listening = Listening(address: nat, kind: nat, fd: int, open: bool, remain: bool,
                                 ignore: bool, inherited: bool, previous: int)

  datatype Attempt = Works | InUse | Fails

  /** The open listening sockets of the process, how often each descriptor was closed, and how many attempts to open
      one met an address in use or failed otherwise. */
  class Sockets {
    const system: Requests
    var live: set<int>
    ghost var closed: multiset<int>
    ghost var inUse: nat
    ghost var failures: nat

    constructor (system: Requests)
      ensures live == {} && closed == multiset{} && this.system == system
    {
      this.system, live, closed, inUse, failures := system, {}, multiset{}, 0, 0;
    }

    /** A descriptor that is not open, unless the system refuses one. */
    method Socket() returns (s: int)
      modifies this`live, system
      ensures system.asked == old(system.asked) + 1
      ensures if system.grants(old(system.asked)) == None then s == NONE && live == old(live)
              else s >= 0 && s !in old(live) && live == old(live) + {s}
    {
      var r := system.Ask();
      if r == None {
        return NONE;
      }
      ghost var free := Above(live);
      assert free !in live;
      s :| s >= 0 && s !in live;
      live := live + {s};
    }

    /** `setsockopt`, `ngx_nonblocking`, `bind` or `listen` on an open socket. */
    method Prepare(s: int) returns (r: Attempt)
      requires s in live
      modifies system
      ensures system.asked == old(system.asked) + 1
      ensures r == Works <==> system.grants(old(system.asked)).Some?
    {
      var granted := system.Ask();
      if granted.Some? {
        return Works;
      }
      var inUse: bool := *;
      r := if inUse then InUse else Fails;
    }

    method Close(s: int)
      requires s in live
      modifies this`live, this`closed
      ensures live == old(live) - {s} && closed == old(closed) + multiset{s}
    {
      live := live - {s};
      closed := closed + multiset{s};
    }
  }

  ghost function Fds(ls: seq<Listening>): set<int> {
    set l | l in ls && l.fd != NONE :: l.fd
  }

  /** Every descriptor of the cycle is a different open socket, and no other socket is open. */
  ghost predicate Holds(ls: seq<Listening>, live: set<int>) {
    && (forall i, j | 0 <= i < j < |ls| && ls[i].fd != NONE :: ls[i].fd != ls[j].fd)
    && live == Fds(ls)
  }

  /** As the configuration leaves it. */
  ghost predicate Fresh(l: Listening) {
    l.fd == NONE && !l.open && !l.remain && !l.inherited && l.previous == NONE
  }

  predicate SameSocket(a: Listening, b: Listening) {
    a.address == b.address && a.kind == b.kind
  }

  // ----- Inheriting the old sockets -------------------------------------------------------------------

  /** `n` has taken over `old_[n.previous]`, whose `remain` says so, or no old listener. */
  ghost predicate Linked(n: Listening, old_: seq<Listening>) {
    && -1 <= n.previous < |old_|
    && (n.previous == NONE ==> n.fd == NONE)
    && (n.previous != NONE ==>
         var o := old_[n.previous];
         o.remain && !o.ignore && SameSocket(n, o) && n.fd == o.fd && n.inherited == o.inherited)
  }

  /** The first `k` new listeners are matched; each old listener by at most one of them. */
  ghost predicate Matched(old_: seq<Listening>, new_: seq<Listening>, k: nat) {
    && k <= |new_|
    && (forall n | 0 <= n < k :: Linked(new_[n], old_) && (new_[n].open <==> new_[n].fd == NONE))
    && (forall n | k <= n < |new_| :: Fresh(new_[n]))
    && (forall n, m | 0 <= n < m < k && new_[n].previous != NONE :: new_[n].previous != new_[m].previous)
    && (forall i | 0 <= i < |old_| && old_[i].remain :: Claimed(new_, k, i))
    && forall n, i | 0 <= n < k && 0 <= i < |old_| && (new_[n].previous == NONE || i < new_[n].previous)
         && !old_[i].ignore && SameSocket(new_[n], old_[i]) :: Claimed(new_, n, i)
  }

  /** One of the first `n` new listeners has taken old listener `i`. */
  ghost predicate Claimed(new_: seq<Listening>, n: nat, i: nat)
    requires n <= |new_|
  {
    exists m | 0 <= m < n :: new_[m].previous == i
  }

  ghost predicate SameButRemain(a: seq<Listening>, b: seq<Listening>) {
    |a| == |b| && forall i | 0 <= i < |a| :: a[i] == b[i].(remain := a[i].remain)
  }

  /** Only descriptor, `open`, `inherited` and `previous` of a new listener are set. */
  ghost predicate SameConfig(a: seq<Listening>, b: seq<Listening>) {
    |a| == |b| && forall i | 0 <= i < |a| ::
      a[i] == b[i].(fd := a[i].fd, open := a[i].open, inherited := a[i].inherited, previous := a[i].previous)
  }

  /** The two nested loops. No old listener is taken twice, and a new listener goes without one only
      when every equal old one is taken. */
  method Inherit(old_: seq<Listening>, new_: seq<Listening>) returns (old': seq<Listening>, new': seq<Listening>)
    requires forall l | l in new_ :: Fresh(l)
    ensures SameButRemain(old', old_) && SameConfig(new', new_)
    ensures Matched(old', new', |new'|)
  {
    hide Claimed;
    old', new' := old_, new_;
    if |old_| > 0 {
      for i := 0 to |old_|
        invariant SameButRemain(old', old_)
        invariant forall j | 0 <= j < i :: !old'[j].remain
      {
        old' := old'[i := old'[i].(remain := false)];
      }
      for n := 0 to |new_|
        invariant SameButRemain(old', old_) && SameConfig(new', new_)
        invariant Matched(old', new', n)
      {
        old', new' := InheritOne(old', new', n);
      }
    } else {
      for n := 0 to |new_|
        invariant SameConfig(new', new_) && Matched(old', new', n)
      {
        new' := new'[n := new'[n].(open := true)];
      }
    }
  }

  /** The inner loop: the first equal old listener that is not taken. */
  method InheritOne(old_: seq<Listening>, new_: seq<Listening>, n: nat)
    returns (old': seq<Listening>, new': seq<Listening>)
    requires n < |new_| && Matched(old_, new_, n)
    ensures SameButRemain(old', old_) && SameConfig(new', new_)
    ensures Matched(old', new', n + 1)
  {
    hide Matched;
    FreshNext(old_, new_, n);
    old', new' := old_, new_;
    var i := 0;
    while i < |old_|
      invariant 0 <= i <= |old_| && old' == old_ && new' == new_
      invariant forall j | 0 <= j < i && !old_[j].ignore && SameSocket(new_[n], old_[j]) :: old_[j].remain
    {
      if !old_[i].ignore && !old_[i].remain && old_[i].kind == new_[n].kind
        && new_[n].address == old_[i].address {
        new' := new_[n := new_[n].(fd := old_[i].fd, inherited := old_[i].inherited, previous := i)];
        old' := old_[i := old_[i].(remain := true)];
        if new'[n].fd == NONE {
          new' := new'[n := new'[n].(open := true)];
        }
        assert new' == new_[n := new'[n]];
        TakeOld(old_, new_, n, i, new'[n]);
        return;
      }
      i := i + 1;
    }
    new' := new_[n := new_[n].(open := true)];
    TakeNone(old_, new_, n);
  }

  lemma FreshNext(old_: seq<Listening>, new_: seq<Listening>, n: nat)
    requires n < |new_| && Matched(old_, new_, n)
    ensures Fresh(new_[n])
  {
  }

  lemma StillClaimed(new_: seq<Listening>, n: nat, l: Listening, k: nat, i: nat)
    requires k <= n < |new_| && Claimed(new_, k, i)
    ensures Claimed(new_[n := l], k, i) && Claimed(new_[n := l], n + 1, i)
  {
    var m :| 0 <= m < k && new_[m].previous == i;
    assert new_[n := l][m].previous == i;
  }

  /** The next new listener takes no old one, or the first that is left. */
  lemma Took(old_: seq<Listening>, new_: seq<Listening>, n: nat, l: Listening,
             old': seq<Listening>, new': seq<Listening>)
    requires n < |new_| && new' == new_[n := l] && Matched(old_, new_, n)
    requires -1 <= l.previous < |old_| && SameSocket(l, new_[n])
    requires old' == if l.previous == NONE then old_ else old_[l.previous := old_[l.previous].(remain := true)]
    requires forall j | 0 <= j < |old_| && (l.previous == NONE || j < l.previous)
               && !old_[j].ignore && SameSocket(new_[n], old_[j]) :: old_[j].remain
    ensures forall j | 0 <= j < |old'| && old'[j].remain :: Claimed(new', n + 1, j)
    ensures forall k, j | 0 <= k < n + 1 && 0 <= j < |old'| && (new'[k].previous == NONE || j < new'[k].previous)
              && !old'[j].ignore && SameSocket(new'[k], old'[j]) :: Claimed(new', k, j)
  {
    hide Claimed, Fresh, Linked;
    forall j | 0 <= j < |old'| && old'[j].remain
      ensures Claimed(new', n + 1, j)
    {
      if j == l.previous {
        assert Claimed(new', n + 1, j) by { TakesIt(new', n); }
      } else {
        StillClaimed(new_, n, l, n, j);
      }
    }
    forall k, j | 0 <= k < n + 1 && 0 <= j < |old'| && (new'[k].previous == NONE || j < new'[k].previous)
      && !old'[j].ignore && SameSocket(new'[k], old'[j])
      ensures Claimed(new', k, j)
    {
      assert !old_[j].ignore && SameSocket(new'[k], old_[j]);
      StillClaimed(new_, n, l, k, j);
    }
  }

  lemma TakesIt(new_: seq<Listening>, n: nat)
    requires n < |new_| && new_[n].previous >= 0
    ensures Claimed(new_, n + 1, new_[n].previous)
  {
  }

  lemma TakeNone(old_: seq<Listening>, new_: seq<Listening>, n: nat)
    requires n < |new_| && Matched(old_, new_, n)
    requires forall j | 0 <= j < |old_| && !old_[j].ignore && SameSocket(new_[n], old_[j]) :: old_[j].remain
    ensures Matched(old_, new_[n := new_[n].(open := true)], n + 1)
  {
    hide Claimed;
    var new' := new_[n := new_[n].(open := true)];
    Took(old_, new_, n, new'[n], old_, new');
    assert forall m | 0 <= m < n :: new'[m] == new_[m];
  }

  lemma TakeOld(old_: seq<Listening>, new_: seq<Listening>, n: nat, i: nat, l: Listening)
    requires n < |new_| && i < |old_| && Matched(old_, new_, n)
    requires !old_[i].ignore && !old_[i].remain && SameSocket(new_[n], old_[i])
    requires forall j | 0 <= j < i && !old_[j].ignore && SameSocket(new_[n], old_[j]) :: old_[j].remain
    requires l == new_[n].(fd := old_[i].fd, inherited := old_[i].inherited, previous := i,
                           open := old_[i].fd == NONE)
    ensures Matched(old_[i := old_[i].(remain := true)], new_[n := l], n + 1)
  {
    hide Claimed;
    var old', new' := old_[i := old_[i].(remain := true)], new_[n := l];
    Took(old_, new_, n, l, old', new');
    assert forall m | 0 <= m < n :: new'[m] == new_[m];
    assert forall m | 0 <= m < n && new_[m].previous != NONE :: old_[new_[m].previous].remain;
  }

  // ----- Opening the others ------------------------------------------------------------------------------

  /** `base` are the descriptors of the old cycle. A listener without the `open` flag has one of them,
      the others none or one of their own; every descriptor belongs to one listener, and nothing else is
      open. */
  ghost predicate Opening(new_: seq<Listening>, base: set<int>, live: set<int>) {
    && base <= live && NONE !in live
    && (forall n | 0 <= n < |new_| && new_[n].fd != NONE ::
          if new_[n].open then new_[n].fd in live && new_[n].fd !in base else new_[n].fd in base)
    && (forall n, m | 0 <= n < m < |new_| && new_[n].fd != NONE :: new_[n].fd != new_[m].fd)
    && forall s | s in live && s !in base :: exists n | 0 <= n < |new_| :: new_[n].open && new_[n].fd == s
  }

  lemma MatchedOpening(old_: seq<Listening>, new_: seq<Listening>, live: set<int>)
    requires Holds(old_, live) && Matched(old_, new_, |new_|)
    ensures Opening(new_, live, live)
  {
    forall n | 0 <= n < |new_| && new_[n].fd != NONE
      ensures !new_[n].open && new_[n].fd in live
    {
      assert old_[new_[n].previous] in old_;
    }
    forall n, m | 0 <= n < m < |new_| && new_[n].fd != NONE
      ensures new_[n].fd != new_[m].fd
    {
      var i, j := new_[n].previous, new_[m].previous;
      assert j != NONE ==> old_[i].fd != old_[j].fd by {
        assert i != j;
      }
    }
  }

  /** `ngx_open_listening_sockets` outside the test mode: five rounds over the listeners that have no
      descriptor; a bind or listen to an address in use is tried again in the next round, and a socket
      that is given up is closed at once. It fails only when an attempt fails for another reason or an address was in
      use in all five rounds. */
  method OpenSockets(sk: Sockets, ls: seq<Listening>, ghost base: set<int>)
    returns (ok: bool, ls': seq<Listening>)
    requires Opening(ls, base, sk.live)
    requires forall l | l in ls && l.fd == NONE && !l.ignore && !l.inherited :: l.open
    modifies sk, sk.system
    ensures Opening(ls', base, sk.live) && OnlyFds(ls', ls)
    ensures forall s | s in base :: sk.closed[s] == old(sk.closed)[s]
    ensures ok ==> forall l | l in ls' :: l.fd != NONE || l.ignore || l.inherited
    ensures !ok ==> sk.system.Refused(old(sk.system.asked))
    ensures if ok then sk.failures == old(sk.failures)
            else sk.failures == old(sk.failures) + 1 || sk.inUse >= old(sk.inUse) + 5
    ensures old(sk.system.asked) <= sk.system.asked
  {
    ls' := ls;
    var tries, failed := 5, true;
    while tries > 0 && failed
      invariant Opening(ls', base, sk.live) && OnlyFds(ls', ls)
      invariant forall s | s in base :: sk.closed[s] == old(sk.closed)[s]
      invariant !failed ==> forall l | l in ls' :: l.fd != NONE || l.ignore || l.inherited
      invariant tries < 5 && failed ==> sk.system.Refused(old(sk.system.asked))
      invariant old(sk.system.asked) <= sk.system.asked
      invariant 0 <= tries <= 5 && sk.failures == old(sk.failures)
      invariant failed ==> sk.inUse >= old(sk.inUse) + 5 - tries
      decreases tries
    {
      var fatal;
      fatal, failed, ls' := OpenRound(sk, ls', base);
      if fatal {
        return false, ls';
      }
      tries := tries - 1;
    }
    ok := !failed;
  }

  /** Listeners that differ in descriptors set where there was none. */
  ghost predicate OnlyFds(a: seq<Listening>, b: seq<Listening>) {
    |a| == |b| && forall i | 0 <= i < |a| :: a[i] == b[i].(fd := a[i].fd) && (b[i].fd != NONE ==> a[i] == b[i])
  }

  /** One round. */
  method OpenRound(sk: Sockets, ls: seq<Listening>, ghost base: set<int>)
    returns (fatal: bool, failed: bool, ls': seq<Listening>)
    requires Opening(ls, base, sk.live)
    requires forall l | l in ls && l.fd == NONE && !l.ignore && !l.inherited :: l.open
    modifies sk, sk.system
    ensures Opening(ls', base, sk.live) && OnlyFds(ls', ls)
    ensures forall s | s in base :: sk.closed[s] == old(sk.closed)[s]
    ensures !fatal && !failed ==> forall l | l in ls' :: l.fd != NONE || l.ignore || l.inherited
    ensures fatal || failed ==> sk.system.Refused(old(sk.system.asked))
    ensures sk.failures == old(sk.failures) + if fatal then 1 else 0
    ensures sk.inUse >= old(sk.inUse) + if failed then 1 else 0
    ensures old(sk.system.asked) <= sk.system.asked
  {
    hide Opening, RefusedIn;
    failed, ls' := false, ls;
    for i := 0 to |ls|
      invariant Opening(ls', base, sk.live) && OnlyFds(ls', ls)
      invariant forall s | s in base :: sk.closed[s] == old(sk.closed)[s]
      invariant forall j | i <= j < |ls| :: ls'[j] == ls[j]
      invariant !failed ==> forall j | 0 <= j < i :: ls'[j].fd != NONE || ls'[j].ignore || ls'[j].inherited
      invariant failed ==> sk.system.Refused(old(sk.system.asked))
      invariant old(sk.system.asked) <= sk.system.asked
      invariant sk.failures == old(sk.failures) && sk.inUse >= old(sk.inUse) + if failed then 1 else 0
    {
      if ls'[i].ignore || ls'[i].fd != NONE || ls'[i].inherited {
        continue;
      }
      OpeningBase(ls', base, sk.live);
      ghost var live, asked := sk.live, sk.system.asked;
      var r, s := OpenOne(sk, ls'[i].kind, base);
      RefusedSplit(sk.system.grants, old(sk.system.asked), asked, sk.system.asked);
      if r == Fails {
        return true, failed, ls';
      }
      if r == InUse {
        failed := true;
        continue;
      }
      assert ls[i] in ls && sk.live - {s} == live;
      SetFd(ls', base, sk.live, i, s);
      ls' := ls'[i := ls'[i].(fd := s)];
    }
    fatal := false;
  }

  /** The socket gets its options, is bound and, for a stream, listens. */
  method SetUp(sk: Sockets, s: int, kind: nat) returns (r: Attempt)
    requires s in sk.live
    modifies sk.system
    ensures old(sk.system.asked) <= sk.system.asked
    ensures r != Works <==> sk.system.Refused(old(sk.system.asked))
    ensures r == Works ==> sk.system.asked == old(sk.system.asked) + if kind == 1 then 3 else 2
  {
    r := sk.Prepare(s);
    if r != Works {
      return Fails;
    }
    r := sk.Prepare(s);
    if r == Works && kind == SOCK_STREAM {
      r := sk.Prepare(s);
    }
  }

  /** One listening socket: created, prepared, bound and, for a stream, listening. */
  method OpenOne(sk: Sockets, kind: nat, ghost base: set<int>) returns (r: Attempt, s: int)
    requires base <= sk.live
    modifies sk, sk.system
    ensures r == Works ==> s >= 0 && s !in old(sk.live) && sk.live == old(sk.live) + {s}
    ensures r != Works ==> sk.live == old(sk.live)
    ensures r != Works <==> sk.system.Refused(old(sk.system.asked))
    ensures forall b | b in base :: sk.closed[b] == old(sk.closed)[b]
    ensures old(sk.system.asked) <= sk.system.asked
    ensures r == Works ==> sk.system.asked == old(sk.system.asked) + if kind == 1 then 4 else 3
    ensures sk.inUse == old(sk.inUse) + if r == InUse then 1 else 0
    ensures sk.failures == old(sk.failures) + if r == Fails then 1 else 0
  {
    hide RefusedIn;
    s := sk.Socket();
    if s == NONE {
      RefusedOne(sk.system.grants, old(sk.system.asked));
      sk.failures := sk.failures + 1;
      return Fails, s;
    }
    ghost var asked := sk.system.asked;
    r := SetUp(sk, s, kind);
    RefusedSplit(sk.system.grants, old(sk.system.asked), asked, sk.system.asked);
    RefusedOne(sk.system.grants, old(sk.system.asked));
    if r != Works {
      sk.Close(s);
      sk.inUse := sk.inUse + if r == InUse then 1 else 0;
      sk.failures := sk.failures + if r == Fails then 1 else 0;
    }
  }

  /** Listener `i` gets the new descriptor `s`. */
  lemma OpeningBase(ls: seq<Listening>, base: set<int>, live: set<int>)
    requires Opening(ls, base, live)
    ensures base <= live
  {
  }

  lemma SetFd(ls: seq<Listening>, base: set<int>, live: set<int>, i: nat, s: int)
    requires i < |ls| && ls[i].open && ls[i].fd == NONE && s >= 0 && s in live && s !in base
    requires Opening(ls, base, live - {s})
    ensures Opening(ls[i := ls[i].(fd := s)], base, live)
  {
    var ls' := ls[i := ls[i].(fd := s)];
    forall t | t in live && t !in base
      ensures exists n | 0 <= n < |ls'| :: ls'[n].open && ls'[n].fd == t
    {
      if t == s {
        assert ls'[i].open && ls'[i].fd == t;
      } else {
        var n :| 0 <= n < |ls| && ls[n].open && ls[n].fd == t;
        assert ls'[n].open && ls'[n].fd == t;
      }
    }
    assert forall n | 0 <= n < |ls| && ls[n].fd != NONE :: ls[n].fd in live - {s};
    assert forall n | 0 <= n < |ls| && n != i :: ls'[n] == ls[n];
  }

  // ----- Commit and rollback ----------------------------------------------------------------------------------

  /** The sockets that listeners picked by `pick` hold. */
  ghost function Picked(ls: seq<Listening>, pick: Listening -> bool): set<int> {
    set l | l in ls && l.fd != NONE && pick(l) :: l.fd
  }

  lemma NonePicked(ls: seq<Listening>, pick: Listening -> bool)
    ensures Picked(ls[..0], pick) == {}
  {
  }

  lemma PickedStep(ls: seq<Listening>, pick: Listening -> bool, i: nat)
    requires i < |ls|
    requires forall j, k | 0 <= j < k < |ls| && ls[j].fd != NONE :: ls[j].fd != ls[k].fd
    ensures Picked(ls[..i + 1], pick)
         == if ls[i].fd != NONE && pick(ls[i]) then Picked(ls[..i], pick) + {ls[i].fd} else Picked(ls[..i], pick)
    ensures ls[i].fd != NONE ==> ls[i].fd !in Picked(ls[..i], pick)
  {
    assert ls[..i + 1] == ls[..i] + [ls[i]];
    if ls[i].fd != NONE {
      forall l | l in ls[..i]
        ensures l.fd != ls[i].fd
      {
        var j :| 0 <= j < i && ls[j] == l;
      }
    }
  }

  lemma OneLess(live: set<int>, p: set<int>, s: int)
    requires s !in p
    ensures live - (p + {s}) == (live - p) - {s}
    ensures multiset(p + {s}) == multiset(p) + multiset{s}
  {
  }

  /** The two closing loops: every picked socket is closed once, no other. */
  method CloseSockets(sk: Sockets, ls: seq<Listening>, pick: Listening -> bool)
    requires forall j, k | 0 <= j < k < |ls| && ls[j].fd != NONE :: ls[j].fd != ls[k].fd
    requires forall l | l in ls && l.fd != NONE && pick(l) :: l.fd in sk.live
    modifies sk
    ensures sk.live == old(sk.live) - Picked(ls, pick)
    ensures sk.closed == old(sk.closed) + multiset(Picked(ls, pick))
  {
    hide Picked;
    NonePicked(ls, pick);
    for i := 0 to |ls|
      invariant sk.live == old(sk.live) - Picked(ls[..i], pick)
      invariant sk.closed == old(sk.closed) + multiset(Picked(ls[..i], pick))
    {
      PickedStep(ls, pick, i);
      if ls[i].fd != NONE && pick(ls[i]) {
        ghost var p := Picked(ls[..i], pick);
        OneLess(old(sk.live), p, ls[i].fd);
        sk.Close(ls[i].fd);
        assert sk.closed == (old(sk.closed) + multiset(p)) + multiset{ls[i].fd};
      }
    }
    assert ls[..|ls|] == ls;
  }

  predicate Unclaimed(l: Listening) {
    !l.remain
  }

  predicate Opened(l: Listening) {
    l.open
  }

  /** After commit exactly the sockets of the new cycle are open. */
  lemma CommitIsExact(old_: seq<Listening>, new_: seq<Listening>, matched: seq<Listening>,
                      base: set<int>, live: set<int>)
    requires Holds(old_, base) && Matched(old_, matched, |matched|)
    requires OnlyFds(new_, matched) && Opening(new_, base, live)
    ensures Holds(new_, live - Picked(old_, Unclaimed))
    ensures Picked(old_, Unclaimed) == base - Fds(new_)
  {
    forall s | s in Fds(new_)
      ensures s in live && s !in Picked(old_, Unclaimed)
    {
      NewFd(old_, new_, matched, base, live, s);
    }
    forall s | s in live
      ensures s in Fds(new_) || s in Picked(old_, Unclaimed)
    {
      LostFd(old_, new_, matched, base, live, s);
    }
    forall s | s in Picked(old_, Unclaimed)
      ensures s in base
    {
      var l :| l in old_ && l.fd != NONE && Unclaimed(l) && l.fd == s;
    }
  }

  /** A descriptor of the new cycle is open, and not that of an unclaimed old listener. */
  lemma NewFd(old_: seq<Listening>, new_: seq<Listening>, matched: seq<Listening>,
              base: set<int>, live: set<int>, s: int)
    requires Holds(old_, base) && Matched(old_, matched, |matched|)
    requires OnlyFds(new_, matched) && Opening(new_, base, live) && s in Fds(new_)
    ensures s in live && s !in Picked(old_, Unclaimed)
  {
    var l :| l in new_ && l.fd != NONE && l.fd == s;
    var n :| 0 <= n < |new_| && new_[n] == l;
    assert new_[n].fd in live;
    if !new_[n].open {
      assert matched[n].fd == s && Linked(matched[n], old_);
      OneOwner(old_, base, matched[n].previous);
    } else {
      forall o | o in old_ && o.fd != NONE
        ensures o.fd != s
      {
        assert o.fd in Fds(old_);
      }
    }
  }

  lemma OneOwner(old_: seq<Listening>, base: set<int>, i: nat)
    requires Holds(old_, base) && i < |old_| && old_[i].remain
    ensures old_[i].fd !in Picked(old_, Unclaimed)
  {
    forall o | o in old_ && o.fd != NONE && Unclaimed(o)
      ensures o.fd != old_[i].fd
    {
      var j :| 0 <= j < |old_| && old_[j] == o;
      assert i != j;
    }
  }

  /** An open descriptor is one of the new cycle or that of an unclaimed old listener. */
  lemma LostFd(old_: seq<Listening>, new_: seq<Listening>, matched: seq<Listening>,
               base: set<int>, live: set<int>, s: int)
    requires Holds(old_, base) && Matched(old_, matched, |matched|)
    requires OnlyFds(new_, matched) && Opening(new_, base, live)
    requires s in live
    ensures s in Fds(new_) || s in Picked(old_, Unclaimed)
  {
    if s in base {
      var o :| o in old_ && o.fd != NONE && o.fd == s;
      var i :| 0 <= i < |old_| && old_[i] == o;
      if o.remain {
        var n :| 0 <= n < |matched| && matched[n].previous == i;
        assert Linked(matched[n], old_) && new_[n] in new_;
      }
    } else {
      var n :| 0 <= n < |new_| && new_[n].open && new_[n].fd == s;
      assert new_[n] in new_;
    }
  }

  /** Rollback closes exactly what was opened. */
  lemma RollbackIsExact(new_: seq<Listening>, base: set<int>, live: set<int>)
    requires Opening(new_, base, live)
    ensures live - Picked(new_, Opened) == base
    ensures Picked(new_, Opened) !! base
  {
    forall s | s in live && s !in base
      ensures s in Picked(new_, Opened)
    {
      var n :| 0 <= n < |new_| && new_[n].open && new_[n].fd == s;
      assert new_[n] in new_;
    }
    forall l | l in new_ && l.fd != NONE && l.open
      ensures l.fd !in base
    {
      var n :| 0 <= n < |new_| && new_[n] == l;
    }
  }
}
