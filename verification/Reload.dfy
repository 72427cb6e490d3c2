/** A reload as a transaction over listening sockets and shared memory (`ngx_init_cycle` outside the
    test mode), and every run of reloads. */
module Reload {
  import opened Bytes
  import opened System
  import L = Listeners
  import Z = Zones

  /** What the parsed configuration asks for. */
  datatype Config = Config(listening: seq<L.Listening>, zones: seq<Z.Zone>)

  /** As parsing leaves it: nothing opened, zone names unique (`SharedMemoryAdd`). */
  ghost predicate Parsed(c: Config) {
    && (forall l | l in c.listening :: L.Fresh(l))
    && Z.UniqueNames(c.zones)
    && (forall z | z in c.zones :: z.addr == Z.NULL)
  }

  /** `ngx_cycle_t`, the two arrays. */
  class Cycle {
    var listening: seq<L.Listening>
    var zones: seq<Z.Zone>

    constructor (c: Config)
      ensures listening == c.listening && zones == c.zones
    {
      listening, zones := c.listening, c.zones;
    }
  }

  /** The open sockets and the mapped segments are exactly those of the cycle. */
  ghost predicate Running(c: Cycle, sk: L.Sockets, sm: Z.Segments)
    reads c, sk, sm
  {
    L.Holds(c.listening, sk.live) && Z.Owns(c.zones, sm.mapped)
  }

  /** The closes of `after` beyond those of `before`, on the sockets `fds`. */
  ghost predicate ClosedExactly(before: multiset<int>, after: multiset<int>, fds: set<int>, gone: set<int>) {
    forall f | f in fds :: after[f] == before[f] + if f in gone then 1 else 0
  }

  /** Why a reload is given up: an earlier step, a zone without size, a zone's callback, or a request to the system
      that was refused since there were `from`. */
  ghost predicate Reason(earlier: bool, zones: seq<Z.Zone>, inits: seq<bool>, system: Requests, from: nat)
    requires |inits| == |zones|
    reads system
  {
    || !earlier || system.Refused(from)
    || exists j | 0 <= j < |zones| :: zones[j].size == 0 || !inits[j]
  }

  // ----- The phases -------------------------------------------------------------------------------------

  /** The listeners after inheriting (`cur`, `matched`) and after opening (`next`). */
  ghost predicate SocketsReady(cur: seq<L.Listening>, matched: seq<L.Listening>, next: seq<L.Listening>,
                               base: set<int>, live: set<int>) {
    && L.Holds(cur, base) && L.Matched(cur, matched, |matched|)
    && L.OnlyFds(next, matched) && L.Opening(next, base, live)
  }

  /** Inherits what can be inherited and opens the rest. */
  method PrepareSockets(sk: L.Sockets, cur: seq<L.Listening>, next: seq<L.Listening>)
    returns (ok: bool, cur': seq<L.Listening>, next': seq<L.Listening>, ghost matched: seq<L.Listening>)
    requires L.Holds(cur, sk.live) && forall l | l in next :: L.Fresh(l)
    modifies sk, sk.system
    ensures old(sk.system.asked) <= sk.system.asked
    ensures L.SameButRemain(cur', cur) && L.SameConfig(next', next)
    ensures SocketsReady(cur', matched, next', old(sk.live), sk.live)
    ensures ClosedExactly(old(sk.closed), sk.closed, old(sk.live), {})
    ensures if ok then forall l | l in next' :: l.fd != L.NONE || l.ignore || l.inherited
            else sk.system.Refused(old(sk.system.asked))
  {
    hide L.Holds, L.Matched, L.Opening;
    ghost var base := sk.live;
    var nls;
    cur', nls := L.Inherit(cur, next);
    RemainKeepsFds(cur', cur, base);
    L.MatchedOpening(cur', nls, base);
    MatchedOpen(cur', nls);
    ok, next' := L.OpenSockets(sk, nls, base);
    FdsConfig(next', nls, next);
    matched := nls;
  }

  /** Everything the new cycle got is given back. */
  method Rollback(sk: L.Sockets, sm: Z.Segments, curZones: seq<Z.Zone>, zones: seq<Z.Zone>, next: seq<L.Listening>,
                  ghost base: set<int>, ghost mapped: set<nat>)
    requires Z.UniqueNames(curZones) && Z.Forward(zones, 0, curZones, mapped, sm.mapped)
    requires L.Opening(next, base, sk.live)
    modifies sk, sm
    ensures sk.live == base && sm.mapped == mapped
    ensures ClosedExactly(old(sk.closed), sk.closed, base, {})
    ensures forall a | a in mapped :: sm.freed[a] == old(sm.freed)[a]
  {
    hide Z.Forward, L.Opening, L.Picked;
    L.RollbackIsExact(next, base, sk.live);
    OpeningDistinct(next, base, sk.live);
    Z.RollbackZones(sm, curZones, zones, mapped);
    L.CloseSockets(sk, next, L.Opened);
  }

  lemma OpeningDistinct(ls: seq<L.Listening>, base: set<int>, live: set<int>)
    requires L.Opening(ls, base, live)
    ensures forall j, k | 0 <= j < k < |ls| && ls[j].fd != L.NONE :: ls[j].fd != ls[k].fd
    ensures forall l | l in ls && l.fd != L.NONE && L.Opened(l) :: l.fd in live
  {
  }

  lemma HoldsDistinct(ls: seq<L.Listening>, base: set<int>)
    requires L.Holds(ls, base)
    ensures forall j, k | 0 <= j < k < |ls| && ls[j].fd != L.NONE :: ls[j].fd != ls[k].fd
    ensures forall l | l in ls && l.fd != L.NONE :: l.fd in base
  {
  }

  /** What only the old cycle used is given back. */
  method Commit(sk: L.Sockets, sm: Z.Segments, curZones: seq<Z.Zone>, zones: seq<Z.Zone>,
                cur: seq<L.Listening>, ghost matched: seq<L.Listening>, ghost next: seq<L.Listening>,
                ghost base: set<int>, ghost mapped: set<nat>)
    requires Z.Complete(zones, curZones, mapped, sm.mapped)
    requires SocketsReady(cur, matched, next, base, sk.live)
    modifies sk, sm
    ensures L.Holds(next, sk.live)
    ensures ClosedExactly(old(sk.closed), sk.closed, base, base - L.Fds(next))
    ensures Z.Addresses(zones) == sm.mapped <==> Z.NoreuseAgrees(curZones, zones)
    ensures Z.NoreuseAgrees(curZones, zones) ==> Z.Owns(zones, sm.mapped)
    ensures sm.mapped == old(sm.mapped) - Z.Freed(curZones, zones)
    ensures sm.freed == old(sm.freed) + multiset(Z.Freed(curZones, zones))
  {
    hide L.Holds, L.Matched, L.Opening, L.Picked, L.Fds, Z.Complete, Z.Owns, Z.Freed, Z.Addresses, Z.NoreuseAgrees;
    L.CommitIsExact(cur, next, matched, base, sk.live);
    HoldsDistinct(cur, base);
    Z.CommitIsExactIff(zones, curZones, mapped, sm.mapped);
    if Z.NoreuseAgrees(curZones, zones) {
      Z.AgreementSuffices(zones, curZones, mapped, sm.mapped);
    }
    CompleteParts(zones, curZones, mapped, sm.mapped);
    assert base <= sk.live by { ReadyGrows(cur, matched, next, base, sk.live); }
    Z.CommitZones(sm, curZones, zones, mapped);
    L.CloseSockets(sk, cur, L.Unclaimed);
  }

  lemma ReadyGrows(cur: seq<L.Listening>, matched: seq<L.Listening>, next: seq<L.Listening>,
                   base: set<int>, live: set<int>)
    requires SocketsReady(cur, matched, next, base, live)
    ensures base <= live
  {
  }

  lemma CompleteParts(zones: seq<Z.Zone>, curZones: seq<Z.Zone>, mapped: set<nat>, all: set<nat>)
    requires Z.Complete(zones, curZones, mapped, all)
    ensures Z.Owns(curZones, mapped) && mapped <= all && Z.UniqueNames(zones)
  {
  }

  lemma NothingOpened(ls: seq<L.Listening>, live: set<int>)
    requires (forall l | l in ls :: L.Fresh(l)) && L.NONE !in live
    ensures L.Opening(ls, live, live)
  {
    assert forall n | 0 <= n < |ls| :: ls[n] in ls && L.Fresh(ls[n]);
  }

  lemma NothingMapped(zones: seq<Z.Zone>, curZones: seq<Z.Zone>, mapped: set<nat>)
    requires forall z | z in zones :: z.addr == Z.NULL
    ensures Z.Forward(zones, 0, curZones, mapped, mapped)
  {
  }

  // ----- The reload ----------------------------------------------------------------------------------------

  /** `ngx_init_cycle`. `earlier` tells whether the steps before the zones succeed, `inits` which zone
      callbacks do. On failure everything is as before. On success the sockets are exactly those of the
      new cycle, each old one inherited by one listener or closed once; the segments are exactly those of
      the new cycle if and only if equal zones agree on `noreuse`. */
  method InitCycle(sk: L.Sockets, sm: Z.Segments, cur: Cycle, next: Cycle, earlier: bool, inits: seq<bool>)
    returns (ok: bool)
    requires Running(cur, sk, sm) && cur != next && |inits| == |next.zones| && sk.system == sm.system
    requires Parsed(Config(next.listening, next.zones))
    modifies sk, sm, sk.system, cur`listening, next
    ensures cur.zones == old(cur.zones) && L.SameButRemain(cur.listening, old(cur.listening))
    ensures |next.zones| == |old(next.zones)|
      && forall j | 0 <= j < |next.zones| ::
           var z, w := next.zones[j], old(next.zones)[j];
           z.name == w.name && z.tag == w.tag && z.size == w.size && z.noreuse == w.noreuse
    ensures !ok ==>
      && Reason(earlier, old(next.zones), inits, sk.system, old(sk.system.asked))
      && Running(cur, sk, sm) && sk.live == old(sk.live) && sm.mapped == old(sm.mapped)
      && (forall s | s in old(sk.live) :: sk.closed[s] == old(sk.closed)[s])
      && forall a | a in old(sm.mapped) :: sm.freed[a] == old(sm.freed)[a]
    ensures ok ==>
      && earlier && |next.listening| == |old(next.listening)|
      && (forall n | 0 <= n < |next.listening| ::
            var l, w := next.listening[n], old(next.listening)[n];
            l.address == w.address && l.kind == w.kind && l.ignore == w.ignore)
      && L.Holds(next.listening, sk.live)
      && (forall l | l in next.listening :: l.fd != -1 || l.ignore || l.inherited)
    // each new listener has the descriptor of the first equal old one that is left, or a new one
    ensures ok ==>
      && (forall n | 0 <= n < |next.listening| :: -1 <= next.listening[n].previous < |old(cur.listening)|)
      && (forall n, m | 0 <= n < m < |next.listening| && next.listening[n].previous != -1 ::
            next.listening[n].previous != next.listening[m].previous)
      && (forall n | 0 <= n < |next.listening| && next.listening[n].previous != -1 ::
            var l, o := next.listening[n], old(cur.listening)[next.listening[n].previous];
            !o.ignore && o.address == l.address && o.kind == l.kind && (o.fd == l.fd || o.fd == -1))
      && (forall n, i | 0 <= n < |next.listening| && 0 <= i < |old(cur.listening)| ::
            var l, o := next.listening[n], old(cur.listening)[i];
            !o.ignore && o.address == l.address && o.kind == l.kind && (l.previous == -1 || i < l.previous)
            ==> exists m | 0 <= m < n :: next.listening[m].previous == i)
      && (forall n | 0 <= n < |next.listening| && next.listening[n].previous == -1 ::
            next.listening[n].fd !in old(sk.live))
    // what is open afterwards, and what was closed
    ensures ok ==>
      && (forall s :: s in sk.live <==> s != -1 && exists l | l in next.listening :: l.fd == s)
      && forall s | s in old(sk.live) ::
           sk.closed[s] == old(sk.closed)[s] + if exists l | l in next.listening :: l.fd == s then 0 else 1
    // a zone has the segment of the old one exactly when name, tag and size agree and it may be reused
    ensures ok ==>
      && (forall z, o | z in next.zones && o in cur.zones ::
            z.addr == o.addr <==> o.name == z.name && o.tag == z.tag && o.size == z.size && !z.noreuse)
      && forall z | z in next.zones :: z.addr in old(sm.mapped) ==> exists o | o in cur.zones :: o.addr == z.addr
    // what was freed, and what is mapped afterwards
    ensures ok ==> forall a ::
      && sm.freed[a] == old(sm.freed)[a] + (
           if exists o | o in cur.zones && o.addr == a ::
             o.noreuse || forall z | z in next.zones :: !(z.name == o.name && z.tag == o.tag && z.size == o.size)
           then 1 else 0)
      && (a in sm.mapped <==>
            (a in old(sm.mapped) || exists z | z in next.zones :: z.addr == a) && sm.freed[a] == old(sm.freed)[a])
    // these are the segments of the new cycle if and only if equal zones agree on noreuse
    ensures ok ==>
      && (Z.Addresses(next.zones) == sm.mapped <==> Z.NoreuseAgrees(cur.zones, next.zones))
      && (Z.NoreuseAgrees(cur.zones, next.zones) ==> Z.Owns(next.zones, sm.mapped))
  {
    hide *;
    Facts(cur, sk, sm);
    ghost var matched, got, all;
    ok, matched, got, all := Change(sk, sm, cur, next, earlier, inits);
    ConfigKept(old(next.zones), next.zones);
    if !ok {
      NoneClosed(old(sk.closed), sk.closed, old(sk.live));
    } else {
      AddressesKept(old(next.listening), next.listening);
      Z.Located(next.zones, cur.zones, old(sm.mapped), all);
      SocketsTaken(old(cur.listening), cur.listening, matched, next.listening, old(sk.live), got);
      SocketsLeft(next.listening, sk.live, old(sk.live), old(sk.closed), sk.closed);
      SegmentsLeft(cur.zones, next.zones, old(sm.mapped), all, sm.mapped, old(sm.freed), sm.freed);
    }
  }

  /** The steps, and what they leave of the cycles, the sockets and the segments. */
  method Change(sk: L.Sockets, sm: Z.Segments, cur: Cycle, next: Cycle, earlier: bool, inits: seq<bool>)
    returns (ok: bool, ghost matched: seq<L.Listening>, ghost got: set<int>, ghost all: set<nat>)
    requires Running(cur, sk, sm) && cur != next && |inits| == |next.zones| && sk.system == sm.system
    requires Parsed(Config(next.listening, next.zones))
    modifies sk, sm, sk.system, cur`listening, next
    ensures cur.zones == old(cur.zones) && L.SameButRemain(cur.listening, old(cur.listening))
    ensures |next.zones| == |old(next.zones)|
      && forall j | 0 <= j < |next.zones| :: Z.SameConfig(next.zones[j], old(next.zones)[j])
    ensures !ok ==>
      && Reason(earlier, old(next.zones), inits, sk.system, old(sk.system.asked))
      && Running(cur, sk, sm) && sk.live == old(sk.live) && sm.mapped == old(sm.mapped)
      && ClosedExactly(old(sk.closed), sk.closed, old(sk.live), {})
      && forall a | a in old(sm.mapped) :: sm.freed[a] == old(sm.freed)[a]
    ensures ok ==>
      && earlier && L.SameConfig(next.listening, old(next.listening))
      && (forall l | l in next.listening :: l.fd != -1 || l.ignore || l.inherited)
      && SocketsReady(cur.listening, matched, next.listening, old(sk.live), got)
      && Z.Complete(next.zones, cur.zones, old(sm.mapped), all)
    ensures ok ==>
      && L.Holds(next.listening, sk.live)
      && ClosedExactly(old(sk.closed), sk.closed, old(sk.live), old(sk.live) - L.Fds(next.listening))
      && sm.mapped == all - Z.Freed(cur.zones, next.zones)
      && sm.freed == old(sm.freed) + multiset(Z.Freed(cur.zones, next.zones))
      && (Z.Addresses(next.zones) == sm.mapped <==> Z.NoreuseAgrees(cur.zones, next.zones))
      && (Z.NoreuseAgrees(cur.zones, next.zones) ==> Z.Owns(next.zones, sm.mapped))
  {
    hide L.Holds, L.Opening, L.Matched, L.Fds, Z.Owns, Z.Forward, Z.Complete, Z.Freed, Z.Addresses, Z.NoreuseAgrees,
         SocketsReady, Z.Reuses, L.SameButRemain, L.SameConfig;
    ghost var base, mapped := sk.live, sm.mapped;
    matched, got, all := [], {}, {};
    Facts(cur, sk, sm);
    NothingOpened(next.listening, base);
    NothingMapped(next.zones, cur.zones, mapped);
    SameRefl(cur.listening, next.listening);
    if !earlier {
      Rollback(sk, sm, cur.zones, next.zones, next.listening, base, mapped);
      return false, matched, got, all;
    }
    var zs;
    ok, zs := Z.InitZones(sm, cur.zones, next.zones, inits);
    UniqueConfig(zs, next.zones);
    next.zones := zs;
    if !ok {
      Rollback(sk, sm, cur.zones, next.zones, next.listening, base, mapped);
      return false, matched, got, all;
    }
    var ls, nls;
    ok, ls, nls, matched := PrepareSockets(sk, cur.listening, next.listening);
    cur.listening, next.listening := ls, nls;
    ReadyParts(ls, matched, nls, base, sk.live);
    if !ok {
      Rollback(sk, sm, cur.zones, next.zones, next.listening, base, mapped);
      return false, matched, got, all;
    }
    assert Z.Complete(next.zones, cur.zones, mapped, sm.mapped) by {
      IsComplete(next.zones, cur.zones, mapped, sm.mapped);
    }
    got, all := sk.live, sm.mapped;
    Commit(sk, sm, cur.zones, next.zones, cur.listening, matched, next.listening, base, mapped);
  }

  /** Which old listener each new one has taken. */
  lemma SocketsTaken(first: seq<L.Listening>, cur: seq<L.Listening>, matched: seq<L.Listening>,
                     next: seq<L.Listening>, base: set<int>, live: set<int>)
    requires SocketsReady(cur, matched, next, base, live) && L.SameButRemain(cur, first)
    ensures forall n | 0 <= n < |next| :: -1 <= next[n].previous < |first|
    ensures forall n, m | 0 <= n < m < |next| && next[n].previous != -1 :: next[n].previous != next[m].previous
    ensures forall n | 0 <= n < |next| && next[n].previous != -1 ::
      var l, o := next[n], first[next[n].previous];
      !o.ignore && o.address == l.address && o.kind == l.kind && (o.fd == l.fd || o.fd == -1)
    ensures forall n, i | 0 <= n < |next| && 0 <= i < |first| ::
      var l, o := next[n], first[i];
      !o.ignore && o.address == l.address && o.kind == l.kind && (l.previous == -1 || i < l.previous)
      ==> exists m | 0 <= m < n :: next[m].previous == i
    ensures forall n | 0 <= n < |next| && next[n].previous == -1 :: next[n].fd !in base
  {
    hide L.Holds, L.Fresh, L.Linked, L.Claimed, L.SameSocket, L.Opening;
    forall n | 0 <= n < |next|
      ensures -1 <= next[n].previous < |first|
      ensures next[n].previous == -1 ==> next[n].fd !in base
      ensures next[n].previous != -1 ==>
        var l, o := next[n], first[next[n].previous];
        !o.ignore && o.address == l.address && o.kind == l.kind && (o.fd == l.fd || o.fd == -1)
    {
      TakenOne(first, cur, matched, next, base, live, n);
    }
    forall n, i | 0 <= n < |next| && 0 <= i < |first| && !first[i].ignore && first[i].address == next[n].address
      && first[i].kind == next[n].kind && (next[n].previous == -1 || i < next[n].previous)
      ensures exists m | 0 <= m < n :: next[m].previous == i
    {
      TakenBefore(first, cur, matched, next, n, i);
    }
    assert forall n | 0 <= n < |next| :: next[n].previous == matched[n].previous;
  }

  lemma TakenBefore(first: seq<L.Listening>, cur: seq<L.Listening>, matched: seq<L.Listening>,
                    next: seq<L.Listening>, n: nat, i: nat)
    requires L.Matched(cur, matched, |matched|) && L.OnlyFds(next, matched) && L.SameButRemain(cur, first)
    requires n < |next| && i < |first| && !first[i].ignore && first[i].address == next[n].address
    requires first[i].kind == next[n].kind && (next[n].previous == -1 || i < next[n].previous)
    ensures exists m | 0 <= m < n :: next[m].previous == i
  {
    hide L.Fresh, L.Linked;
    assert L.SameSocket(matched[n], cur[i]);
    var m :| 0 <= m < n && matched[m].previous == i;
    assert next[m].previous == i;
  }

  lemma TakenOne(first: seq<L.Listening>, cur: seq<L.Listening>, matched: seq<L.Listening>,
                 next: seq<L.Listening>, base: set<int>, live: set<int>, n: nat)
    requires SocketsReady(cur, matched, next, base, live) && L.SameButRemain(cur, first) && n < |next|
    ensures -1 <= next[n].previous < |first|
    ensures next[n].previous == -1 ==> next[n].fd !in base
    ensures next[n].previous != -1 ==>
      var l, o := next[n], first[next[n].previous];
      !o.ignore && o.address == l.address && o.kind == l.kind && (o.fd == l.fd || o.fd == -1)
  {
    hide L.Holds, L.Fresh;
    assert L.Linked(matched[n], cur);
    assert next[n] == matched[n].(fd := next[n].fd);
  }

  lemma SocketsLeft(next: seq<L.Listening>, live: set<int>, base: set<int>, before: multiset<int>, after: multiset<int>)
    requires L.Holds(next, live) && ClosedExactly(before, after, base, base - L.Fds(next)) && L.NONE !in base
    ensures forall s :: s in live <==> s != -1 && exists l | l in next :: l.fd == s
    ensures forall s | s in base :: after[s] == before[s] + if exists l | l in next :: l.fd == s then 0 else 1
  {
  }

  lemma SegmentsLeft(cur: seq<Z.Zone>, next: seq<Z.Zone>, base: set<nat>, all: set<nat>, mapped: set<nat>,
                     before: multiset<nat>, after: multiset<nat>)
    requires Z.Complete(next, cur, base, all) && mapped == all - Z.Freed(cur, next)
    requires after == before + multiset(Z.Freed(cur, next))
    ensures forall a ::
      && after[a] == before[a] + (
           if exists o | o in cur && o.addr == a ::
             o.noreuse || forall z | z in next :: !(z.name == o.name && z.tag == o.tag && z.size == o.size)
           then 1 else 0)
      && (a in mapped <==> (a in base || exists z | z in next :: z.addr == a) && after[a] == before[a])
  {
    hide Z.Complete, Z.Freed;
    Z.Located(next, cur, base, all);
    forall a: nat
      ensures after[a] == before[a] + (
           if exists o | o in cur && o.addr == a ::
             o.noreuse || forall z | z in next :: !(z.name == o.name && z.tag == o.tag && z.size == o.size)
           then 1 else 0)
      ensures a in Z.Freed(cur, next) <==> after[a] != before[a]
    {
      Z.FreedIff(cur, next, a);
    }
  }

  lemma IsComplete(zones: seq<Z.Zone>, curZones: seq<Z.Zone>, mapped: set<nat>, all: set<nat>)
    requires Z.UniqueNames(zones) && Z.Owns(curZones, mapped) && Z.Forward(zones, 0, curZones, mapped, all)
    requires forall z | z in zones :: Z.IsSegment(z.addr)
    ensures Z.Complete(zones, curZones, mapped, all)
  {
  }

  lemma Facts(c: Cycle, sk: L.Sockets, sm: Z.Segments)
    requires Running(c, sk, sm)
    ensures L.NONE !in sk.live && Z.UniqueNames(c.zones)
  {
  }

  lemma ConfigKept(a: seq<Z.Zone>, b: seq<Z.Zone>)
    requires |a| == |b| && forall j | 0 <= j < |b| :: Z.SameConfig(b[j], a[j])
    ensures forall j | 0 <= j < |b| ::
      b[j].name == a[j].name && b[j].tag == a[j].tag && b[j].size == a[j].size && b[j].noreuse == a[j].noreuse
  {
  }

  lemma AddressesKept(a: seq<L.Listening>, b: seq<L.Listening>)
    requires L.SameConfig(b, a)
    ensures |a| == |b|
    ensures forall n | 0 <= n < |b| ::
      b[n].address == a[n].address && b[n].kind == a[n].kind && b[n].ignore == a[n].ignore
  {
  }

  lemma NoneClosed(before: multiset<int>, after: multiset<int>, fds: set<int>)
    requires ClosedExactly(before, after, fds, {})
    ensures forall s | s in fds :: after[s] == before[s]
  {
  }

  lemma SameRefl(a: seq<L.Listening>, b: seq<L.Listening>)
    ensures L.SameButRemain(a, a) && L.SameConfig(b, b)
  {
  }

  lemma UniqueConfig(a: seq<Z.Zone>, b: seq<Z.Zone>)
    requires |a| == |b| && (forall j | 0 <= j < |a| :: Z.SameConfig(a[j], b[j])) && Z.UniqueNames(b)
    ensures Z.UniqueNames(a)
  {
  }

  lemma ReadyParts(cur: seq<L.Listening>, matched: seq<L.Listening>, next: seq<L.Listening>,
                   base: set<int>, live: set<int>)
    requires SocketsReady(cur, matched, next, base, live)
    ensures L.Holds(cur, base) && L.Opening(next, base, live)
  {
  }

  lemma RemainKeepsFds(a: seq<L.Listening>, b: seq<L.Listening>, live: set<int>)
    requires L.SameButRemain(a, b) && L.Holds(b, live)
    ensures L.Holds(a, live)
  {
    forall s | s in L.Fds(b)
      ensures s in L.Fds(a)
    {
      var i :| 0 <= i < |b| && b[i].fd == s;
      assert a[i] in a;
    }
    forall s | s in L.Fds(a)
      ensures s in L.Fds(b)
    {
      var i :| 0 <= i < |a| && a[i].fd == s;
      assert b[i] in b;
    }
  }

  lemma MatchedOpen(old_: seq<L.Listening>, new_: seq<L.Listening>)
    requires L.Matched(old_, new_, |new_|)
    ensures forall l | l in new_ && l.fd == L.NONE :: l.open
  {
  }

  lemma FdsConfig(a: seq<L.Listening>, b: seq<L.Listening>, c: seq<L.Listening>)
    requires L.SameConfig(b, c) && L.OnlyFds(a, b)
    ensures L.SameConfig(a, c)
  {
  }

  // ----- Every run of reloads ------------------------------------------------------------------------------

  ghost predicate SameZones(a: seq<Z.Zone>, b: seq<Z.Zone>) {
    |a| == |b| && forall j | 0 <= j < |a| :: Z.SameConfig(a[j], b[j])
  }

  lemma AgreesConfig(a: seq<Z.Zone>, a': seq<Z.Zone>, b: seq<Z.Zone>, b': seq<Z.Zone>)
    requires SameZones(a', a) && SameZones(b', b) && Z.NoreuseAgrees(a, b)
    ensures Z.NoreuseAgrees(a', b')
  {
    forall o, z | o in a' && z in b' && Z.SameZone(o, z)
      ensures o.noreuse == z.noreuse
    {
      var i :| 0 <= i < |a'| && a'[i] == o;
      var j :| 0 <= j < |b'| && b'[j] == z;
      assert Z.SameZone(a[i], b[j]) && a[i] in a && b[j] in b;
    }
  }

  /** Equal zones keep `noreuse` from any configuration to any later one. */
  ghost predicate AllAgree(first: seq<Z.Zone>, configs: seq<Config>) {
    && (forall k | 0 <= k < |configs| :: Z.NoreuseAgrees(first, configs[k].zones))
    && forall j, k | 0 <= j < k < |configs| :: Z.NoreuseAgrees(configs[j].zones, configs[k].zones)
  }

  /** The zones the cycle after `n` reloads was configured with: those of one of the configurations. */
  ghost predicate StemsFrom(zones: seq<Z.Zone>, first: seq<Z.Zone>, configs: seq<Config>, n: nat)
    requires n <= |configs|
  {
    SameZones(zones, first) || exists k | 0 <= k < n :: SameZones(zones, configs[k].zones)
  }

  lemma NextAgrees(zones: seq<Z.Zone>, first: seq<Z.Zone>, configs: seq<Config>, n: nat, next: seq<Z.Zone>)
    requires n < |configs| && AllAgree(first, configs) && StemsFrom(zones, first, configs, n)
    requires SameZones(next, configs[n].zones)
    ensures Z.NoreuseAgrees(zones, next)
    ensures StemsFrom(zones, first, configs, n + 1) && StemsFrom(next, first, configs, n + 1)
  {
    if SameZones(zones, first) {
      AgreesConfig(first, zones, configs[n].zones, next);
    } else {
      var k :| 0 <= k < n && SameZones(zones, configs[k].zones);
      AgreesConfig(configs[k].zones, zones, configs[n].zones, next);
    }
  }

  /** The loop of the master process: a failed reload keeps the running cycle. Whatever fails, at the end
      the sockets and segments in use are exactly those of the cycle that runs. */
  method Reloads(sk: L.Sockets, sm: Z.Segments, first: Cycle, configs: seq<Config>, earlier: seq<bool>,
                 inits: seq<seq<bool>>) returns (cur: Cycle)
    requires Running(first, sk, sm) && |earlier| == |inits| == |configs| && sk.system == sm.system
    requires forall k | 0 <= k < |configs| :: Parsed(configs[k]) && |inits[k]| == |configs[k].zones|
    requires AllAgree(first.zones, configs)
    modifies sk, sm, sk.system, first
    ensures Running(cur, sk, sm)
    ensures StemsFrom(cur.zones, old(first.zones), configs, |configs|)
  {
    hide L.Holds, Z.Owns, L.SameButRemain, L.SameConfig, ClosedExactly, Reason, AllAgree, Z.NoreuseAgrees,
         StemsFrom, L.Fds, Z.Freed, Z.Addresses, Parsed;
    cur := first;
    ghost var zones := first.zones;
    StemsRefl(zones, configs);
    for n := 0 to |configs|
      invariant cur == first || fresh(cur)
      invariant Running(cur, sk, sm)
      invariant StemsFrom(cur.zones, zones, configs, n)
    {
      var next := new Cycle(configs[n]);
      ghost var curZones := cur.zones;
      var ok := InitCycle(sk, sm, cur, next, earlier[n], inits[n]);
      NextAgrees(curZones, zones, configs, n, next.zones);
      if ok {
        cur := next;
      }
    }
  }

  lemma StemsRefl(zones: seq<Z.Zone>, configs: seq<Config>)
    ensures StemsFrom(zones, zones, configs, 0)
  {
  }
}
