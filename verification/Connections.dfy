/** The connection pool of ngx_connection.c: free list, reusable queue, file table and drain. */
module Connections {
  import opened Bytes
  import opened PoolSpec
  import opened Queue

  // ----- The free list ---------------------------------------------------------------------------------------

  /** `free` are the connections reached from `head` through `data`. */
  ghost predicate Chain(conns: seq<Conn>, head: Option<nat>, free: seq<nat>) {
    && Distinct(free) && (forall i | 0 <= i < |free| :: free[i] < |conns|)
    && head == At(free, 0)
    && forall i | 0 <= i < |free| :: conns[free[i]].data == At(free, i + 1)
  }

  lemma ChainPush(conns: seq<Conn>, head: Option<nat>, free: seq<nat>, c: nat, v: Conn)
    requires Chain(conns, head, free) && c < |conns| && c !in free && v.data == head
    ensures Chain(conns[c := v], Some(c), [c] + free)
  {
  }

  lemma ChainPop(conns: seq<Conn>, head: Option<nat>, free: seq<nat>)
    requires Chain(conns, head, free)
    ensures head == None <==> free == []
    ensures head.Some? ==> head.value == free[0] < |conns| && head.value !in free[1..]
                           && Chain(conns, conns[head.value].data, free[1..])
  {
  }

  lemma ChainFrame(conns: seq<Conn>, head: Option<nat>, free: seq<nat>, c: nat, v: Conn)
    requires Chain(conns, head, free) && c < |conns| && c !in free
    ensures Chain(conns[c := v], head, free)
  {
  }

  // ----- The invariant -----------------------------------------------------------------------------------------

  /** A file entry names a connection in use with that descriptor. */
  ghost predicate FilesMatch(conns: seq<Conn>, files: seq<Option<nat>>, free: seq<nat>) {
    forall s | 0 <= s < |files| && files[s].Some? ::
      files[s].value < |conns| && files[s].value !in free && conns[files[s].value].fd == s
  }

  /** A connection is queued exactly when its bit is set, and never while it is free. */
  ghost predicate QueueMatches(conns: seq<Conn>, order: seq<nat>, free: seq<nat>) {
    && (forall c: nat | c < |conns| :: c in order <==> conns[c].reusable)
    && forall c | c in order :: c !in free
  }

  /** With a file table, the descriptor of a connection in use is an index of it. */
  ghost predicate InRange(conns: seq<Conn>, n: nat, free: seq<nat>) {
    forall c: nat | c < |conns| && c !in free :: 0 <= conns[c].fd < n
  }

  ghost predicate Inv(conns: seq<Conn>, head: Option<nat>, freeN: nat, free: seq<nat>,
                      order: seq<nat>, reusableN: nat, hasFiles: bool, files: seq<Option<nat>>) {
    && Chain(conns, head, free) && freeN == |free|
    && QueueMatches(conns, order, free) && reusableN == |order|
    && FilesMatch(conns, files, free) && (hasFiles ==> InRange(conns, |files|, free))
  }

  // ----- What each step does to the invariant --------------------------------------------------------------

  /** A connection is taken from the free list for descriptor `s`. */
  lemma InvGet(conns: seq<Conn>, head: Option<nat>, freeN: nat, free: seq<nat>, order: seq<nat>, reusableN: nat,
               hasFiles: bool, files: seq<Option<nat>>, s: int, v: Conn)
    requires Inv(conns, head, freeN, free, order, reusableN, hasFiles, files) && head.Some?
    requires head.value < |conns| && v.fd == s && !v.reusable && (hasFiles ==> 0 <= s < |files|)
    ensures freeN > 0 && free != [] && head.value == free[0] && head.value !in free[1..]
    ensures Inv(conns[head.value := v], conns[head.value].data, freeN - 1, free[1..], order, reusableN, hasFiles,
                if hasFiles && files[s] == None then files[s := Some(head.value)] else files)
  {
    ChainPop(conns, head, free);
    var c := head.value;
    ChainFrame(conns, conns[c].data, free[1..], c, v);
    FreeTail(free);
  }

  lemma FreeTail(free: seq<nat>)
    requires free != []
    ensures forall c :: c in free <==> c == free[0] || c in free[1..]
  {
    assert free == [free[0]] + free[1..];
  }

  /** A connection in use that is not queued goes to the free list and leaves the file table. */
  lemma InvFree(conns: seq<Conn>, head: Option<nat>, freeN: nat, free: seq<nat>, order: seq<nat>, reusableN: nat,
                hasFiles: bool, files: seq<Option<nat>>, c: nat)
    requires Inv(conns, head, freeN, free, order, reusableN, hasFiles, files)
    requires c < |conns| && c !in free && !conns[c].reusable
    requires !hasFiles ==> files == []
    ensures hasFiles ==> 0 <= conns[c].fd < |files|
    ensures var fd := conns[c].fd;
      Inv(conns[c := conns[c].(data := head)], Some(c), freeN + 1, [c] + free, order, reusableN, hasFiles,
          if hasFiles && files[fd] == Some(c) then files[fd := None] else files)
  {
    ChainPush(conns, head, free, c, conns[c].(data := head));
  }

  /** A queued connection leaves the queue. */
  lemma InvUnqueue(conns: seq<Conn>, head: Option<nat>, freeN: nat, free: seq<nat>, order: seq<nat>, reusableN: nat,
                   hasFiles: bool, files: seq<Option<nat>>, c: nat, left: seq<nat>)
    requires Inv(conns, head, freeN, free, order, reusableN, hasFiles, files)
    requires c < |conns| && c in order && |left| == |order| - 1
    requires forall y :: y in left <==> y in order && y != c
    ensures reusableN > 0
    ensures Inv(conns[c := conns[c].(reusable := false)], head, freeN, free, left, reusableN - 1, hasFiles, files)
  {
    ChainFrame(conns, head, free, c, conns[c].(reusable := false));
  }

  /** A connection in use that is not queued enters the queue. */
  lemma InvQueue(conns: seq<Conn>, head: Option<nat>, freeN: nat, free: seq<nat>, order: seq<nat>, reusableN: nat,
                 hasFiles: bool, files: seq<Option<nat>>, c: nat)
    requires Inv(conns, head, freeN, free, order, reusableN, hasFiles, files)
    requires c < |conns| && c !in free && c !in order
    ensures Inv(conns[c := conns[c].(reusable := true)], head, freeN, free, [c] + order, reusableN + 1, hasFiles,
                files)
  {
    ChainFrame(conns, head, free, c, conns[c].(reusable := true));
  }

  /** Fields that the pool's structures do not depend on. */
  lemma InvField(conns: seq<Conn>, head: Option<nat>, freeN: nat, free: seq<nat>, order: seq<nat>, reusableN: nat,
                 hasFiles: bool, files: seq<Option<nat>>, c: nat, v: Conn)
    requires Inv(conns, head, freeN, free, order, reusableN, hasFiles, files) && c < |conns|
    requires v.reusable == conns[c].reusable
    requires if c in free then v.data == conns[c].data else v.fd == conns[c].fd
    ensures Inv(conns[c := v], head, freeN, free, order, reusableN, hasFiles, files)
  {
    if c !in free {
      ChainFrame(conns, head, free, c, v);
    }
  }

  /** All connections are free, the first at the head. */
  lemma AllFree(conns: seq<Conn>, files: seq<Option<nat>>, hasFiles: bool)
    requires conns != []
    requires forall k: nat | k < |conns| :: conns[k].data == if k + 1 < |conns| then Some(k + 1) else None
    requires forall k: nat | k < |conns| :: !conns[k].reusable
    requires forall k: nat | k < |files| :: files[k] == None
    ensures Inv(conns, Some(0), |conns|, seq(|conns|, i => i), [], 0, hasFiles, files)
  {
    var free := seq(|conns|, i => i);
    forall i | 0 <= i < |free|
      ensures conns[free[i]].data == At(free, i + 1)
    {
      assert free[i] == i;
    }
    forall c: nat | c < |conns|
      ensures c in free
    {
      assert free[c] == c;
    }
  }

  // ----- The pool -----------------------------------------------------------------------------------------------

  /** The connections of `ngx_cycle_t`. */
  class Cycle {
    const conns: array<Conn>
    const hasFiles: bool
    const files: array<Option<nat>>
    const queue: Links
    var freeConnections: Option<nat>
    var freeConnectionN: nat
    var reusableConnectionsN: nat
    ghost var free: seq<nat>
    /** The descriptors that were closed, in order. */
    ghost var closed: seq<int>
    /** When each connection was last put into the queue, in ticks of `clock`. */
    ghost var queuedAt: map<nat, nat>
    ghost var clock: nat
    /** The handlers that drains have called. */
    ghost var log: seq<Called>

    ghost predicate Valid()
      reads this, conns, files, queue, queue.next, queue.prev
    {
      && queue.Valid() && queue.head == conns.Length && (!hasFiles ==> files.Length == 0)
      && Inv(conns[..], freeConnections, freeConnectionN, free, queue.order, reusableConnectionsN, hasFiles,
             files[..])
      && ByRecency(queue.order, queuedAt, clock)
    }

    ghost function State(): Pool
      reads this, conns, files, queue
    {
      Pool(hasFiles, conns[..], free, queue.order, files[..], closed, queuedAt, clock, log)
    }

    /** The state keeps what `PoolSpec` says of states. */
    lemma StateGood()
      requires Valid()
      ensures Good(State())
      ensures freeConnections == At(free, 0) && freeConnectionN == |free| && reusableConnectionsN == |queue.order|
    {
      hide ByRecency;
      PoolMembers();
    }

    /** `connection_n`. */
    function ConnectionN(): nat {
      conns.Length
    }

    /** As the event module sets the pool up: all connections free, the first at the head of the list. */
    constructor (n: nat, hasFiles: bool, filesN: nat)
      requires n > 0
      ensures Valid() && ConnectionN() == n && freeConnectionN == n && reusableConnectionsN == 0
      ensures free == seq(n, i => i) && closed == [] && log == []
      ensures forall c | 0 <= c < n :: conns[c].fd == -1
      ensures this.hasFiles == hasFiles && (hasFiles ==> files.Length == filesN)
      ensures fresh(conns) && fresh(files) && fresh(queue) && fresh(queue.next) && fresh(queue.prev)
    {
      hide Inv;
      this.hasFiles := hasFiles;
      files := new Option<nat>[if hasFiles then filesN else 0](_ => None);
      conns := new Conn[n](_ => Conn(None, -1, false, false, false, true, true));
      queue := new Links(n);
      freeConnectionN, reusableConnectionsN, freeConnections := n, 0, None;
      free, closed, queuedAt, clock, log := seq(n, i => i), [], map[], 0, [];
      new;
      freeConnections := LinkAll(conns);
      AllFree(conns[..], files[..], hasFiles);
    }

    /** Links all connections into the free list, from the last to the first. */
    static method LinkAll(conns: array<Conn>) returns (head: Option<nat>)
      requires conns.Length > 0
      modifies conns
      ensures head == Some(0)
      ensures forall k | 0 <= k < conns.Length ::
        conns[k] == old(conns[k]).(data := if k + 1 < conns.Length then Some(k + 1) else None)
    {
      var n := conns.Length;
      var i := n;
      head := None;
      while i > 0
        invariant 0 <= i <= n
        invariant head == if i < n then Some(i) else None
        invariant forall k | i <= k < n :: conns[k] == old(conns[k]).(data := if k + 1 < n then Some(k + 1) else None)
        invariant forall k | 0 <= k < i :: conns[k] == old(conns[k])
      {
        i := i - 1;
        conns[i] := conns[i].(data := head);
        head := Some(i);
      }
    }

    lemma QueuedIff(c: nat)
      requires Valid() && c < conns.Length
      ensures c in queue.order <==> conns[c].reusable
      ensures c in queue.order ==> c !in free
    {
      assert conns[..][c] == conns[c];
    }

    /** Takes a connection off the queue. */
    method Dequeue(c: nat)
      requires Valid() && c < conns.Length && conns[c].reusable
      modifies this, conns, queue, queue.next, queue.prev
      ensures Valid() && free == old(free) && closed == old(closed)
      ensures conns[..] == old(conns[..])[c := old(conns[c]).(reusable := false)]
      ensures queue.order == Minus(old(queue.order), c) && c !in queue.order
      ensures queuedAt == old(queuedAt) && clock == old(clock) && log == old(log)
    {
      hide Inv, ByRecency, Minus, Ring;
      QueuedIff(c);
      ghost var cs, order := conns[..], queue.order;
      queue.Remove(c);
      InvUnqueue(cs, freeConnections, freeConnectionN, free, order, reusableConnectionsN, hasFiles, files[..], c,
                 queue.order);
      reusableConnectionsN := reusableConnectionsN - 1;
      conns[c] := conns[c].(reusable := false);
      assert conns[..] == cs[c := cs[c].(reusable := false)];
      RecencyMinus(order, queuedAt, clock, c);
    }

    /** Puts a connection in use at the head of the queue. */
    method Enqueue(c: nat)
      requires Valid() && c < conns.Length && !conns[c].reusable && c !in free
      modifies this, conns, queue, queue.next, queue.prev
      ensures Valid() && free == old(free) && closed == old(closed)
      ensures conns[..] == old(conns[..])[c := old(conns[c]).(reusable := true)]
      ensures queue.order == [c] + old(queue.order)
      ensures queuedAt == old(queuedAt)[c := old(clock)] && clock == old(clock) + 1 && log == old(log)
    {
      hide Inv, ByRecency, Ring;
      QueuedIff(c);
      ghost var cs := conns[..];
      InvQueue(cs, freeConnections, freeConnectionN, free, queue.order, reusableConnectionsN, hasFiles, files[..], c);
      conns[c] := conns[c].(reusable := true);
      assert conns[..] == cs[c := cs[c].(reusable := true)];
      queue.InsertHead(c);
      reusableConnectionsN := reusableConnectionsN + 1;
      RecencyPush(old(queue.order), queuedAt, clock, c);
      queuedAt, clock := queuedAt[c := clock], clock + 1;
    }

    /** `ngx_reusable_connection`: a connection in use enters the queue at its head, or leaves it; the others
        keep their order. */
    method ReusableConnection(c: nat, reusable: bool)
      requires Valid() && c < conns.Length && (reusable ==> c !in free)
      modifies this, conns, queue, queue.next, queue.prev
      ensures Valid() && State() == Reused(old(State()), c, reusable)
      ensures queue.order == (if reusable then [c] else []) + Minus(old(queue.order), c)
      ensures c !in Minus(old(queue.order), c)
    {
      hide Inv, ByRecency, Minus, Ring, Cycle.Valid;
      ghost var cs := conns[..];
      QueuedIff(c);
      if !conns[c].reusable {
        MinusAbsent(queue.order, c);
      }
      if conns[c].reusable {
        Dequeue(c);
      }
      assert conns[..] == cs[c := cs[c].(reusable := false)];
      QueuedIff(c);
      if reusable {
        Enqueue(c);
      }
    }

    /** `ngx_free_connection`: the connection goes to the head of the free list, and leaves the file table. */
    method FreeConnection(c: nat)
      requires Valid() && c < conns.Length && c !in free && !conns[c].reusable
      modifies this, conns, files
      ensures Valid() && State() == Freed(old(State()), c)
      ensures free == [c] + old(free)
      ensures forall s | 0 <= s < files.Length ::
        files[s] == if old(files[s]) == Some(c) then None else old(files[s])
    {
      hide Inv, ByRecency, Ring;
      ghost var cs, fs := conns[..], files[..];
      QueuedIff(c);
      InvFree(cs, freeConnections, freeConnectionN, free, queue.order, reusableConnectionsN, hasFiles, fs, c);
      OwnEntry(c);
      assert forall s | 0 <= s < |fs| :: fs[s] == files[s];
      UnlistedOne(fs, c, cs[c].fd);
      StateGood();
      conns[c] := conns[c].(data := freeConnections);
      freeConnections := Some(c);
      freeConnectionN := freeConnectionN + 1;
      if hasFiles && files[conns[c].fd] == Some(c) {
        files[conns[c].fd] := None;
      }
      free := [c] + free;
      assert conns[..] == cs[c := cs[c].(data := old(freeConnections))];
      assert files[..] == if hasFiles && fs[cs[c].fd] == Some(c) then fs[cs[c].fd := None] else fs;
    }

    /** The only file entry of a connection is the one of its descriptor. */
    lemma OwnEntry(c: nat)
      requires Valid()
      ensures forall s | 0 <= s < files.Length && files[s] == Some(c) :: c < conns.Length && conns[c].fd == s
    {
      ghost var fs := files[..];
      assert forall s | 0 <= s < files.Length :: files[s] == fs[s];
    }

    /** A field changes that the pool does not depend on. */
    method SetField(c: nat, v: Conn)
      requires Valid() && c < conns.Length && v.reusable == conns[c].reusable
      requires if c in free then v.data == conns[c].data else v.fd == conns[c].fd
      modifies conns
      ensures Valid() && State() == SetConn(old(State()), c, v)
    {
      hide Inv;
      ghost var cs := conns[..];
      InvField(cs, freeConnections, freeConnectionN, free, queue.order, reusableConnectionsN, hasFiles, files[..], c,
               v);
      conns[c] := v;
    }

    /** The connection leaves the queue and goes to the free list. */
    method Release(c: nat)
      requires Valid() && c < conns.Length && c !in free
      modifies this, conns, files, queue, queue.next, queue.prev
      ensures Valid() && State() == Released(old(State()), c)
      ensures c in free && conns[c].fd == old(conns[c]).fd && conns[c].shared == old(conns[c]).shared
    {
      hide Inv, ByRecency, Minus, Ring, Unlisted, Cycle.Valid;
      SetField(c, conns[c].(readClosed := true));
      ReusableConnection(c, false);
      FreeConnection(c);
    }

    /** `ngx_close_connection`; what its state is like says `PoolSpec.ClosedIs`. */
    method CloseConnection(c: nat)
      requires Valid() && c < conns.Length && (c in free ==> conns[c].fd == -1)
      modifies this, conns, files, queue, queue.next, queue.prev
      ensures Valid() && c < conns.Length && State() == Closed(old(State()), c)
    {
      hide Inv, ByRecency, Ring, Released, Cycle.Valid;
      if conns[c].fd == -1 {
        return;
      }
      ReleasedIs(State(), c);
      Release(c);
      var fd := conns[c].fd;
      SetField(c, conns[c].(fd := -1));
      if conns[c].shared {
        return;
      }
      CloseFd(fd);
    }

    /** `ngx_close_socket`, which the pool does not depend on. */
    method CloseFd(fd: int)
      requires Valid()
      modifies this`closed
      ensures Valid() && closed == old(closed) + [fd]
    {
      closed := closed + [fd];
    }

    /** The part of `ngx_get_connection` after the drain: the first free connection is taken for `s`, zeroed
        but for the flipped instance bit, and entered for a descriptor that has no entry. */
    method TakeFree(s: int) returns (c: nat)
      requires Valid() && freeConnections.Some? && (hasFiles ==> 0 <= s < files.Length)
      modifies this, conns, files
      ensures Valid() && State() == Taken(old(State()), s)
      ensures c < conns.Length && old(free) == [c] + free && c !in free && c !in queue.order
      ensures conns[c] == Conn(None, s, false, false, false, !old(conns[c]).instance, false)
      ensures hasFiles ==> files[s].Some?
    {
      hide Inv, ByRecency, Ring;
      ghost var cs, fs := conns[..], files[..];
      HeadInRange();
      c := freeConnections.value;
      var v := Conn(None, s, false, false, false, !conns[c].instance, false);
      InvGet(cs, freeConnections, freeConnectionN, free, queue.order, reusableConnectionsN, hasFiles, fs, s, v);
      freeConnections := conns[c].data;
      freeConnectionN := freeConnectionN - 1;
      if hasFiles && files[s] == None {
        files[s] := Some(c);
      }
      conns[c] := v;
      free := free[1..];
      assert conns[..] == cs[c := v];
      assert files[..] == if hasFiles && fs[s] == None then fs[s := Some(c)] else fs;
      QueuedIff(c);
    }

    lemma HeadInRange()
      requires Valid()
      ensures freeConnections.Some? ==> freeConnections.value < conns.Length
      ensures freeConnections == None <==> free == []
      ensures freeConnectionN == |free| && reusableConnectionsN == |queue.order|
    {
    }

    lemma QueueValid()
      requires Valid()
      ensures queue.Valid() && queue.head == conns.Length
    {
    }

    /** A connection is asked to close: its handler is called, which is logged when it has returned. */
    method CallHandler(c: nat, handlers: Handlers, i: nat, ghost depth: nat)
      requires Valid() && c < conns.Length
      modifies this, conns, files, queue, queue.next, queue.prev
      ensures Valid() && State() == Handled(old(State()), c, handlers, i, depth)
      decreases handlers, 0
    {
      hide Inv, ByRecency, Ring, Ran, Good;
      SetField(c, conns[c].(close := true));
      ghost var asked := State();
      if i < |handlers.scripts| {
        Run(handlers.scripts[i], depth + 1);
      }
      log := log + [Called(depth, c, asked, State())];
    }

    /** `ngx_drain_connections`, whose handlers do as the scripts say. It calls the handlers of the least recently
        queued connections, max(min(32, reusable / 8), 1) of them unless the queue becomes empty, and if then nothing
        is free and the last one is queued again, that one once more. */
    method DrainConnections(handlers: Handlers, ghost depth: nat)
      returns (ghost calls: seq<Called>, ghost ps: seq<Pool>, ghost limit: nat)
      requires Valid()
      modifies this, conns, files, queue, queue.next, queue.prev
      ensures Valid() && State() == Drained(old(State()), handlers, depth)
      // its calls, and the pools before each of them and at the end
      ensures old(log) <= log && calls == Own(log[|old(log)|..], depth) && |ps| == |calls| + 1
      ensures ps[0] == old(State()) && (forall k | 0 <= k < |calls| :: ps[k + 1] == calls[k].after)
      ensures State() == ps[|calls|].(log := log)
      // how many handlers are called, and which is called twice
      ensures limit == if old(reusableConnectionsN) < 16 then 1
                       else if old(reusableConnectionsN) < 256 then old(reusableConnectionsN) / 8 else 32
      ensures calls == [] <==> old(freeConnectionN) > conns.Length / 16 || old(reusableConnectionsN) == 0
      ensures |calls| <= limit + 1
      ensures 0 < |calls| < limit ==> ps[|calls|].order == []
      ensures |calls| > limit <==> |calls| >= limit && ps[limit].free == [] && calls[limit - 1].c in ps[limit].order
      ensures |calls| > limit ==> calls[limit].c == calls[limit - 1].c
      // in the loop each of them is that of the connection queued the longest ago
      ensures forall k | 0 <= k < |calls| && k < limit ::
        ps[k].order != [] && calls[k].c == ps[k].order[|ps[k].order| - 1]
        && LeastRecent(ps[k].order, ps[k].queuedAt, calls[k].c)
      // it starts with `close` set and nothing else changed, and does as its script says
      ensures forall k | 0 <= k < |calls| ::
        && calls[k].c < |ps[k].conns| == |calls[k].before.conns| && calls[k].before.conns[calls[k].c].close
        && calls[k].before.conns == ps[k].conns[calls[k].c := calls[k].before.conns[calls[k].c]]
        && calls[k].before.free == ps[k].free && calls[k].before.order == ps[k].order
        && calls[k].before.files == ps[k].files && calls[k].before.closed == ps[k].closed
        && calls[k].after == if k < |handlers.scripts| then Ran(calls[k].before, handlers.scripts[k], depth + 1)
                             else calls[k].before
      decreases handlers, 2, 1
    {
      hide *;
      ghost var was := State();
      Counted();
      DrainKeepsLog(was, handlers, depth);
      DrainAll(handlers, depth);
      calls := Own(log[|was.log|..], depth);
      ps := Pools(was, calls);
      limit := if |was.order| < 16 then 1 else if |was.order| < 256 then |was.order| / 8 else 32;
      DrainLaw(was, handlers, depth, State(), calls, ps, limit);
      forall k | 0 <= k < |calls|
        ensures calls[k].c < |ps[k].conns| == |calls[k].before.conns| && calls[k].before.conns[calls[k].c].close
        ensures calls[k].before.conns == ps[k].conns[calls[k].c := calls[k].before.conns[calls[k].c]]
        ensures calls[k].before.free == ps[k].free && calls[k].before.order == ps[k].order
        ensures calls[k].before.files == ps[k].files && calls[k].before.closed == ps[k].closed
        ensures calls[k].after == if k < |handlers.scripts| then Ran(calls[k].before, handlers.scripts[k], depth + 1)
                                  else calls[k].before
      {
        TurnIs(ps[k], calls[k], handlers, k);
      }
    }

    lemma Counted()
      requires Valid()
      ensures Good(State()) && State().log == log && |State().conns| == conns.Length
      ensures |State().free| == freeConnectionN && |State().order| == reusableConnectionsN
    {
      hide Good;
      StateGood();
      HeadInRange();
    }

    method DrainAll(handlers: Handlers, ghost depth: nat)
      requires Valid()
      modifies this, conns, files, queue, queue.next, queue.prev
      ensures Valid() && State() == Drained(old(State()), handlers, depth) && State().log == log
      decreases handlers, 2, 0
    {
      hide Inv, ByRecency, Ring, Handled, Drains, Good, Cycle.Valid;
      ghost var was := State();
      StateGood();
      if freeConnectionN > conns.Length / 16 || reusableConnectionsN == 0 {
        return;
      }
      var n := Max(Min(32, reusableConnectionsN / 8), 1);
      var last := DrainLoop(handlers, n, depth);
      StateGood();
      if freeConnectionN == 0 && last.Some? && conns[last.value].reusable {
        CallHandler(last.value, handlers, n, depth);
      }
    }

    /** The loop: at most `n` handlers are called, each for the last of the queue. */
    method DrainLoop(handlers: Handlers, n: nat, ghost depth: nat) returns (last: Option<nat>)
      requires Valid()
      modifies this, conns, files, queue, queue.next, queue.prev
      ensures Valid() && (State(), last) == Drains(old(State()), handlers, 0, n, None, depth)
      ensures last.Some? ==> last.value < conns.Length
      decreases handlers, 1
    {
      hide Inv, ByRecency, Ring, Handled, Cycle.Valid;
      ghost var was := State();
      last := None;
      var i := 0;
      while i < n
        invariant Valid() && 0 <= i <= n && (last.Some? ==> last.value < conns.Length)
        invariant Drains(State(), handlers, i, n, last, depth) == Drains(was, handlers, 0, n, None, depth)
      {
        QueueValid();
        var empty := queue.Empty();
        if empty {
          break;
        }
        var c := queue.Last();
        last := Some(c);
        CallHandler(c, handlers, i, depth);
        i := i + 1;
      }
    }

    /** `ngx_get_connection`: none for a descriptor beyond the file table, which leaves the pool alone, or
        when nothing is free even after the drain, which leaves the pool `mid`; else the first free one, zeroed but for
        the flipped instance bit, which enters the file table unless its descriptor has an entry. */
    method GetConnection(s: int, handlers: Handlers, ghost depth: nat) returns (r: Option<nat>, ghost mid: Pool)
      requires Valid()
      modifies this, conns, files, queue, queue.next, queue.prev
      ensures Valid() && State() == Got(old(State()), s, handlers, depth)
      ensures hasFiles && !(0 <= s < files.Length) ==> r == None && State() == old(State())
      ensures !hasFiles || 0 <= s < files.Length ==>
        mid == Drained(old(State()), handlers, depth) && (r == None <==> mid.free == [])
      ensures r == None && (hasFiles ==> 0 <= s < files.Length) ==> State() == mid
      ensures r.Some? ==>
        && r.value < conns.Length == |mid.conns| && mid.free == [r.value] + free
        && r.value !in free && r.value !in queue.order
        && conns[..] == mid.conns[r.value := Conn(None, s, false, false, false, !mid.conns[r.value].instance, false)]
        && queue.order == mid.order && closed == mid.closed
        && files[..] == if 0 <= s < |mid.files| && mid.files[s] == None then mid.files[s := Some(r.value)]
                        else mid.files
      decreases handlers, 3
    {
      hide Inv, ByRecency, Drained, Own;
      mid := State();
      if hasFiles && !(0 <= s < files.Length) {
        return None, mid;
      }
      ghost var calls, ps, limit := DrainConnections(handlers, depth);
      mid := State();
      HeadInRange();
      if freeConnections == None {
        return None, mid;
      }
      var c := TakeFree(s);
      r := Some(c);
    }

    /** One step of a handler, as far as the pool allows it: only what is in use can be freed or queued. */
    method Step(op: Op, ghost depth: nat)
      requires Valid()
      modifies this, conns, files, queue, queue.next, queue.prev
      ensures Valid() && State() == Stepped(old(State()), op, depth)
      decreases op, 3
    {
      hide Inv, ByRecency, Freed, Closed, Reused, SetConn, Got;
      match op {
        case Get(fd, handlers) =>
          var r, mid := GetConnection(fd, handlers, depth);
        case Free(c) =>
          if c < conns.Length && !conns[c].reusable {
            var used := IsUsed(c);
            if used {
              FreeConnection(c);
            }
          }
        case Close(c) =>
          if c < conns.Length {
            var used := IsUsed(c);
            if used || conns[c].fd == -1 {
              CloseConnection(c);
            }
          }
        case Reuse(c, on) =>
          if c < conns.Length {
            var used := IsUsed(c);
            if used {
              ReusableConnection(c, on);
            }
          }
        case Touch(c, data, shared) =>
          if c < conns.Length {
            var used := IsUsed(c);
            if used {
              SetField(c, conns[c].(data := data, shared := shared));
            }
          }
      }
    }

    /** Any finite sequence of steps keeps the pool consistent, handlers that acquire connections included, and
        leads to the state that `PoolSpec` says. */
    method Run(script: Script, ghost depth: nat)
      requires Valid()
      modifies this, conns, files, queue, queue.next, queue.prev
      ensures Valid() && State() == Ran(old(State()), script, depth)
      decreases script, 4
    {
      match script {
        case End =>
        case Do(op, next) =>
          Step(op, depth);
          Run(next, depth);
      }
    }

    /** Is the connection in use? What the program knows of it is that it holds it. */
    method IsUsed(c: nat) returns (b: bool)
      requires Valid() && c < conns.Length
      ensures b <==> c !in free
    {
      hide QueueMatches, FilesMatch, InRange;
      var f := freeConnections;
      ghost var i := 0;
      while f.Some?
        invariant i <= |free| && f == At(free, i) && c !in free[..i]
        decreases |free| - i
      {
        assert free[i] < conns.Length && conns[..][free[i]].data == At(free, i + 1);
        if f.value == c {
          return false;
        }
        assert free[..i + 1] == free[..i] + [free[i]];
        f := conns[f.value].data;
        i := i + 1;
      }
      assert free[..i] == free;
      b := true;
    }

    /** The connections that are not free. */
    ghost function Used(): set<nat>
      reads this, conns
    {
      set c | c in Upto(conns.Length) && c !in free
    }

    /** Free and used connections make up the pool, and the counters count. */
    lemma Counters()
      requires Valid()
      ensures freeConnectionN + |Used()| == ConnectionN()
      ensures reusableConnectionsN == |set c | c in Used() && conns[c].reusable|
      ensures freeConnectionN + reusableConnectionsN <= ConnectionN()
    {
      hide Inv, Ring;
      HeadInRange();
      PoolMembers();
      var queued := set c | c in Used() && conns[c].reusable;
      assert queued == Elements(queue.order);
      assert Elements(Upto(conns.Length)) == Elements(free) + Used();
      CardOfDistinct(free);
      CardOfDistinct(queue.order);
      CardOfDistinct(Upto(conns.Length));
      SubsetCard(queued, Used());
    }

    lemma PoolMembers()
      requires Valid()
      ensures Distinct(free) && forall c | c in free :: c < conns.Length
      ensures Distinct(queue.order)
      ensures forall c: nat | c < conns.Length :: c in queue.order <==> conns[c].reusable
      ensures forall c | c in queue.order :: c !in free && c < conns.Length
    {
      assert forall c: nat | c < conns.Length :: conns[..][c] == conns[c];
    }
  }

  function Upto(n: nat): (s: seq<nat>)
    ensures forall c: nat :: c in s <==> c < n
    ensures |s| == n && (forall i | 0 <= i < n :: s[i] == i) && Distinct(s)
  {
    if n == 0 then [] else Upto(n - 1) + [n - 1]
  }

  function Elements(s: seq<nat>): set<nat> {
    set c | c in s
  }

  lemma {:induction false} CardOfDistinct(s: seq<nat>)
    requires Distinct(s)
    ensures |Elements(s)| == |s|
  {
    if s != [] {
      var t, x := s[..|s| - 1], s[|s| - 1];
      assert s == t + [x] && Distinct(t);
      CardOfDistinct(t);
      assert x !in t;
      assert Elements(s) == Elements(t) + {x};
    }
  }

  lemma SubsetCard(a: set<nat>, b: set<nat>)
    requires a <= b
    ensures |a| <= |b|
  {
    assert b == a + (b - a);
  }

  // ----- Old cycles --------------------------------------------------------------------------------------------

  /** A replaced cycle: the descriptors of its connections, -1 when closed. */
  datatype Old = Old(id: nat, fds: seq<int>)

  ghost predicate Live(o: Old) {
    exists n | 0 <= n < |o.fds| :: o.fds[n] != -1
  }

  /** `ngx_old_cycles` and the timer that cleans it; `destroyed` are the cycles whose pool was destroyed. */
  class OldCycles {
    var cycles: seq<Option<Old>>
    var timer: bool
    ghost var destroyed: seq<Old>

    constructor ()
      ensures cycles == [] && destroyed == []
    {
      cycles, timer, destroyed := [], false, [];
    }

    /** The inner search of `ngx_clean_old_cycles`. */
    static method HasLive(o: Old) returns (found: bool)
      ensures found <==> Live(o)
    {
      found := false;
      for n := 0 to |o.fds|
        invariant !found && forall k | 0 <= k < n :: o.fds[k] == -1
      {
        if o.fds[n] != -1 {
          return true;
        }
      }
    }

    /** The cycles that are still in the list and have no live connection. */
    static ghost function Dead(cs: seq<Option<Old>>): seq<Old> {
      if cs == [] then []
      else
        var last := cs[|cs| - 1];
        Dead(cs[..|cs| - 1]) + if last.Some? && !Live(last.value) then [last.value] else []
    }

    /** `ngx_clean_old_cycles`: destroys exactly the cycles without live connections, in list order; the timer
        runs on, and the list is kept, exactly while one is live. */
    method CleanOldCycles()
      modifies this
      ensures destroyed == old(destroyed) + Dead(old(cycles))
      ensures timer <==> exists i | 0 <= i < |old(cycles)| :: old(cycles)[i].Some? && Live(old(cycles)[i].value)
      ensures if !timer then cycles == []
              else |cycles| == |old(cycles)| && forall i | 0 <= i < |cycles| ::
                cycles[i] == if old(cycles)[i].Some? && Live(old(cycles)[i].value) then old(cycles)[i] else None
    {
      hide Live, Dead;
      var live := false;
      ghost var was, gone := cycles, destroyed;
      NoneDead(was);
      for i := 0 to |cycles|
        invariant |cycles| == |was|
        invariant destroyed == gone + Dead(was[..i])
        invariant live <==> exists k | 0 <= k < i :: was[k].Some? && Live(was[k].value)
        invariant forall k | 0 <= k < |was| ::
          cycles[k] == if k >= i || (was[k].Some? && Live(was[k].value)) then was[k] else None
      {
        DeadStep(was, i);
        if cycles[i] == None {
          continue;
        }
        var found := HasLive(cycles[i].value);
        if found {
          live := true;
          continue;
        }
        destroyed := destroyed + [cycles[i].value];
        cycles := cycles[i := None];
      }
      assert was[..|was|] == was;
      timer := live;
      if !live {
        cycles := [];
      }
    }

    static lemma NoneDead(cs: seq<Option<Old>>)
      ensures Dead(cs[..0]) == []
    {
    }

    static lemma DeadStep(cs: seq<Option<Old>>, i: nat)
      requires i < |cs|
      ensures Dead(cs[..i + 1]) == Dead(cs[..i]) + if cs[i].Some? && !Live(cs[i].value) then [cs[i].value] else []
    {
      assert cs[..i + 1][..i] == cs[..i];
    }
  }
}
