/** The connection pool as values: what each step of ngx_connection.c makes of the free list, the reusable
    queue, the file table and the log of handler calls. */
module PoolSpec {
  import opened Bytes
  import opened Queue

  /** `ngx_connection_t` and its read event. `data` links the free list; a connection in use keeps
      whatever the application stores there. */
  datatype Conn = Conn(data: Option<nat>, fd: int, reusable: bool, close: bool, shared: bool,
                       instance: bool, readClosed: bool)

  /** What a read handler does to the pool, step by step. */
  datatype Op =
    | Get(fd: int, handlers: Handlers)
    | Free(c: nat)
    | Close(c: nat)
    | Reuse(c: nat, on: bool)
    | Touch(c: nat, data: Option<nat>, shared: bool)

  datatype Script = End | Do(op: Op, next: Script)

  /** The scripts of the handlers that one drain calls. */
  datatype Handlers = Handlers(scripts: seq<Script>)

  function At(free: seq<nat>, i: nat): Option<nat> {
    if i < |free| then Some(free[i]) else None
  }

  function Min(a: nat, b: nat): nat {
    if a < b then a else b
  }

  function Max(a: nat, b: nat): nat {
    if a < b then b else a
  }

  /** How many handlers a drain calls at most, but for the repeated last one. */
  function DrainLimit(reusableN: nat): nat {
    Max(Min(32, reusableN / 8), 1)
  }

  // ----- Recency -----------------------------------------------------------------------------------------------

  /** The queue runs from the most to the least recently queued connection. */
  ghost predicate ByRecency(order: seq<nat>, queuedAt: map<nat, nat>, clock: nat) {
    && (forall c | c in order :: c in queuedAt && queuedAt[c] < clock)
    && forall i, j | 0 <= i < j < |order| :: queuedAt[order[i]] > queuedAt[order[j]]
  }

  lemma RecencyCons(c: nat, order: seq<nat>, queuedAt: map<nat, nat>, clock: nat)
    ensures ByRecency([c] + order, queuedAt, clock)
       <==> ByRecency(order, queuedAt, clock) && c in queuedAt && queuedAt[c] < clock
            && forall y | y in order :: y in queuedAt && queuedAt[c] > queuedAt[y]
  {
    var all := [c] + order;
    if ByRecency(all, queuedAt, clock) {
      assert all[0] == c && forall y | y in order :: y in all;
      assert forall i | 0 <= i < |order| :: order[i] == all[i + 1];
    }
  }

  lemma {:induction false} RecencyMinus(order: seq<nat>, queuedAt: map<nat, nat>, clock: nat, c: nat)
    requires ByRecency(order, queuedAt, clock)
    ensures ByRecency(Minus(order, c), queuedAt, clock)
    ensures forall y | y in Minus(order, c) :: y in order
  {
    hide ByRecency;
    if order != [] {
      var rest := order[1..];
      assert order == [order[0]] + rest;
      RecencyCons(order[0], rest, queuedAt, clock);
      RecencyMinus(rest, queuedAt, clock, c);
      RecencyCons(order[0], Minus(rest, c), queuedAt, clock);
    }
  }

  lemma RecencyPush(order: seq<nat>, queuedAt: map<nat, nat>, clock: nat, c: nat)
    requires ByRecency(order, queuedAt, clock) && c !in order
    ensures ByRecency([c] + order, queuedAt[c := clock], clock + 1)
  {
  }

  /** The last of the queue is the least recently queued. */
  lemma LastIsLeast(order: seq<nat>, queuedAt: map<nat, nat>, clock: nat)
    requires ByRecency(order, queuedAt, clock) && order != []
    ensures LeastRecent(order, queuedAt, order[|order| - 1])
  {
  }

  ghost predicate LeastRecent(order: seq<nat>, queuedAt: map<nat, nat>, c: nat) {
    && c in order && (forall y | y in order :: y in queuedAt)
    && forall y | y in order && y != c :: queuedAt[c] < queuedAt[y]
  }

  lemma RecentDistinct(order: seq<nat>, queuedAt: map<nat, nat>, clock: nat)
    requires ByRecency(order, queuedAt, clock)
    ensures Distinct(order)
  {
  }

  lemma {:induction false} MinusGone(order: seq<nat>, c: nat)
    requires Distinct(order)
    ensures c !in Minus(order, c)
    ensures forall y | y != c :: y in Minus(order, c) <==> y in order
  {
    if order != [] {
      var rest := order[1..];
      assert order == [order[0]] + rest;
      assert forall i | 0 <= i < |rest| :: rest[i] == order[i + 1];
      MinusGone(rest, c);
    }
  }

  // ----- States --------------------------------------------------------------------------------------------

  /** A handler call of a drain: how deep the drain is nested, and the pool when the handler starts and when it
      returns. */
  datatype Called = Called(depth: nat, c: nat, before: Pool, after: Pool)

  /** `free` and `order` list the free and the queued connections, `closed` the closed descriptors, `queuedAt`
      when each connection was last queued in ticks of `clock`, and `log` the handler calls that returned. */
  datatype Pool = Pool(hasFiles: bool, conns: seq<Conn>, free: seq<nat>, order: seq<nat>, files: seq<Option<nat>>,
                       closed: seq<int>, queuedAt: map<nat, nat>, clock: nat, log: seq<Called>)

  // ----- Steps ----------------------------------------------------------------------------------------------

  ghost function SetConn(p: Pool, c: nat, v: Conn): Pool {
    if c < |p.conns| then p.(conns := p.conns[c := v]) else p
  }

  /** The file table without connection `c`. */
  ghost function Unlisted(files: seq<Option<nat>>, c: nat): (r: seq<Option<nat>>)
    ensures |r| == |files|
  {
    seq(|files|, s requires 0 <= s < |files| => if files[s] == Some(c) then None else files[s])
  }

  /** `ngx_free_connection`. */
  ghost function Freed(p: Pool, c: nat): Pool {
    if c >= |p.conns| then p
    else
      p.(conns := p.conns[c := p.conns[c].(data := At(p.free, 0))], free := [c] + p.free,
         files := Unlisted(p.files, c))
  }

  /** `ngx_reusable_connection`. */
  ghost function Reused(p: Pool, c: nat, on: bool): Pool {
    if c >= |p.conns| then p
    else
      p.(conns := p.conns[c := p.conns[c].(reusable := on)], order := (if on then [c] else []) + Minus(p.order, c),
         queuedAt := if on then p.queuedAt[c := p.clock] else p.queuedAt, clock := p.clock + if on then 1 else 0)
  }

  /** The connection leaves the queue and goes to the free list. */
  ghost function Released(p: Pool, c: nat): Pool
    requires c < |p.conns|
  {
    Freed(Reused(SetConn(p, c, p.conns[c].(readClosed := true)), c, false), c)
  }

  lemma ReleasedIs(p: Pool, c: nat)
    requires c < |p.conns|
    ensures var q := Released(p, c);
      && q.free == [c] + p.free && |q.conns| == |p.conns| && q.order == Minus(p.order, c)
      && q.files == Unlisted(p.files, c) && q.closed == p.closed && q.log == p.log
      && q.conns[c].fd == p.conns[c].fd && forall y | 0 <= y < |p.conns| && y != c :: q.conns[y] == p.conns[y]
  {
    hide Minus, Unlisted;
  }

  /** `ngx_close_connection`. */
  ghost function Closed(p: Pool, c: nat): Pool {
    if c >= |p.conns| || p.conns[c].fd == -1 then p
    else
      var was := p.conns[c];
      ReleasedIs(p, c);
      var q := Released(p, c);
      SetConn(q, c, q.conns[c].(fd := -1)).(closed := p.closed + if was.shared then [] else [was.fd])
  }

  /** The only entry of a connection is that of its descriptor. */
  lemma UnlistedOne(files: seq<Option<nat>>, c: nat, fd: int)
    requires forall s | 0 <= s < |files| && files[s] == Some(c) :: s == fd
    ensures Unlisted(files, c) == if 0 <= fd < |files| && files[fd] == Some(c) then files[fd := None] else files
  {
  }

  /** Closing again what was closed changes nothing; otherwise the connection leaves the queue, where the others
      keep their order, and the file table, becomes free, and its descriptor is closed unless it is shared. */
  lemma ClosedIs(p: Pool, c: nat)
    requires c < |p.conns|
    ensures var q, was := Closed(p, c), p.conns[c];
      if was.fd == -1 then q == p else
        && q.free == [c] + p.free && |q.conns| == |p.conns| && q.conns[c].fd == -1
        && q.order == Minus(p.order, c) && q.files == Unlisted(p.files, c) && q.log == p.log
        && q.closed == p.closed + (if was.shared then [] else [was.fd])
        && forall y | 0 <= y < |p.conns| && y != c :: q.conns[y] == p.conns[y]
  {
    hide Minus;
  }

  /** The part of `ngx_get_connection` after the drain. */
  ghost function Taken(p: Pool, s: int): Pool {
    if p.free == [] || p.free[0] >= |p.conns| then p
    else
      var c := p.free[0];
      p.(conns := p.conns[c := Conn(None, s, false, false, false, !p.conns[c].instance, false)], free := p.free[1..],
         files := if 0 <= s < |p.files| && p.files[s] == None then p.files[s := Some(c)] else p.files)
  }

  /** A drain asks the connection to close. */
  ghost function Asked(p: Pool, c: nat): Pool {
    if c >= |p.conns| then p
    else SetConn(p, c, p.conns[c].(close := true))
  }

  /** Its handler has returned. */
  ghost function Returned(p: Pool, e: Called): Pool {
    p.(log := p.log + [e])
  }

  ghost function Handled(p: Pool, c: nat, handlers: Handlers, i: nat, depth: nat): Pool
    decreases handlers, 0, 0
  {
    var a := Asked(p, c);
    var b := if i < |handlers.scripts| then Ran(a, handlers.scripts[i], depth + 1) else a;
    Returned(b, Called(depth, c, a, b))
  }

  /** The loop of a drain from turn `i` on, and the connection it asked last. */
  ghost function Drains(p: Pool, handlers: Handlers, i: nat, n: nat, last: Option<nat>, depth: nat): (Pool, Option<nat>)
    decreases handlers, 1, n - i
  {
    if i >= n || p.order == [] then (p, last)
    else
      var c := p.order[|p.order| - 1];
      Drains(Handled(p, c, handlers, i, depth), handlers, i + 1, n, Some(c), depth)
  }

  ghost predicate NoDrain(p: Pool) {
    |p.free| > |p.conns| / 16 || p.order == []
  }

  /** Does a drain that asked `last` last ask it once more? */
  ghost predicate Again(p: Pool, last: Option<nat>) {
    p.free == [] && last.Some? && last.value < |p.conns| && p.conns[last.value].reusable
  }

  /** `ngx_drain_connections`. */
  ghost function Drained(p: Pool, handlers: Handlers, depth: nat): Pool
    decreases handlers, 2, 0
  {
    if NoDrain(p) then p
    else
      var n := DrainLimit(|p.order|);
      var (q, last) := Drains(p, handlers, 0, n, None, depth);
      if Again(q, last) then Handled(q, last.value, handlers, n, depth) else q
  }

  /** `ngx_get_connection`. */
  ghost function Got(p: Pool, s: int, handlers: Handlers, depth: nat): Pool
    decreases handlers, 3, 0
  {
    if p.hasFiles && !(0 <= s < |p.files|) then p else Taken(Drained(p, handlers, depth), s)
  }

  /** A step of a handler, as far as the pool allows it: only what is in use can be freed or queued. */
  ghost function Stepped(p: Pool, op: Op, depth: nat): Pool
    decreases op, 4, 0
  {
    match op
    case Get(fd, handlers) => Got(p, fd, handlers, depth)
    case Free(c) => if c < |p.conns| && !p.conns[c].reusable && c !in p.free then Freed(p, c) else p
    case Close(c) => if c < |p.conns| && (c !in p.free || p.conns[c].fd == -1) then Closed(p, c) else p
    case Reuse(c, on) => if c < |p.conns| && c !in p.free then Reused(p, c, on) else p
    case Touch(c, data, shared) =>
      if c < |p.conns| && c !in p.free then SetConn(p, c, p.conns[c].(data := data, shared := shared)) else p
  }

  ghost function Ran(p: Pool, script: Script, depth: nat): Pool
    decreases script, 5, 0
  {
    match script
    case End => p
    case Do(op, next) => Ran(Stepped(p, op, depth), next, depth)
  }

  // ----- What every step keeps ---------------------------------------------------------------------------------

  /** The bits, the queue and the free list agree, and the queue is ordered by recency. */
  ghost predicate Good(p: Pool) {
    && ByRecency(p.order, p.queuedAt, p.clock)
    && (forall c: nat | c < |p.conns| :: c in p.order <==> p.conns[c].reusable)
    && (forall c | c in p.order :: c < |p.conns| && c !in p.free)
    && Distinct(p.free) && forall c | c in p.free :: c < |p.conns|
  }

  /** Later states keep this, and their log goes on with calls at least as deep. */
  ghost predicate Follows(p: Pool, q: Pool, depth: nat) {
    && (Good(p) ==> Good(q)) && |q.conns| == |p.conns| && p.log <= q.log
    && forall k | |p.log| <= k < |q.log| :: q.log[k].depth >= depth
  }

  lemma FollowsTrans(p: Pool, q: Pool, r: Pool, depth: nat)
    requires Follows(p, q, depth) && Follows(q, r, depth)
    ensures Follows(p, r, depth)
  {
    hide Good;
  }

  lemma SetFollows(p: Pool, c: nat, v: Conn, depth: nat)
    requires c < |p.conns| ==> v.reusable == p.conns[c].reusable
    ensures Follows(p, SetConn(p, c, v), depth)
  {
    hide ByRecency;
  }

  lemma AskedFollows(p: Pool, c: nat, depth: nat)
    ensures Follows(p, Asked(p, c), depth) && Asked(p, c).log == p.log
  {
    hide ByRecency;
  }

  lemma ReturnedFollows(p: Pool, e: Called)
    ensures Follows(p, Returned(p, e), e.depth)
  {
    GoodLog(p, Returned(p, e));
  }

  lemma GoodLog(p: Pool, q: Pool)
    requires q == p.(log := q.log)
    ensures Good(p) ==> Good(q)
  {
  }

  lemma FreedFollows(p: Pool, c: nat, depth: nat)
    requires c < |p.conns| ==> !p.conns[c].reusable && c !in p.free
    ensures Follows(p, Freed(p, c), depth)
  {
    hide ByRecency, Unlisted;
  }

  lemma TakenFollows(p: Pool, s: int, depth: nat)
    ensures Follows(p, Taken(p, s), depth)
  {
    hide ByRecency;
    if Good(p) && p.free != [] {
      assert forall i | 0 <= i < |p.free| - 1 :: p.free[1..][i] == p.free[i + 1];
      assert forall c | c in p.free[1..] :: c in p.free && c != p.free[0];
    }
  }

  lemma ReusedFollows(p: Pool, c: nat, on: bool, depth: nat)
    requires on ==> c !in p.free
    ensures Follows(p, Reused(p, c, on), depth)
    ensures Good(p) && c < |p.conns| && !on ==> c !in Reused(p, c, on).order
  {
    hide Minus;
    if Good(p) && c < |p.conns| {
      RecencyMinus(p.order, p.queuedAt, p.clock, c);
      RecentDistinct(p.order, p.queuedAt, p.clock);
      MinusGone(p.order, c);
      if on {
        RecencyPush(Minus(p.order, c), p.queuedAt, p.clock, c);
      }
    }
  }

  lemma ClosedFollows(p: Pool, c: nat, depth: nat)
    requires c < |p.conns| && p.conns[c].fd != -1 ==> c !in p.free
    ensures Follows(p, Closed(p, c), depth)
  {
    hide Good, Freed, Reused, Follows;
    if c < |p.conns| && p.conns[c].fd != -1 {
      ClosedParts(p, c, depth);
    } else {
      SameFollows(p, depth);
    }
  }

  lemma SameFollows(p: Pool, depth: nat)
    ensures Follows(p, p, depth)
  {
  }

  lemma ClosedParts(p: Pool, c: nat, depth: nat)
    requires c < |p.conns| && p.conns[c].fd != -1 && c !in p.free
    ensures Follows(p, Closed(p, c), depth)
  {
    hide Good, ByRecency, Minus, Unlisted;
    var a := SetConn(p, c, p.conns[c].(readClosed := true));
    var b := Reused(a, c, false);
    var d := Freed(b, c);
    SetFollows(p, c, p.conns[c].(readClosed := true), depth);
    ReusedFollows(a, c, false, depth);
    FreedFollows(b, c, depth);
    SetFollows(d, c, d.conns[c].(fd := -1), depth);
    ClosedKept(SetConn(d, c, d.conns[c].(fd := -1)), Closed(p, c));
  }

  lemma ClosedKept(p: Pool, q: Pool)
    requires q == p.(closed := q.closed)
    ensures Good(p) ==> Good(q)
  {
  }

  lemma {:induction false} HandledFollows(p: Pool, c: nat, handlers: Handlers, i: nat, depth: nat)
    ensures Follows(p, Handled(p, c, handlers, i, depth), depth)
    ensures var a := Asked(p, c);
      var b := if i < |handlers.scripts| then Ran(a, handlers.scripts[i], depth + 1) else a;
      Follows(a, b, depth + 1) && Handled(p, c, handlers, i, depth) == Returned(b, Called(depth, c, a, b))
    decreases handlers, 0, 0
  {
    hide Follows, Good, Asked, Returned;
    AskedFollows(p, c, depth);
    var a := Asked(p, c);
    var b := if i < |handlers.scripts| then Ran(a, handlers.scripts[i], depth + 1) else a;
    if i < |handlers.scripts| {
      RanFollows(a, handlers.scripts[i], depth + 1);
    } else {
      SameFollows(a, depth + 1);
    }
    Shallower(a, b, depth);
    FollowsTrans(p, a, b, depth);
    var e := Called(depth, c, a, b);
    ReturnedFollows(b, e);
    FollowsTrans(p, b, Returned(b, e), depth);
  }

  lemma Shallower(p: Pool, q: Pool, depth: nat)
    requires Follows(p, q, depth + 1)
    ensures Follows(p, q, depth)
  {
    hide Good;
  }

  lemma {:induction false} DrainsFollows(p: Pool, handlers: Handlers, i: nat, n: nat, last: Option<nat>, depth: nat)
    ensures Follows(p, Drains(p, handlers, i, n, last, depth).0, depth)
    decreases handlers, 1, n - i
  {
    hide Follows, Good;
    if i >= n || p.order == [] {
      SameFollows(p, depth);
    } else {
      var c := p.order[|p.order| - 1];
      var q := Handled(p, c, handlers, i, depth);
      HandledFollows(p, c, handlers, i, depth);
      DrainsFollows(q, handlers, i + 1, n, Some(c), depth);
      FollowsTrans(p, q, Drains(q, handlers, i + 1, n, Some(c), depth).0, depth);
    }
  }

  lemma {:induction false} DrainedFollows(p: Pool, handlers: Handlers, depth: nat)
    ensures Follows(p, Drained(p, handlers, depth), depth)
    decreases handlers, 2, 0
  {
    hide Follows, Good, NoDrain, Again;
    SameFollows(p, depth);
    if !NoDrain(p) {
      var n := DrainLimit(|p.order|);
      var (q, last) := Drains(p, handlers, 0, n, None, depth);
      DrainsFollows(p, handlers, 0, n, None, depth);
      if last.Some? {
        HandledFollows(q, last.value, handlers, n, depth);
        FollowsTrans(p, q, Handled(q, last.value, handlers, n, depth), depth);
      }
      assert Again(q, last) ==> last.Some? by { AgainSome(q, last); }
    }
  }

  lemma AgainSome(q: Pool, last: Option<nat>)
    ensures Again(q, last) ==> last.Some?
  {
  }

  lemma {:induction false} SteppedFollows(p: Pool, op: Op, depth: nat)
    ensures Follows(p, Stepped(p, op, depth), depth)
    decreases op, 4, 0
  {
    hide Follows, Good, Freed, Closed, Reused, SetConn, Taken;
    SameFollows(p, depth);
    match op
    case Get(fd, handlers) =>
      DrainedFollows(p, handlers, depth);
      var q := Drained(p, handlers, depth);
      TakenFollows(q, fd, depth);
      FollowsTrans(p, q, Taken(q, fd), depth);
    case Free(c) =>
      if c < |p.conns| && !p.conns[c].reusable && c !in p.free {
        FreedFollows(p, c, depth);
      }
    case Close(c) =>
      if c < |p.conns| && (c !in p.free || p.conns[c].fd == -1) {
        ClosedFollows(p, c, depth);
      }
    case Reuse(c, on) =>
      if c < |p.conns| && c !in p.free {
        ReusedFollows(p, c, on, depth);
      }
    case Touch(c, data, shared) =>
      if c < |p.conns| && c !in p.free {
        SetFollows(p, c, p.conns[c].(data := data, shared := shared), depth);
      }
  }

  /** Over every run of steps, nested drains included, bits, queue and free list agree, and the queue stays
      ordered by recency. */
  lemma {:induction false} RanFollows(p: Pool, script: Script, depth: nat)
    ensures Follows(p, Ran(p, script, depth), depth)
    decreases script, 5, 0
  {
    hide Follows, Good, Stepped;
    match script
    case End => SameFollows(p, depth);
    case Do(op, next) =>
      SteppedFollows(p, op, depth);
      RanFollows(Stepped(p, op, depth), next, depth);
      FollowsTrans(p, Stepped(p, op, depth), Ran(Stepped(p, op, depth), next, depth), depth);
  }

  // ----- The calls of one drain ------------------------------------------------------------------------------

  /** The calls made at this depth. */
  ghost function Own(log: seq<Called>, depth: nat): seq<Called> {
    if log == [] then []
    else Own(log[..|log| - 1], depth) + if log[|log| - 1].depth == depth then [log[|log| - 1]] else []
  }

  lemma {:induction false} OwnAppend(a: seq<Called>, b: seq<Called>, depth: nat)
    ensures Own(a + b, depth) == Own(a, depth) + Own(b, depth)
    decreases |b|
  {
    if b == [] {
      assert a + b == a;
    } else {
      var init := b[..|b| - 1];
      assert (a + b)[..|a + b| - 1] == a + init;
      OwnAppend(a, init, depth);
    }
  }

  lemma {:induction false} OwnDeeper(log: seq<Called>, depth: nat)
    requires forall k | 0 <= k < |log| :: log[k].depth > depth
    ensures Own(log, depth) == []
  {
    if log != [] {
      OwnDeeper(log[..|log| - 1], depth);
    }
  }

  /** What was logged between two states. */
  ghost function Logged(p: Pool, q: Pool): seq<Called> {
    if |p.log| <= |q.log| then q.log[|p.log|..] else []
  }

  lemma LoggedJoin(p: Pool, q: Pool, r: Pool, depth: nat)
    requires p.log <= q.log <= r.log
    ensures Own(Logged(p, r), depth) == Own(Logged(p, q), depth) + Own(Logged(q, r), depth)
  {
    assert Logged(p, r) == Logged(p, q) + Logged(q, r);
    OwnAppend(Logged(p, q), Logged(q, r), depth);
  }

  /** Turn `i` of a drain that has left `p` so far: the connection has `close` set when its handler starts, and
      nothing else has changed. */
  ghost predicate Turn(p: Pool, e: Called, handlers: Handlers, i: nat) {
    && e.c < |p.conns|
    && e.before == p.(conns := p.conns[e.c := p.conns[e.c].(close := true)], log := e.before.log)
    && e.after == if i < |handlers.scripts| then Ran(e.before, handlers.scripts[i], e.depth + 1) else e.before
  }

  /** One handler call is one entry at its own depth. */
  lemma HandledLogs(p: Pool, c: nat, handlers: Handlers, i: nat, depth: nat) returns (e: Called)
    requires c < |p.conns|
    ensures var q := Handled(p, c, handlers, i, depth);
      && p.log <= q.log && Own(Logged(p, q), depth) == [e] && q == e.after.(log := q.log)
      && e.depth == depth && e.c == c && Turn(p, e, handlers, i)
  {
    hide Good, Ran;
    var a, q := Asked(p, c), Handled(p, c, handlers, i, depth);
    var b := if i < |handlers.scripts| then Ran(a, handlers.scripts[i], depth + 1) else a;
    e := Called(depth, c, a, b);
    HandledFollows(p, c, handlers, i, depth);
    AskedFollows(p, c, depth);
    OneLogged(p, a, b, e);
  }

  lemma OneLogged(p: Pool, a: Pool, b: Pool, e: Called)
    requires a.log == p.log && Follows(a, b, e.depth + 1)
    ensures var q := Returned(b, e);
      p.log <= q.log && Own(Logged(p, q), e.depth) == [e] && q == b.(log := q.log)
  {
    hide Good;
    var q := Returned(b, e);
    LoggedJoin(p, b, q, e.depth);
    OwnDeeper(Logged(a, b), e.depth);
    assert Logged(b, q) == [e] && [e][..0] == [];
  }

  /** The pool before call `k` of a drain that started with `p`. */
  ghost function Until(p: Pool, calls: seq<Called>, k: nat): Pool
    requires k <= |calls|
  {
    if k == 0 then p else calls[k - 1].after
  }

  /** Between its calls a drain changes nothing but for the log. */
  ghost predicate Turns(p: Pool, calls: seq<Called>, q: Pool, handlers: Handlers, i: nat) {
    && (forall k | 0 <= k < |calls| :: Turn(Until(p, calls, k), calls[k], handlers, i + k))
    && q == Until(p, calls, |calls|).(log := q.log)
  }

  /** Every call is for the last of the queue, which was queued the longest ago. */
  ghost predicate AllLast(p: Pool, calls: seq<Called>) {
    forall k | 0 <= k < |calls| :: Oldest(Until(p, calls, k), calls[k].c)
  }

  ghost predicate Oldest(p: Pool, c: nat) {
    p.order != [] && c == p.order[|p.order| - 1] && LeastRecent(p.order, p.queuedAt, c)
  }

  lemma NoTurns(p: Pool, handlers: Handlers, i: nat, depth: nat)
    ensures Own(Logged(p, p), depth) == [] && Turns(p, [], p, handlers, i) && AllLast(p, [])
  {
  }

  /** One more call in front; the pool after it may have a longer log. */
  lemma TurnFirst(p: Pool, e: Called, q: Pool, calls: seq<Called>, r: Pool, handlers: Handlers, i: nat)
    requires Turn(p, e, handlers, i) && q == e.after.(log := q.log) && Oldest(p, e.c)
    requires Turns(q, calls, r, handlers, i + 1) && AllLast(q, calls)
    ensures Turns(p, [e] + calls, r, handlers, i) && AllLast(p, [e] + calls)
  {
    hide Turn, Oldest;
    var all := [e] + calls;
    forall k | 0 <= k < |all|
      ensures Turn(Until(p, all, k), all[k], handlers, i + k) && Oldest(Until(p, all, k), all[k].c)
    {
      if k == 1 {
        var u := Until(q, calls, 0);
        assert Turn(u, calls[0], handlers, i + 1 + 0) && Oldest(u, calls[0].c);
        TurnLog(q, e.after, calls[0], handlers, i + 1);
      } else if k > 1 {
        assert Turn(Until(q, calls, k - 1), calls[k - 1], handlers, i + 1 + (k - 1));
        assert Oldest(Until(q, calls, k - 1), calls[k - 1].c);
      }
    }
  }

  /** A turn does not look at the log. */
  lemma TurnLog(p: Pool, q: Pool, e: Called, handlers: Handlers, i: nat)
    requires p == q.(log := p.log)
    ensures Turn(p, e, handlers, i) ==> Turn(q, e, handlers, i)
    ensures Oldest(p, e.c) ==> Oldest(q, e.c)
  {
  }

  /** One more call behind. */
  lemma TurnLast(p: Pool, calls: seq<Called>, q: Pool, e: Called, r: Pool, handlers: Handlers, i: nat)
    requires Turns(p, calls, q, handlers, i) && Turn(q, e, handlers, i + |calls|) && r == e.after.(log := r.log)
    ensures Turns(p, calls + [e], r, handlers, i)
  {
    hide Turn;
    var all := calls + [e];
    forall k | 0 <= k < |all|
      ensures Turn(Until(p, all, k), all[k], handlers, i + k)
    {
      assert Until(p, all, k) == Until(p, calls, k);
      if k < |calls| {
        assert Turn(Until(p, calls, k), calls[k], handlers, i + k);
      } else {
        TurnLog(q, Until(p, calls, k), e, handlers, i + k);
      }
    }
  }

  /** The loop of a drain calls the least recently queued connection, `n - i` times unless the queue is empty
      before. */
  lemma {:induction false} DrainsCalls(p: Pool, handlers: Handlers, i: nat, n: nat, last: Option<nat>, depth: nat)
    requires Good(p) && i <= n
    ensures var (q, l) := Drains(p, handlers, i, n, last, depth);
      var calls := Own(Logged(p, q), depth);
      && Good(q) && p.log <= q.log && |calls| <= n - i && Turns(p, calls, q, handlers, i) && AllLast(p, calls)
      && l == (if calls == [] then last else Some(calls[|calls| - 1].c))
      && (|calls| < n - i ==> q.order == []) && (calls == [] <==> i == n || p.order == [])
    decreases n - i
  {
    hide Good, ByRecency, LeastRecent, Handled, Own, AllLast, Turns, Turn, Oldest;
    if i == n || p.order == [] {
      NoTurns(p, handlers, i, depth);
    } else {
      var c := p.order[|p.order| - 1];
      var q := Handled(p, c, handlers, i, depth);
      var r := Drains(q, handlers, i + 1, n, Some(c), depth).0;
      GoodLast(p);
      HandledFollows(p, c, handlers, i, depth);
      var e := HandledLogs(p, c, handlers, i, depth);
      DrainsCalls(q, handlers, i + 1, n, Some(c), depth);
      LoggedJoin(p, q, r, depth);
      TurnFirst(p, e, q, Own(Logged(q, r), depth), r, handlers, i);
    }
  }

  lemma GoodLast(p: Pool)
    requires Good(p) && p.order != []
    ensures p.order[|p.order| - 1] < |p.conns| && Oldest(p, p.order[|p.order| - 1])
  {
    LastIsLeast(p.order, p.queuedAt, p.clock);
  }

  /** How many calls a drain makes: with `limit` in the loop unless the queue became empty, and one more, for the
      connection called last, if then nothing is free and that connection is queued again. */
  ghost predicate Numbered(calls: seq<Called>, limit: nat)
    requires limit > 0
  {
    && |calls| <= limit + 1
    && (0 < |calls| < limit ==> calls[|calls| - 1].after.order == [])
    && (|calls| > limit <==>
          |calls| >= limit && calls[limit - 1].after.free == [] && calls[limit - 1].c in calls[limit - 1].after.order)
    && (|calls| > limit ==> calls[limit].c == calls[limit - 1].c)
  }

  /** The calls that one drain makes itself: none if enough connections are free or none is queued. */
  lemma DrainCalls(p: Pool, handlers: Handlers, depth: nat)
    requires Good(p)
    ensures var q := Drained(p, handlers, depth);
      var calls, limit := Own(Logged(p, q), depth), DrainLimit(|p.order|);
      && Good(q) && p.log <= q.log && Turns(p, calls, q, handlers, 0) && Numbered(calls, limit)
      && AllLast(p, if |calls| <= limit then calls else calls[..limit]) && (calls == [] <==> NoDrain(p))
  {
    hide Good, ByRecency, LeastRecent, Handled, AllLast, Numbered, Turns, Turn, Again, Own, Drains,
         Logged, Oldest;
    SameLog(p);
    if NoDrain(p) {
      NoTurns(p, handlers, 0, depth);
      NoneNumbered(DrainLimit(|p.order|));
    } else {
      var n := DrainLimit(|p.order|);
      var (q, last) := Drains(p, handlers, 0, n, None, depth);
      DrainsCalls(p, handlers, 0, n, None, depth);
      var calls := Own(Logged(p, q), depth);
      AgainIff(p, calls, q, last, handlers, n);
      if Again(q, last) {
        var r := Handled(q, last.value, handlers, n, depth);
        HandledFollows(q, last.value, handlers, n, depth);
        var e := HandledLogs(q, last.value, handlers, n, depth);
        LoggedJoin(p, q, r, depth);
        TurnLast(p, calls, q, e, r, handlers, 0);
        OneAgain(calls, e);
      }
    }
  }

  lemma SameLog(p: Pool)
    ensures Logged(p, p) == []
  {
  }

  lemma NoneNumbered(limit: nat)
    requires limit > 0
    ensures Numbered([], limit)
  {
  }

  /** A repetition needs the loop to have made all its calls. */
  lemma AgainIff(p: Pool, calls: seq<Called>, q: Pool, last: Option<nat>, handlers: Handlers, n: nat)
    requires Good(q) && n > 0 && 0 < |calls| <= n && last == Some(calls[|calls| - 1].c)
    requires Turns(p, calls, q, handlers, 0) && (|calls| < n ==> q.order == [])
    ensures if Again(q, last) then |calls| == n && last.value < |q.conns|
            else Numbered(calls, n)
    ensures Again(q, last) ==> forall e: Called | e.c == last.value :: Numbered(calls + [e], n)
  {
    hide Turn, ByRecency;
    assert q.order == calls[|calls| - 1].after.order && q.free == calls[|calls| - 1].after.free;
    QueuedOnce(q, last);
    if Again(q, last) {
      forall e: Called | e.c == last.value
        ensures Numbered(calls + [e], n)
      {
        assert (calls + [e])[n] == e && (calls + [e])[n - 1] == calls[n - 1];
      }
    }
  }

  lemma QueuedOnce(q: Pool, last: Option<nat>)
    requires Good(q) && last.Some?
    ensures Again(q, last) <==> q.free == [] && last.value in q.order
    ensures Again(q, last) ==> last.value < |q.conns|
  {
  }

  lemma OneAgain(calls: seq<Called>, e: Called)
    ensures (calls + [e])[..|calls|] == calls
  {
  }

  /** The pools before the calls of a drain, and the one after the last. */
  ghost function Pools(p: Pool, calls: seq<Called>): (ps: seq<Pool>)
    ensures |ps| == |calls| + 1 && ps[0] == p && forall k | 0 <= k < |calls| :: ps[k + 1] == calls[k].after
  {
    seq(|calls| + 1, k requires 0 <= k <= |calls| => Until(p, calls, k))
  }

  /** The same, field by field and in numbers. */
  lemma DrainLaw(p: Pool, handlers: Handlers, depth: nat, q: Pool, calls: seq<Called>, ps: seq<Pool>, limit: nat)
    requires Good(p) && q == Drained(p, handlers, depth) && p.log <= q.log && calls == Own(q.log[|p.log|..], depth)
    requires limit == if |p.order| < 16 then 1 else if |p.order| < 256 then |p.order| / 8 else 32
    requires ps == Pools(p, calls)
    ensures calls == [] <==> |p.free| > |p.conns| / 16 || |p.order| == 0
    ensures |calls| <= limit + 1
    ensures 0 < |calls| < limit ==> ps[|calls|].order == []
    ensures |calls| > limit <==> |calls| >= limit && ps[limit].free == [] && calls[limit - 1].c in ps[limit].order
    ensures |calls| > limit ==> calls[limit].c == calls[limit - 1].c
    ensures forall k | 0 <= k < |calls| && k < limit ::
      ps[k].order != [] && calls[k].c == ps[k].order[|ps[k].order| - 1]
      && LeastRecent(ps[k].order, ps[k].queuedAt, calls[k].c)
    ensures q == ps[|calls|].(log := q.log)
    ensures forall k | 0 <= k < |calls| :: calls[k].depth == depth && Turn(ps[k], calls[k], handlers, k)
  {
    hide Good, Drained, Own, AllLast, Turns, Turn, Pools, Oldest, Numbered, LeastRecent, DrainLimit, Logged, Until;
    LimitIs(|p.order|);
    assert Logged(p, q) == q.log[|p.log|..] by { LoggedIs(p, q); }
    DrainCalls(p, handlers, depth);
    NumberIs(p, calls, limit);
    OwnDepth(Logged(p, q), depth);
    TurnsAre(p, calls, q, handlers);
    LastAre(p, calls, limit);
    forall k | 0 <= k < |calls| && k < limit
      ensures ps[k].order != [] && calls[k].c == ps[k].order[|ps[k].order| - 1]
      ensures LeastRecent(ps[k].order, ps[k].queuedAt, calls[k].c)
    {
      OldestIs(ps[k], calls[k].c);
    }
  }

  lemma OldestIs(p: Pool, c: nat)
    requires Oldest(p, c)
    ensures p.order != [] && c == p.order[|p.order| - 1] && LeastRecent(p.order, p.queuedAt, c)
  {
  }

  lemma LimitIs(r: nat)
    ensures DrainLimit(r) == if r < 16 then 1 else if r < 256 then r / 8 else 32
  {
  }

  lemma LoggedIs(p: Pool, q: Pool)
    requires p.log <= q.log
    ensures Logged(p, q) == q.log[|p.log|..]
  {
  }

  lemma NumberIs(p: Pool, calls: seq<Called>, limit: nat)
    requires limit > 0 && Numbered(calls, limit)
    ensures |calls| <= limit + 1
    ensures 0 < |calls| < limit ==> Pools(p, calls)[|calls|].order == []
    ensures |calls| > limit <==>
      |calls| >= limit && Pools(p, calls)[limit].free == [] && calls[limit - 1].c in Pools(p, calls)[limit].order
    ensures |calls| > limit ==> calls[limit].c == calls[limit - 1].c
  {
    var ps := Pools(p, calls);
    assert |calls| > 0 ==> ps[|calls|] == calls[|calls| - 1].after;
    assert |calls| >= limit ==> ps[limit] == calls[limit - 1].after;
  }

  lemma DrainKeepsLog(p: Pool, handlers: Handlers, depth: nat)
    ensures p.log <= Drained(p, handlers, depth).log
  {
    hide Good, Drained;
    DrainedFollows(p, handlers, depth);
  }

  lemma {:induction false} OwnDepth(log: seq<Called>, depth: nat)
    ensures forall k | 0 <= k < |Own(log, depth)| :: Own(log, depth)[k].depth == depth
  {
    if log != [] {
      OwnDepth(log[..|log| - 1], depth);
    }
  }

  lemma TurnsAre(p: Pool, calls: seq<Called>, q: Pool, handlers: Handlers)
    requires Turns(p, calls, q, handlers, 0)
    ensures q == Pools(p, calls)[|calls|].(log := q.log)
    ensures forall k | 0 <= k < |calls| :: Turn(Pools(p, calls)[k], calls[k], handlers, k)
  {
    hide Turn, Turns, Until, Pools;
    PoolAt(p, calls, |calls|);
    TurnsEnd(p, calls, q, handlers);
    forall k | 0 <= k < |calls|
      ensures Turn(Pools(p, calls)[k], calls[k], handlers, k)
    {
      PoolAt(p, calls, k);
      TurnAt(p, calls, q, handlers, k);
    }
  }

  lemma PoolAt(p: Pool, calls: seq<Called>, k: nat)
    requires k <= |calls|
    ensures Pools(p, calls)[k] == Until(p, calls, k)
  {
  }

  lemma TurnsEnd(p: Pool, calls: seq<Called>, q: Pool, handlers: Handlers)
    requires Turns(p, calls, q, handlers, 0)
    ensures q == Until(p, calls, |calls|).(log := q.log)
  {
  }

  lemma TurnAt(p: Pool, calls: seq<Called>, q: Pool, handlers: Handlers, k: nat)
    requires Turns(p, calls, q, handlers, 0) && k < |calls|
    ensures Turn(Until(p, calls, k), calls[k], handlers, k)
  {
    hide Turn;
    assert 0 + k == k;
  }

  lemma LastAre(p: Pool, calls: seq<Called>, limit: nat)
    requires AllLast(p, if |calls| <= limit then calls else calls[..limit])
    ensures forall k | 0 <= k < |calls| && k < limit :: Oldest(Pools(p, calls)[k], calls[k].c)
  {
    hide Oldest;
    var loop := if |calls| <= limit then calls else calls[..limit];
    forall k | 0 <= k < |calls| && k < limit
      ensures Oldest(Pools(p, calls)[k], calls[k].c)
    {
      assert Oldest(Until(p, loop, k), loop[k].c);
      assert Until(p, loop, k) == Pools(p, calls)[k];
    }
  }

  lemma TurnIs(p: Pool, e: Called, handlers: Handlers, i: nat)
    requires Turn(p, e, handlers, i)
    ensures e.c < |p.conns| && |e.before.conns| == |p.conns|
    ensures e.before == p.(conns := e.before.conns, log := e.before.log)
    ensures e.before.conns == p.conns[e.c := e.before.conns[e.c]] && e.before.conns[e.c].close
    ensures e.before.conns[e.c] == p.conns[e.c].(close := e.before.conns[e.c].close)
    ensures e.after == if i < |handlers.scripts| then Ran(e.before, handlers.scripts[i], e.depth + 1) else e.before
  {
    hide Ran;
  }
}
