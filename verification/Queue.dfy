/** The doubly linked ring of ngx_queue.h; nodes are numbers and the last node is the head of the queue. */
module Queue {

  ghost predicate Distinct<T(!new)>(s: seq<T>) {
    forall i, j | 0 <= i < j < |s| :: s[i] != s[j]
  }

  /** Node `i` of the ring whose members are `order`: the head comes before the first and after the last. */
  function Node(order: seq<nat>, head: nat, i: nat): nat
    requires i <= |order| + 1
  {
    if i == 0 || i == |order| + 1 then head else order[i - 1]
  }

  ghost predicate Members(order: seq<nat>, head: nat) {
    Distinct(order) && forall i | 0 <= i < |order| :: order[i] < head
  }

  ghost predicate Ring(next: seq<nat>, prev: seq<nat>, head: nat, order: seq<nat>) {
    && |next| == |prev| == head + 1
    && Members(order, head)
    && forall i | 0 <= i <= |order| ::
         && next[Node(order, head, i)] == Node(order, head, i + 1)
         && prev[Node(order, head, i + 1)] == Node(order, head, i)
  }

  lemma NodesInRange(order: seq<nat>, head: nat, i: nat)
    requires Members(order, head) && i <= |order| + 1
    ensures Node(order, head, i) <= head
  {
  }

  lemma NodesDiffer(order: seq<nat>, head: nat, i: nat, j: nat)
    requires Members(order, head) && i <= |order| && j <= |order| && i != j
    ensures Node(order, head, i) != Node(order, head, j)
  {
  }

  lemma RingAt(next: seq<nat>, prev: seq<nat>, head: nat, order: seq<nat>, i: nat)
    requires Ring(next, prev, head, order) && i <= |order|
    ensures next[Node(order, head, i)] == Node(order, head, i + 1)
    ensures prev[Node(order, head, i + 1)] == Node(order, head, i)
  {
  }

  /** Linking a new node in behind the head. */
  lemma InsertedHead(next: seq<nat>, prev: seq<nat>, head: nat, order: seq<nat>, x: nat)
    requires Ring(next, prev, head, order) && x < head && x !in order
    ensures next[head] <= head
    ensures Ring(next[x := next[head]][head := x], prev[next[head] := x][x := head], head, [x] + order)
  {
    hide Ring;
    RingAt(next, prev, head, order, 0);
    RingShape(next, prev, head, order);
    var o := [x] + order;
    var n, p := next[x := next[head]][head := x], prev[next[head] := x][x := head];
    MembersCons(order, head, x);
    forall i: nat | i <= |o|
      ensures n[Node(o, head, i)] == Node(o, head, i + 1) && p[Node(o, head, i + 1)] == Node(o, head, i)
    {
      if i >= 1 {
        RingAt(next, prev, head, order, i - 1);
        assert Node(o, head, i + 1) == Node(order, head, i);
        if i >= 2 {
          assert Node(o, head, i) == Node(order, head, i - 1);
          NodesDiffer(order, head, i - 1, 0);
          if i <= |order| {
            NodesDiffer(order, head, i, 1);
          }
        }
      }
    }
    RingFrom(n, p, head, o);
  }

  lemma RingShape(next: seq<nat>, prev: seq<nat>, head: nat, order: seq<nat>)
    requires Ring(next, prev, head, order)
    ensures |next| == |prev| == head + 1 && Members(order, head)
  {
  }

  lemma RingFrom(next: seq<nat>, prev: seq<nat>, head: nat, order: seq<nat>)
    requires |next| == |prev| == head + 1 && Members(order, head)
    requires forall i: nat | i <= |order| ::
      next[Node(order, head, i)] == Node(order, head, i + 1) && prev[Node(order, head, i + 1)] == Node(order, head, i)
    ensures Ring(next, prev, head, order)
  {
  }

  lemma MembersCons(order: seq<nat>, head: nat, x: nat)
    requires Members(order, head) && x < head && x !in order
    ensures Members([x] + order, head)
  {
  }

  function Without(order: seq<nat>, k: nat): seq<nat>
    requires k < |order|
  {
    order[..k] + order[k + 1..]
  }

  /** The queue without `x`, the others in their order. */
  function Minus(order: seq<nat>, x: nat): seq<nat> {
    if order == [] then []
    else if order[0] == x then order[1..]
    else [order[0]] + Minus(order[1..], x)
  }

  lemma {:induction false} MinusAbsent(order: seq<nat>, x: nat)
    requires x !in order
    ensures Minus(order, x) == order
  {
    if order != [] {
      assert order == [order[0]] + order[1..];
      MinusAbsent(order[1..], x);
    }
  }

  lemma {:induction false} WithoutIsMinus(order: seq<nat>, head: nat, k: nat)
    requires Members(order, head) && k < |order|
    ensures Without(order, k) == Minus(order, order[k])
    decreases k
  {
    hide Members;
    if k == 0 {
      assert order[..0] + order[1..] == order[1..];
    } else {
      RestMembers(order, head, k);
      WithoutIsMinus(order[1..], head, k - 1);
      assert Without(order, k) == [order[0]] + Without(order[1..], k - 1);
    }
  }

  lemma RestMembers(order: seq<nat>, head: nat, k: nat)
    requires Members(order, head) && 0 < k < |order|
    ensures Members(order[1..], head) && order[0] != order[k]
  {
    assert forall i | 0 <= i < |order| - 1 :: order[1..][i] == order[i + 1];
  }

  lemma WithoutNode(order: seq<nat>, head: nat, k: nat, i: nat)
    requires k < |order| && i <= |order|
    ensures Node(Without(order, k), head, i) == if i <= k then Node(order, head, i) else Node(order, head, i + 1)
  {
  }

  /** Unlinking the node at position `k`. */
  lemma Removed(next: seq<nat>, prev: seq<nat>, head: nat, order: seq<nat>, k: nat)
    requires Ring(next, prev, head, order) && k < |order|
    ensures var x := order[k];
      && x < head && next[x] <= head && prev[x] <= head
      && Ring(next[prev[x] := next[x]], prev[next[x] := prev[x]], head, Without(order, k))
  {
    hide Ring, Node, Without;
    var x, o := order[k], Without(order, k);
    RingShape(next, prev, head, order);
    RingAt(next, prev, head, order, k);
    RingAt(next, prev, head, order, k + 1);
    assert Node(order, head, k + 1) == x by { InnerNode(order, head, k); }
    NodesInRange(order, head, k);
    NodesInRange(order, head, k + 2);
    var n, p := next[prev[x] := next[x]], prev[next[x] := prev[x]];
    WithoutMembers(order, head, k);
    forall i: nat | i <= |o| + 1
      ensures Node(o, head, i) <= head
    {
      NodesInRange(o, head, i);
    }
    forall i: nat | i <= |o|
      ensures n[Node(o, head, i)] == Node(o, head, i + 1) && p[Node(o, head, i + 1)] == Node(o, head, i)
    {
      RemovedAt(next, prev, head, order, k, i);
    }
    RingFrom(n, p, head, o);
  }

  lemma InnerNode(order: seq<nat>, head: nat, k: nat)
    requires k < |order|
    ensures Node(order, head, k + 1) == order[k]
  {
  }

  lemma WithoutMembers(order: seq<nat>, head: nat, k: nat)
    requires Members(order, head) && k < |order|
    ensures Members(Without(order, k), head) && |Without(order, k)| == |order| - 1
    ensures forall y :: y in Without(order, k) <==> y in order && y != order[k]
  {
    var o := Without(order, k);
    forall y | y in order && y != order[k]
      ensures y in o
    {
      var i :| 0 <= i < |order| && order[i] == y;
      assert y == o[if i < k then i else i - 1];
    }
  }

  lemma RemovedAt(next: seq<nat>, prev: seq<nat>, head: nat, order: seq<nat>, k: nat, i: nat)
    requires Ring(next, prev, head, order) && k < |order| && i < |order|
    ensures var o, a, b := Without(order, k), Node(order, head, k), Node(order, head, k + 2);
      && |o| == |order| - 1 && a <= head && b <= head
      && Node(o, head, i) <= head && Node(o, head, i + 1) <= head
      && next[a := b][Node(o, head, i)] == Node(o, head, i + 1)
      && prev[b := a][Node(o, head, i + 1)] == Node(o, head, i)
  {
    hide Ring, Node, Without;
    RingShape(next, prev, head, order);
    WithoutMembers(order, head, k);
    NodesInRange(order, head, k);
    NodesInRange(order, head, k + 2);
    WithoutNode(order, head, k, i);
    WithoutNode(order, head, k, i + 1);
    if i < k {
      RingAt(next, prev, head, order, i);
      NodesDiffer(order, head, i, k);
      NodesInRange(order, head, i);
      NodesInRange(order, head, i + 1);
      LinksDiffer(order, head, i + 1, k + 2);
    } else if i > k {
      RingAt(next, prev, head, order, i + 1);
      NodesDiffer(order, head, i + 1, k);
      NodesInRange(order, head, i + 1);
      NodesInRange(order, head, i + 2);
      LinksDiffer(order, head, i + 2, k + 2);
    }
  }

  /** Nodes other than the first differ too. */
  lemma LinksDiffer(order: seq<nat>, head: nat, i: nat, j: nat)
    requires Members(order, head) && 1 <= i <= |order| + 1 && 1 <= j <= |order| + 1 && i != j
    ensures Node(order, head, i) != Node(order, head, j)
  {
  }

  /** `ngx_queue_t` nodes 0 to `head`; node `head` is the queue itself. */
  class Links {
    const next: array<nat>
    const prev: array<nat>
    const head: nat
    /** The queued nodes, from the head on. */
    ghost var order: seq<nat>

    ghost predicate Valid()
      reads this, next, prev
    {
      next != prev && Ring(next[..], prev[..], head, order)
    }

    /** `ngx_queue_init`. */
    constructor (head: nat)
      ensures Valid() && order == [] && this.head == head && fresh(next) && fresh(prev)
    {
      this.head := head;
      next := new nat[head + 1];
      prev := new nat[head + 1];
      order := [];
      new;
      next[head] := head;
      prev[head] := head;
    }

    /** `ngx_queue_empty`. */
    method Empty() returns (b: bool)
      requires Valid()
      ensures b <==> order == []
    {
      RingAt(next[..], prev[..], head, order, |order|);
      b := head == prev[head];
    }

    /** `ngx_queue_last`. */
    method Last() returns (x: nat)
      requires Valid() && order != []
      ensures x == order[|order| - 1] && x < head
    {
      RingAt(next[..], prev[..], head, order, |order|);
      x := prev[head];
    }

    /** `ngx_queue_insert_head`. */
    method InsertHead(x: nat)
      requires Valid() && x < head && x !in order
      modifies this`order, next, prev
      ensures Valid() && order == [x] + old(order)
    {
      hide Ring;
      ghost var n: seq<nat>, p: seq<nat> := next[..], prev[..];
      RingShape(n, p, head, order);
      InsertedHead(n, p, head, order, x);
      next[x] := next[head];
      prev[next[x]] := x;
      prev[x] := head;
      next[head] := x;
      ghost var n1: seq<nat>, p1: seq<nat> := n[x := n[head]], p[n[head] := x];
      assert next[..] == n1[head := x] && prev[..] == p1[x := head];
      order := [x] + order;
    }

    /** `ngx_queue_remove`. */
    method Remove(x: nat)
      requires Valid() && x in order
      modifies this`order, next, prev
      ensures Valid()
      ensures order == Minus(old(order), x)
      ensures |order| == |old(order)| - 1 && forall y :: y in order <==> y in old(order) && y != x
    {
      hide Ring, Without, Minus;
      ghost var n: seq<nat>, p: seq<nat> := next[..], prev[..];
      RingShape(n, p, head, order);
      ghost var k :| 0 <= k < |order| && order[k] == x;
      Removed(n, p, head, order, k);
      WithoutMembers(order, head, k);
      prev[next[x]] := prev[x];
      next[prev[x]] := next[x];
      assert prev[..] == p[n[x] := p[x]];
      PrevOfRemoved(n, p, head, order, k);
      assert next[..] == n[p[x] := n[x]];
      WithoutIsMinus(order, head, k);
      order := Without(order, k);
    }
  }

  /** Unlinking does not touch the removed node's own links. */
  lemma PrevOfRemoved(next: seq<nat>, prev: seq<nat>, head: nat, order: seq<nat>, k: nat)
    requires Ring(next, prev, head, order) && k < |order|
    ensures order[k] < head && next[order[k]] <= head && next[order[k]] != order[k]
  {
    RingAt(next, prev, head, order, k + 1);
    NodesInRange(order, head, k + 2);
    LinksDiffer(order, head, k + 1, k + 2);
  }
}
