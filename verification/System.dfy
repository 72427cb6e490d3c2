/** The system that a program asks for memory, descriptors and data. */
module System {
  import opened Bytes

  /** A number above all of these. */
  lemma Above(taken: set<int>) returns (n: int)
    ensures n >= 0 && forall s | s in taken :: s < n
    decreases |taken|
  {
    if s :| s in taken {
      var rest := taken - {s};
      var m := Above(rest);
      n := if s < m then m else s + 1;
      assert forall t | t in taken :: t == s || t in rest;
    } else {
      n := 0;
    }
  }

  /** Is one of the requests `from` to before `to` refused? */
  ghost predicate RefusedIn(grants: nat -> Option<nat>, from: nat, to: nat) {
    exists k | from <= k < to :: grants(k) == None
  }

  lemma RefusedSplit(grants: nat -> Option<nat>, from: nat, mid: nat, to: nat)
    requires from <= mid <= to
    ensures RefusedIn(grants, from, to) <==> RefusedIn(grants, from, mid) || RefusedIn(grants, mid, to)
  {
  }

  lemma RefusedOne(grants: nat -> Option<nat>, k: nat)
    ensures !RefusedIn(grants, k, k) && (RefusedIn(grants, k, k + 1) <==> grants(k) == None)
  {
  }

  /** `grants(k)` is the answer to the request that comes after `k` others: `None` when it is refused, else a number
      that may serve as an address. */
  class Requests {
    const grants: nat -> Option<nat>
    var asked: nat

    constructor (grants: nat -> Option<nat>)
      ensures this.grants == grants && asked == 0
    {
      this.grants, asked := grants, 0;
    }

    method Ask() returns (r: Option<nat>)
      modifies this
      ensures asked == old(asked) + 1 && r == grants(old(asked))
    {
      r := grants(asked);
      asked := asked + 1;
    }

    /** Was a request refused since there were `from`? */
    ghost predicate Refused(from: nat)
      reads this
    {
      RefusedIn(grants, from, asked)
    }

    /** The last request was refused. */
    lemma RefusedNow(from: nat)
      ensures from < asked && grants(asked - 1) == None ==> Refused(from)
    {
    }

    lemma RefusedEarlier(from: nat, mid: nat)
      ensures from <= mid && Refused(mid) ==> Refused(from)
    {
    }
  }
}
