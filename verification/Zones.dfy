/** Shared-memory zones across a reload (ngx_cycle.c): a zone of the new configuration takes over the
    segment of an equal old zone or gets a new one; commit and rollback free the rest. */
module Zones {
  import opened Bytes
  import opened System

  const NULL: nat := 0
  /** What `mmap` leaves in the address when it fails. */
  const MAP_FAILED: nat := 0xffff_ffff_ffff_ffff

  datatype Zone = Zone(name: Str, tag: nat, size: nat, noreuse: bool, addr: nat)

  ghost predicate UniqueNames(zs: seq<Zone>) {
    forall i, j | 0 <= i < j < |zs| :: zs[i].name != zs[j].name
  }

  predicate IsSegment(a: nat) {
    a != NULL && a != MAP_FAILED
  }

  /** The mapped segments, and how often each address was unmapped. */
  class Segments {
    const system: Requests
    var mapped: set<nat>
    ghost var freed: multiset<nat>

    constructor (system: Requests)
      ensures mapped == {} && freed == multiset{} && this.system == system
    {
      this.system, mapped, freed := system, {}, multiset{};
    }

    /** `ngx_shm_alloc`: an address where nothing is mapped, unless the system refuses. */
    method Alloc() returns (a: nat)
      modifies this`mapped, system
      ensures system.asked == old(system.asked) + 1
      ensures if system.grants(old(system.asked)) == None then a == MAP_FAILED && mapped == old(mapped)
              else IsSegment(a) && a !in old(mapped) && mapped == old(mapped) + {a}
    {
      var r := system.Ask();
      if r == None {
        return MAP_FAILED;
      }
      ghost var free := Above(mapped);
      assert IsSegment(free + MAP_FAILED + 1) && free + MAP_FAILED + 1 !in mapped;
      a :| IsSegment(a) && a !in mapped;
      mapped := mapped + {a};
    }

    /** `ngx_shm_free`: unmapping what was never mapped only logs. */
    method Free(a: nat)
      requires a == MAP_FAILED || a in mapped
      modifies this`mapped, this`freed
      ensures a == MAP_FAILED ==> mapped == old(mapped) && freed == old(freed)
      ensures a != MAP_FAILED ==> mapped == old(mapped) - {a} && freed == old(freed) + multiset{a}
    {
      if a != MAP_FAILED {
        mapped := mapped - {a};
        freed := freed + multiset{a};
      }
    }
  }

  // ----- ngx_shared_memory_add ----------------------------------------------------------------------

  /** Adds a zone to the list of a configuration or finds it there; `None` when it is declared for
      another use or another size, or when a new zone cannot be pushed. Names stay unique. */
  method SharedMemoryAdd(zs: seq<Zone>, name: Str, size: nat, tag: nat, pushed: bool)
    returns (zs': seq<Zone>, r: Option<nat>)
    requires UniqueNames(zs)
    ensures UniqueNames(zs')
    ensures r.None? <==>
      || (!pushed && forall i | 0 <= i < |zs| :: zs[i].name != name)
      || exists i | 0 <= i < |zs| ::
           zs[i].name == name && (zs[i].tag != tag || (zs[i].size != 0 && size != 0 && zs[i].size != size))
    ensures r.None? ==> zs' == zs
    ensures r.Some? && (exists i | 0 <= i < |zs| :: zs[i].name == name) ==>
      && r.value < |zs| && zs[r.value].name == name
      && zs' == zs[r.value := zs[r.value].(size := if zs[r.value].size == 0 then size else zs[r.value].size)]
    ensures r.Some? && !(exists i | 0 <= i < |zs| :: zs[i].name == name) ==>
      r.value == |zs| && zs' == zs + [Zone(name, tag, size, false, NULL)]
  {
    zs' := zs;
    for i := 0 to |zs|
      invariant zs' == zs
      invariant forall j | 0 <= j < i :: zs[j].name != name
    {
      if name != zs[i].name {
        continue;
      }
      if tag != zs[i].tag {
        return zs', None;
      }
      if zs[i].size == 0 {
        zs' := zs[i := zs[i].(size := size)];
      }
      if size != 0 && size != zs'[i].size {
        return zs', None;
      }
      return zs', Some(i);
    }
    if !pushed {
      return zs', None;
    }
    zs' := zs + [Zone(name, tag, size, false, NULL)];
    r := Some(|zs|);
  }

  // ----- The reuse decision ---------------------------------------------------------------------------

  predicate SameZone(a: Zone, b: Zone) {
    a.name == b.name && a.tag == b.tag && a.size == b.size
  }

  /** The forward and the rollback decision: some old zone is equal and the new one may reuse it. */
  ghost predicate Reuses(z: Zone, old_: seq<Zone>) {
    !z.noreuse && exists o | o in old_ :: SameZone(z, o)
  }

  /** The decision at commit, which asks the old zone. */
  ghost predicate StaysLive(o: Zone, new_: seq<Zone>) {
    !o.noreuse && exists z | z in new_ :: SameZone(o, z)
  }

  /** The name search of the three loops: the first zone of that name. */
  method FindName(zs: seq<Zone>, name: Str) returns (n: int)
    ensures -1 <= n < |zs|
    ensures n == -1 ==> forall j | 0 <= j < |zs| :: zs[j].name != name
    ensures n >= 0 ==> zs[n].name == name && forall j | 0 <= j < n :: zs[j].name != name
  {
    for i := 0 to |zs|
      invariant forall j | 0 <= j < i :: zs[j].name != name
    {
      if zs[i].name == name {
        return i;
      }
    }
    n := -1;
  }

  /** Names being unique, the first zone of the name is the only one that can be equal. */
  lemma OnlyByName(zs: seq<Zone>, n: int, z: Zone)
    requires UniqueNames(zs) && -1 <= n < |zs|
    requires n == -1 ==> forall j | 0 <= j < |zs| :: zs[j].name != z.name
    requires n >= 0 ==> zs[n].name == z.name
    ensures (exists o | o in zs :: SameZone(z, o)) <==> n >= 0 && SameZone(z, zs[n])
  {
    if o :| o in zs && SameZone(z, o) {
      var j :| 0 <= j < |zs| && zs[j] == o;
      assert n >= 0 && j == n;
    }
    if n >= 0 && SameZone(z, zs[n]) {
      assert zs[n] in zs;
    }
  }

  /** The old zones own distinct mapped segments and nothing else is mapped. */
  ghost predicate Owns(zs: seq<Zone>, mapped: set<nat>) {
    && UniqueNames(zs)
    && (forall z | z in zs :: IsSegment(z.addr) && z.addr in mapped)
    && (forall i, j | 0 <= i < j < |zs| :: zs[i].addr != zs[j].addr)
    && forall a | a in mapped :: exists z | z in zs :: z.addr == a
  }

  /** The same zone but for its address. */
  predicate SameConfig(a: Zone, b: Zone) {
    a == b.(addr := a.addr)
  }

  /** Zone `z` of the new cycle at some point of the forward loop or after it: untouched, reusing, or
      with a segment of its own that `base`, the old segments, does not contain. */
  ghost predicate Prepared(z: Zone, old_: seq<Zone>, base: set<nat>, mapped: set<nat>) {
    || z.addr == NULL
    || (Reuses(z, old_) && exists o | o in old_ :: SameZone(z, o) && z.addr == o.addr)
    || (!Reuses(z, old_) && (z.addr == MAP_FAILED || (z.addr in mapped && z.addr !in base)))
  }

  ghost predicate HasOwn(z: Zone, old_: seq<Zone>) {
    !Reuses(z, old_) && IsSegment(z.addr)
  }

  /** Beyond the old segments exactly those that zones from `k` on own are mapped, each by one zone. */
  ghost predicate Forward(zs: seq<Zone>, k: nat, old_: seq<Zone>, base: set<nat>, mapped: set<nat>) {
    && base <= mapped
    && (forall j | k <= j < |zs| :: Prepared(zs[j], old_, base, mapped))
    && (forall j, l | k <= j < l < |zs| && HasOwn(zs[j], old_) && HasOwn(zs[l], old_) :: zs[j].addr != zs[l].addr)
    && forall a | a in mapped && a !in base :: exists j | k <= j < |zs| :: HasOwn(zs[j], old_) && zs[j].addr == a
  }

  lemma ReusesConfig(a: Zone, b: Zone, old_: seq<Zone>)
    requires SameConfig(a, b)
    ensures Reuses(a, old_) <==> Reuses(b, old_)
  {
    assert forall o | o in old_ :: SameZone(a, o) <==> SameZone(b, o);
  }

  /** Giving zone `i` an address it is prepared with keeps the bookkeeping. */
  lemma ForwardStep(zs: seq<Zone>, i: nat, a: nat, old_: seq<Zone>, base: set<nat>, mapped: set<nat>, mapped': set<nat>)
    requires i < |zs| && zs[i].addr == NULL && Forward(zs, 0, old_, base, mapped)
    requires mapped <= mapped' && Prepared(zs[i].(addr := a), old_, base, mapped')
    requires if Reuses(zs[i], old_) || a == MAP_FAILED then mapped' == mapped
             else IsSegment(a) && a !in mapped && mapped' == mapped + {a}
    ensures Forward(zs[i := zs[i].(addr := a)], 0, old_, base, mapped')
  {
    hide Reuses;
    var z := zs[i].(addr := a);
    var zs' := zs[i := z];
    ReusesConfig(z, zs[i], old_);
    assert forall j | 0 <= j < |zs| && j != i :: zs'[j] == zs[j];
    assert forall j | 0 <= j < |zs| && HasOwn(zs[j], old_) :: zs[j].addr in mapped;
    forall b | b in mapped' && b !in base
      ensures exists j | 0 <= j < |zs'| :: HasOwn(zs'[j], old_) && zs'[j].addr == b
    {
      if b in mapped {
        var j :| 0 <= j < |zs| && HasOwn(zs[j], old_) && zs[j].addr == b;
        assert j != i && zs'[j] == zs[j];
      } else {
        assert zs'[i] == z && HasOwn(z, old_);
      }
    }
  }

  /** The loop over the zones of the new cycle; `inits[i]` tells whether the callbacks of zone `i`
      succeed. A segment of the old cycle is never unmapped here. */
  method InitZones(sm: Segments, old_: seq<Zone>, zs: seq<Zone>, inits: seq<bool>)
    returns (ok: bool, zs': seq<Zone>)
    requires Owns(old_, sm.mapped) && UniqueNames(zs) && forall z | z in zs :: z.addr == NULL
    requires |inits| == |zs|
    modifies sm, sm.system
    ensures old(sm.system.asked) <= sm.system.asked
    ensures |zs'| == |zs| && forall j | 0 <= j < |zs| :: SameConfig(zs'[j], zs[j])
    ensures Forward(zs', 0, old_, old(sm.mapped), sm.mapped) && sm.freed == old(sm.freed)
    ensures ok ==> forall z, o | z in zs' && o in old_ ::
      z.addr == o.addr <==> o.name == z.name && o.tag == z.tag && o.size == z.size && !z.noreuse
    ensures ok ==> forall z | z in zs' ::
      z.addr in sm.mapped && (z.addr in old(sm.mapped) ==> exists o | o in old_ :: o.addr == z.addr)
    ensures if ok then forall z | z in zs' :: IsSegment(z.addr) && z.size != 0
            else sm.system.Refused(old(sm.system.asked)) || exists j | 0 <= j < |zs| :: zs[j].size == 0 || !inits[j]
  {
    hide Reuses, Owns;
    zs' := zs;
    for i := 0 to |zs|
      invariant |zs'| == |zs| && forall j | 0 <= j < |zs| :: SameConfig(zs'[j], zs[j])
      invariant Forward(zs', 0, old_, old(sm.mapped), sm.mapped) && sm.freed == old(sm.freed)
      invariant forall j | 0 <= j < i :: IsSegment(zs'[j].addr) && zs'[j].size != 0
      invariant forall j | i <= j < |zs| :: zs'[j].addr == NULL
      invariant old(sm.system.asked) <= sm.system.asked
    {
      if zs'[i].size == 0 {
        return false, zs';
      }
      var fine;
      fine, zs' := InitZone(sm, old_, zs', i, inits[i], old(sm.mapped));
      if !fine {
        return false, zs';
      }
    }
    ok := true;
    AllInitialised(zs, zs', old_, old(sm.mapped), sm.mapped);
    Located(zs', old_, old(sm.mapped), sm.mapped);
  }

  lemma AllInitialised(zs: seq<Zone>, zs': seq<Zone>, old_: seq<Zone>, base: set<nat>, mapped: set<nat>)
    requires |zs'| == |zs| && forall j | 0 <= j < |zs| :: SameConfig(zs'[j], zs[j])
    requires UniqueNames(zs) && Owns(old_, base) && Forward(zs', 0, old_, base, mapped)
    requires forall j | 0 <= j < |zs'| :: IsSegment(zs'[j].addr)
    ensures Complete(zs', old_, base, mapped)
  {
  }

  /** One turn of that loop. */
  method InitZone(sm: Segments, old_: seq<Zone>, zs: seq<Zone>, i: nat, init: bool, ghost base: set<nat>)
    returns (ok: bool, zs': seq<Zone>)
    requires i < |zs| && zs[i].addr == NULL && Owns(old_, base)
    requires Forward(zs, 0, old_, base, sm.mapped)
    modifies sm, sm.system
    ensures old(sm.system.asked) <= sm.system.asked
    ensures exists a :: zs' == zs[i := zs[i].(addr := a)]
    ensures Forward(zs', 0, old_, base, sm.mapped) && sm.freed == old(sm.freed)
    ensures if ok then IsSegment(zs'[i].addr) else !init || sm.system.Refused(old(sm.system.asked))
  {
    ghost var mapped := sm.mapped;
    var n := FindName(old_, zs[i].name);
    OnlyByName(old_, n, zs[i]);
    if n >= 0 && SameZone(zs[i], old_[n]) && !zs[i].noreuse {
      zs' := zs[i := zs[i].(addr := old_[n].addr)];
      assert old_[n] in old_;
      ReusesConfig(zs'[i], zs[i], old_);
      assert SameZone(zs'[i], old_[n]);
      ForwardStep(zs, i, old_[n].addr, old_, base, mapped, sm.mapped);
      OldIsSegment(old_, n, base);
      return init, zs';
    }
    var a := sm.Alloc();
    zs' := zs[i := zs[i].(addr := a)];
    ReusesConfig(zs'[i], zs[i], old_);
    ForwardStep(zs, i, a, old_, base, mapped, sm.mapped);
    if a == MAP_FAILED {
      return false, zs';
    }
    ok := init;
  }

  lemma OldIsSegment(old_: seq<Zone>, n: int, base: set<nat>)
    requires Owns(old_, base) && 0 <= n < |old_|
    ensures IsSegment(old_[n].addr)
  {
    assert old_[n] in old_;
  }

  // ----- Rollback ---------------------------------------------------------------------------------------

  /** Frees the newly created segments: the mapping is the old one again, nothing of it was freed, and
      every new segment was freed once. */
  method RollbackZones(sm: Segments, old_: seq<Zone>, zs: seq<Zone>, ghost base: set<nat>)
    requires UniqueNames(old_) && Forward(zs, 0, old_, base, sm.mapped)
    modifies sm
    ensures sm.mapped == base
    ensures sm.freed == old(sm.freed) + multiset(old(sm.mapped) - base)
  {
    hide Reuses;
    for i := 0 to |zs|
      invariant Forward(zs, i, old_, base, sm.mapped) && sm.mapped <= old(sm.mapped)
      invariant sm.freed == old(sm.freed) + multiset(old(sm.mapped) - sm.mapped)
    {
      RollbackZone(sm, old_, zs, i, base, old(sm.mapped), old(sm.freed));
    }
    assert sm.mapped == base;
  }

  method RollbackZone(sm: Segments, old_: seq<Zone>, zs: seq<Zone>, i: nat,
                      ghost base: set<nat>, ghost first: set<nat>, ghost freed: multiset<nat>)
    requires i < |zs| && UniqueNames(old_) && Forward(zs, i, old_, base, sm.mapped) && sm.mapped <= first
    requires sm.freed == freed + multiset(first - sm.mapped)
    modifies sm
    ensures Forward(zs, i + 1, old_, base, sm.mapped) && sm.mapped <= first
    ensures sm.freed == freed + multiset(first - sm.mapped)
  {
    hide Reuses;
    ghost var mapped := sm.mapped;
    if zs[i].addr == NULL {
      ForwardDrop(zs, i, old_, base, mapped, sm.mapped);
      return;
    }
    var n := FindName(old_, zs[i].name);
    OnlyByName(old_, n, zs[i]);
    ReusesIff(zs[i], old_);
    if n >= 0 && SameZone(zs[i], old_[n]) && !zs[i].noreuse {
      ForwardDrop(zs, i, old_, base, mapped, sm.mapped);
      return;
    }
    sm.Free(zs[i].addr);
    assert mapped == sm.mapped || first - sm.mapped == (first - mapped) + {zs[i].addr};
    ForwardDrop(zs, i, old_, base, mapped, sm.mapped);
  }

  lemma ReusesIff(z: Zone, old_: seq<Zone>)
    ensures Reuses(z, old_) <==> !z.noreuse && exists o | o in old_ :: SameZone(z, o)
  {
  }

  /** Zone `i` is done with: its own segment, if any, is gone. */
  lemma ForwardDrop(zs: seq<Zone>, i: nat, old_: seq<Zone>, base: set<nat>, mapped: set<nat>, mapped': set<nat>)
    requires i < |zs| && Forward(zs, i, old_, base, mapped)
    requires mapped' == if HasOwn(zs[i], old_) then mapped - {zs[i].addr} else mapped
    ensures Forward(zs, i + 1, old_, base, mapped')
  {
    hide Reuses;
    forall j | i < j < |zs|
      ensures Prepared(zs[j], old_, base, mapped')
    {
      assert Prepared(zs[j], old_, base, mapped);
    }
    forall a | a in mapped' && a !in base
      ensures exists j | i < j < |zs| :: HasOwn(zs[j], old_) && zs[j].addr == a
    {
      var j :| i <= j < |zs| && HasOwn(zs[j], old_) && zs[j].addr == a;
      assert j != i;
    }
  }

  // ----- Commit -------------------------------------------------------------------------------------------

  ghost function Freed(old_: seq<Zone>, zs: seq<Zone>): set<nat> {
    set o | o in old_ && !StaysLive(o, zs) :: o.addr
  }

  lemma NoneFreed(old_: seq<Zone>, zs: seq<Zone>)
    ensures Freed(old_[..0], zs) == {}
  {
  }

  lemma FreedStep(old_: seq<Zone>, zs: seq<Zone>, base: set<nat>, i: nat)
    requires Owns(old_, base) && i < |old_|
    ensures Freed(old_[..i + 1], zs)
         == if StaysLive(old_[i], zs) then Freed(old_[..i], zs) else Freed(old_[..i], zs) + {old_[i].addr}
    ensures old_[i].addr in base && old_[i].addr !in Freed(old_[..i], zs)
  {
    hide StaysLive;
    assert old_[..i + 1] == old_[..i] + [old_[i]];
    assert old_[i] in old_;
    forall o | o in old_[..i]
      ensures o.addr != old_[i].addr
    {
      var j :| 0 <= j < i && old_[j] == o;
    }
  }

  lemma OneMore(m: set<nat>, f: set<nat>, a: nat)
    requires a !in f
    ensures m - (f + {a}) == (m - f) - {a}
    ensures multiset(f + {a}) == multiset(f) + multiset{a}
  {
  }

  /** Frees the old segments that do not stay live, each once, and nothing else. */
  method CommitZones(sm: Segments, old_: seq<Zone>, zs: seq<Zone>, ghost base: set<nat>)
    requires Owns(old_, base) && base <= sm.mapped && UniqueNames(zs)
    modifies sm
    ensures sm.mapped == old(sm.mapped) - Freed(old_, zs)
    ensures sm.freed == old(sm.freed) + multiset(Freed(old_, zs))
  {
    hide StaysLive, Owns, Freed;
    NoneFreed(old_, zs);
    for i := 0 to |old_|
      invariant sm.mapped == old(sm.mapped) - Freed(old_[..i], zs)
      invariant sm.freed == old(sm.freed) + multiset(Freed(old_[..i], zs))
    {
      var n := FindName(zs, old_[i].name);
      OnlyByName(zs, n, old_[i]);
      StaysIff(old_[i], zs);
      FreedStep(old_, zs, base, i);
      if !(n >= 0 && SameZone(old_[i], zs[n]) && !old_[i].noreuse) {
        OldIsSegment(old_, i, base);
        OneMore(old(sm.mapped), Freed(old_[..i], zs), old_[i].addr);
        ghost var freed := Freed(old_[..i], zs);
        sm.Free(old_[i].addr);
        assert sm.freed == (old(sm.freed) + multiset(freed)) + multiset{old_[i].addr};
      }
    }
    assert old_[..|old_|] == old_;
  }

  lemma StaysIff(o: Zone, zs: seq<Zone>)
    ensures StaysLive(o, zs) <==> !o.noreuse && exists z | z in zs :: SameZone(o, z)
  {
  }

  // ----- What the decisions amount to -------------------------------------------------------------------

  ghost function Addresses(zs: seq<Zone>): set<nat> {
    set z | z in zs :: z.addr
  }

  /** Equal zones of the two configurations agree on `noreuse`. */
  ghost predicate NoreuseAgrees(old_: seq<Zone>, zs: seq<Zone>) {
    forall o, z | o in old_ && z in zs && o.name == z.name && o.tag == z.tag && o.size == z.size ::
      o.noreuse == z.noreuse
  }

  /** Everything the forward loop established when it succeeded. */
  ghost predicate Complete(zs: seq<Zone>, old_: seq<Zone>, base: set<nat>, mapped: set<nat>) {
    && UniqueNames(zs) && Owns(old_, base) && Forward(zs, 0, old_, base, mapped)
    && forall z | z in zs :: IsSegment(z.addr)
  }

  lemma ByName(zs: seq<Zone>, a: Zone, b: Zone)
    requires UniqueNames(zs) && a in zs && b in zs
    ensures a.name == b.name ==> a == b
  {
    var i :| 0 <= i < |zs| && zs[i] == a;
    var j :| 0 <= j < |zs| && zs[j] == b;
    assert a.name == b.name ==> i == j;
  }

  lemma ByAddress(old_: seq<Zone>, base: set<nat>, a: Zone, b: Zone)
    requires Owns(old_, base) && a in old_ && b in old_
    ensures a.addr == b.addr ==> a == b
  {
    var i :| 0 <= i < |old_| && old_[i] == a;
    var j :| 0 <= j < |old_| && old_[j] == b;
    assert a.addr == b.addr ==> i == j;
  }

  /** The address of a zone of the new cycle: that of the equal old zone, or a new one. */
  lemma AddressOf(zs: seq<Zone>, old_: seq<Zone>, base: set<nat>, mapped: set<nat>, z: Zone)
    requires Complete(zs, old_, base, mapped) && z in zs
    ensures z.addr in mapped
    ensures Reuses(z, old_) ==> exists o | o in old_ :: SameZone(z, o) && z.addr == o.addr
    ensures !Reuses(z, old_) ==> z.addr !in base
  {
    hide Reuses;
    var i :| 0 <= i < |zs| && zs[i] == z;
    assert Prepared(zs[i], old_, base, mapped);
  }

  /** A zone has the address of an old one exactly when name, tag and size are the same and it may reuse. */
  lemma AddressIff(zs: seq<Zone>, old_: seq<Zone>, base: set<nat>, mapped: set<nat>, z: Zone, o: Zone)
    requires Complete(zs, old_, base, mapped) && z in zs && o in old_
    ensures z.addr == o.addr <==> o.name == z.name && o.tag == z.tag && o.size == z.size && !z.noreuse
  {
    AddressOf(zs, old_, base, mapped, z);
    if Reuses(z, old_) {
      var p :| p in old_ && SameZone(z, p) && z.addr == p.addr;
      ByAddress(old_, base, o, p);
      ByName(old_, o, p);
    } else {
      assert o.addr in base;
      assert SameZone(z, o) ==> z.noreuse;
    }
  }

  /** Where the zones of the new cycle lie. */
  lemma Located(zs: seq<Zone>, old_: seq<Zone>, base: set<nat>, mapped: set<nat>)
    requires Complete(zs, old_, base, mapped)
    ensures forall z, o | z in zs && o in old_ ::
      z.addr == o.addr <==> o.name == z.name && o.tag == z.tag && o.size == z.size && !z.noreuse
    ensures forall z | z in zs :: z.addr in mapped && (z.addr in base ==> exists o | o in old_ :: o.addr == z.addr)
    ensures forall a :: a in mapped <==> a in base || exists z | z in zs :: z.addr == a
  {
    hide Complete, Owns, Forward, Reuses;
    forall z | z in zs
      ensures z.addr in mapped
      ensures forall o | o in old_ ::
        z.addr == o.addr <==> o.name == z.name && o.tag == z.tag && o.size == z.size && !z.noreuse
    {
      AddressOf(zs, old_, base, mapped, z);
      forall o | o in old_
        ensures z.addr == o.addr <==> o.name == z.name && o.tag == z.tag && o.size == z.size && !z.noreuse
      {
        AddressIff(zs, old_, base, mapped, z, o);
      }
    }
    MappedParts(zs, old_, base, mapped);
  }

  lemma MappedParts(zs: seq<Zone>, old_: seq<Zone>, base: set<nat>, mapped: set<nat>)
    requires Complete(zs, old_, base, mapped)
    ensures base <= mapped && forall a | a in base :: exists o | o in old_ :: o.addr == a
    ensures forall a | a in mapped && a !in base :: exists z | z in zs :: z.addr == a
  {
    hide Reuses;
    forall a | a in mapped && a !in base
      ensures exists z | z in zs :: z.addr == a
    {
      var j :| 0 <= j < |zs| && HasOwn(zs[j], old_) && zs[j].addr == a;
      assert zs[j] in zs;
    }
  }

  /** What commit frees: the segment of an old zone that must not be reused or has no equal. */
  lemma FreedIff(old_: seq<Zone>, zs: seq<Zone>, a: nat)
    ensures a in Freed(old_, zs) <==>
      exists o | o in old_ && o.addr == a ::
        o.noreuse || forall z | z in zs :: !(z.name == o.name && z.tag == o.tag && z.size == o.size)
  {
    assert forall o | o in old_ :: StaysLive(o, zs) <==>
        !(o.noreuse || forall z | z in zs :: !(z.name == o.name && z.tag == o.tag && z.size == o.size));
  }

  /** When `noreuse` agrees, the segments left after commit are exactly those of the new cycle, each
      owned by one zone. */
  lemma AgreementSuffices(zs: seq<Zone>, old_: seq<Zone>, base: set<nat>, mapped: set<nat>)
    requires Complete(zs, old_, base, mapped) && NoreuseAgrees(old_, zs)
    ensures Addresses(zs) == mapped - Freed(old_, zs)
    ensures Owns(zs, mapped - Freed(old_, zs))
  {
    forall z | z in zs
      ensures z.addr in mapped && z.addr !in Freed(old_, zs)
    {
      AddressOf(zs, old_, base, mapped, z);
      KeptAddress(zs, old_, base, mapped, z);
    }
    forall a | a in mapped && a !in Freed(old_, zs)
      ensures exists z | z in zs :: z.addr == a
    {
      LeftAddress(zs, old_, base, mapped, a);
    }
    forall i, j | 0 <= i < j < |zs|
      ensures zs[i].addr != zs[j].addr
    {
      DistinctAddress(zs, old_, base, mapped, i, j);
    }
  }

  lemma KeptAddress(zs: seq<Zone>, old_: seq<Zone>, base: set<nat>, mapped: set<nat>, z: Zone)
    requires Complete(zs, old_, base, mapped) && NoreuseAgrees(old_, zs) && z in zs
    ensures z.addr !in Freed(old_, zs)
  {
    AddressOf(zs, old_, base, mapped, z);
    if Reuses(z, old_) {
      var o :| o in old_ && SameZone(z, o) && z.addr == o.addr;
      assert SameZone(o, z) && StaysLive(o, zs);
      forall p | p in old_
        ensures p.addr == z.addr ==> StaysLive(p, zs)
      {
        ByAddress(old_, base, o, p);
      }
    }
  }

  lemma LeftAddress(zs: seq<Zone>, old_: seq<Zone>, base: set<nat>, mapped: set<nat>, a: nat)
    requires Complete(zs, old_, base, mapped) && NoreuseAgrees(old_, zs)
    requires a in mapped && a !in Freed(old_, zs)
    ensures exists z | z in zs :: z.addr == a
  {
    if a in base {
      var o :| o in old_ && o.addr == a;
      assert StaysLive(o, zs);
      var z :| z in zs && SameZone(o, z);
      assert SameZone(z, o);
      AddressOf(zs, old_, base, mapped, z);
      var p :| p in old_ && SameZone(z, p) && z.addr == p.addr;
      ByName(old_, o, p);
    } else {
      var j :| 0 <= j < |zs| && HasOwn(zs[j], old_) && zs[j].addr == a;
      assert zs[j] in zs;
    }
  }

  lemma DistinctAddress(zs: seq<Zone>, old_: seq<Zone>, base: set<nat>, mapped: set<nat>, i: nat, j: nat)
    requires Complete(zs, old_, base, mapped) && i < j < |zs|
    ensures zs[i].addr != zs[j].addr
  {
    hide Reuses;
    AddressOf(zs, old_, base, mapped, zs[i]);
    AddressOf(zs, old_, base, mapped, zs[j]);
    if Reuses(zs[i], old_) && Reuses(zs[j], old_) {
      var o :| o in old_ && SameZone(zs[i], o) && zs[i].addr == o.addr;
      var p :| p in old_ && SameZone(zs[j], p) && zs[j].addr == p.addr;
      ByAddress(old_, base, o, p);
    }
  }

  /** The converse: one pair of equal zones that differ in `noreuse` leaves a segment mapped that no zone
      uses, or frees one that a zone uses. So the segments after commit are those of the new cycle if
      and only if `noreuse` agrees. */
  lemma CommitIsExactIff(zs: seq<Zone>, old_: seq<Zone>, base: set<nat>, mapped: set<nat>)
    requires Complete(zs, old_, base, mapped)
    ensures Addresses(zs) == mapped - Freed(old_, zs) <==> NoreuseAgrees(old_, zs)
  {
    if NoreuseAgrees(old_, zs) {
      AgreementSuffices(zs, old_, base, mapped);
    } else {
      var o, z :| o in old_ && z in zs && SameZone(o, z) && o.noreuse != z.noreuse;
      if z.noreuse {
        LeakedSegment(zs, old_, base, mapped, o, z);
      } else {
        LostSegment(zs, old_, base, mapped, o, z);
      }
    }
  }

  lemma LeakedSegment(zs: seq<Zone>, old_: seq<Zone>, base: set<nat>, mapped: set<nat>, o: Zone, z: Zone)
    requires Complete(zs, old_, base, mapped)
    requires o in old_ && z in zs && SameZone(o, z) && !o.noreuse && z.noreuse
    ensures o.addr in mapped - Freed(old_, zs) && o.addr !in Addresses(zs)
  {
    assert StaysLive(o, zs);
    assert o.addr in base;
    forall p | p in old_
      ensures p.addr == o.addr ==> StaysLive(p, zs)
    {
      ByAddress(old_, base, o, p);
    }
    forall y | y in zs
      ensures y.addr != o.addr
    {
      AddressOf(zs, old_, base, mapped, y);
      if Reuses(y, old_) {
        var p :| p in old_ && SameZone(y, p) && y.addr == p.addr;
        ByAddress(old_, base, o, p);
        ByName(zs, y, z);
      }
    }
  }

  lemma LostSegment(zs: seq<Zone>, old_: seq<Zone>, base: set<nat>, mapped: set<nat>, o: Zone, z: Zone)
    requires Complete(zs, old_, base, mapped)
    requires o in old_ && z in zs && SameZone(o, z) && o.noreuse && !z.noreuse
    ensures z.addr == o.addr && o.addr in Freed(old_, zs) && z.addr in Addresses(zs)
  {
    assert SameZone(z, o);
    AddressOf(zs, old_, base, mapped, z);
    var p :| p in old_ && SameZone(z, p) && z.addr == p.addr;
    ByName(old_, o, p);
    assert !StaysLive(o, zs);
  }
}
