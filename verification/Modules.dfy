/** Modules of a cycle (ngx_module.c): where a loaded module goes, and which indices modules get. */
module Modules {
  import opened Bytes

  /** NGX_MODULE_UNSET_INDEX. */
  const UNSET: nat := TWO64 - 1

  const NGINX_VERSION: nat := 1023003

  class Module {
    const name: Str
    const kind: nat
    const version: nat
    const signature: Str
    var index: nat
    var ctxIndex: nat

    constructor (name: Str, kind: nat, version: nat, signature: Str)
      ensures index == ctxIndex == 0xffff_ffff_ffff_ffff && this.name == name && this.kind == kind
      ensures this.version == version && this.signature == signature
    {
      this.name, this.kind, this.version, this.signature := name, kind, version, signature;
      index, ctxIndex := UNSET, UNSET;
    }
  }

  // ----- Context indices ----------------------------------------------------------------------------------

  /** Every assigned index of the type is at most `b`. */
  ghost predicate Bounded(ms: seq<Module>, kind: nat, b: nat)
    reads ms
  {
    forall i | 0 <= i < |ms| && ms[i].kind == kind :: ms[i].ctxIndex <= b || ms[i].ctxIndex == UNSET
  }

  ghost predicate Unused(ms: seq<Module>, kind: nat, index: nat)
    reads ms
  {
    forall i | 0 <= i < |ms| && ms[i].kind == kind :: ms[i].ctxIndex != index
  }

  /** The search of one list in `ngx_module_ctx_index`. */
  method InUse(ms: seq<Module>, kind: nat, index: nat) returns (used: bool)
    ensures used <==> !Unused(ms, kind, index)
  {
    for i := 0 to |ms|
      invariant Unused(ms[..i], kind, index)
    {
      assert ms[..i + 1] == ms[..i] + [ms[i]];
      if ms[i].kind == kind && ms[i].ctxIndex == index {
        return true;
      }
    }
    assert ms[..|ms|] == ms;
    used := false;
  }

  /** `ngx_module_ctx_index`: the first index from `start` on that no module of the type uses in either cycle. */
  method CtxIndex(modules: seq<Module>, previous: seq<Module>, kind: nat, start: nat, ghost b: nat)
    returns (index: nat)
    requires Bounded(modules, kind, b) && Bounded(previous, kind, b) && start <= b + 1 < UNSET
    ensures start <= index <= b + 1 && Unused(modules, kind, index) && Unused(previous, kind, index)
    ensures forall k: nat | start <= k < index :: !Unused(modules, kind, k) || !Unused(previous, kind, k)
  {
    hide Unused, Bounded;
    index := start;
    while true
      invariant start <= index <= b + 1
      invariant forall k: nat | start <= k < index :: !Unused(modules, kind, k) || !Unused(previous, kind, k)
      decreases b + 1 - index
    {
      BeyondBound(modules, kind, b);
      BeyondBound(previous, kind, b);
      var used := InUse(modules, kind, index);
      if !used {
        used := InUse(previous, kind, index);
      }
      if !used {
        return;
      }
      index := index + 1;
    }
  }

  lemma BeyondBound(ms: seq<Module>, kind: nat, b: nat)
    requires Bounded(ms, kind, b) && b + 1 < UNSET
    ensures Unused(ms, kind, b + 1)
  {
  }

  ghost predicate HasUnset(ms: seq<Module>, kind: nat)
    reads ms
  {
    exists i | 0 <= i < |ms| :: ms[i].kind == kind && ms[i].ctxIndex == UNSET
  }

  /** The module at `i` shares its index with no other module of its type. */
  ghost predicate OwnIndex(ms: seq<Module>, m: Module)
    reads ms, m
  {
    forall i | 0 <= i < |ms| && ms[i].kind == m.kind && ms[i] != m :: ms[i].ctxIndex != m.ctxIndex
  }

  /** A module without an index gets one that is unused in both cycles. */
  method Assign(m: Module, modules: seq<Module>, previous: seq<Module>, start: nat, ghost b: nat)
    requires m in modules && m.ctxIndex == UNSET && start <= b + 1 < UNSET
    requires Bounded(modules, m.kind, b) && Bounded(previous, m.kind, b)
    modifies m`ctxIndex
    ensures start <= m.ctxIndex <= b + 1
    ensures OwnIndex(modules, m) && OwnIndex(previous, m)
    ensures Bounded(modules, m.kind, b + 1) && Bounded(previous, m.kind, b + 1)
    ensures forall x: Module | x in modules && x != m && old(OwnIndex(modules, x)) && old(OwnIndex(previous, x))
                               && x.kind == m.kind :: OwnIndex(modules, x) && OwnIndex(previous, x)
    ensures !Unused(modules, m.kind, m.ctxIndex)
    ensures forall v: nat | v != UNSET && old(!Unused(modules, m.kind, v)) :: !Unused(modules, m.kind, v)
  {
    var index := CtxIndex(modules, previous, m.kind, start, b);
    m.ctxIndex := index;
    var i :| 0 <= i < |modules| && modules[i] == m;
  }

  /** The loop over the old cycle: an unset index exceeds all others. */
  method OldMax(previous: seq<Module>, kind: nat, start: nat, ghost b: nat) returns (max: nat)
    requires Bounded(previous, kind, b) && start <= b < UNSET
    ensures start <= max && (max == start || !Unused(previous, kind, max))
    ensures forall j | 0 <= j < |previous| && previous[j].kind == kind :: previous[j].ctxIndex <= max
    ensures max <= b || max == UNSET
    ensures max == UNSET <==> HasUnset(previous, kind)
  {
    max := start;
    for i := 0 to |previous|
      invariant start <= max
      invariant max == start || exists j | 0 <= j < i :: previous[j].kind == kind && previous[j].ctxIndex == max
      invariant forall j | 0 <= j < i && previous[j].kind == kind :: previous[j].ctxIndex <= max
      invariant max <= b || max == UNSET
    {
      if previous[i].kind != kind {
        continue;
      }
      if previous[i].ctxIndex > max {
        max := previous[i].ctxIndex;
      }
    }
  }

  lemma LooserBound(ms: seq<Module>, kind: nat, b: nat)
    requires Bounded(ms, kind, b)
    ensures Bounded(ms, kind, b + 1)
  {
  }

  lemma BoundAt(ms: seq<Module>, kind: nat, b: nat, i: nat)
    requires Bounded(ms, kind, b) && i < |ms| && ms[i].kind == kind
    ensures ms[i].ctxIndex == UNSET || ms[i].ctxIndex <= b
    ensures !Unused(ms, kind, ms[i].ctxIndex)
  {
  }

  /** The first `i` modules are counted; `was` are the indices before. */
  ghost predicate Counted(modules: seq<Module>, previous: seq<Module>, kind: nat, was: seq<nat>, i: nat, max: nat)
    reads modules, previous
  {
    && i <= |modules| == |was|
    && (forall j | 0 <= j < i && modules[j].kind == kind :: modules[j].ctxIndex <= max)
    && (forall j | 0 <= j < |modules| && (j >= i || modules[j].kind != kind || was[j] != UNSET) ::
          modules[j].ctxIndex == was[j])
    && (forall j | 0 <= j < i && modules[j].kind == kind && was[j] == UNSET ::
          OwnIndex(modules, modules[j]) && OwnIndex(previous, modules[j]))
    && (max == 0 || !Unused(modules, kind, max))
  }

  /** One turn of the loop over the cycle's own modules. */
  method CountOne(modules: seq<Module>, previous: seq<Module>, kind: nat, ghost was: seq<nat>, i: nat, m: Module,
                  next: nat, max: nat, ghost b: nat) returns (next1: nat, max1: nat)
    requires Bounded(modules, kind, b) && Bounded(previous, kind, b) && b + 1 < UNSET && i < |modules|
    requires m == modules[i]
    requires forall j, k | 0 <= j < k < |modules| :: modules[j] != modules[k]
    requires Counted(modules, previous, kind, was, i, max) && max <= b && next <= b + 1
    modifies m`ctxIndex
    ensures Bounded(modules, kind, b + 1) && Bounded(previous, kind, b + 1)
    ensures Counted(modules, previous, kind, was, i + 1, max1) && max1 <= b + 1 && next1 <= b + 2
  {
    hide OwnIndex, Bounded, Unused;
    next1, max1 := next, max;
    LooserBound(modules, kind, b);
    LooserBound(previous, kind, b);
    if m.kind != kind {
      return;
    }
    BoundAt(modules, kind, b, i);
    if m.ctxIndex != UNSET {
      if m.ctxIndex > max1 {
        max1 := m.ctxIndex;
      }
      if m.ctxIndex == next1 {
        next1 := next1 + 1;
      }
      return;
    }
    Assign(m, modules, previous, next, b);
    if m.ctxIndex > max1 {
      max1 := m.ctxIndex;
    }
    next1 := m.ctxIndex + 1;
  }

  /** An old module of the type that has no index and is not loaded any more. */
  ghost predicate LeftUnset(modules: seq<Module>, previous: seq<Module>, kind: nat)
    reads previous
  {
    exists i | 0 <= i < |previous| ::
      previous[i].kind == kind && previous[i].ctxIndex == UNSET && previous[i] !in modules
  }

  function CtxIndices(ms: seq<Module>): (r: seq<nat>)
    reads ms
    ensures |r| == |ms| && forall i | 0 <= i < |ms| :: r[i] == ms[i].ctxIndex
  {
    seq(|ms|, i requires 0 <= i < |ms| reads ms => ms[i].ctxIndex)
  }

  /** One of the old cycle's modules that is not in the new one had no index. */
  ghost predicate UnsetAmong(modules: seq<Module>, previous: seq<Module>, kind: nat, was: seq<nat>) {
    |was| == |previous| &&
    exists i | 0 <= i < |previous| :: previous[i].kind == kind && was[i] == UNSET && previous[i] !in modules
  }

  lemma WasUnset(modules: seq<Module>, previous: seq<Module>, kind: nat)
    ensures LeftUnset(modules, previous, kind) <==> UnsetAmong(modules, previous, kind, CtxIndices(previous))
  {
  }

  lemma StillUnset(modules: seq<Module>, previous: seq<Module>, kind: nat, was: seq<nat>)
    requires forall m | m in modules && m.kind == kind :: m.ctxIndex != UNSET
    requires |was| == |previous|
    requires forall i | 0 <= i < |previous| && previous[i] !in modules :: previous[i].ctxIndex == was[i]
    ensures HasUnset(previous, kind) <==> UnsetAmong(modules, previous, kind, was)
  {
  }

  /** The loop over the cycle's modules: those without an index get one. */
  method CountAll(modules: seq<Module>, previous: seq<Module>, kind: nat, ghost was: seq<nat>, ghost b: nat)
    returns (max: nat)
    requires Bounded(modules, kind, b) && Bounded(previous, kind, b) && b + |modules| + 1 < UNSET
    requires forall i, j | 0 <= i < j < |modules| :: modules[i] != modules[j]
    requires was == CtxIndices(modules)
    modifies modules
    ensures Bounded(previous, kind, b + |modules|) && max <= b + |modules|
    ensures Counted(modules, previous, kind, was, |modules|, max)
    ensures forall m | m in modules :: m.index == old(m.index)
  {
    hide OwnIndex, Bounded, Unused, Counted, HasUnset;
    var next: nat := 0;
    max := 0;
    NothingCounted(modules, previous, kind, was);
    for i := 0 to |modules|
      invariant Bounded(modules, kind, b + i) && Bounded(previous, kind, b + i)
      invariant Counted(modules, previous, kind, was, i, max) && max <= b + i && next <= b + i + 1
      invariant forall m | m in modules :: m.index == old(m.index)
    {
      next, max := CountOne(modules, previous, kind, was, i, modules[i], next, max, b + i);
    }
  }

  /** `ngx_count_modules`: assigned indices are kept, the other modules of the type get indices of their own,
      also against the old cycle, and the result lies above all of them. The exception is an old module of the
      type that has no index and is not loaded any more: then the result wraps around to 0. */
  method CountModules(modules: seq<Module>, previous: seq<Module>, kind: nat, ghost b: nat) returns (n: nat)
    requires Bounded(modules, kind, b) && Bounded(previous, kind, b) && b + |modules| + 1 < UNSET
    requires forall i, j | 0 <= i < j < |modules| :: modules[i] != modules[j]
    modifies modules
    ensures forall m | m in modules :: m.index == old(m.index)
    ensures forall m | m in modules && (m.kind != kind || old(m.ctxIndex) != UNSET) :: m.ctxIndex == old(m.ctxIndex)
    ensures forall m | m in modules && m.kind == kind :: m.ctxIndex != UNSET
    ensures forall m | m in modules && m.kind == kind && old(m.ctxIndex) == UNSET ::
      OwnIndex(modules, m) && OwnIndex(previous, m)
    ensures n == 0 <==> old(LeftUnset(modules, previous, kind))
    ensures n != 0 ==> forall m | (m in modules || m in previous) && m.kind == kind :: m.ctxIndex < n
    ensures n > 1 ==> !Unused(modules, kind, n - 1) || !Unused(previous, kind, n - 1)
  {
    hide OwnIndex, Bounded, Unused, Counted, HasUnset, LeftUnset, UnsetAmong;
    ghost var was, before := CtxIndices(modules), CtxIndices(previous);
    WasUnset(modules, previous, kind);
    var max := CountAll(modules, previous, kind, was, b);
    AllCounted(modules, previous, kind, was, max, b + |modules|);
    max := OldMax(previous, kind, max, b + |modules|);
    StillUnset(modules, previous, kind, before);
    n := (max + 1) % TWO64;
  }

  lemma NothingCounted(modules: seq<Module>, previous: seq<Module>, kind: nat, was: seq<nat>)
    requires |was| == |modules| && forall j | 0 <= j < |modules| :: was[j] == modules[j].ctxIndex
    ensures Counted(modules, previous, kind, was, 0, 0)
  {
  }

  lemma AllCounted(modules: seq<Module>, previous: seq<Module>, kind: nat, was: seq<nat>, max: nat, b: nat)
    requires Counted(modules, previous, kind, was, |modules|, max) && max <= b < UNSET
    ensures |was| == |modules|
    ensures forall j | 0 <= j < |modules| && modules[j].kind == kind :: modules[j].ctxIndex <= max
    ensures forall j | 0 <= j < |modules| && (modules[j].kind != kind || was[j] != UNSET) ::
      modules[j].ctxIndex == was[j]
    ensures forall j | 0 <= j < |modules| && modules[j].kind == kind && was[j] == UNSET ::
      OwnIndex(modules, modules[j]) && OwnIndex(previous, modules[j])
    ensures max == 0 || !Unused(modules, kind, max)
  {
  }

  /** The exception occurs: a module of the type was loaded in the old cycle, whose configuration never counted
      the type, and is not loaded in the new one. */
  method CountWraps() returns (n: nat)
    ensures n == 0
  {
    var kept := new Module([1], 7, NGINX_VERSION, []);
    var gone := new Module([2], 7, NGINX_VERSION, []);
    n := CountModules([kept], [gone], 7, 0);
    assert [gone][0] == gone && [kept][0] == kept;
  }

  // ----- The order list --------------------------------------------------------------------------------------

  ghost predicate Distinct<T>(s: seq<T>) {
    forall i, j | 0 <= i < j < |s| :: s[i] != s[j]
  }

  /** The position of a name in the order list, or its length. */
  function Rank(order: seq<Str>, name: Str): (r: nat)
    ensures r <= |order| && (r < |order| ==> order[r] == name) && forall i | 0 <= i < r :: order[i] != name
  {
    if order == [] || order[0] == name then 0 else Rank(order[1..], name) + 1
  }

  /** Listed modules stand in the order of the list. */
  ghost predicate Respects(names: seq<Str>, order: seq<Str>) {
    forall i, j | 0 <= i < j < |names| && names[i] in order && names[j] in order ::
      Rank(order, names[i]) < Rank(order, names[j])
  }

  /** Is the name listed behind `name`? */
  ghost predicate Later(order: seq<Str>, name: Str, other: Str) {
    exists i | Rank(order, name) < i < |order| :: order[i] == other
  }

  /** The first loaded module that is listed behind the new one, or the end. */
  ghost predicate IsPlace(names: seq<Str>, order: seq<Str>, name: Str, before: nat) {
    && before <= |names|
    && (forall m | 0 <= m < before :: !Later(order, name, names[m]))
    && (before < |names| ==> Later(order, name, names[before]))
  }

  lemma LaterIsRank(order: seq<Str>, name: Str, other: Str)
    requires Distinct(order)
    ensures Later(order, name, other) <==> other in order && Rank(order, name) < Rank(order, other)
  {
    if other in order {
      var r := Rank(order, other);
      assert order[r] == other;
      forall i | 0 <= i < |order| && order[i] == other
        ensures i == r
      {
      }
    }
  }

  /** Insertion keeps the listed modules in order. */
  lemma InsertionRespects(names: seq<Str>, order: seq<Str>, name: Str, before: nat)
    requires Distinct(order) && Respects(names, order) && name !in names && IsPlace(names, order, name, before)
    ensures Respects(names[..before] + [name] + names[before..], order)
  {
    hide Rank, Later;
    var after := names[..before] + [name] + names[before..];
    forall i, j | 0 <= i < j < |after| && after[i] in order && after[j] in order
      ensures Rank(order, after[i]) < Rank(order, after[j])
    {
      if i < before && j == before {
        LaterIsRank(order, name, names[i]);
        RankDiffers(order, name, names[i]);
      } else if i == before {
        LaterIsRank(order, name, names[before]);
        LaterIsRank(order, name, names[j - 1]);
        assert names[before] in order;
        assert before == j - 1 || Rank(order, names[before]) < Rank(order, names[j - 1]);
      } else {
        var k, l := if i < before then i else i - 1, if j < before then j else j - 1;
        assert after[i] == names[k] && after[j] == names[l];
      }
    }
  }

  lemma RankDiffers(order: seq<Str>, a: Str, b: Str)
    requires a in order && b in order && a != b
    ensures Rank(order, a) != Rank(order, b)
  {
  }

  /** Where the new module goes. */
  ghost function PlaceOf(names: seq<Str>, order: seq<Str>, name: Str): (b: nat)
    ensures IsPlace(names, order, name, b)
  {
    if names == [] || Later(order, name, names[0]) then 0 else PlaceOf(names[1..], order, name) + 1
  }

  lemma PlaceUnique(names: seq<Str>, order: seq<Str>, name: Str, a: nat, b: nat)
    requires IsPlace(names, order, name, a) && IsPlace(names, order, name, b)
    ensures a == b
  {
    hide Later;
  }

  ghost function With(names: seq<Str>, order: seq<Str>, name: Str): seq<Str> {
    var b := PlaceOf(names, order, name);
    names[..b] + [name] + names[b..]
  }

  /** A run of additions; a module that is loaded already is rejected. */
  ghost function Run(names: seq<Str>, order: seq<Str>, adds: seq<Str>): seq<Str> {
    if adds == [] then names
    else
      var t := Run(names, order, adds[..|adds| - 1]);
      if adds[|adds| - 1] in t then t else With(t, order, adds[|adds| - 1])
  }

  /** Over every run of additions that share one order list, the listed modules stay in its order. */
  lemma {:induction false} RunRespects(names: seq<Str>, order: seq<Str>, adds: seq<Str>)
    requires Distinct(order) && Respects(names, order)
    ensures Respects(Run(names, order, adds), order)
    ensures multiset(Run(names, order, adds)) >= multiset(names)
  {
    hide Respects, PlaceOf;
    if adds != [] {
      var t, name := Run(names, order, adds[..|adds| - 1]), adds[|adds| - 1];
      RunRespects(names, order, adds[..|adds| - 1]);
      if name !in t {
        var b := PlaceOf(t, order, name);
        InsertionRespects(t, order, name, b);
        assert t == t[..b] + t[b..];
        assert multiset(With(t, order, name)) == multiset(t) + multiset{name};
      }
    }
  }

  // ----- Adding a module --------------------------------------------------------------------------------------------

  datatype AddRc = Ok | TooMany | BadVersion | NotCompatible | AlreadyLoaded | NoConf

  function Names(ms: seq<Module>): (names: seq<Str>)
    ensures |names| == |ms|
  {
    seq(|ms|, i requires 0 <= i < |ms| => ms[i].name)
  }

  lemma NamesInserted(ms: seq<Module>, m: Module, b: nat)
    requires b <= |ms|
    ensures Names(ms[..b] + [m] + ms[b..]) == Names(ms)[..b] + [m.name] + Names(ms)[b..]
  {
  }

  ghost predicate IndexUnused(ms: seq<Module>, index: nat)
    reads ms
  {
    forall i | 0 <= i < |ms| :: ms[i].index != index
  }

  lemma ShiftedBy(was: seq<Module>, now: seq<Module>, m: Module, before: nat)
    requires before <= |was| && |now| == |was| + 1 && now[before] == m
    requires forall k | 0 <= k < before :: now[k] == was[k]
    requires forall k | before < k < |now| :: now[k] == was[k - 1]
    ensures now == was[..before] + [m] + was[before..]
  {
  }

  /** `ngx_cycle_t`: the array of modules ends with a null entry. */
  class Cycle {
    const modules: array<Module?>
    var n: nat
    const previous: seq<Module>
    const signature: Str

    ghost predicate Valid()
      reads this, modules
    {
      && n < modules.Length
      && (forall i | 0 <= i < n :: modules[i] != null)
      && (forall i | n <= i < modules.Length :: modules[i] == null)
    }

    /** The modules before the null entry. */
    ghost function List(): (ms: seq<Module>)
      requires Valid()
      reads this, modules
      ensures |ms| == n && forall i | 0 <= i < n :: ms[i] == modules[i]
    {
      seq(n, i requires 0 <= i < n reads this, modules requires Valid() => modules[i])
    }

    constructor (max: nat, previous: seq<Module>, signature: Str)
      ensures Valid() && List() == [] && modules.Length == max + 1 && this.previous == previous
      ensures this.signature == signature && fresh(modules)
    {
      modules := new Module?[max + 1](_ => null);
      n, this.previous, this.signature := 0, previous, signature;
    }

    /** Is a module of this name loaded? */
    method Loaded(name: Str) returns (b: bool)
      requires Valid()
      ensures b <==> name in Names(List())
    {
      var m := 0;
      ghost var names := Names(List());
      while modules[m] != null
        invariant m <= n && forall i | 0 <= i < m :: names[i] != name
        decreases n - m
      {
        if modules[m].name == name {
          assert names[m] == name;
          return true;
        }
        m := m + 1;
      }
      b := false;
    }

    /** The search for the place before the first module that is listed later. */
    method FindPlace(order: seq<Str>, name: Str) returns (before: nat)
      requires Valid()
      ensures before == PlaceOf(Names(List()), order, name)
    {
      ghost var names := Names(List());
      var i := 0;
      while i < |order|
        invariant i <= |order| && i <= Rank(order, name)
      {
        i := i + 1;
        if order[i - 1] == name {
          break;
        }
      }
      before := n;
      ghost var first := i;
      assert first == if Rank(order, name) < |order| then Rank(order, name) + 1 else |order|;
      while i < |order|
        invariant first <= i <= |order| && before <= n
        invariant forall m, k | 0 <= m < before && first <= k < i :: names[m] != order[k]
        invariant before < n ==> Later(order, name, names[before])
      {
        var m := 0;
        while m < before
          invariant m <= before && forall j | 0 <= j < m :: names[j] != order[i]
        {
          assert names[m] == modules[m].name;
          if modules[m].name == order[i] {
            before := m;
            break;
          }
          m := m + 1;
        }
        i := i + 1;
      }
      assert IsPlace(names, order, name, before);
      PlaceUnique(names, order, name, before, PlaceOf(names, order, name));
    }

    /** The search of one list in `ngx_module_index`. */
    static method IndexInUse(ms: seq<Module>, index: nat) returns (used: bool)
      ensures used <==> !IndexUnused(ms, index)
    {
      for i := 0 to |ms|
        invariant forall j | 0 <= j < i :: ms[j].index != index
      {
        if ms[i].index == index {
          return true;
        }
      }
      used := false;
    }

    /** `ngx_module_index`: the least index that no module of either cycle has. */
    method ModuleIndex(ms: seq<Module>, ghost b: nat) returns (index: nat)
      requires forall m | m in ms || m in previous :: m.index <= b || m.index == UNSET
      requires b + 1 < UNSET
      ensures index <= b + 1 && IndexUnused(ms, index) && IndexUnused(previous, index)
      ensures forall k: nat | k < index :: !IndexUnused(ms, k) || !IndexUnused(previous, k)
    {
      index := 0;
      while true
        invariant index <= b + 1
        invariant forall k: nat | k < index :: !IndexUnused(ms, k) || !IndexUnused(previous, k)
        decreases b + 1 - index
      {
        assert IndexUnused(ms, b + 1) && IndexUnused(previous, b + 1);
        var used := IndexInUse(ms, index);
        if !used {
          used := IndexInUse(previous, index);
        }
        if !used {
          return;
        }
        index := index + 1;
      }
    }

    /** Moves the modules from `before` on up by one. */
    method MakeRoom(before: nat)
      requires Valid() && before <= n && n + 1 < modules.Length
      modifies modules
      ensures forall j | 0 <= j < before || n < j < modules.Length :: modules[j] == old(modules[j])
      ensures forall j | before < j <= n :: modules[j] == old(modules[j - 1])
    {
      var i := n;
      while i > before
        invariant before <= i <= n
        invariant forall j | 0 <= j < i || n < j < modules.Length :: modules[j] == old(modules[j])
        invariant forall j | i < j <= n :: modules[j] == old(modules[j - 1])
      {
        modules[i] := modules[i - 1];
        i := i - 1;
      }
    }

    /** Puts the module before the one at `before`. */
    method PutBefore(m: Module, before: nat)
      requires Valid() && before <= n && n + 1 < modules.Length
      modifies this`n, modules
      ensures Valid() && List() == old(List())[..before] + [m] + old(List())[before..]
    {
      ghost var was := List();
      MakeRoom(before);
      modules[before] := m;
      n := n + 1;
      ShiftedBy(was, List(), m, before);
    }

    /** There is room, and the module is a compatible one that is not loaded yet. */
    ghost predicate Fits(m: Module)
      requires Valid()
      reads this, modules
    {
      && n + 1 < modules.Length && m.version == 1023003 && m.signature == signature && m.name !in Names(List())
    }

    /** What is checked before a module is added, and in which order. */
    method Check(m: Module) returns (rc: AddRc)
      requires Valid()
      ensures rc == Ok <==> Fits(m)
      ensures rc == TooMany <==> n + 1 >= modules.Length
      ensures rc == BadVersion <==> n + 1 < modules.Length && m.version != 1023003
      ensures rc == NotCompatible <==> n + 1 < modules.Length && m.version == 1023003 && m.signature != signature
      ensures rc == AlreadyLoaded <==>
        n + 1 < modules.Length && m.version == 1023003 && m.signature == signature && m.name in Names(List())
    {
      if n >= modules.Length - 1 {
        return TooMany;
      }
      if m.version != NGINX_VERSION {
        return BadVersion;
      }
      if m.signature != signature {
        return NotCompatible;
      }
      var loaded := Loaded(m.name);
      rc := if loaded then AlreadyLoaded else Ok;
    }

    /** No module of either cycle has the index. */
    ghost predicate FreeIndex(k: nat)
      requires Valid()
      reads this, modules, List(), previous
    {
      IndexUnused(List(), k) && IndexUnused(previous, k)
    }

    ghost predicate LeastFree(index: nat)
      requires Valid()
      reads this, modules, List(), previous
    {
      FreeIndex(index) && forall k: nat | k < index :: !FreeIndex(k)
    }

    /** The module has its index, or one below the maximum is free. */
    ghost predicate CanIndex(m: Module)
      requires Valid()
      reads this, modules, List(), previous, m
    {
      m.index == UNSET ==> exists k: nat :: k < modules.Length - 1 && FreeIndex(k)
    }

    /** A module that was never loaded gets the least free index. */
    method GiveIndex(m: Module, ghost b: nat) returns (ok: bool)
      requires Valid() && m !in List() && m.index == UNSET
      requires forall x | x in List() || x in previous :: x.index <= b || x.index == UNSET
      requires b + 1 < UNSET
      modifies m`index
      ensures ok <==> old(CanIndex(m))
      ensures ok <==> m.index < modules.Length - 1
      ensures var index := m.index; old(LeastFree(index))
    {
      hide IndexUnused;
      var ms := Current();
      var index := ModuleIndex(ms, b);
      assert LeastFree(index);
      m.index := index;
      ok := m.index < modules.Length - 1;
    }

    /** `ngx_add_module`: the module is added exactly when it fits and can have an index; then it stands where
        the order list `listed` wants it, if there is one. A core module's `create_conf`, whose success is
        `created`, comes last: its failure is reported with the module in the list. */
    method AddModule(m: Module, listed: Option<seq<Str>>, isCore: bool, created: bool, ghost b: nat)
      returns (rc: AddRc)
      requires Valid()
      requires forall x | x in List() || x in previous :: x.index <= b || x.index == UNSET
      requires b + 1 < UNSET
      modifies this`n, modules, m`index
      ensures Valid()
      ensures rc == Ok <==> old(Fits(m)) && old(CanIndex(m)) && (isCore ==> created)
      ensures rc == NoConf <==> old(Fits(m)) && old(CanIndex(m)) && isCore && !created
      ensures rc == TooMany <==> old(n) + 1 >= modules.Length || (old(Fits(m)) && !old(CanIndex(m)))
      ensures rc == BadVersion <==> old(n) + 1 < modules.Length && m.version != 1023003
      ensures rc == NotCompatible <==>
        old(n) + 1 < modules.Length && m.version == 1023003 && m.signature != signature
      ensures rc == AlreadyLoaded <==>
        old(n) + 1 < modules.Length && m.version == 1023003 && m.signature == signature
        && m.name in Names(old(List()))
      ensures rc == Ok || rc == NoConf ==>
        var p := if listed.Some? then PlaceOf(Names(old(List())), listed.value, m.name) else old(n);
        p <= old(n) && List() == old(List())[..p] + [m] + old(List())[p..]
      ensures (rc == Ok || rc == NoConf) && listed.Some? ==>
        Names(List()) == With(Names(old(List())), listed.value, m.name)
      ensures rc != Ok && rc != NoConf ==> List() == old(List())
      ensures if old(Fits(m)) && old(m.index) == UNSET
              then var index := m.index; old(LeastFree(index))
              else m.index == old(m.index)
      ensures rc == Ok && old(m.index) == UNSET ==> m.index < modules.Length - 1
    {
      hide PlaceOf, IndexUnused, FreeIndex, LeastFree;
      rc := Check(m);
      if rc != Ok {
        return;
      }
      NotListed(m);
      if m.index == UNSET {
        var ok := GiveIndex(m, b);
        if !ok {
          return TooMany;
        }
      }
      Place(m, listed);
      if isCore && !created {
        return NoConf;
      }
    }

    /** The module goes to its place in the listed order, or to the end. */
    method Place(m: Module, listed: Option<seq<Str>>)
      requires Valid() && n + 1 < modules.Length
      modifies this`n, modules
      ensures Valid()
      ensures var p := if listed.Some? then PlaceOf(Names(old(List())), listed.value, m.name) else old(n);
        p <= old(n) && List() == old(List())[..p] + [m] + old(List())[p..]
      ensures listed.Some? ==> Names(List()) == With(Names(old(List())), listed.value, m.name)
    {
      hide PlaceOf;
      var before := n;
      if listed.Some? {
        before := FindPlace(listed.value, m.name);
      }
      NamesInserted(List(), m, before);
      PutBefore(m, before);
    }

    lemma NotListed(m: Module)
      requires Valid() && m.name !in Names(List())
      ensures m !in List()
    {
      forall i | 0 <= i < n
        ensures List()[i] != m
      {
        assert Names(List())[i] == List()[i].name;
      }
    }

    /** The array up to its null entry. */
    method Current() returns (ms: seq<Module>)
      requires Valid()
      ensures ms == List()
    {
      ms := [];
      while modules[|ms|] != null
        invariant |ms| <= n && ms == List()[..|ms|]
        decreases n - |ms|
      {
        ms := ms + [modules[|ms|]];
      }
    }
  }
}
