/** Sorting the wildcard keys with `ngx_dns_strcmp`: the result has the order that the tries are built from. */
module NameOrder {
  import opened Bytes
  import opened DnsNames
  import H = HashTable
  import W = WildcardHash

  /** The comparison puts keys that do not clash in the order that the tries need. */
  ghost predicate NoClash(names: seq<W.Name>) {
    forall m, n | m in names && n in names :: !Clash(m.key, n.key)
  }

  ghost predicate PlainKeys(names: seq<W.Name>) {
    forall n | n in names :: IsLower(n.key) && 0 !in n.key
  }

  ghost predicate InOrder(names: seq<W.Name>) {
    forall i, j | 0 <= i < j < |names| :: DnsStrcmp(names[i].key, names[j].key) <= 0
  }

  /** `ngx_qsort` with `ngx_http_cmp_dns_wildcards`: the same keys in the order of the comparison. */
  ghost predicate IsSortOf(sorted: seq<W.Name>, names: seq<W.Name>) {
    InOrder(sorted) && multiset(sorted) == multiset(names)
  }

  lemma SameMembers(sorted: seq<W.Name>, names: seq<W.Name>)
    requires multiset(sorted) == multiset(names)
    ensures forall m :: m in sorted <==> m in names
  {
    forall m
      ensures m in sorted <==> m in names
    {
      assert m in sorted <==> m in multiset(sorted);
      assert m in names <==> m in multiset(names);
    }
  }

  lemma SortMembers(sorted: seq<W.Name>, names: seq<W.Name>)
    requires IsSortOf(sorted, names)
    ensures forall m :: m in sorted <==> m in names
  {
    SameMembers(sorted, names);
  }

  ghost predicate DistinctKeys(names: seq<W.Name>) {
    forall i, j | 0 <= i < j < |names| :: names[i].key != names[j].key
  }

  lemma CountTwice(s: seq<W.Name>, i: nat, j: nat)
    requires i < j < |s| && s[i] == s[j]
    ensures multiset(s)[s[i]] >= 2
  {
    assert s == s[..j] + s[j..] && s[i] == s[..j][i] && s[j] == s[j..][0];
    assert multiset(s) == multiset(s[..j]) + multiset(s[j..]);
  }

  lemma {:induction false} CountOnce(s: seq<W.Name>, m: W.Name)
    requires DistinctKeys(s)
    ensures multiset(s)[m] <= 1
  {
    if s != [] {
      var init := s[..|s| - 1];
      assert s == init + [s[|s| - 1]];
      CountOnce(init, m);
      assert forall k | 0 <= k < |init| :: init[k].key != s[|s| - 1].key;
    }
  }

  /** A permutation of different keys has different keys. */
  lemma PermutedKeys(sorted: seq<W.Name>, names: seq<W.Name>)
    requires DistinctKeys(names) && multiset(sorted) == multiset(names)
    ensures DistinctKeys(sorted)
  {
    SameMembers(sorted, names);
    forall i, j | 0 <= i < j < |sorted|
      ensures sorted[i].key != sorted[j].key
    {
      if sorted[i].key == sorted[j].key {
        assert sorted[i] in names && sorted[j] in names;
        assert sorted[i] == sorted[j];
        CountTwice(sorted, i, j);
        CountOnce(names, sorted[i]);
      }
    }
  }

  /** Keys that do not clash are sorted as the trie builder wants them. */
  lemma SortedKeys(sorted: seq<W.Name>, names: seq<W.Name>)
    requires IsSortOf(sorted, names) && PlainKeys(names) && DistinctKeys(names) && NoClash(names)
    ensures W.Sorted(sorted)
  {
    SameMembers(sorted, names);
    PermutedKeys(sorted, names);
    forall i, j | 0 <= i < j < |sorted|
      ensures W.Less(sorted[i].key, sorted[j].key)
    {
      assert sorted[i] in names && sorted[j] in names;
      ComparedPlain(sorted[i].key, sorted[j].key);
    }
  }

  lemma ComparedPlain(a: Str, b: Str)
    requires IsLower(a) && IsLower(b) && 0 !in a && 0 !in b && !Clash(a, b)
    ensures DnsStrcmp(a, b) < 0 <==> W.Less(a, b)
    ensures DnsStrcmp(a, b) == 0 <==> a == b
  {
    LowerStrFixesLower(a);
    LowerStrFixesLower(b);
    DnsOrder(a, b);
  }

  // ----- Sorting -----------------------------------------------------------------------------------------

  function Insert(m: W.Name, s: seq<W.Name>): seq<W.Name> {
    if s == [] || DnsStrcmp(m.key, s[0].key) <= 0 then [m] + s else [s[0]] + Insert(m, s[1..])
  }

  /** A sort, for `ngx_qsort`. */
  function SortNames(names: seq<W.Name>): seq<W.Name> {
    if names == [] then [] else Insert(names[0], SortNames(names[1..]))
  }

  lemma ComparedTransitive(a: Str, b: Str, c: Str)
    requires IsLower(a) && IsLower(b) && IsLower(c) && 0 !in a && 0 !in b && 0 !in c
    requires !Clash(a, b) && !Clash(b, c) && !Clash(a, c)
    requires DnsStrcmp(a, b) <= 0 && DnsStrcmp(b, c) <= 0
    ensures DnsStrcmp(a, c) <= 0
  {
    ComparedPlain(a, b);
    ComparedPlain(b, c);
    ComparedPlain(a, c);
    if W.Less(a, b) && W.Less(b, c) {
      LessTransitive(a, b, c);
    }
  }

  lemma {:induction false} InsertPermutes(m: W.Name, s: seq<W.Name>)
    ensures multiset(Insert(m, s)) == multiset([m] + s)
  {
    if s != [] {
      InsertPermutes(m, s[1..]);
      assert s == [s[0]] + s[1..];
    }
  }

  /** The first key is not after the others. */
  lemma LeastFirst(m: W.Name, s: seq<W.Name>)
    requires InOrder(s) && forall n | n in s :: DnsStrcmp(m.key, n.key) <= 0
    ensures InOrder([m] + s)
  {
  }

  lemma FirstIsLeast(m: W.Name, s: seq<W.Name>)
    requires PlainKeys([m] + s) && NoClash([m] + s) && InOrder(s)
    requires s != [] && DnsStrcmp(m.key, s[0].key) <= 0
    ensures forall n | n in s :: DnsStrcmp(m.key, n.key) <= 0
  {
    var all := [m] + s;
    assert m in all && s[0] in s && forall n | n in s :: n in all;
    forall n | n in s
      ensures DnsStrcmp(m.key, n.key) <= 0
    {
      hide Clash;
      if n != s[0] {
        var j :| 0 <= j < |s| && s[j] == n;
        ComparedTransitive(m.key, s[0].key, n.key);
      }
    }
  }

  lemma {:induction false} InsertSorts(m: W.Name, s: seq<W.Name>)
    requires PlainKeys([m] + s) && NoClash([m] + s) && InOrder(s)
    ensures InOrder(Insert(m, s))
  {
    hide Clash, DnsStrcmp, PlainKeys, NoClash;
    if s == [] {
    } else if DnsStrcmp(m.key, s[0].key) <= 0 {
      FirstIsLeast(m, s);
      LeastFirst(m, s);
    } else {
      DnsAntisymmetric(m.key, s[0].key);
      var t := s[1..];
      FewerPlain(m, s);
      InsertSorts(m, t);
      InsertPermutes(m, t);
      SameMembers(Insert(m, t), [m] + t);
      forall n | n in t
        ensures DnsStrcmp(s[0].key, n.key) <= 0
      {
        var k :| 0 <= k < |t| && t[k] == n;
        assert t[k] == s[k + 1];
      }
      LeastFirst(s[0], Insert(m, t));
    }
  }

  lemma FewerPlain(m: W.Name, s: seq<W.Name>)
    requires PlainKeys([m] + s) && NoClash([m] + s) && s != []
    ensures PlainKeys([m] + s[1..]) && NoClash([m] + s[1..])
  {
    assert forall n | n in [m] + s[1..] :: n in [m] + s;
  }

  lemma {:induction false} SortNamesSorts(names: seq<W.Name>)
    requires PlainKeys(names) && NoClash(names)
    ensures IsSortOf(SortNames(names), names)
  {
    if names != [] {
      var t := names[1..];
      assert names == [names[0]] + t;
      assert forall n | n in t :: n in names;
      SortNamesSorts(t);
      var s := SortNames(t);
      SameMembers(s, t);
      assert forall n | n in [names[0]] + s :: n in names;
      InsertSorts(names[0], s);
      InsertPermutes(names[0], s);
    }
  }

  // ----- What does not depend on the order -----------------------------------------------------------------

  lemma {:induction false} WeightWithout(names: seq<W.Name>, i: nat)
    requires i < |names|
    ensures W.Weight(names) == W.Weight(names[..i] + names[i + 1..]) + H.EltSize(names[i].key)
  {
    hide H.EltSize, W.Weight;
    var n := |names| - 1;
    WeightOfLast(names);
    if i == n {
      assert names[..i] + names[i + 1..] == names[..n];
    } else {
      var rest := names[..i] + names[i + 1..];
      WeightWithout(names[..n], i);
      WithoutInit(names, i);
      WeightOfLast(rest);
    }
  }

  lemma WeightOfLast(names: seq<W.Name>)
    requires names != []
    ensures W.Weight(names) == W.Weight(names[..|names| - 1]) + H.EltSize(names[|names| - 1].key)
  {
  }

  lemma WithoutInit<T>(s: seq<T>, i: nat)
    requires i < |s| - 1
    ensures var n, rest := |s| - 1, s[..i] + s[i + 1..];
      |rest| == n && rest[..n - 1] == s[..n][..i] + s[..n][i + 1..] && rest[n - 1] == s[n]
  {
  }

  /** The weight of the keys does not depend on their order. */
  lemma {:induction false} SameWeight(a: seq<W.Name>, b: seq<W.Name>)
    requires multiset(a) == multiset(b)
    ensures W.Weight(a) == W.Weight(b)
    decreases |a|
  {
    hide H.EltSize;
    assert |a| == |multiset(a)| == |multiset(b)| == |b|;
    if a != [] {
      SameMembers(a, b);
      var n := |a| - 1;
      assert a[n] in b;
      var i :| 0 <= i < |b| && b[i] == a[n];
      WeightWithout(b, i);
      SameWithout(a, b, i);
      SameWeight(a[..n], b[..i] + b[i + 1..]);
    }
  }

  lemma SameWithout(a: seq<W.Name>, b: seq<W.Name>, i: nat)
    requires multiset(a) == multiset(b) && a != [] && i < |b| && b[i] == a[|a| - 1]
    ensures multiset(a[..|a| - 1]) == multiset(b[..i] + b[i + 1..])
  {
    var n := |a| - 1;
    MultisetWithout(a, n);
    assert a[..n] + a[n + 1..] == a[..n];
    MultisetWithout(b, i);
  }

  lemma MultisetWithout(b: seq<W.Name>, i: nat)
    requires i < |b|
    ensures multiset(b[..i] + b[i + 1..]) == multiset(b) - multiset{b[i]}
  {
    var u, v := b[..i], b[i + 1..];
    assert b == u + [b[i]] + v;
    assert multiset(u + [b[i]] + v) == multiset(u) + multiset{b[i]} + multiset(v);
    assert multiset(u + v) == multiset(u) + multiset(v);
  }

  lemma SortTame(cfg: H.Config, sorted: seq<W.Name>, names: seq<W.Name>)
    requires IsSortOf(sorted, names)
    ensures W.Tame(cfg, names) ==> W.Tame(cfg, sorted)
    ensures sorted == [] <==> names == []
  {
    SameMembers(sorted, names);
    SameWeight(sorted, names);
    assert |sorted| == |multiset(sorted)| == |multiset(names)| == |names|;
  }
}
