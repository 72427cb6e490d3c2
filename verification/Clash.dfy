/** What a clash does: three wildcards that the comparison puts in an order in which the names of one label do not
    stand together, and a host that gets the wrong server. */
module Clash {
  import opened Bytes
  import opened NameOrder
  import opened System
  import D = DnsNames
  import H = HashTable
  import W = WildcardHash

  const C: Str := [99]
  const C1: Str := [99, 1]
  const CA: Str := [99, DOT, 97]

  /** ".c", a name of one control character behind "c", and ".a.c", as keys of the trie. */
  const CLASHING: seq<W.Name> := [W.Name(C, 4), W.Name(C1, 8), W.Name(CA, 12)]

  /** "x.a.c" with its labels reversed. */
  const REVERSED: Str := [99, DOT, 97, DOT, 120]

  lemma Labels()
    ensures W.FirstLabel(C) == C && W.FirstLabel(C1) == C1 && W.FirstLabel(CA) == C && W.FirstLabel(REVERSED) == C
  {
    W.FirstLabelIs(C, C);
    W.FirstLabelIs(C1, C1);
    W.FirstLabelIs(C, CA);
    W.FirstLabelIs(C, REVERSED);
  }

  /** The comparison finds the keys in order. */
  lemma InComparedOrder()
    ensures IsSortOf(CLASHING, CLASHING)
  {
    assert C[1..] == [] && C1[1..] == [1] && CA[1..] == [DOT, 97];
    assert D.DnsStrcmp(C, C1) == D.DnsStrcmp([], [1]);
    assert D.DnsStrcmp(C1, CA) == D.DnsStrcmp([1], [DOT, 97]);
    assert D.DnsStrcmp(C, CA) == D.DnsStrcmp([], [DOT, 97]);
  }

  lemma OneName(n: W.Name)
    requires W.GoodValue(n.value) && IsLower(n.key)
    ensures W.GoodNames([n])
  {
  }

  lemma RunsAreGood()
    ensures W.GoodRuns(CLASHING)
    ensures W.FirstRun(CLASHING, C) == [W.Name(C, 4)]
  {
    hide W.FirstLabel, W.GoodNames;
    Labels();
    W.FirstRunIs(CLASHING, 0, 1, C);
    forall n: nat, i: nat, x: Str | W.OneLabel(CLASHING, n, i, x)
      ensures W.GoodNames(CLASHING[n..i])
    {
      if n == i {
        W.NothingGood();
        assert CLASHING[n..i] == [];
      } else {
        assert W.FirstLabel(CLASHING[n].key) == x;
        if n + 1 < |CLASHING| {
          assert W.FirstLabel(CLASHING[n].key) != W.FirstLabel(CLASHING[n + 1].key);
        }
        OneName(CLASHING[n]);
        assert CLASHING[n..i] == [CLASHING[n]];
      }
    }
  }

  /** Among the three, ".a.c" is the longest that matches; alone, ".c" does. */
  lemma LongestAre()
    ensures W.Longest(W.Head, CLASHING, REVERSED, 12)
    ensures W.Longest(W.Head, [W.Name(C, 4)], REVERSED, 4)
  {
    assert C + [DOT] <= REVERSED && CA + [DOT] <= REVERSED;
    assert W.Name(CA, 12) in CLASHING && W.Name(C, 4) in [W.Name(C, 4)];
    assert forall m | m in CLASHING :: |m.key| <= 3;
  }

  lemma HostReversed()
    ensures W.RevLabels([120, DOT, 97, DOT, 99]) == REVERSED
  {
    hide W.RevLabels;
    var x: Str, a: Str, c: Str := [120], [97], [99];
    D.NoDotIsLabel(x);
    D.NoDotIsLabel(a);
    D.NoDotIsLabel(c);
    D.RevAppend(x, a);
    D.RevAppend(x + [DOT] + a, c);
    assert x + [DOT] + a + [DOT] + c == [120, DOT, 97, DOT, 99];
    assert c + [DOT] + (a + [DOT] + x) == REVERSED;
  }

  /** The trie is built without complaint, and then "x.a.c" gets the server of ".c", although ".a.c" is there: its
      label "c" comes twice, and the lookup finds the first. */
  method ClashMisleads(system: Requests, cfg: H.Config) returns (r: Option<nat>, v: nat)
    requires W.Allocates(system.grants) && W.GoodConfig(cfg)
    modifies system
    ensures IsSortOf(CLASHING, CLASHING) && W.Longest(W.Head, CLASHING, REVERSED, 12)
    ensures r.None? && W.Tame(cfg, CLASHING) ==> system.Refused(old(system.asked))
    ensures r.Some? ==> v == 4
  {
    hide W.GoodRuns, W.Longest, W.RunRoot, W.FirstRun, W.Stores, W.Tame, W.FirstLabel, W.RevLabels, W.Allocates,
         IsSortOf;
    InComparedOrder();
    RunsAreGood();
    LongestAre();
    HostReversed();
    Labels();
    var pool := new W.Pool(system);
    r := W.Build(pool, cfg, CLASHING);
    v := 0;
    if r.Some? {
      ghost var run := [W.Name(C, 4)];
      OneName(W.Name(C, 4));
      W.RootStores(pool.nodes, pool.contents, r.value, CLASHING, C);
      RootIn(pool.nodes, pool.contents, r.value);
      v := W.FindHead(pool.nodes, pool.contents, r.value, [120, DOT, 97, DOT, 99], run);
      OnlyFour(run, v);
    }
  }

  lemma RootIn(nodes: W.Nodes, contents: W.Contents, a: nat)
    requires W.RunRoot(nodes, contents, a, CLASHING)
    ensures a in nodes && a in contents
  {
  }

  lemma OnlyFour(run: seq<W.Name>, v: nat)
    requires W.GoodNames(run) && W.Longest(W.Head, run, REVERSED, 4) && W.Answers(W.Head, run, REVERSED, v, 0)
    ensures v == 4
  {
    hide W.Longest, W.GoodNames;
    SameLongest(run, v, 4);
    SameLongest(run, 0, 4);
  }

  lemma SameLongest(run: seq<W.Name>, v: nat, w: nat)
    requires W.GoodNames(run)
    ensures W.Longest(W.Head, run, REVERSED, v) && W.Longest(W.Head, run, REVERSED, w) ==> v == w
  {
    hide W.Longest, W.GoodNames;
    if W.Longest(W.Head, run, REVERSED, v) && W.Longest(W.Head, run, REVERSED, w) {
      W.LongestUnique(W.Head, run, REVERSED, v, w);
    }
  }
}
