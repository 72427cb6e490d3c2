/** From accepted keys to lookups: the exact hash and the two tries built from the collected keys, and
    `ngx_hash_find_combined` over them, against the meaning of the patterns themselves. */
module CombinedHash {
  import opened Bytes
  import opened DnsNames
  import opened HashKeys
  import opened NameOrder
  import H = HashTable
  import opened System
  import W = WildcardHash

  // ----- What the patterns mean ------------------------------------------------------------------------

  /** "*.x" and ".x". */
  predicate SuffixMatches(p: Pattern, h: Str) {
    match p
    case Below(x) => IsBelow(h, x)
    case AtOrBelow(x) => h == x || IsBelow(h, x)
    case _ => false
  }

  /** "x.*". */
  predicate PrefixMatches(p: Pattern, h: Str) {
    p.Prefix? && p.name + [DOT] <= h
  }

  /** `v` belongs to the rule with the longest base among those that match, 0 when none does. */
  ghost predicate Best(rules: seq<Rule>, matches: Pattern -> bool, v: nat) {
    if v == 0 then forall r | r in rules :: !matches(r.pattern)
    else exists r | r in rules ::
      && r.value == v && matches(r.pattern)
      && forall s | s in rules && matches(s.pattern) :: |s.pattern.name| <= |r.pattern.name|
  }

  ghost predicate BestSuffix(rules: seq<Rule>, h: Str, v: nat) {
    Best(rules, p => SuffixMatches(p, h), v)
  }

  ghost predicate BestPrefix(rules: seq<Rule>, h: Str, v: nat) {
    Best(rules, p => PrefixMatches(p, h), v)
  }

  /** The answer for host `h`: an exact name first, then the longest "*.x" or ".x", then the longest "x.*". */
  ghost predicate Resolves(rules: seq<Rule>, h: Str, v: nat) {
    if exists r | r in rules :: r.pattern == Exact(h) then
      Rule(Exact(h), v) in rules
    else if exists r | r in rules :: SuffixMatches(r.pattern, h) then
      v != 0 && BestSuffix(rules, h, v)
    else
      BestPrefix(rules, h, v)
  }

  // ----- The keys of the tries --------------------------------------------------------------------------

  ghost predicate GoodRules(rules: seq<Rule>) {
    && ConflictFree(rules)
    && forall r | r in rules ::
         Sound(r.pattern) && IsLower(r.pattern.name) && W.GoodValue(r.value)
  }

  lemma {:induction false} HeadsMember(rules: seq<Rule>)
    ensures forall m | m in HeadsOf(rules) :: exists r | r in rules :: HeadKey(r) == [m]
    ensures forall r | r in rules && HeadKey(r) != [] :: HeadKey(r)[0] in HeadsOf(rules)
  {
    hide HeadKey;
    if rules != [] {
      var init, r := rules[..|rules| - 1], rules[|rules| - 1];
      HeadsMember(init);
      HeadKeySize(r);
      assert r in rules && forall s | s in init :: s in rules;
      assert forall s | s in rules :: s in init || s == r;
    }
  }

  lemma HeadKeySize(r: Rule)
    ensures |HeadKey(r)| <= 1
  {
  }

  lemma {:induction false} TailsMember(rules: seq<Rule>)
    ensures forall m | m in TailsOf(rules) :: Rule(Prefix(m.key), m.value) in rules
    ensures forall r | r in rules && r.pattern.Prefix? :: W.Name(r.pattern.name, r.value) in TailsOf(rules)
  {
    if rules != [] {
      var init, r := rules[..|rules| - 1], rules[|rules| - 1];
      TailsMember(init);
      assert forall s | s in rules :: s in init || s == r;
    }
  }

  lemma {:induction false} RevKeepsBytes(s: Str)
    ensures IsLower(s) ==> IsLower(W.RevLabels(s))
    ensures 0 !in s ==> 0 !in W.RevLabels(s)
    ensures Printable(s) ==> Printable(W.RevLabels(s))
    decreases |s|
  {
    var n := W.LastLabelStart(s);
    if n != 0 {
      RevKeepsBytes(s[..n - 1]);
    }
  }

  /** A reversed base does not end with a dot. */
  lemma RevEnd(n: Str)
    requires n != [] && n[0] != DOT
    ensures !W.EndsWithDot(W.RevLabels(n))
  {
    RevFrontIsRev(n);
    var x := W.FirstLabel(n);
    assert x != [] && x[|x| - 1] in x;
  }

  /** Matching in the trie is matching of the pattern. */
  lemma HeadMatch(r: Rule, m: W.Name, h: Str)
    requires HeadKey(r) == [m] && Sound(r.pattern)
    ensures W.Match(W.Head, m.key, W.RevLabels(h)) <==> SuffixMatches(r.pattern, h)
    ensures m.value == r.value
    ensures r.pattern.AtOrBelow? ==> |m.key| == |r.pattern.name| && !W.EndsWithDot(m.key)
    ensures r.pattern.Below? ==> |m.key| == |r.pattern.name| + 1 && W.EndsWithDot(m.key)
  {
    hide W.RevLabels;
    var n := r.pattern.name;
    BelowIsPrefix(h, n);
    SameRev(h, n);
    RevTwice(n);
    if r.pattern.AtOrBelow? {
      RevEnd(n);
    }
  }

  /** What is asked of the accepted wildcards besides being free of conflicts. */
  ghost predicate Orderly(rules: seq<Rule>) {
    NoClash(HeadsOf(rules)) && NoClash(TailsOf(rules))
  }

  /** Keys of different accepted rules are never equal, nor one the other with a dot. */
  lemma HeadKeysApart(rules: seq<Rule>, r: Rule, s: Rule, m: W.Name, k: W.Name)
    requires GoodRules(rules) && r in rules && s in rules
    requires HeadKey(r) == [m] && HeadKey(s) == [k]
    ensures k.key != m.key + [DOT]
  {
    var x, y: Str := [], [];
    HeadMatch(r, m, x);
    HeadMatch(s, k, y);
    if k.key == m.key + [DOT] {
      var n, t := r.pattern.name, s.pattern.name;
      assert W.EndsWithDot(k.key);
      assert s.pattern.Below? && k.key[..|k.key| - 1] == W.RevLabels(t) == m.key;
      if r.pattern.AtOrBelow? {
        SameRev(t, n);
        SameBase(rules, r, s);
      } else {
        RevEnd(t);
      }
    }
  }

  lemma SameBase(rules: seq<Rule>, r: Rule, s: Rule)
    requires GoodRules(rules) && r in rules && s in rules
    requires HeadKey(r) != [] && HeadKey(s) != [] && r.pattern.name == s.pattern.name
    ensures r == s
  {
    var i :| 0 <= i < |rules| && rules[i] == r;
    var j :| 0 <= j < |rules| && rules[j] == s;
    assert i < j ==> !Conflict(rules[i].pattern, rules[j].pattern);
    assert j < i ==> !Conflict(rules[j].pattern, rules[i].pattern);
  }

  /** Accepted keys are plain, and no two of one kind are equal. */
  lemma {:induction false} KeysDistinct(rules: seq<Rule>)
    requires GoodRules(rules)
    ensures DistinctKeys(HeadsOf(rules)) && DistinctKeys(TailsOf(rules))
  {
    hide HeadKey, GoodRules, DistinctKeys;
    if rules == [] {
      NoKeys();
    } else {
      var init, r := rules[..|rules| - 1], rules[|rules| - 1];
      GoodPrefix(rules);
      KeysDistinct(init);
      LastIsNew(rules);
      HeadKeySize(r);
      if HeadKey(r) != [] {
        OneMoreKey(HeadsOf(init), HeadKey(r)[0]);
        assert HeadKey(r) == [HeadKey(r)[0]];
      } else {
        assert HeadsOf(init) + [] == HeadsOf(init);
      }
      if r.pattern.Prefix? {
        OneMoreKey(TailsOf(init), W.Name(r.pattern.name, r.value));
      } else {
        assert TailsOf(init) + [] == TailsOf(init);
      }
    }
  }

  lemma NoKeys()
    ensures DistinctKeys([])
  {
  }

  lemma OneMoreKey(names: seq<W.Name>, n: W.Name)
    requires DistinctKeys(names) && forall m | m in names :: m.key != n.key
    ensures DistinctKeys(names + [n])
  {
  }

  lemma GoodPrefix(rules: seq<Rule>)
    requires GoodRules(rules) && rules != []
    ensures GoodRules(rules[..|rules| - 1])
  {
    hide Conflict, Sound;
    var init := rules[..|rules| - 1];
    assert forall i | 0 <= i < |init| :: init[i] == rules[i];
    assert forall r | r in init :: r in rules;
  }

  lemma LastIsNew(rules: seq<Rule>)
    requires GoodRules(rules) && rules != []
    ensures var init, r := rules[..|rules| - 1], rules[|rules| - 1];
      && (HeadKey(r) != [] ==> forall m | m in HeadsOf(init) :: m.key != HeadKey(r)[0].key)
      && (r.pattern.Prefix? ==> forall m | m in TailsOf(init) :: m.key != r.pattern.name)
  {
    var init, r := rules[..|rules| - 1], rules[|rules| - 1];
    HeadsMember(init);
    TailsMember(init);
    forall s | s in init
      ensures !Conflict(s.pattern, r.pattern)
    {
      hide Conflict;
      var i :| 0 <= i < |init| && init[i] == s;
      assert rules[i] == s;
    }
    if HeadKey(r) != [] {
      forall m | m in HeadsOf(init)
        ensures m.key != HeadKey(r)[0].key
      {
        var s :| s in init && HeadKey(s) == [m];
        NewBase(s, r);
      }
    }
    forall m | m in TailsOf(init) && r.pattern.Prefix?
      ensures m.key != r.pattern.name
    {
      var s := Rule(Prefix(m.key), m.value);
      assert s in init;
      TailConflict(s, r);
    }
  }

  lemma TailConflict(s: Rule, r: Rule)
    requires s.pattern.Prefix? && r.pattern.Prefix? && !Conflict(s.pattern, r.pattern)
    ensures s.pattern.name != r.pattern.name
  {
  }

  lemma NewBase(s: Rule, r: Rule)
    requires |HeadKey(s)| == |HeadKey(r)| == 1 && !Conflict(s.pattern, r.pattern)
    requires Sound(s.pattern) && Sound(r.pattern)
    ensures HeadKey(s)[0].key != HeadKey(r)[0].key
  {
    var a, b := s.pattern.name, r.pattern.name;
    var h: Str := [];
    HeadMatch(s, HeadKey(s)[0], h);
    HeadMatch(r, HeadKey(r)[0], h);
    SameRev(a, b);
    if s.pattern.Below? && r.pattern.Below? {
      assert (W.RevLabels(a) + [DOT])[..|W.RevLabels(a)|] == W.RevLabels(a);
      assert (W.RevLabels(b) + [DOT])[..|W.RevLabels(b)|] == W.RevLabels(b);
      RevTwice(a);
      RevTwice(b);
    }
  }

  lemma KeysPlain(rules: seq<Rule>)
    requires GoodRules(rules)
    ensures PlainKeys(HeadsOf(rules)) && PlainKeys(TailsOf(rules))
  {
    hide ConflictFree, W.RevLabels;
    HeadsMember(rules);
    TailsMember(rules);
    forall n | n in HeadsOf(rules)
      ensures IsLower(n.key) && 0 !in n.key
    {
      var r :| r in rules && HeadKey(r) == [n];
      PlainHead(r, n);
    }
    forall n | n in TailsOf(rules)
      ensures IsLower(n.key) && 0 !in n.key
    {
      assert Rule(Prefix(n.key), n.value) in rules;
    }
  }

  lemma PlainHead(r: Rule, n: W.Name)
    requires HeadKey(r) == [n] && IsLower(r.pattern.name) && Sound(r.pattern)
    ensures IsLower(n.key) && 0 !in n.key
  {
    RevKeepsBytes(r.pattern.name);
  }

  /** Names without control characters and spaces are orderly. */
  lemma PrintableIsOrderly(rules: seq<Rule>)
    requires forall r | r in rules && !r.pattern.Exact? :: Printable(r.pattern.name)
    ensures Orderly(rules)
  {
    HeadsMember(rules);
    TailsMember(rules);
    forall n | n in HeadsOf(rules)
      ensures Printable(n.key)
    {
      var r :| r in rules && HeadKey(r) == [n];
      RevKeepsBytes(r.pattern.name);
    }
    forall n | n in TailsOf(rules)
      ensures Printable(n.key)
    {
      assert Rule(Prefix(n.key), n.value) in rules;
    }
    forall m, n | (m in HeadsOf(rules) && n in HeadsOf(rules)) || (m in TailsOf(rules) && n in TailsOf(rules))
      ensures !Clash(m.key, n.key)
    {
      PrintableNoClash(m.key, n.key);
    }
  }

  lemma OrderlyParts(rules: seq<Rule>)
    requires Orderly(rules)
    ensures NoClash(HeadsOf(rules)) && NoClash(TailsOf(rules))
  {
  }

  /** Accepted keys, sorted, are what the trie builder needs. */
  lemma HeadsGood(rules: seq<Rule>, names: seq<W.Name>)
    requires GoodRules(rules) && Orderly(rules) && IsSortOf(names, HeadsOf(rules))
    ensures W.GoodNames(names)
  {
    hide Clash, Orderly, IsSortOf, NoClash, DistinctKeys, W.Sorted;
    OrderlyParts(rules);
    KeysDistinct(rules);
    KeysPlain(rules);
    SortedKeys(names, HeadsOf(rules));
    SortMembers(names, HeadsOf(rules));
    HeadsMember(rules);
    forall i, j | 0 <= i < |names| && 0 <= j < |names|
      ensures names[j].key != names[i].key + [DOT]
    {
      assert names[i] in HeadsOf(rules) && names[j] in HeadsOf(rules);
      var r :| r in rules && HeadKey(r) == [names[i]];
      var s :| s in rules && HeadKey(s) == [names[j]];
      HeadKeysApart(rules, r, s, names[i], names[j]);
    }
    forall n | n in names
      ensures W.GoodValue(n.value)
    {
      var r :| r in rules && HeadKey(r) == [n];
    }
  }

  lemma TailsGood(rules: seq<Rule>, names: seq<W.Name>)
    requires GoodRules(rules) && Orderly(rules) && IsSortOf(names, TailsOf(rules))
    ensures W.GoodNames(names) && W.ModeNames(W.Tail, names)
  {
    hide Clash, Orderly, IsSortOf, NoClash, DistinctKeys, PlainKeys, W.Sorted;
    OrderlyParts(rules);
    KeysDistinct(rules);
    KeysPlain(rules);
    SortedKeys(names, TailsOf(rules));
    SortMembers(names, TailsOf(rules));
    TailsMember(rules);
    forall n | n in names
      ensures W.GoodValue(n.value) && !W.EndsWithDot(n.key)
    {
      assert Rule(Prefix(n.key), n.value) in rules;
    }
    forall i, j | 0 <= i < |names| && 0 <= j < |names|
      ensures names[j].key != names[i].key + [DOT]
    {
      assert names[j] in names;
      assert W.EndsWithDot(names[i].key + [DOT]);
    }
  }

  /** The longest trie key is the longest base. */
  lemma HeadBest(rules: seq<Rule>, names: seq<W.Name>, h: Str, v: nat)
    requires GoodRules(rules) && IsSortOf(names, HeadsOf(rules))
    requires W.Longest(W.Head, names, W.RevLabels(h), v)
    ensures BestSuffix(rules, h, v)
  {
    hide W.RevLabels, IsSortOf, GoodRules;
    SortMembers(names, HeadsOf(rules));
    if v == 0 {
      NoHead(rules, names, h);
    } else {
      var n :| n in names && n.value == v && W.Match(W.Head, n.key, W.RevLabels(h))
        && forall m | m in names && W.Match(W.Head, m.key, W.RevLabels(h)) :: |m.key| <= |n.key|;
      var r := LongestHead(rules, names, h, n);
    }
  }

  lemma NoHead(rules: seq<Rule>, names: seq<W.Name>, h: Str)
    requires GoodRules(rules) && forall n :: n in names <==> n in HeadsOf(rules)
    requires forall n | n in names :: !W.Match(W.Head, n.key, W.RevLabels(h))
    ensures forall r | r in rules :: !SuffixMatches(r.pattern, h)
  {
    hide W.RevLabels, HeadKey, Sound, ConflictFree, W.Match;
    HeadsMember(rules);
    forall r | r in rules
      ensures !SuffixMatches(r.pattern, h)
    {
      SuffixHasKey(r, h);
      if |HeadKey(r)| == 1 {
        assert HeadKey(r) == [HeadKey(r)[0]] && HeadKey(r)[0] in names;
        HeadMatch(r, HeadKey(r)[0], h);
      }
    }
  }

  lemma LongestHead(rules: seq<Rule>, names: seq<W.Name>, h: Str, n: W.Name) returns (r: Rule)
    requires GoodRules(rules) && (forall m :: m in names <==> m in HeadsOf(rules)) && n in names
    requires W.Match(W.Head, n.key, W.RevLabels(h))
    requires forall m | m in names && W.Match(W.Head, m.key, W.RevLabels(h)) :: |m.key| <= |n.key|
    ensures r in rules && r.value == n.value && SuffixMatches(r.pattern, h)
    ensures forall s | s in rules && SuffixMatches(s.pattern, h) :: |s.pattern.name| <= |r.pattern.name|
  {
    hide W.RevLabels, HeadKey, Sound, ConflictFree, W.Match;
    HeadsMember(rules);
    r :| r in rules && HeadKey(r) == [n];
    HeadMatch(r, n, h);
    forall s | s in rules && SuffixMatches(s.pattern, h)
      ensures |s.pattern.name| <= |r.pattern.name|
    {
      SuffixHasKey(s, h);
      var k := HeadKey(s)[0];
      HeadMatch(s, k, h);
      assert k in names && |k.key| <= |n.key|;
      LongerBase(r, n, s, k, h);
    }
  }

  lemma SuffixHasKey(r: Rule, h: Str)
    ensures SuffixMatches(r.pattern, h) ==> |HeadKey(r)| == 1
  {
  }

  lemma LongerBase(r: Rule, n: W.Name, s: Rule, k: W.Name, h: Str)
    requires HeadKey(r) == [n] && HeadKey(s) == [k] && Sound(r.pattern) && Sound(s.pattern)
    requires SuffixMatches(r.pattern, h) && SuffixMatches(s.pattern, h) && |k.key| <= |n.key|
    ensures |s.pattern.name| <= |r.pattern.name|
  {
    hide W.RevLabels, W.Match;
    HeadMatch(r, n, h);
    HeadMatch(s, k, h);
    W.MatchIsPrefix(W.Head, n.key, W.RevLabels(h));
    W.MatchIsPrefix(W.Head, k.key, W.RevLabels(h));
    assert |k.key| == |n.key| ==> k.key == n.key;
  }

  lemma TailBest(rules: seq<Rule>, names: seq<W.Name>, h: Str, v: nat)
    requires GoodRules(rules) && IsSortOf(names, TailsOf(rules))
    requires W.Longest(W.Tail, names, h, v)
    ensures BestPrefix(rules, h, v)
  {
    hide Sound, ConflictFree;
    SameMembers(names, TailsOf(rules));
    TailsMember(rules);
    if v == 0 {
      forall r | r in rules
        ensures !PrefixMatches(r.pattern, h)
      {
        assert r.pattern.Prefix? ==> W.Name(r.pattern.name, r.value) in names;
      }
    } else {
      var n :| n in names && n.value == v && W.Match(W.Tail, n.key, h)
        && forall m | m in names && W.Match(W.Tail, m.key, h) :: |m.key| <= |n.key|;
      assert Rule(Prefix(n.key), n.value) in rules;
      forall s | s in rules && PrefixMatches(s.pattern, h)
        ensures |s.pattern.name| <= |n.key|
      {
        assert W.Name(s.pattern.name, s.value) in names;
      }
    }
  }

  // ----- The combined hash -----------------------------------------------------------------------------------

  /** `ngx_hash_combined_t`: `None` is a NULL pointer. */
  datatype Combined = Combined(hash: Option<H.Table>, wcHead: Option<nat>, wcTail: Option<nat>)

  ghost predicate TrieBuilt(root: Option<nat>, nodes: W.Nodes, contents: W.Contents, names: seq<W.Name>) {
    if root.None? then names == []
    else W.RootRep(nodes, contents, root.value, names) && nodes[root.value].value == 0
  }

  ghost predicate ExactBuilt(c: Combined, rules: seq<Rule>) {
    if c.hash.None? then KeysOf(rules) == []
    else H.Represents(c.hash.value, H.Entries(KeysOf(rules)))
  }

  /** The stored exact keys: name, hash and value of every exact rule. */
  lemma {:induction false} ExactEntries(rules: seq<Rule>)
    requires forall r | r in rules :: IsLower(r.pattern.name)
    ensures forall e | e in H.Entries(KeysOf(rules)) ::
      e.hash == H.HashKey(e.name) && Rule(Exact(e.name), e.value) in rules
    ensures forall r | r in rules && r.pattern.Exact? ::
      exists e | e in H.Entries(KeysOf(rules)) :: e.name == r.pattern.name && e.value == r.value
  {
    hide H.HashKey, H.Entries, KeysOf;
    if rules == [] {
      NoEntries();
    } else {
      var init, r := rules[..|rules| - 1], rules[|rules| - 1];
      ExactEntries(init);
      assert rules == init + [r];
      EntriesOfLast(init, r);
    }
  }

  lemma NoEntries()
    ensures H.Entries(KeysOf([])) == []
  {
  }

  lemma EntriesOfLast(rules: seq<Rule>, r: Rule)
    requires IsLower(r.pattern.name)
    ensures H.Entries(KeysOf(rules + [r])) == H.Entries(KeysOf(rules))
      + if r.pattern.Exact? then [H.Entry(r.pattern.name, H.HashKey(r.pattern.name), r.value)] else []
  {
    hide H.HashKey, H.Entries, KeysOf, HeadsOf, TailsOf;
    RulesStep(rules, r);
    var keys := KeysOf(rules);
    if r.pattern.Exact? {
      var all := keys + [H.Key(Some(r.pattern.name), H.HashKey(r.pattern.name), r.value)];
      H.EntriesStep(all, |keys|);
      assert all[..|keys|] == keys && all[..|keys| + 1] == all;
      LowerStrFixesLower(r.pattern.name);
    }
  }

  /** Lookup among the exact keys. */
  lemma ExactLookup(rules: seq<Rule>, h: Str)
    requires GoodRules(rules)
    ensures var v := H.Lookup(H.Entries(KeysOf(rules)), h);
      && (v != 0 ==> Rule(Exact(h), v) in rules)
      && (v == 0 ==> forall r | r in rules :: r.pattern != Exact(h))
  {
    ExactEntries(rules);
    var es := H.Entries(KeysOf(rules));
    if i :| 0 <= i < |es| && es[i].name == h && forall j | 0 <= j < i :: es[j].name != h {
      assert es[i] in es;
      H.LookupAt(es, i, h);
    } else {
      NoFirst(es, h, |es|);
      H.LookupAbsent(es, h);
    }
  }

  lemma {:induction false} NoFirst(es: seq<H.Entry>, h: Str, n: nat)
    requires n <= |es|
    requires forall i | 0 <= i < |es| && (forall j | 0 <= j < i :: es[j].name != h) :: es[i].name != h
    ensures forall i | 0 <= i < n :: es[i].name != h
  {
    if n > 0 {
      NoFirst(es, h, n - 1);
    }
  }

  /** `ngx_hash_find_combined`: what is built from the accepted keys resolves every host as the patterns
      say. */
  method FindCombined(c: Combined, nodes: W.Nodes, ghost contents: W.Contents, key: nat, name: Str,
                      ghost rules: seq<Rule>, ghost heads: seq<W.Name>, ghost tails: seq<W.Name>)
    returns (v: nat)
    requires GoodRules(rules) && Orderly(rules) && key == H.HashKey(name)
    requires IsSortOf(heads, HeadsOf(rules)) && IsSortOf(tails, TailsOf(rules))
    requires ExactBuilt(c, rules)
    requires TrieBuilt(c.wcHead, nodes, contents, heads) && TrieBuilt(c.wcTail, nodes, contents, tails)
    ensures Resolves(rules, name, v)
  {
    hide GoodRules, Orderly, IsSortOf, BestSuffix, BestPrefix, KeysOf, HeadsOf, TailsOf, SuffixMatches,
         W.Rep, W.Longest, W.RevLabels, H.Represents, H.Lookup, H.HashKey, H.Entries;
    ExactLookup(rules, name);
    if c.hash.Some? {
      ExactHashes(rules);
      v := H.Find(c.hash.value, key, name, H.Entries(KeysOf(rules)));
      if v != 0 {
        return v;
      }
    } else {
      NoExact(rules, name);
    }
    if |name| == 0 {
      EmptyHost(rules);
      return 0;
    }
    HeadsGood(rules, heads);
    if c.wcHead.Some? {
      W.RootIsRep(nodes, contents, c.wcHead.value, heads);
      ghost var a := c.wcHead.value;
      W.RepStores(nodes, contents, nodes[a].table, contents[a], heads, W.FirstLabel(W.RevLabels(name)));
      v := W.FindHead(nodes, contents, c.wcHead.value, name, heads);
      HeadBest(rules, heads, name, v);
      SuffixFound(rules, name, v);
      if v != 0 {
        return v;
      }
    } else {
      NoNames(W.Head, W.RevLabels(name));
      HeadBest(rules, heads, name, 0);
      SuffixFound(rules, name, 0);
    }
    TailsGood(rules, tails);
    if c.wcTail.Some? {
      W.RootIsRep(nodes, contents, c.wcTail.value, tails);
      v := W.FindTail(nodes, contents, c.wcTail.value, name, tails);
      TailBest(rules, tails, name, v);
      return v;
    }
    NoNames(W.Tail, name);
    TailBest(rules, tails, name, 0);
    return 0;
  }

  lemma ExactHashes(rules: seq<Rule>)
    requires GoodRules(rules)
    ensures forall e | e in H.Entries(KeysOf(rules)) :: e.hash == H.HashKey(e.name)
  {
    ExactEntries(rules);
  }

  lemma NoExact(rules: seq<Rule>, h: Str)
    requires KeysOf(rules) == []
    ensures H.Lookup(H.Entries(KeysOf(rules)), h) == 0
  {
  }

  lemma NoNames(mode: W.Mode, r: Str)
    ensures W.Longest(mode, [], r, 0)
  {
  }

  lemma SuffixFound(rules: seq<Rule>, h: Str, v: nat)
    requires BestSuffix(rules, h, v)
    ensures v != 0 <==> exists r | r in rules :: SuffixMatches(r.pattern, h)
  {
  }

  /** No wildcard stands for the empty name. */
  lemma EmptyHost(rules: seq<Rule>)
    requires GoodRules(rules)
    ensures forall r | r in rules :: !SuffixMatches(r.pattern, [])
    ensures BestPrefix(rules, [], 0)
  {
    hide ConflictFree;
  }

  /** The answer is determined by the accepted keys. */
  lemma ResolvesUnique(rules: seq<Rule>, h: Str, v: nat, w: nat)
    requires GoodRules(rules) && Resolves(rules, h, v) && Resolves(rules, h, w)
    ensures v == w
  {
    hide GoodRules, SuffixMatches, PrefixMatches, IsBelow, BestPrefix;
    if exists r | r in rules :: r.pattern == Exact(h) {
      SameRule(rules, Rule(Exact(h), v), Rule(Exact(h), w));
    } else if exists r | r in rules :: SuffixMatches(r.pattern, h) {
      SuffixUnique(rules, h, v, w);
    } else {
      PrefixUnique(rules, h, v, w);
    }
  }

  lemma SuffixUnique(rules: seq<Rule>, h: Str, v: nat, w: nat)
    requires GoodRules(rules) && BestSuffix(rules, h, v) && BestSuffix(rules, h, w) && v != 0 && w != 0
    ensures v == w
  {
    hide GoodRules, SuffixMatches;
    var r :| r in rules && r.value == v && SuffixMatches(r.pattern, h)
      && forall s | s in rules && SuffixMatches(s.pattern, h) :: |s.pattern.name| <= |r.pattern.name|;
    var s :| s in rules && s.value == w && SuffixMatches(s.pattern, h)
      && forall t | t in rules && SuffixMatches(t.pattern, h) :: |t.pattern.name| <= |s.pattern.name|;
    SuffixIsEnd(r.pattern, h);
    SuffixIsEnd(s.pattern, h);
    SameRule(rules, r, s);
  }

  lemma SuffixIsEnd(p: Pattern, h: Str)
    requires SuffixMatches(p, h)
    ensures |p.name| <= |h| && p.name == h[|h| - |p.name|..]
    ensures p.Below? || p.AtOrBelow?
  {
    if IsBelow(h, p.name) {
      assert p.name == h[|h| - |p.name| - 1..][1..];
    }
  }

  lemma PrefixUnique(rules: seq<Rule>, h: Str, v: nat, w: nat)
    requires GoodRules(rules) && BestPrefix(rules, h, v) && BestPrefix(rules, h, w)
    ensures v == w
  {
    hide GoodRules;
    if v != 0 && w != 0 {
      var r :| r in rules && r.value == v && PrefixMatches(r.pattern, h)
        && forall s | s in rules && PrefixMatches(s.pattern, h) :: |s.pattern.name| <= |r.pattern.name|;
      var s :| s in rules && s.value == w && PrefixMatches(s.pattern, h)
        && forall t | t in rules && PrefixMatches(t.pattern, h) :: |t.pattern.name| <= |s.pattern.name|;
      assert r.pattern.name == h[..|r.pattern.name|];
      assert s.pattern.name == h[..|s.pattern.name|];
      SameRule(rules, r, s);
    }
  }

  /** Accepted keys on the same level with the same base are one key. */
  lemma SameRule(rules: seq<Rule>, r: Rule, s: Rule)
    requires GoodRules(rules) && r in rules && s in rules && Conflict(r.pattern, s.pattern)
    requires Conflict(s.pattern, r.pattern)
    ensures r == s
  {
    hide Conflict;
    var i :| 0 <= i < |rules| && rules[i] == r;
    var j :| 0 <= j < |rules| && rules[j] == s;
  }

  // ----- Building it -------------------------------------------------------------------------------------------

  lemma RootExtends(nodes: W.Nodes, contents: W.Contents, nodes': W.Nodes, contents': W.Contents,
                    a: nat, names: seq<W.Name>)
    requires W.RootRep(nodes, contents, a, names) && W.Extends(nodes, contents, nodes', contents')
    ensures W.RootRep(nodes', contents', a, names) && nodes'[a] == nodes[a]
  {
    W.RepExtends(nodes - {a}, contents - {a}, nodes' - {a}, contents' - {a}, nodes[a].table, contents[a], names);
  }

  /** Every key fits into the tables of the configuration. */
  ghost predicate Fitting(cfg: H.Config, rules: seq<Rule>) {
    && (KeysOf(rules) != [] ==> H.Buildable(cfg, |KeysOf(rules)|, H.Entries(KeysOf(rules))))
    && (HeadsOf(rules) != [] ==> W.Tame(cfg, HeadsOf(rules)))
    && (TailsOf(rules) != [] ==> W.Tame(cfg, TailsOf(rules)))
  }

  /** The exact hash, when there are exact keys. */
  method BuildExact(keys: seq<H.Key>, cfg: H.Config, pool: W.Pool, ghost rules: seq<Rule>)
    returns (ok: bool, t: Option<H.Table>)
    requires GoodRules(rules) && keys == KeysOf(rules) && W.GoodConfig(cfg) && pool.Valid()
    modifies pool.system
    ensures pool.Valid()
    ensures ok ==> if t.None? then KeysOf(rules) == [] else H.Represents(t.value, H.Entries(KeysOf(rules)))
    ensures ok && KeysOf(rules) != [] ==> H.Buildable(cfg, |KeysOf(rules)|, H.Entries(KeysOf(rules)))
    ensures !ok && H.Buildable(cfg, |KeysOf(rules)|, H.Entries(KeysOf(rules))) ==>
      pool.system.Refused(old(pool.system.asked))
    ensures !ok ==> KeysOf(rules) != []
    ensures old(pool.system.asked) <= pool.system.asked
  {
    ExactKeys(rules);
    ok, t := true, None;
    if |keys| > 0 {
      var al, chunk := pool.AllocHash();
      var trap;
      t, trap := H.Init(cfg, keys, al, chunk);
      ok := t.Some?;
    }
  }

  /** The wildcards, sorted for the trie builder. */
  method SortKeys(ha: KeysArrays, ghost cfg: H.Config) returns (hs: seq<W.Name>, ts: seq<W.Name>)
    requires ha.Valid() && GoodRules(ha.book.rules) && Orderly(ha.book.rules)
    ensures IsSortOf(hs, ha.head) && IsSortOf(ts, ha.tail)
    ensures W.GoodNames(hs) && W.GoodNames(ts)
    ensures hs != [] && Fitting(cfg, ha.book.rules) ==> W.Tame(cfg, hs)
    ensures ts != [] && Fitting(cfg, ha.book.rules) ==> W.Tame(cfg, ts)
  {
    ghost var rules := ha.book.rules;
    KeysPlain(rules);
    SortNamesSorts(ha.head);
    SortNamesSorts(ha.tail);
    hs, ts := SortNames(ha.head), SortNames(ha.tail);
    HeadsGood(rules, hs);
    TailsGood(rules, ts);
    SortTame(cfg, hs, ha.head);
    SortTame(cfg, ts, ha.tail);
  }

  /** One trie for each kind of wildcard that there is. */
  method BuildTries(pool: W.Pool, cfg: H.Config, hs: seq<W.Name>, ts: seq<W.Name>)
    returns (ok: bool, wcHead: Option<nat>, wcTail: Option<nat>)
    requires W.GoodNames(hs) && W.GoodNames(ts) && pool.Valid() && W.GoodConfig(cfg)
    modifies pool, pool.system
    ensures pool.Valid()
    ensures ok ==> TrieBuilt(wcHead, pool.nodes, pool.contents, hs)
    ensures ok ==> TrieBuilt(wcTail, pool.nodes, pool.contents, ts)
    ensures !ok && (hs != [] ==> W.Tame(cfg, hs)) && (ts != [] ==> W.Tame(cfg, ts)) ==>
      pool.system.Refused(old(pool.system.asked))
    ensures old(pool.system.asked) <= pool.system.asked
  {
    hide W.RootRep, W.RunRoot, W.GoodNames, W.GoodRuns, W.Extends, W.Tame;
    W.GoodHasGoodRuns(hs);
    W.GoodHasGoodRuns(ts);
    ok, wcHead, wcTail := false, None, None;
    ghost var asked := pool.system.asked;
    if |hs| > 0 {
      wcHead := W.Build(pool, cfg, hs);
      if wcHead.None? {
        return;
      }
    }
    if |ts| > 0 {
      ghost var nodes, contents := pool.nodes, pool.contents;
      asked := pool.system.asked;
      wcTail := W.Build(pool, cfg, ts);
      pool.system.RefusedEarlier(old(pool.system.asked), asked);
      if wcTail.None? {
        return;
      }
      if wcHead.Some? {
        RootExtends(nodes, contents, pool.nodes, pool.contents, wcHead.value, hs);
      }
    }
    ok := true;
  }

  /** The build of one address's server names: the exact hash and the two tries, from the collected
      keys and their sorted wildcards. It fails only for memory or for keys that do not fit. */
  method BuildCombined(ha: KeysArrays, cfg: H.Config, pool: W.Pool)
    returns (r: Option<Combined>, ghost heads: seq<W.Name>, ghost tails: seq<W.Name>)
    requires ha.Valid() && GoodRules(ha.book.rules) && Orderly(ha.book.rules) && pool.Valid() && W.GoodConfig(cfg)
    modifies pool, pool.system
    ensures pool.Valid() && IsSortOf(heads, ha.head) && IsSortOf(tails, ha.tail)
    ensures r.Some? ==>
      && ExactBuilt(r.value, ha.book.rules)
      && TrieBuilt(r.value.wcHead, pool.nodes, pool.contents, heads)
      && TrieBuilt(r.value.wcTail, pool.nodes, pool.contents, tails)
      && (ha.keys != [] ==> H.Buildable(cfg, |ha.keys|, H.Entries(ha.keys)))
    ensures r.None? && Fitting(cfg, ha.book.rules) ==> pool.system.Refused(old(pool.system.asked))
    ensures old(pool.system.asked) <= pool.system.asked
  {
    hide Buckets, GoodRules, Orderly, IsSortOf, KeysOf, HeadsOf, TailsOf, W.RootRep, W.GoodNames, W.Extends, W.Tame,
         W.Granted, W.Allocates, H.Entries, H.Represents, H.Buildable, TrieBuilt, Requests.Refused;
    ghost var rules := ha.book.rules;
    var hs, ts := SortKeys(ha, cfg);
    heads, tails := hs, ts;
    var ok, t := BuildExact(ha.keys, cfg, pool, rules);
    if !ok {
      return None, heads, tails;
    }
    ghost var asked := pool.system.asked;
    var wcHead, wcTail;
    ok, wcHead, wcTail := BuildTries(pool, cfg, hs, ts);
    pool.system.RefusedEarlier(old(pool.system.asked), asked);
    r := if ok then Some(Combined(t, wcHead, wcTail)) else None;
  }

  lemma {:induction false} ExactKeys(rules: seq<Rule>)
    requires forall r | r in rules :: 0 < r.value < TWO64
    ensures forall k | k in KeysOf(rules) :: k.name.Some? && 0 < k.value < TWO64
    ensures KeysOf(rules) != [] ==> H.Entries(KeysOf(rules)) != []
  {
    if rules != [] {
      ExactKeys(rules[..|rules| - 1]);
    }
    var ks := KeysOf(rules);
    if ks != [] {
      assert ks[|ks| - 1] in ks;
    }
  }
}
