/** The names of one address's servers (ngx_http.c): from the keys of the configuration through
    `ngx_hash_add_key` and the build to the answer for every host. */
module ServerNames {
  import opened Bytes
  import opened DnsNames
  import opened HashKeys
  import opened CombinedHash
  import opened NameOffers
  import opened NameOrder
  import opened System
  import H = HashTable
  import W = WildcardHash

  lemma PatternLower(o: Offer)
    requires Wanted(o)
    ensures Sound(PatternOf(o)) && IsLower(PatternOf(o).name)
  {
    RecordedIsSound(o.key, true, false);
  }

  lemma AddedRules(b: Book, p: Pattern, value: nat)
    ensures forall r | r in Add(b, p, value).1.rules :: r in b.rules || r == Rule(p, value)
    ensures AddStep(b, p, value, Add(b, p, value).0, Add(b, p, value).1)
  {
  }

  /** What is collected can be built: the accepted keys are free of conflicts, sound and in lower case. */
  lemma {:induction false} CollectedGood(offers: seq<Offer>)
    requires forall o | o in offers :: Wanted(o) && W.GoodValue(o.server)
    ensures Inv(Collected(offers)) && GoodRules(Collected(offers).rules)
  {
    if offers != [] {
      var init, o := offers[..|offers| - 1], offers[|offers| - 1];
      assert o in offers && forall x | x in init :: x in offers;
      CollectedGood(init);
      PatternLower(o);
      var b, p := Collected(init), PatternOf(o);
      AddedRules(b, p, o.server);
      StepKeepsInv(b, p, o.server, Add(b, p, o.server).0, Add(b, p, o.server).1);
      GoodFromInv(Add(b, p, o.server).1);
    }
  }

  lemma GoodFromInv(b: Book)
    requires Inv(b)
    ensures ConflictFree(b.rules) && forall r | r in b.rules :: Sound(r.pattern)
  {
  }

  lemma CollectStep(offers: seq<Offer>, i: nat)
    requires i < |offers| && forall o | o in offers[..i + 1] :: Wanted(o)
    ensures offers[i] in offers[..i + 1]
    ensures forall o | o in offers[..i] :: Wanted(o)
    ensures Collected(offers[..i + 1]) == Add(Collected(offers[..i]), PatternOf(offers[i]), offers[i].server).1
  {
    assert offers[..i + 1][..i] == offers[..i] && offers[..i + 1][i] == offers[i];
    assert forall o | o in offers[..i] :: o in offers[..i + 1];
  }

  /** The loop over the names: a malformed one is an error, a conflicting one is ignored. */
  method CollectKeys(offers: seq<Offer>, system: Requests) returns (rc: Status, ha: KeysArrays)
    modifies system
    ensures fresh(ha) && ha.Valid() && ha.system == system && (rc == Ok || rc == Declined || rc == Error)
    ensures old(system.asked) <= system.asked && (rc == Error <==> system.Refused(old(system.asked)))
    ensures rc == Declined ==> exists o :: o in offers && !Wanted(o)
    ensures rc == Ok ==> (forall o | o in offers :: Wanted(o)) && ha.book == Collected(offers)
  {
    hide Wanted, PatternOf, Add;
    ha := new KeysArrays(LARGE, system);
    assert offers[..0] == [];
    for i := 0 to |offers|
      invariant fresh(ha) && ha.Valid() && ha.system == system
      invariant old(system.asked) <= system.asked && !system.Refused(old(system.asked))
      invariant (forall o | o in offers[..i] :: Wanted(o)) && ha.book == Collected(offers[..i])
    {
      var o := offers[i];
      rc := AddOffer(ha, o);
      if rc == Error || rc == Declined {
        return;
      }
      assert offers[..i + 1] == offers[..i] + [o];
      CollectStep(offers, i);
    }
    assert offers[..|offers|] == offers;
    rc := Ok;
  }

  lemma TextOf(o: Offer) returns (p: Pattern)
    ensures Wanted(o) <==> exists q | Writable(q) :: o.key == Text(q)
    ensures Wanted(o) ==> Writable(p) && o.key == Text(p) && Recorded(p, false) == PatternOf(o)
  {
    hide Text, Writable, Classify, Recorded;
    KeyText(o.key);
    p := if Wanted(o) then Classify(o.key, true).value else Exact([]);
    ClassifyIff(o.key, p);
  }

  method AddOffer(ha: KeysArrays, o: Offer) returns (rc: Status)
    requires ha.Valid()
    modifies ha, ha.system
    ensures ha.Valid() && old(ha.system.asked) <= ha.system.asked
    ensures rc == Error <==> ha.system.Refused(old(ha.system.asked))
    ensures rc == Declined <==> !Wanted(o)
    ensures rc == Ok || rc == Busy ==> ha.book == Add(old(ha.book), PatternOf(o), o.server).1
  {
    hide Text, Writable, Classify, Buckets, Add, Recorded, Inv;
    ghost var p := TextOf(o);
    rc := ha.AddKey(o.key, o.server, true, false);
  }

  lemma KeptKeys(ha: KeysArrays)
    requires ha.Valid()
    ensures ha.keys == KeysOf(ha.book.rules)
    ensures ha.head == HeadsOf(ha.book.rules) && ha.tail == TailsOf(ha.book.rules)
  {
  }

  /** A combined hash that answers for these rules. */
  ghost predicate Ready(c: Combined, pool: W.Pool, rules: seq<Rule>, heads: seq<W.Name>, tails: seq<W.Name>)
    reads pool
  {
    && IsSortOf(heads, HeadsOf(rules)) && IsSortOf(tails, TailsOf(rules))
    && ExactBuilt(c, rules)
    && TrieBuilt(c.wcHead, pool.nodes, pool.contents, heads)
    && TrieBuilt(c.wcTail, pool.nodes, pool.contents, tails)
  }

  /** `ngx_http_server_names`. Unless a name is malformed, memory is refused or the keys do not fit the tables,
      a combined hash for the accepted patterns is built. */
  method Build(offers: seq<Offer>, cfg: H.Config, pool: W.Pool)
    returns (rc: Status, c: Combined, ghost heads: seq<W.Name>, ghost tails: seq<W.Name>)
    requires W.GoodConfig(cfg) && pool.Valid() && forall o | o in offers :: W.GoodValue(o.server)
    requires (forall o | o in offers :: Wanted(o)) ==> Orderly(Collected(offers).rules)
    modifies pool, pool.system
    ensures rc == Ok || rc == Declined || rc == Error
    ensures rc == Declined ==> exists o :: o in offers && !Wanted(o)
    ensures rc == Error ==>
      || pool.system.Refused(old(pool.system.asked))
      || ((forall o | o in offers :: Wanted(o)) && !Fitting(cfg, Collected(offers).rules))
    ensures rc == Ok ==>
      && (forall o | o in offers :: Wanted(o))
      && Ready(c, pool, Collected(offers).rules, heads, tails)
  {
    hide GoodRules, Inv;
    hide Wanted, Collected, Fitting, Orderly, W.GoodValue, TrieBuilt, ExactBuilt, IsSortOf, HeadsOf, TailsOf, Buckets,
         W.Granted, W.Allocates, Requests.Refused;
    c, heads, tails := Combined(None, None, None), [], [];
    ghost var asked := pool.system.asked;
    var ha;
    rc, ha := CollectKeys(offers, pool.system);
    W.GrantedMore(pool.system.grants, asked, pool.system.asked, pool.nodes.Keys);
    if rc != Ok {
      return;
    }
    CollectedGood(offers);
    KeptKeys(ha);
    ghost var mid := pool.system.asked;
    var r;
    r, heads, tails := BuildCombined(ha, cfg, pool);
    pool.system.RefusedEarlier(asked, mid);
    if r.None? {
      rc := Error;
      return;
    }
    c := r.value;
  }

  /** An offer is taken exactly when its key is proper, and the answers are those of the keys. */
  lemma AllProper(offers: seq<Offer>)
    ensures (forall o | o in offers :: Wanted(o)) <==> forall o | o in offers :: Proper(o.key)
    ensures (exists o :: o in offers && !Wanted(o)) <==> exists o :: o in offers && !Proper(o.key)
  {
    hide Wanted, Proper;
    forall o
      ensures Wanted(o) <==> Proper(o.key)
    {
      WantedIff(o);
    }
  }

  lemma AllServed(offers: seq<Offer>, hosts: seq<Str>, answers: seq<nat>)
    requires (forall o | o in offers :: Wanted(o)) && |answers| == |hosts|
    requires forall i | 0 <= i < |hosts| :: Resolves(Collected(offers).rules, hosts[i], answers[i])
    ensures forall i | 0 <= i < |hosts| :: Served(offers, hosts[i], answers[i])
  {
    hide Wanted, Resolves, Collected, Served;
    forall i | 0 <= i < |hosts|
      ensures Served(offers, hosts[i], answers[i])
    {
      ServedIs(offers, hosts[i], answers[i]);
    }
  }

  /** From the keys of the configuration to the answers. Unless the system refuses memory, a name is malformed or
      the keys do not fit the tables, every host gets what the accepted keys say. */
  method Serve(offers: seq<Offer>, cfg: H.Config, hosts: seq<Str>, system: Requests)
    returns (rc: Status, answers: seq<nat>)
    requires W.GoodConfig(cfg) && W.Allocates(system.grants) && forall o | o in offers :: W.GoodValue(o.server)
    requires (forall o | o in offers :: Wanted(o)) ==> Orderly(Collected(offers).rules)
    modifies system
    ensures rc == Ok || rc == Declined || rc == Error
    ensures rc == Declined ==> exists o :: o in offers && !Proper(o.key)
    ensures rc == Error ==>
      || system.Refused(old(system.asked))
      || ((forall o | o in offers :: Wanted(o)) && !Fitting(cfg, Collected(offers).rules))
    ensures rc == Ok ==>
      && (forall o | o in offers :: Proper(o.key))
      && |answers| == |hosts|
      && forall i | 0 <= i < |hosts| :: Served(offers, hosts[i], answers[i])
  {
    hide Served, Proper, GoodRules, Inv;
    hide Wanted, Collected, Fitting, Orderly, W.GoodValue, TrieBuilt, ExactBuilt, IsSortOf, HeadsOf, TailsOf, Resolves,
         W.Granted, W.Allocates, Requests.Refused;
    answers := [];
    AllProper(offers);
    var pool := new W.Pool(system);
    var c;
    ghost var heads, tails;
    rc, c, heads, tails := Build(offers, cfg, pool);
    if rc != Ok {
      return;
    }
    ghost var rules, contents := Collected(offers).rules, pool.contents;
    var nodes := pool.nodes;
    CollectedGood(offers);
    for i := 0 to |hosts|
      invariant |answers| == i && forall k | 0 <= k < i :: Resolves(rules, hosts[k], answers[k])
    {
      var key := W.KeyOf(hosts[i]);
      var v := FindCombined(c, nodes, contents, key, hosts[i], rules, heads, tails);
      answers := answers + [v];
    }
    AllServed(offers, hosts, answers);
  }

  /** Names without control characters and spaces need no further condition. */
  lemma PrintableOffers(offers: seq<Offer>)
    requires forall o | o in offers :: Wanted(o) && Printable(o.key)
    ensures Orderly(Collected(offers).rules)
  {
    PrintableRules(offers);
    PrintableIsOrderly(Collected(offers).rules);
  }

  lemma {:induction false} PrintableRules(offers: seq<Offer>)
    requires forall o | o in offers :: Wanted(o) && Printable(o.key)
    ensures forall r | r in Collected(offers).rules :: Printable(r.pattern.name)
  {
    hide Add, PatternOf, Printable, Wanted;
    if offers != [] {
      var init, o := offers[..|offers| - 1], offers[|offers| - 1];
      assert o in offers && forall x | x in init :: x in offers;
      PrintableRules(init);
      PrintablePattern(o);
      AddedRules(Collected(init), PatternOf(o), o.server);
    }
  }

  lemma PrintablePattern(o: Offer)
    requires Wanted(o) && Printable(o.key)
    ensures Printable(PatternOf(o).name)
  {
  }
}
