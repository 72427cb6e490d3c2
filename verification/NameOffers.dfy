/** The server names of a configuration as texts: which of them are accepted, and which one answers for a host. */
module NameOffers {
  import opened Bytes
  import opened CombinedHash
  import opened DnsNames
  import opened HashKeys

  /** A server name of the configuration and the server it stands for. */
  datatype Offer = Offer(key: Str, server: nat)

  /** NGX_HASH_LARGE. */
  const LARGE: Size := 10007

  ghost predicate Wanted(o: Offer) {
    Classify(o.key, true).Some?
  }

  ghost function PatternOf(o: Offer): Pattern
    requires Wanted(o)
  {
    Recorded(Classify(o.key, true).value, false)
  }

  /** The record after all keys; a conflicting one is ignored. */
  ghost function Collected(offers: seq<Offer>): Book
    requires forall o | o in offers :: Wanted(o)
  {
    if offers == [] then EmptyBook(LARGE)
    else
      var o := offers[|offers| - 1];
      Add(Collected(offers[..|offers| - 1]), PatternOf(o), o.server).1
  }

  // ----- Which patterns are accepted ---------------------------------------------------------------------

  ghost predicate Had(ps: seq<Pattern>, i: nat, p: Pattern)
    requires i <= |ps|
  {
    exists j | 0 <= j < i :: ps[j] == p
  }

  /** Pattern `i` is accepted: nothing before it is in its way. */
  ghost predicate Kept(ps: seq<Pattern>, i: nat)
    requires i < |ps|
  {
    match ps[i]
    case Exact(n) => !Had(ps, i, Exact(n)) && !Had(ps, i, AtOrBelow(n))
    case AtOrBelow(n) => !Had(ps, i, Exact(n)) && !Had(ps, i, AtOrBelow(n)) && !Had(ps, i, Below(n))
    case Below(n) =>
      !Had(ps, i, Below(n)) && forall j | 0 <= j < i && ps[j] == AtOrBelow(n) :: Had(ps, j, Exact(n))
    case Prefix(n) => !Had(ps, i, Prefix(n))
  }

  /** The record after the first `n` patterns. */
  ghost predicate Reflects(b: Book, ps: seq<Pattern>, vs: seq<nat>, n: nat)
    requires n <= |ps| == |vs|
  {
    && (forall x :: x in b.claimed <==> Had(ps, n, Exact(x)) || Had(ps, n, AtOrBelow(x)))
    && (forall x :: x in b.heads <==>
          Had(ps, n, Below(x)) || exists j | 0 <= j < n :: ps[j] == AtOrBelow(x) && Kept(ps, j))
    && (forall x :: x in b.tails <==> Had(ps, n, Prefix(x)))
    && (forall r :: r in b.rules <==> exists j | 0 <= j < n :: Kept(ps, j) && r == Rule(ps[j], vs[j]))
  }

  lemma HadStep(ps: seq<Pattern>, n: nat, p: Pattern)
    requires n < |ps|
    ensures Had(ps, n + 1, p) <==> Had(ps, n, p) || ps[n] == p
  {
  }

  /** The first of equal patterns. */
  lemma FirstOf(ps: seq<Pattern>, i: nat, p: Pattern) returns (j: nat)
    requires i <= |ps| && Had(ps, i, p)
    ensures j < i && ps[j] == p && !Had(ps, j, p)
  {
    j :| j < i && ps[j] == p;
    if Had(ps, j, p) {
      j := FirstOf(ps, j, p);
    }
  }

  /** An accepted ".n" came before, or all of them were behind "n". */
  lemma KeptDotted(ps: seq<Pattern>, i: nat, n: Str)
    requires i <= |ps| && !Had(ps, i, Below(n))
    ensures (exists j | 0 <= j < i :: ps[j] == AtOrBelow(n) && Kept(ps, j))
       <==> !(forall j | 0 <= j < i && ps[j] == AtOrBelow(n) :: Had(ps, j, Exact(n)))
  {
    if j :| 0 <= j < i && ps[j] == AtOrBelow(n) && !Had(ps, j, Exact(n)) {
      assert Had(ps, i, AtOrBelow(n));
      var k := FirstOf(ps, j + 1, AtOrBelow(n));
      assert !Had(ps, k, Exact(n)) && !Had(ps, k, Below(n));
      assert Kept(ps, k);
    }
  }

  /** A pattern is recorded exactly when it is accepted. */
  lemma OkIffKept(b: Book, ps: seq<Pattern>, vs: seq<nat>, n: nat)
    requires n < |ps| == |vs| && Reflects(b, ps, vs, n) && 0 !in ps[n].name
    ensures Add(b, ps[n], vs[n]).0 == Ok <==> Kept(ps, n)
  {
    hide Taken, Had, Kept;
    var x := ps[n].name;
    TakenIff(b, x);
    KeptIs(ps, n);
    if !Had(ps, n, Below(x)) {
      KeptDotted(ps, n, x);
    }
    if !Had(ps, n, AtOrBelow(x)) {
      NoDotted(ps, n, x);
    }
  }

  lemma KeptIs(ps: seq<Pattern>, i: nat)
    requires i < |ps|
    ensures Kept(ps, i) <==>
      match ps[i]
      case Exact(n) => !Had(ps, i, Exact(n)) && !Had(ps, i, AtOrBelow(n))
      case AtOrBelow(n) => !Had(ps, i, Exact(n)) && !Had(ps, i, AtOrBelow(n)) && !Had(ps, i, Below(n))
      case Below(n) =>
        !Had(ps, i, Below(n)) && forall j | 0 <= j < i && ps[j] == AtOrBelow(n) :: Had(ps, j, Exact(n))
      case Prefix(n) => !Had(ps, i, Prefix(n))
  {
  }

  lemma NoDotted(ps: seq<Pattern>, i: nat, n: Str)
    requires i <= |ps| && !Had(ps, i, AtOrBelow(n))
    ensures forall j | 0 <= j < i :: ps[j] != AtOrBelow(n)
  {
  }

  /** One more pattern. */
  lemma ReflectStep(b: Book, ps: seq<Pattern>, vs: seq<nat>, n: nat)
    requires n < |ps| == |vs| && Reflects(b, ps, vs, n) && 0 !in ps[n].name
    ensures Reflects(Add(b, ps[n], vs[n]).1, ps, vs, n + 1)
  {
    hide Taken, Had, Kept;
    var c, x := Add(b, ps[n], vs[n]).1, ps[n].name;
    TakenIff(b, x);
    OkIffKept(b, ps, vs, n);
    KeptIs(ps, n);
    forall y
      ensures y in c.claimed <==> Had(ps, n + 1, Exact(y)) || Had(ps, n + 1, AtOrBelow(y))
      ensures y in c.tails <==> Had(ps, n + 1, Prefix(y))
      ensures y in c.heads <==>
        Had(ps, n + 1, Below(y)) || exists j | 0 <= j < n + 1 :: ps[j] == AtOrBelow(y) && Kept(ps, j)
    {
      HadStep(ps, n, Exact(y));
      HadStep(ps, n, AtOrBelow(y));
      HadStep(ps, n, Below(y));
      HadStep(ps, n, Prefix(y));
      if ps[n] == AtOrBelow(y) && Kept(ps, n) {
        assert y in c.heads;
      }
    }
    forall r
      ensures r in c.rules <==> exists j | 0 <= j < n + 1 :: Kept(ps, j) && r == Rule(ps[j], vs[j])
    {
      assert r in c.rules <==> r in b.rules || (Kept(ps, n) && r == Rule(ps[n], vs[n]));
    }
  }

  // ----- What the keys say, as texts -----------------------------------------------------------------------

  ghost function Patterns(offers: seq<Offer>): (ps: seq<Pattern>)
    requires forall o | o in offers :: Wanted(o)
    ensures |ps| == |offers| && forall i | 0 <= i < |ps| :: ps[i] == PatternOf(offers[i])
  {
    seq(|offers|, i requires 0 <= i < |offers| => PatternOf(offers[i]))
  }

  ghost function Servers(offers: seq<Offer>): (vs: seq<nat>)
    ensures |vs| == |offers| && forall i | 0 <= i < |vs| :: vs[i] == offers[i].server
  {
    seq(|offers|, i requires 0 <= i < |offers| => offers[i].server)
  }

  /** A key that `ngx_hash_add_key` takes: at most one star, and then as "*.x", ".x" or "x.*". */
  ghost predicate Proper(key: Str) {
    Regular(key) &&
    (42 in key ==>
       || (|key| > 1 && key[0] == 46)
       || (|key| > 2 && key[0] == 42 && key[1] == 46)
       || (|key| > 2 && key[|key| - 2] == 46 && key[|key| - 1] == 42))
  }

  lemma WantedIff(o: Offer)
    ensures Wanted(o) <==> Proper(o.key)
  {
    hide Stars, Regular;
    WellFormedIff(o.key);
    StarsIff(o.key);
  }

  /** The key of an offer in small letters. */
  ghost function Low(o: Offer): Str {
    LowerStr(o.key)
  }

  /** An earlier key is `t`. */
  ghost predicate Before(offers: seq<Offer>, i: nat, t: Str)
    requires i <= |offers|
  {
    exists j | 0 <= j < i :: Low(offers[j]) == t
  }

  /** First come, first served: "n" loses against an earlier "n" or ".n"; ".n" against an earlier "n", ".n" or
      "*.n"; "*.n" against an earlier "*.n", or ".n" unless that was lost to a still earlier "n"; "n.*" against an
      earlier "n.*". */
  ghost predicate Accepted(offers: seq<Offer>, i: nat)
    requires i < |offers|
  {
    var t := Low(offers[i]);
    if |t| > 1 && t[0] == 46 then
      var n := t[1..];
      !(42 !in n && Before(offers, i, n)) && !Before(offers, i, t) && !Before(offers, i, [42] + t)
    else if |t| > 2 && t[0] == 42 then
      !Before(offers, i, t) && forall j | 0 <= j < i && Low(offers[j]) == t[1..] :: Before(offers, j, t[2..])
    else if |t| > 2 && t[|t| - 1] == 42 then
      !Before(offers, i, t)
    else
      !Before(offers, i, t) && !(t != [] && Before(offers, i, [46] + t))
  }

  lemma LowText(o: Offer)
    requires Wanted(o)
    ensures Low(o) == Text(PatternOf(o)) && Writable(PatternOf(o))
  {
    var p := Classify(o.key, true).value;
    ClassifyIff(o.key, p);
    LowWritable(p);
  }

  lemma LowWritable(p: Pattern)
    requires Writable(p)
    ensures Writable(Recorded(p, false)) && Text(Recorded(p, false)) == LowerStr(Text(p))
  {
    var t, u := Text(p), Text(Recorded(p, false));
    assert u == LowerStr(t);
    assert forall i | 0 <= i < |t| :: u[i] == Lower(t[i]);
  }

  lemma PatternIff(o: Offer, p: Pattern)
    requires Wanted(o) && (Writable(p) || !Regular(Text(p)))
    ensures PatternOf(o) == p <==> Low(o) == Text(p)
  {
    hide Regular, Wanted, PatternOf, Text, Low;
    var q := PatternOf(o);
    LowText(o);
    if Text(q) == Text(p) {
      assert Regular(Text(q));
      SameText(p, q);
    }
  }

  /** An earlier pattern is `p` when an earlier key is its text. */
  lemma HadIff(offers: seq<Offer>, i: nat, p: Pattern)
    requires (forall o | o in offers :: Wanted(o)) && i <= |offers|
    requires Writable(p) || !Regular(Text(p))
    ensures Had(Patterns(offers), i, p) <==> Before(offers, i, Text(p))
  {
    hide Regular, Wanted, PatternOf, Text, Low;
    forall j | 0 <= j < i
      ensures PatternOf(offers[j]) == p <==> Low(offers[j]) == Text(p)
    {
      PatternIff(offers[j], p);
    }
  }

  lemma HadWritable(offers: seq<Offer>, i: nat, p: Pattern)
    requires (forall o | o in offers :: Wanted(o)) && i <= |offers| && Had(Patterns(offers), i, p)
    ensures Writable(p)
  {
    hide Wanted, PatternOf, Writable, Text, Low;
    var j :| 0 <= j < i && Patterns(offers)[j] == p;
    LowText(offers[j]);
  }

  /** The texts of the patterns on the same base. */
  lemma OnOneBase(n: Str)
    requires n != []
    ensures Writable(AtOrBelow(n)) || !Regular(Text(AtOrBelow(n)))
    ensures Writable(Below(n)) || !Regular(Text(Below(n)))
    ensures Writable(AtOrBelow(n)) && 42 !in n ==> Writable(Exact(n))
    ensures Writable(Below(n)) ==> Writable(AtOrBelow(n)) && 42 !in n
    ensures Writable(Exact(n)) ==> 42 !in n
  {
    hide Regular;
    if Writable(AtOrBelow(n)) {
      RegularRest([46], n);
    }
    if Writable(Below(n)) {
      assert [42] + ([46] + n) == [42, 46] + n;
      RegularRest([42], [46] + n);
      OnlyStar(n);
    }
    if Writable(AtOrBelow(n)) && 42 !in n {
      NoTwoDots(n);
    }
  }

  lemma RegularRest(a: Str, s: Str)
    requires Regular(a + s)
    ensures Regular(s)
  {
    assert forall i | 0 <= i < |s| :: s[i] == (a + s)[|a| + i];
  }

  lemma OnlyStar(n: Str)
    requires Regular([42, 46] + n)
    ensures 42 !in n
  {
    var t := [42, 46] + n;
    assert forall i | 0 <= i < |n| :: n[i] == t[i + 2];
    assert t[0] == 42;
  }

  lemma NoTwoDots(n: Str)
    requires n != [] && Regular([46] + n)
    ensures n[0] != 46
  {
    var t := [46] + n;
    assert t[0] == 46 && t[1] == n[0];
  }

  /** Which keys are accepted, by their texts. */
  lemma AcceptedIff(offers: seq<Offer>, i: nat)
    requires (forall o | o in offers :: Wanted(o)) && i < |offers|
    ensures Accepted(offers, i) <==> Kept(Patterns(offers), i)
  {
    hide Regular, Wanted, PatternOf, Low, Had, Before, Kept, Accepted, Writable;
    LowText(offers[i]);
    KeptIs(Patterns(offers), i);
    var p := PatternOf(offers[i]);
    match p {
      case Exact(n) => ExactAccepted(offers, i, n);
      case AtOrBelow(n) => DottedAccepted(offers, i, n);
      case Below(n) => BelowAccepted(offers, i, n);
      case Prefix(n) => PrefixAccepted(offers, i, n);
    }
  }

  lemma ExactAccepted(offers: seq<Offer>, i: nat, n: Str)
    requires (forall o | o in offers :: Wanted(o)) && i < |offers|
    requires Low(offers[i]) == n && Writable(Exact(n))
    ensures Accepted(offers, i) <==>
      !Had(Patterns(offers), i, Exact(n)) && !Had(Patterns(offers), i, AtOrBelow(n))
  {
    hide Regular, Wanted, PatternOf, Low, Had, Before;
    HadIff(offers, i, Exact(n));
    if n != [] {
      OnOneBase(n);
      HadIff(offers, i, AtOrBelow(n));
    } else if Had(Patterns(offers), i, AtOrBelow(n)) {
      HadWritable(offers, i, AtOrBelow(n));
    }
  }

  lemma DottedAccepted(offers: seq<Offer>, i: nat, n: Str)
    requires (forall o | o in offers :: Wanted(o)) && i < |offers|
    requires Low(offers[i]) == [46] + n && Writable(AtOrBelow(n))
    ensures Accepted(offers, i) <==>
      && !Had(Patterns(offers), i, Exact(n)) && !Had(Patterns(offers), i, AtOrBelow(n))
      && !Had(Patterns(offers), i, Below(n))
  {
    hide Wanted, PatternOf, Low, Had, Before, Accepted, Writable, Regular;
    DottedText(n);
    AcceptedDotted(offers, i, [46] + n, n);
    OnOneBase(n);
    HadIff(offers, i, AtOrBelow(n));
    HadIff(offers, i, Below(n));
    HadExact(offers, i, n);
  }

  lemma AcceptedDotted(offers: seq<Offer>, i: nat, t: Str, n: Str)
    requires i < |offers| && Low(offers[i]) == t && |t| > 1 && t[0] == 46 && t[1..] == n
    ensures Accepted(offers, i) <==>
      !(42 !in n && Before(offers, i, n)) && !Before(offers, i, t) && !Before(offers, i, [42] + t)
  {
    hide Low, Before;
  }

  lemma HadExact(offers: seq<Offer>, i: nat, n: Str)
    requires (forall o | o in offers :: Wanted(o)) && i < |offers| && (42 !in n ==> Writable(Exact(n)))
    ensures Had(Patterns(offers), i, Exact(n)) <==> 42 !in n && Before(offers, i, n)
  {
    hide Wanted, PatternOf, Low, Had, Before, Regular;
    if 42 !in n {
      HadIff(offers, i, Exact(n));
    } else if Had(Patterns(offers), i, Exact(n)) {
      HadWritable(offers, i, Exact(n));
    }
  }

  lemma DottedText(n: Str)
    requires Writable(AtOrBelow(n))
    ensures n != [] && |[46] + n| > 1 && ([46] + n)[0] == 46 && ([46] + n)[1..] == n
    ensures [42] + ([46] + n) == Text(Below(n)) && [46] + n == Text(AtOrBelow(n))
  {
  }

  lemma BelowAccepted(offers: seq<Offer>, i: nat, n: Str)
    requires (forall o | o in offers :: Wanted(o)) && i < |offers|
    requires Low(offers[i]) == [42, 46] + n && Writable(Below(n))
    ensures Accepted(offers, i) <==>
      && !Had(Patterns(offers), i, Below(n))
      && forall j | 0 <= j < i && Patterns(offers)[j] == AtOrBelow(n) :: Had(Patterns(offers), j, Exact(n))
  {
    hide Wanted, PatternOf, Low, Had, Before, Accepted, Writable, Regular;
    var ps := Patterns(offers);
    BelowText(n);
    OnOneBase(n);
    HadIff(offers, i, Below(n));
    AcceptedBelow(offers, i, Text(Below(n)), n);
    forall j | 0 <= j < i
      ensures ps[j] == AtOrBelow(n) <==> Low(offers[j]) == Text(AtOrBelow(n))
      ensures Had(ps, j, Exact(n)) <==> Before(offers, j, n)
    {
      PatternIff(offers[j], AtOrBelow(n));
      HadIff(offers, j, Exact(n));
    }
  }

  lemma AcceptedBelow(offers: seq<Offer>, i: nat, t: Str, n: Str)
    requires i < |offers| && Low(offers[i]) == t && |t| > 2 && t[0] == 42 && t[2..] == n
    ensures Accepted(offers, i) <==>
      !Before(offers, i, t) && forall j | 0 <= j < i && Low(offers[j]) == t[1..] :: Before(offers, j, n)
  {
    hide Low, Before;
  }

  lemma BelowText(n: Str)
    requires Writable(Below(n))
    ensures n != [] && |Text(Below(n))| > 2 && Text(Below(n))[0] == 42
    ensures Text(Below(n))[1..] == Text(AtOrBelow(n)) && Text(Below(n))[2..] == n && Text(Exact(n)) == n
    ensures Text(Below(n)) == [42, 46] + n
  {
  }

  lemma PrefixAccepted(offers: seq<Offer>, i: nat, n: Str)
    requires (forall o | o in offers :: Wanted(o)) && i < |offers|
    requires Low(offers[i]) == n + [46, 42] && Writable(Prefix(n))
    ensures Accepted(offers, i) <==> !Had(Patterns(offers), i, Prefix(n))
  {
    hide Wanted, PatternOf, Low, Had, Before;
    var t := n + [46, 42];
    assert t[0] == n[0] && t[|t| - 1] == 42;
    HadIff(offers, i, Prefix(n));
  }

  // ----- Which offer answers --------------------------------------------------------------------------------

  datatype Form = Whole | Suffix | PrefixForm

  /** Is the key `t` for the host `h`? A whole name is for itself, "*.x" is for what ends with ".x", ".x" for "x" as
      well, and "x.*" for what begins with "x.". */
  ghost predicate Fits(form: Form, t: Str, h: Str) {
    match form
    case Whole => t == h && 42 !in t && !(|t| > 1 && t[0] == 46)
    case Suffix =>
      || (|t| > 2 && t[0] == 42 && |h| >= |t| - 1 && h[|h| - |t| + 1..] == t[1..])
      || (|t| > 1 && t[0] == 46 && (h == t[1..] || (|h| >= |t| && h[|h| - |t|..] == t)))
    case PrefixForm => |t| > 2 && t[0] != 46 && t[|t| - 1] == 42 && t[..|t| - 1] <= h
  }

  /** The length of the base: without "*." or ".", or without ".*". */
  ghost function BaseLength(t: Str): int {
    if t != [] && t[0] == 46 then |t| - 1 else |t| - 2
  }

  /** Some accepted key is for the host. */
  ghost predicate SomeOffer(offers: seq<Offer>, form: Form, h: Str) {
    exists i | 0 <= i < |offers| :: Accepted(offers, i) && Fits(form, Low(offers[i]), h)
  }

  /** `v` is the server of the accepted key with the longest base among those for the host. */
  ghost predicate LongestOffer(offers: seq<Offer>, form: Form, h: Str, v: nat) {
    exists i | 0 <= i < |offers| ::
      && Accepted(offers, i) && Fits(form, Low(offers[i]), h) && offers[i].server == v
      && forall k | 0 <= k < |offers| && Accepted(offers, k) && Fits(form, Low(offers[k]), h) ::
           BaseLength(Low(offers[k])) <= BaseLength(Low(offers[i]))
  }

  /** The answer for host `h`: of the accepted keys the one that is `h`, else the longest "*.x" or ".x", else the
      longest "x.*", else 0. */
  ghost predicate Served(offers: seq<Offer>, h: Str, v: nat) {
    if SomeOffer(offers, Whole, h) then LongestOffer(offers, Whole, h, v)
    else if SomeOffer(offers, Suffix, h) then LongestOffer(offers, Suffix, h, v)
    else if SomeOffer(offers, PrefixForm, h) then LongestOffer(offers, PrefixForm, h, v)
    else v == 0
  }

  ghost predicate Matches(form: Form, p: Pattern, h: Str) {
    match form
    case Whole => p == Exact(h)
    case Suffix => SuffixMatches(p, h)
    case PrefixForm => PrefixMatches(p, h)
  }

  /** A pattern matches what its text is for. */
  lemma FitsIff(p: Pattern, h: Str, form: Form)
    requires Writable(p)
    ensures Fits(form, Text(p), h) <==> Matches(form, p, h)
    ensures !p.Exact? ==> |p.name| == BaseLength(Text(p))
  {
    match p {
      case Exact(n) => FitsExact(n, h, form);
      case Below(n) => FitsBelow(n, h, form);
      case AtOrBelow(n) => FitsDotted(n, h, form);
      case Prefix(n) => FitsPrefix(n, h, form);
    }
  }

  lemma FitsExact(n: Str, h: Str, form: Form)
    requires Writable(Exact(n))
    ensures Fits(form, n, h) <==> Matches(form, Exact(n), h)
  {
    hide Regular;
    assert |n| > 2 ==> n[0] in n && n[|n| - 1] in n;
  }

  lemma OneStar(t: Str, i: nat, j: nat)
    requires Regular(t) && i < j < |t|
    ensures t[i] != 42 || t[j] != 42
  {
  }

  lemma FitsBelow(n: Str, h: Str, form: Form)
    requires Writable(Below(n))
    ensures Fits(form, [42, 46] + n, h) <==> Matches(form, Below(n), h)
    ensures |n| == BaseLength([42, 46] + n)
  {
    hide Regular;
    var t := [42, 46] + n;
    OneStar(t, 0, |t| - 1);
    assert t[0] == 42 && |t| == |n| + 2 && t[1..] == [46] + n;
  }

  lemma FitsDotted(n: Str, h: Str, form: Form)
    requires n != []
    ensures Fits(form, [46] + n, h) <==> Matches(form, AtOrBelow(n), h)
    ensures |n| == BaseLength([46] + n)
  {
    var t := [46] + n;
    assert t[0] == 46 && |t| == |n| + 1 && t[1..] == n;
  }

  lemma FitsPrefix(n: Str, h: Str, form: Form)
    requires Writable(Prefix(n))
    ensures Fits(form, n + [46, 42], h) <==> Matches(form, Prefix(n), h)
    ensures |n| == BaseLength(n + [46, 42])
  {
    hide Regular;
    var t := n + [46, 42];
    OneStar(t, 0, |t| - 1);
    assert t[0] == n[0] && |t| == |n| + 2 && t[|t| - 1] == 42 && t[..|t| - 1] == n + [46];
  }

  /** What an accepted offer stands for is an accepted rule, and the other way round. */
  ghost predicate Agree(offers: seq<Offer>, rules: seq<Rule>) {
    && (forall i | 0 <= i < |offers| && Accepted(offers, i) ::
          Wanted(offers[i]) && Rule(PatternOf(offers[i]), offers[i].server) in rules)
    && forall r | r in rules :: exists i | 0 <= i < |offers| ::
         Accepted(offers, i) && Wanted(offers[i]) && r == Rule(PatternOf(offers[i]), offers[i].server)
  }

  lemma AgreeFrom(offers: seq<Offer>, b: Book)
    requires forall o | o in offers :: Wanted(o)
    requires Reflects(b, Patterns(offers), Servers(offers), |offers|)
    ensures Agree(offers, b.rules)
  {
    hide Wanted, PatternOf, Accepted, Kept, Had;
    forall i | 0 <= i < |offers|
      ensures Accepted(offers, i) <==> Kept(Patterns(offers), i)
    {
      AcceptedIff(offers, i);
    }
    assert forall i | 0 <= i < |offers| :: offers[i] in offers;
  }

  lemma OfferFits(o: Offer, h: Str, form: Form)
    requires Wanted(o)
    ensures Fits(form, Low(o), h) <==> Matches(form, PatternOf(o), h)
    ensures !PatternOf(o).Exact? ==> |PatternOf(o).name| == BaseLength(Low(o))
  {
    hide Wanted, PatternOf, Fits, Matches, Writable, Text, Low, BaseLength;
    LowText(o);
    FitsIff(PatternOf(o), h, form);
  }

  ghost predicate SomeRule(rules: seq<Rule>, form: Form, h: Str) {
    exists r | r in rules :: Matches(form, r.pattern, h)
  }

  ghost predicate LongestRule(rules: seq<Rule>, form: Form, h: Str, v: nat) {
    exists r | r in rules ::
      && r.value == v && Matches(form, r.pattern, h)
      && forall s | s in rules && Matches(form, s.pattern, h) :: |s.pattern.name| <= |r.pattern.name|
  }

  lemma SomeIff(offers: seq<Offer>, rules: seq<Rule>, form: Form, h: Str)
    requires Agree(offers, rules)
    ensures SomeOffer(offers, form, h) <==> SomeRule(rules, form, h)
  {
    hide Wanted, PatternOf, Accepted, Fits, Matches, Low;
    forall i | 0 <= i < |offers| && Accepted(offers, i)
      ensures Fits(form, Low(offers[i]), h) <==> Matches(form, PatternOf(offers[i]), h)
    {
      OfferFits(offers[i], h, form);
    }
  }

  lemma LongestFrom(offers: seq<Offer>, rules: seq<Rule>, form: Form, h: Str, v: nat)
    requires Agree(offers, rules) && LongestRule(rules, form, h, v)
    ensures LongestOffer(offers, form, h, v)
  {
    hide Wanted, PatternOf, Accepted, Fits, Matches, Low, BaseLength;
    var r :| r in rules && r.value == v && Matches(form, r.pattern, h)
      && forall s | s in rules && Matches(form, s.pattern, h) :: |s.pattern.name| <= |r.pattern.name|;
    var i :| 0 <= i < |offers| && Accepted(offers, i) && r == Rule(PatternOf(offers[i]), offers[i].server);
    OfferFits(offers[i], h, form);
    forall k | 0 <= k < |offers| && Accepted(offers, k) && Fits(form, Low(offers[k]), h)
      ensures BaseLength(Low(offers[k])) <= BaseLength(Low(offers[i]))
    {
      OfferFits(offers[k], h, form);
      var s := Rule(PatternOf(offers[k]), offers[k].server);
      assert s in rules;
      LengthsAgree(offers[i], offers[k], form, h);
    }
  }

  lemma LengthsAgree(o: Offer, p: Offer, form: Form, h: Str)
    requires Wanted(o) && Wanted(p)
    requires Matches(form, PatternOf(o), h) && Matches(form, PatternOf(p), h)
    requires |PatternOf(p).name| <= |PatternOf(o).name|
    ensures BaseLength(Low(p)) <= BaseLength(Low(o))
  {
    hide Wanted, PatternOf, Low, BaseLength, Fits;
    OfferFits(o, h, form);
    OfferFits(p, h, form);
    if form == Whole {
      LowText(o);
      LowText(p);
    }
  }

  /** The resolution by patterns is the one by keys. */
  lemma ServedFrom(offers: seq<Offer>, rules: seq<Rule>, h: Str, v: nat)
    requires Agree(offers, rules) && Resolves(rules, h, v)
    ensures Served(offers, h, v)
  {
    hide Agree, SomeOffer, LongestOffer, SomeRule, LongestRule, Resolves;
    SomeIff(offers, rules, Whole, h);
    SomeIff(offers, rules, Suffix, h);
    SomeIff(offers, rules, PrefixForm, h);
    ResolvesIs(rules, h, v);
    if SomeRule(rules, Whole, h) {
      LongestFrom(offers, rules, Whole, h, v);
    } else if SomeRule(rules, Suffix, h) {
      LongestFrom(offers, rules, Suffix, h, v);
    } else if SomeRule(rules, PrefixForm, h) {
      LongestFrom(offers, rules, PrefixForm, h, v);
    }
  }

  lemma ResolvesIs(rules: seq<Rule>, h: Str, v: nat)
    requires Resolves(rules, h, v)
    ensures
      if SomeRule(rules, Whole, h) then LongestRule(rules, Whole, h, v)
      else if SomeRule(rules, Suffix, h) then LongestRule(rules, Suffix, h, v)
      else if SomeRule(rules, PrefixForm, h) then LongestRule(rules, PrefixForm, h, v)
      else v == 0
  {
    hide SuffixMatches, PrefixMatches;
    if Rule(Exact(h), v) in rules {
      assert LongestRule(rules, Whole, h, v);
    }
  }

  lemma {:induction false} CollectedReflects(offers: seq<Offer>, n: nat)
    requires (forall o | o in offers :: Wanted(o)) && n <= |offers|
    ensures forall o | o in offers[..n] :: Wanted(o)
    ensures Reflects(Collected(offers[..n]), Patterns(offers), Servers(offers), n)
  {
    hide Wanted, PatternOf, Reflects, Add;
    assert forall o | o in offers[..n] :: o in offers;
    if n == 0 {
      NoneCollected(Patterns(offers), Servers(offers));
    } else {
      var init := offers[..n];
      CollectedReflects(offers, n - 1);
      assert init[..n - 1] == offers[..n - 1] && init[n - 1] == offers[n - 1];
      PatternNoNul(offers[n - 1]);
      ReflectStep(Collected(offers[..n - 1]), Patterns(offers), Servers(offers), n - 1);
    }
  }

  lemma NoneCollected(ps: seq<Pattern>, vs: seq<nat>)
    requires |ps| == |vs|
    ensures Reflects(EmptyBook(LARGE), ps, vs, 0)
  {
  }

  lemma PatternNoNul(o: Offer)
    requires Wanted(o)
    ensures 0 !in PatternOf(o).name
  {
    LowText(o);
    var p := PatternOf(o);
    var t := Text(p);
    assert forall i | 0 <= i < |p.name| :: p.name[i] in t by {
      NameInText(p);
    }
  }

  lemma NameInText(p: Pattern)
    ensures forall i | 0 <= i < |p.name| :: p.name[i] in Text(p)
  {
    var n, t := p.name, Text(p);
    var d := match p case Below(_) => 2 case AtOrBelow(_) => 1 case _ => 0;
    assert forall i | 0 <= i < |n| :: n[i] == t[i + d];
  }

  /** Which of the keys a host is served by, when the accepted patterns resolve it to `v`. */
  lemma ServedIs(offers: seq<Offer>, h: Str, v: nat)
    requires (forall o | o in offers :: Wanted(o)) && Resolves(Collected(offers).rules, h, v)
    ensures Served(offers, h, v)
  {
    hide Wanted, PatternOf, Reflects, Resolves, Served, Agree;
    CollectedReflects(offers, |offers|);
    assert offers[..|offers|] == offers;
    AgreeFrom(offers, Collected(offers));
    ServedFrom(offers, Collected(offers).rules, h, v);
  }

  // ----- Single keys ---------------------------------------------------------------------------------------

  /** "*.n" alone answers for what ends with ".n", and not for "n". */
  lemma StarAlone(n: Str, server: nat, h: Str, v: nat)
    requires n != [] && 42 !in n && Served([Offer([42, 46] + n, server)], h, v)
    ensures v == if exists x :: h == x + [46] + LowerStr(n) then server else 0
    ensures h == LowerStr(n) ==> v == 0
  {
    hide Fits;
    var o := Offer([42, 46] + n, server);
    var m := LowerStr(n);
    assert Low(o) == [42, 46] + m;
    OneServed(o, h, v);
    assert 42 !in m;
    StarFits(m, h);
  }

  /** ".n" alone answers for "n" and for what ends with ".n". */
  lemma DotAlone(n: Str, server: nat, h: Str, v: nat)
    requires n != [] && Served([Offer([46] + n, server)], h, v)
    ensures v == if h == LowerStr(n) || exists x :: h == x + [46] + LowerStr(n) then server else 0
  {
    hide Fits;
    var o := Offer([46] + n, server);
    var m := LowerStr(n);
    assert Low(o) == [46] + m;
    OneServed(o, h, v);
    DotFits(m, h);
  }

  lemma OneServed(o: Offer, h: Str, v: nat)
    requires Served([o], h, v)
    ensures var for_h := Fits(Whole, Low(o), h) || Fits(Suffix, Low(o), h) || Fits(PrefixForm, Low(o), h);
      v == if for_h then o.server else 0
  {
    hide Fits, Low;
    assert Accepted([o], 0);
  }

  lemma EndsWith(h: Str, e: Str)
    ensures (exists x :: h == x + e) <==> |h| >= |e| && h[|h| - |e|..] == e
  {
    if |h| >= |e| && h[|h| - |e|..] == e {
      assert h == h[..|h| - |e|] + e;
    }
  }

  lemma StarFits(m: Str, h: Str)
    requires m != [] && 42 !in m
    ensures Fits(Suffix, [42, 46] + m, h) <==> exists x :: h == x + [46] + m
    ensures !Fits(Whole, [42, 46] + m, h) && !Fits(PrefixForm, [42, 46] + m, h)
    ensures h == m ==> !exists x :: h == x + [46] + m
  {
    EndsWith(h, [46] + m);
    assert forall x :: x + [46] + m == x + ([46] + m);
    assert ([42, 46] + m)[1..] == [46] + m && ([42, 46] + m)[0] == 42;
    assert ([42, 46] + m)[|m| + 1] == m[|m| - 1];
  }

  lemma DotFits(m: Str, h: Str)
    requires m != []
    ensures Fits(Suffix, [46] + m, h) <==> h == m || exists x :: h == x + [46] + m
    ensures !Fits(Whole, [46] + m, h) && !Fits(PrefixForm, [46] + m, h)
  {
    EndsWith(h, [46] + m);
    assert forall x :: x + [46] + m == x + ([46] + m);
    assert ([46] + m)[1..] == m && ([46] + m)[0] == 46;
  }
}
