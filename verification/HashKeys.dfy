/** Collecting the keys of a combined hash (`ngx_hash_add_key`): wildcard forms are recognised, conflicts
    rejected, and wildcard keys turned into the form the tries are built from. */
module HashKeys {
  import opened Bytes
  import opened DnsNames
  import opened System
  import H = HashTable
  import W = WildcardHash

  /** "name", "*.name", ".name" and "name.*". */
  datatype Pattern = Exact(name: Str) | Below(name: Str) | AtOrBelow(name: Str) | Prefix(name: Str)

  datatype Rule = Rule(pattern: Pattern, value: nat)

  datatype Status = Ok | Busy | Declined | Error

  // ----- Recognising the form of a key ---------------------------------------------------------------

  function Stars(key: Str): nat {
    if key == [] then 0 else Stars(key[..|key| - 1]) + if key[|key| - 1] == STAR then 1 else 0
  }

  /** No NUL, no empty label inside, at most one '*'. */
  ghost predicate WellFormed(key: Str) {
    && Stars(key) <= 1
    && (forall i | 0 <= i < |key| :: key[i] != 0)
    && forall i | 0 <= i < |key| - 1 :: !(key[i] == DOT && key[i + 1] == DOT)
  }

  /** The pattern a key stands for; `None` when it is declined. */
  ghost function Classify(key: Str, wildcard: bool): Option<Pattern> {
    if !wildcard then Some(Exact(key))
    else if !WellFormed(key) then None
    else if |key| > 1 && key[0] == DOT then Some(AtOrBelow(key[1..]))
    else if |key| > 2 && key[0] == STAR && key[1] == DOT then Some(Below(key[2..]))
    else if |key| > 2 && key[|key| - 2] == DOT && key[|key| - 1] == STAR then Some(Prefix(key[..|key| - 2]))
    else if Stars(key) > 0 then None
    else Some(Exact(key))
  }

  // ----- How a pattern is written ------------------------------------------------------------------------

  /** The key of a pattern: "name", "*.name", ".name" or "name.*", with '*' and '.' as the bytes 42 and 46. */
  function Text(p: Pattern): Str {
    match p
    case Exact(n) => n
    case Below(n) => [42, 46] + n
    case AtOrBelow(n) => [46] + n
    case Prefix(n) => n + [46, 42]
  }

  /** No NUL, no two dots in a row, at most one star. */
  ghost predicate Regular(key: Str) {
    && 0 !in key
    && (forall i | 0 <= i < |key| - 1 :: !(key[i] == 46 && key[i + 1] == 46))
    && forall i, j | 0 <= i < j < |key| :: !(key[i] == 42 && key[j] == 42)
  }

  /** The patterns that keys can stand for. */
  ghost predicate Writable(p: Pattern) {
    Regular(Text(p)) &&
    match p
    case Exact(n) => 42 !in n && !(|n| > 1 && n[0] == 46)
    case Below(n) => n != []
    case AtOrBelow(n) => n != []
    case Prefix(n) => n != [] && n[0] != 46
  }

  lemma {:induction false} StarsIff(key: Str)
    ensures Stars(key) == 0 <==> 42 !in key
    ensures Stars(key) <= 1 <==> forall i, j | 0 <= i < j < |key| :: !(key[i] == 42 && key[j] == 42)
  {
    if key != [] {
      var n := |key| - 1;
      var init := key[..n];
      StarsIff(init);
      assert key == init + [key[n]];
      assert forall i | 0 <= i < n :: init[i] == key[i];
      if key[n] == 42 && 42 in init {
        var i :| 0 <= i < n && init[i] == 42;
        assert key[i] == 42 && key[n] == 42;
      }
    }
  }

  lemma WellFormedIff(key: Str)
    ensures WellFormed(key) <==> Regular(key)
  {
    hide Stars;
    StarsIff(key);
  }

  /** A key is recognised exactly as the pattern whose text it is. */
  lemma ClassifyIff(key: Str, p: Pattern)
    ensures Classify(key, true) == Some(p) <==> key == Text(p) && Writable(p)
  {
    hide WellFormed, Stars, Regular;
    WellFormedIff(key);
    StarsIff(key);
    if Classify(key, true) == Some(p) {
      RecognisedText(key, p);
    }
    if key == Text(p) && Writable(p) {
      TextRecognised(p);
    }
  }

  lemma RecognisedText(key: Str, p: Pattern)
    requires Classify(key, true) == Some(p)
    ensures key == Text(p) && Writable(p)
  {
    hide WellFormed, Stars, Regular;
    WellFormedIff(key);
    StarsIff(key);
    match p {
      case Exact(n) =>
      case Below(n) => assert key == [42, 46] + key[2..];
      case AtOrBelow(n) => assert key == [46] + key[1..];
      case Prefix(n) => assert key == key[..|key| - 2] + [46, 42];
    }
  }

  lemma TextRecognised(p: Pattern)
    requires Writable(p)
    ensures Classify(Text(p), true) == Some(p)
  {
    hide WellFormed, Stars;
    var key := Text(p);
    WellFormedIff(key);
    StarsIff(key);
    match p {
      case Exact(n) =>
      case Below(n) => assert key[2..] == n;
      case AtOrBelow(n) => assert key[1..] == n;
      case Prefix(n) =>
        assert key[|key| - 1] == 42 && key[..|key| - 2] == n;
        assert key[0] == n[0];
    }
  }

  /** A key is declined exactly when it is the text of no pattern. */
  lemma KeyText(key: Str)
    ensures Classify(key, true).None? <==> forall p | Writable(p) :: key != Text(p)
    ensures forall p | Writable(p) && key == Text(p) :: Classify(key, true) == Some(p)
  {
    hide Classify, Text, Writable;
    forall p
      ensures Classify(key, true) == Some(p) <==> key == Text(p) && Writable(p)
    {
      ClassifyIff(key, p);
    }
    if Classify(key, true).Some? {
      assert key == Text(Classify(key, true).value);
    }
  }

  /** Different patterns have different texts. */
  lemma SameText(p: Pattern, q: Pattern)
    requires Writable(p) && Writable(q) && Text(p) == Text(q)
    ensures p == q
  {
    hide Classify, Text, Writable;
    ClassifyIff(Text(p), p);
    ClassifyIff(Text(q), q);
  }

  /** What is recorded is lower-cased, except for a read-only exact key. */
  ghost function Recorded(p: Pattern, readonly: bool): Pattern {
    match p
    case Exact(n) => if readonly then p else Exact(LowerStr(n))
    case Below(n) => Below(LowerStr(n))
    case AtOrBelow(n) => AtOrBelow(LowerStr(n))
    case Prefix(n) => Prefix(LowerStr(n))
  }

  /** The bases that recognised wildcard keys have. */
  ghost predicate Sound(p: Pattern) {
    match p
    case Exact(n) => true
    case Below(n) => n != [] && n[0] != DOT && IsLower(n) && 0 !in n
    case AtOrBelow(n) => n != [] && n[0] != DOT && IsLower(n) && 0 !in n
    case Prefix(n) => n != [] && n[|n| - 1] != DOT && IsLower(n) && 0 !in n
  }

  lemma RecordedIsSound(key: Str, wildcard: bool, readonly: bool)
    requires Classify(key, wildcard).Some?
    ensures Sound(Recorded(Classify(key, wildcard).value, readonly))
  {
  }

  // ----- The abstract record of keys --------------------------------------------------------------------

  /** The number of buckets that names are kept in. */
  type Size = n: int | 0 < n witness 1

  /** `claimed` are the names no later exact key or ".name" may use, `heads` and `tails` the bases of
      the wildcards, `rules` the accepted keys in order. */
  datatype Book = Book(hsize: Size, claimed: set<Str>, heads: set<Str>, tails: set<Str>, rules: seq<Rule>)

  function EmptyBook(hsize: Size): Book {
    Book(hsize, {}, {}, {}, [])
  }

  /** `ngx_strncmp(a, b, len) == 0` for two strings of this length: what follows a NUL is not compared. */
  predicate StrnEqual(a: Str, b: Str) {
    |a| == |b| && (a == [] || (a[0] == b[0] && (a[0] == 0 || StrnEqual(a[1..], b[1..]))))
  }

  lemma {:induction false} StrnEqualSame(a: Str, b: Str)
    ensures a == b ==> StrnEqual(a, b)
    ensures StrnEqual(a, b) && 0 !in a ==> a == b
  {
    if a != [] && |a| == |b| && a[0] == b[0] {
      StrnEqualSame(a[1..], b[1..]);
      assert a == [a[0]] + a[1..] && b == [b[0]] + b[1..];
    }
  }

  /** Two names that the search of one bucket does not tell apart. */
  predicate Alike(m: Str, n: Str, hsize: Size) {
    StrnEqual(n, m) && H.HashKey(m) % hsize == H.HashKey(n) % hsize
  }

  /** Is the name, or one that is taken for it, claimed? */
  ghost predicate Taken(b: Book, n: Str) {
    exists m | m in b.claimed :: Alike(m, n, b.hsize)
  }

  lemma TakenIff(b: Book, n: Str)
    ensures n in b.claimed ==> Taken(b, n)
    ensures 0 !in n ==> (Taken(b, n) <==> n in b.claimed)
  {
    StrnEqualSame(n, n);
    if Taken(b, n) && 0 !in n {
      var m :| m in b.claimed && Alike(m, n, b.hsize);
      StrnEqualSame(n, m);
    }
  }

  function Accept(b: Book, p: Pattern, value: nat): Book {
    b.(rules := b.rules + [Rule(p, value)])
  }

  /** The outcome of adding a recognised key. A ".name" rejected because of "*.name" has claimed its
      name by then. */
  ghost function Add(b: Book, p: Pattern, value: nat): (Status, Book) {
    match p
    case Exact(n) =>
      if Taken(b, n) then (Busy, b) else (Ok, Accept(b.(claimed := b.claimed + {n}), p, value))
    case AtOrBelow(n) =>
      if Taken(b, n) then (Busy, b)
      else
        var c := b.(claimed := b.claimed + {n});
        if n in b.heads then (Busy, c) else (Ok, Accept(c.(heads := b.heads + {n}), p, value))
    case Below(n) =>
      if n in b.heads then (Busy, b) else (Ok, Accept(b.(heads := b.heads + {n}), p, value))
    case Prefix(n) =>
      if n in b.tails then (Busy, b) else (Ok, Accept(b.(tails := b.tails + {n}), p, value))
  }

  /** One call: as `Add` says, or out of memory after recording part of the key. */
  ghost predicate AddStep(b: Book, p: Pattern, value: nat, rc: Status, b': Book) {
    if rc == Error then
      && b'.hsize == b.hsize && b'.rules == b.rules
      && (b'.claimed == b.claimed || ((p.Exact? || p.AtOrBelow?) && b'.claimed == b.claimed + {p.name}))
      && (b'.heads == b.heads || ((p.Below? || p.AtOrBelow?) && b'.heads == b.heads + {p.name}))
      && (b'.tails == b.tails || (p.Prefix? && b'.tails == b.tails + {p.name}))
    else (rc, b') == Add(b, p, value)
  }

  /** Two keys that would answer for the same name on the same level. */
  predicate Conflict(p: Pattern, q: Pattern) {
    p.name == q.name &&
    match p
    case Exact(_) => q.Exact? || q.AtOrBelow?
    case Below(_) => q.Below? || q.AtOrBelow?
    case AtOrBelow(_) => !q.Prefix?
    case Prefix(_) => q.Prefix?
  }

  ghost predicate ConflictFree(rules: seq<Rule>) {
    forall i, j | 0 <= i < j < |rules| :: !Conflict(rules[i].pattern, rules[j].pattern)
  }

  ghost predicate Covers(b: Book, p: Pattern) {
    match p
    case Exact(n) => n in b.claimed
    case Below(n) => n in b.heads
    case AtOrBelow(n) => n in b.claimed && n in b.heads
    case Prefix(n) => n in b.tails
  }

  ghost predicate Inv(b: Book) {
    && ConflictFree(b.rules)
    && forall r | r in b.rules :: Covers(b, r.pattern) && Sound(r.pattern)
  }

  lemma StepKeepsInv(b: Book, p: Pattern, value: nat, rc: Status, b': Book)
    requires Inv(b) && Sound(p) && AddStep(b, p, value, rc, b')
    ensures Inv(b')
  {
    hide Sound, Taken;
    TakenIff(b, p.name);
    forall i, j | 0 <= i < j < |b'.rules|
      ensures !Conflict(b'.rules[i].pattern, b'.rules[j].pattern)
    {
      assert i < |b.rules| ==> b.rules[i] in b.rules;
    }
    forall r | r in b'.rules
      ensures Covers(b', r.pattern) && Sound(r.pattern)
    {
      if r !in b.rules {
        assert r == Rule(p, value);
      }
    }
  }

  /** A key offered to `ngx_hash_add_key`, and what came of it. */
  datatype Call = Call(pattern: Pattern, value: nat, rc: Status, after: Book)

  ghost predicate IsRun(b: Book, calls: seq<Call>)
    decreases |calls|
  {
    calls == [] ||
    (Sound(calls[0].pattern)
     && AddStep(b, calls[0].pattern, calls[0].value, calls[0].rc, calls[0].after)
     && IsRun(calls[0].after, calls[1..]))
  }

  /** Over every run the accepted keys are pairwise free of conflicts. */
  lemma {:induction false} RunIsConflictFree(b: Book, calls: seq<Call>)
    requires Inv(b) && IsRun(b, calls)
    ensures calls != [] ==> ConflictFree(calls[|calls| - 1].after.rules)
    decreases |calls|
  {
    hide Inv;
    if calls != [] {
      var c := calls[0];
      StepKeepsInv(b, c.pattern, c.value, c.rc, c.after);
      RunIsConflictFree(c.after, calls[1..]);
      assert ConflictFree(c.after.rules) by { InvConflictFree(c.after); }
    }
  }

  lemma InvConflictFree(b: Book)
    requires Inv(b)
    ensures ConflictFree(b.rules)
  {
  }

  /** Without memory failures the wildcard bases are those of the accepted keys. */
  ghost predicate Tight(b: Book) {
    && (forall n | n in b.heads :: exists r | r in b.rules ::
          r.pattern == Below(n) || r.pattern == AtOrBelow(n))
    && forall n | n in b.tails :: exists r | r in b.rules :: r.pattern == Prefix(n)
  }

  lemma StepKeepsTight(b: Book, p: Pattern, value: nat)
    requires Tight(b)
    ensures Tight(Add(b, p, value).1)
  {
    var b' := Add(b, p, value).1;
    if b'.rules != b.rules {
      assert Rule(p, value) in b'.rules;
      assert forall r | r in b.rules :: r in b'.rules;
    }
  }

  /** A claimed name that no accepted key has. */
  ghost predicate Orphan(b: Book, n: Str) {
    n in b.claimed && forall r | r in b.rules :: r.pattern != Exact(n) && r.pattern != AtOrBelow(n)
  }

  /** The call claims the name and then refuses its key: ".n" because of "*.n", or for want of memory. */
  ghost predicate Strands(b: Book, c: Call, n: Str) {
    && n !in b.claimed && n in c.after.claimed
    && ((c.pattern == AtOrBelow(n) && c.rc == Busy && n in b.heads) || (c.pattern.name == n && c.rc == Error))
  }

  ghost predicate Stranded(b: Book, calls: seq<Call>, n: Str)
    decreases |calls|
  {
    calls != [] && (Strands(b, calls[0], n) || Stranded(calls[0].after, calls[1..], n))
  }

  function Last(b: Book, calls: seq<Call>): Book {
    if calls == [] then b else calls[|calls| - 1].after
  }

  /** Over every run, the orphans are the names that some call claimed for a key it then refused. */
  lemma {:induction false} OrphansAreStranded(b: Book, calls: seq<Call>, n: Str)
    requires Inv(b) && IsRun(b, calls)
    ensures Orphan(Last(b, calls), n) <==> Orphan(b, n) || Stranded(b, calls, n)
    decreases |calls|
  {
    hide Inv, Orphan, Strands, AddStep;
    if calls != [] {
      var c := calls[0];
      StepKeepsInv(b, c.pattern, c.value, c.rc, c.after);
      OrphanStep(b, c, n);
      OrphansAreStranded(c.after, calls[1..], n);
      assert Last(b, calls) == Last(c.after, calls[1..]);
    }
  }

  lemma OrphanStep(b: Book, c: Call, n: Str)
    requires Inv(b) && AddStep(b, c.pattern, c.value, c.rc, c.after)
    ensures Orphan(c.after, n) <==> Orphan(b, n) || Strands(b, c, n)
  {
    hide Sound, ConflictFree, Taken;
    TakenIff(b, c.pattern.name);
    if c.rc == Ok {
      assert Rule(c.pattern, c.value) in c.after.rules;
      assert forall r | r in c.after.rules :: r in b.rules || r == Rule(c.pattern, c.value);
    }
    assert c.after.rules == b.rules || (c.rc == Ok && forall r | r in b.rules :: r in c.after.rules);
  }

  /** Another name is taken for the one of this key. */
  ghost predicate Mistaken(b: Book, p: Pattern) {
    (p.Exact? || p.AtOrBelow?) && exists m | m in b.claimed :: m != p.name && Alike(m, p.name, b.hsize)
  }

  /** That happens only to names with a NUL, which only exact keys have. */
  lemma MistakenHasNul(b: Book, p: Pattern)
    requires Mistaken(b, p) && Sound(p)
    ensures p.Exact? && 0 in p.name
  {
    var m :| m in b.claimed && m != p.name && Alike(m, p.name, b.hsize);
    StrnEqualSame(p.name, m);
  }

  /** A key is rejected exactly when it conflicts with an accepted key, needs an orphaned name or one that
      is taken for a claimed one. */
  lemma RejectedIff(b: Book, p: Pattern, value: nat)
    requires Inv(b) && Tight(b)
    ensures Add(b, p, value).0 == Busy <==>
      || (exists r | r in b.rules :: Conflict(r.pattern, p))
      || ((p.Exact? || p.AtOrBelow?) && Orphan(b, p.name))
      || Mistaken(b, p)
  {
    hide Sound, Alike;
    TakenIff(b, p.name);
  }

  /** Rejections without a conflict do occur: ".a" after "*.a" is rejected, and after that "a" is rejected
      too although it conflicts with no accepted key. */
  lemma RejectionMayBeSpurious(hsize: Size, v: nat)
    ensures var b1 := Add(EmptyBook(hsize), Below([97]), v).1;
      var (rc2, b2) := Add(b1, AtOrBelow([97]), v);
      && rc2 == Busy && Add(b2, Exact([97]), v).0 == Busy
      && forall r | r in b2.rules :: !Conflict(r.pattern, Exact([97]))
  {
    var b1 := Add(EmptyBook(hsize), Below([97]), v).1;
    TakenIff(b1, [97]);
    TakenIff(Add(b1, AtOrBelow([97]), v).1, [97]);
  }

  /** So does mistaking one name for another. */
  lemma MistakenForAnother(v: nat)
    ensures var b := Add(EmptyBook(107), Exact([0, 1]), v).1;
      Mistaken(b, Exact([0, 108])) && Add(b, Exact([0, 108]), v).0 == Busy
  {
    hide H.HashKey;
    var m: Str, n: Str := [0, 1], [0, 108];
    ZeroAnd(1);
    ZeroAnd(108);
    assert Alike(m, n, 107);
    var b := Add(EmptyBook(107), Exact(m), v).1;
    assert m in b.claimed;
  }

  lemma ZeroAnd(c: Byte)
    ensures H.HashKey([0, c]) == c
  {
    var s: Str := [0, c];
    assert s[..1] == [0] && s[..1][..0] == [];
    assert H.HashKey(s[..1]) == 0;
  }

  // ----- The arrays ---------------------------------------------------------------------------------------

  /** The exact keys, as `ngx_hash_init` takes them. */
  ghost function KeysOf(rules: seq<Rule>): seq<H.Key> {
    if rules == [] then []
    else
      var r := rules[|rules| - 1];
      KeysOf(rules[..|rules| - 1])
      + if r.pattern.Exact? then [H.Key(Some(r.pattern.name), H.HashKey(r.pattern.name), r.value)] else []
  }

  /** The head keys, as `ngx_hash_wildcard_init` takes them after sorting: labels reversed, with a final
      dot when the name itself is not meant. */
  ghost function HeadsOf(rules: seq<Rule>): seq<W.Name> {
    if rules == [] then []
    else
      var r := rules[|rules| - 1];
      HeadsOf(rules[..|rules| - 1]) + HeadKey(r)
  }

  ghost function HeadKey(r: Rule): seq<W.Name> {
    match r.pattern
    case Below(n) => [W.Name(W.RevLabels(n) + [DOT], r.value)]
    case AtOrBelow(n) => [W.Name(W.RevLabels(n), r.value)]
    case _ => []
  }

  ghost function TailsOf(rules: seq<Rule>): seq<W.Name> {
    if rules == [] then []
    else
      var r := rules[|rules| - 1];
      TailsOf(rules[..|rules| - 1]) + if r.pattern.Prefix? then [W.Name(r.pattern.name, r.value)] else []
  }

  /** How a name is kept: a tail name keeps the dot its hash leaves out. */
  function Kept(tail: bool, n: Str): Str {
    if tail then n + [DOT] else n
  }

  ghost predicate KeptAt(s: Str, tail: bool, names: set<Str>, size: nat, k: nat)
    requires size > 0
  {
    exists n | n in names :: s == Kept(tail, n) && H.HashKey(n) % size == k
  }

  /** A table of names, each in the bucket of its hash. */
  ghost predicate Buckets(t: seq<seq<Str>>, tail: bool, names: set<Str>) {
    && t != []
    && (forall n | n in names :: Kept(tail, n) in t[H.HashKey(n) % |t|])
    && forall k, s | 0 <= k < |t| && s in t[k] :: KeptAt(s, tail, names, |t|, k)
  }

  lemma InBucket(t: seq<seq<Str>>, tail: bool, names: set<Str>, n: Str)
    requires Buckets(t, tail, names)
    ensures n in names <==> Kept(tail, n) in t[H.HashKey(n) % |t|]
  {
    hide H.HashKey;
    var k := H.HashKey(n) % |t|;
    if Kept(tail, n) in t[k] {
      assert KeptAt(Kept(tail, n), tail, names, |t|, k);
      var m :| m in names && Kept(tail, n) == Kept(tail, m);
      assert Kept(tail, n)[..|n|] == n && Kept(tail, m)[..|m|] == m;
    }
  }

  /** Is there a name in the bucket that `ngx_strncmp` finds equal? */
  ghost predicate HasEqual(names: seq<Str>, s: Str) {
    exists i | 0 <= i < |names| :: StrnEqual(s, names[i])
  }

  lemma HasEqualPlain(names: seq<Str>, s: Str)
    ensures s in names ==> HasEqual(names, s)
    ensures HasEqual(names, s) && 0 !in s ==> s in names
  {
    hide StrnEqual;
    StrnEqualSame(s, s);
    if HasEqual(names, s) && 0 !in s {
      var i :| 0 <= i < |names| && StrnEqual(s, names[i]);
      StrnEqualSame(s, names[i]);
    }
  }

  /** The search of a bucket of exact names finds those that are taken for the name. */
  lemma TakenInBucket(t: seq<seq<Str>>, b: Book, n: Str)
    requires Buckets(t, false, b.claimed) && |t| == b.hsize
    ensures Taken(b, n) <==> HasEqual(t[H.HashKey(n) % |t|], n)
  {
    hide H.HashKey, StrnEqual, Buckets, Alike;
    var names := t[H.HashKey(n) % |t|];
    if Taken(b, n) {
      var m :| m in b.claimed && Alike(m, n, b.hsize);
      AlikeKept(t, b, n, m);
      var i :| 0 <= i < |names| && names[i] == m;
      assert StrnEqual(n, names[i]);
    }
    if HasEqual(names, n) {
      var i :| 0 <= i < |names| && StrnEqual(n, names[i]);
      KeptAlike(t, b, n, names[i]);
    }
  }

  lemma AlikeKept(t: seq<seq<Str>>, b: Book, n: Str, m: Str)
    requires Buckets(t, false, b.claimed) && |t| == b.hsize
    requires m in b.claimed && Alike(m, n, b.hsize)
    ensures m in t[H.HashKey(n) % |t|] && StrnEqual(n, m)
  {
    hide H.HashKey, StrnEqual;
    assert Kept(false, m) in t[H.HashKey(m) % |t|];
  }

  lemma KeptAlike(t: seq<seq<Str>>, b: Book, n: Str, s: Str)
    requires Buckets(t, false, b.claimed) && |t| == b.hsize
    requires s in t[H.HashKey(n) % |t|] && StrnEqual(n, s)
    ensures s in b.claimed && Alike(s, n, b.hsize)
  {
    hide H.HashKey, StrnEqual;
    assert KeptAt(s, false, b.claimed, |t|, H.HashKey(n) % |t|);
  }

  /** Pushing a name to its bucket. */
  lemma PushName(t: seq<seq<Str>>, tail: bool, names: set<Str>, n: Str, k: nat)
    requires Buckets(t, tail, names) && k == H.HashKey(n) % |t|
    ensures Buckets(t[k := t[k] + [Kept(tail, n)]], tail, names + {n})
  {
    hide H.HashKey, Kept, KeptAt;
    var t' := t[k := t[k] + [Kept(tail, n)]];
    forall l, s | 0 <= l < |t'| && s in t'[l]
      ensures KeptAt(s, tail, names + {n}, |t'|, l)
    {
      if s in t[l] {
        KeptMore(s, tail, names, n, |t|, l);
      } else {
        KeptNew(tail, names, n, |t|);
      }
    }
  }

  lemma KeptMore(s: Str, tail: bool, names: set<Str>, n: Str, size: nat, k: nat)
    requires size > 0 && KeptAt(s, tail, names, size, k)
    ensures KeptAt(s, tail, names + {n}, size, k)
  {
    hide H.HashKey, Kept;
    var m :| m in names && s == Kept(tail, m) && H.HashKey(m) % size == k;
    assert m in names + {n};
  }

  lemma KeptNew(tail: bool, names: set<Str>, n: Str, size: nat)
    requires size > 0
    ensures KeptAt(Kept(tail, n), tail, names + {n}, size, H.HashKey(n) % size)
  {
    hide H.HashKey, Kept;
    assert n in names + {n};
  }

  // ----- The loops over a key -----------------------------------------------------------------------------

  /** The first loop: '*' counted, an empty label or a NUL declined. The key is NUL-terminated. */
  method CheckForm(key: Str) returns (ok: bool, stars: nat)
    ensures ok <==> WellFormed(key)
    ensures ok ==> stars == Stars(key)
  {
    ok, stars := true, 0;
    for i := 0 to |key|
      invariant stars == Stars(key[..i]) <= 1
      invariant forall j | 0 <= j < i :: key[j] != 0
      invariant forall j | 0 <= j < i && j < |key| - 1 :: !(key[j] == DOT && key[j + 1] == DOT)
    {
      assert key[..i + 1][..i] == key[..i];
      if key[i] == STAR {
        stars := stars + 1;
        if stars > 1 {
          StarsMonotone(key, i + 1);
          return false, stars;
        }
      }
      var next := if i + 1 < |key| then key[i + 1] else 0;
      if (key[i] == DOT && next == DOT) || key[i] == 0 {
        return false, stars;
      }
    }
    assert key[..|key|] == key;
  }

  lemma {:induction false} StarsMonotone(key: Str, n: nat)
    requires n <= |key|
    ensures Stars(key[..n]) <= Stars(key)
  {
    if n < |key| {
      StarsMonotone(key[..|key| - 1], n);
      assert key[..|key| - 1][..n] == key[..n];
    } else {
      assert key[..n] == key;
    }
  }

  /** The conflict loops. */
  method InList(names: seq<Str>, s: Str) returns (found: bool)
    ensures found <==> HasEqual(names, s)
    ensures 0 !in s ==> (found <==> s in names)
  {
    hide StrnEqual;
    HasEqualPlain(names, s);
    found := false;
    for i := 0 to |names|
      invariant !found && forall j | 0 <= j < i :: !StrnEqual(s, names[j])
    {
      if StrnEqual(s, names[i]) {
        return true;
      }
    }
  }

  /** The reversed labels before the first one. */
  ghost function RevHead(u: Str): Str {
    var x := W.FirstLabel(u);
    if x == u then [] else RevFront(u[|x| + 1..]) + [DOT]
  }

  lemma RevSplit(u: Str)
    ensures RevFront(u) == RevHead(u) + W.FirstLabel(u)
  {
  }

  lemma RevHeadDot(u: Str)
    ensures RevHead([DOT] + u) == RevFront(u) + [DOT] && W.FirstLabel([DOT] + u) == []
  {
    assert ([DOT] + u)[1..] == u;
  }

  lemma RevHeadByte(c: Byte, u: Str)
    requires c != DOT
    ensures RevHead([c] + u) == RevHead(u) && W.FirstLabel([c] + u) == [c] + W.FirstLabel(u)
  {
    hide W.FirstLabel, RevFront;
    LabelByte(c, u);
    var x := W.FirstLabel(u);
    if x != u {
      AppendSlices([c], u, |x| + 1);
    }
  }

  lemma LabelByte(c: Byte, u: Str)
    requires c != DOT
    ensures W.FirstLabel([c] + u) == [c] + W.FirstLabel(u)
    ensures W.FirstLabel([c] + u) == [c] + u <==> W.FirstLabel(u) == u
  {
    assert ([c] + u)[1..] == u;
    assert W.FirstLabel([c] + u) != [c] + u || W.FirstLabel(u) == u by {
      assert ([c] + W.FirstLabel(u))[1..] == W.FirstLabel(u);
    }
  }

  /** The loop that turns "*.example.com" into "com.example." and ".example.com" into "com.example":
      it walks back over all but the first character and copies label after label. */
  method ReverseKey(key: Str) returns (p: Str)
    requires |key| > 0
    ensures p == W.RevLabels(key[1..])
  {
    hide W.FirstLabel, RevHead, RevFront, W.RevLabels;
    var i, len := |key| - 1, 0;
    p := [];
    assert key[i + 1..] == [];
    NothingReversed();
    while i > 0
      invariant 0 <= i < |key| && i + 1 + len <= |key|
      invariant p == RevHead(key[i + 1..]) && key[i + 1..i + 1 + len] == W.FirstLabel(key[i + 1..])
    {
      RevSplit(key[i + 1..]);
      assert key[i..] == [key[i]] + key[i + 1..];
      if key[i] == DOT {
        RevHeadDot(key[i + 1..]);
        p := p + key[i + 1..i + 1 + len] + [DOT];
        len := 0;
      } else {
        RevHeadByte(key[i], key[i + 1..]);
        assert key[i..i + 1 + len] == [key[i]] + key[i + 1..i + 1 + len];
        len := len + 1;
      }
      i := i - 1;
    }
    RevSplit(key[1..]);
    if len > 0 {
      p := p + key[1..1 + len];
    }
    RevFrontIsRev(key[1..]);
  }

  lemma NothingReversed()
    ensures RevHead([]) == [] && W.FirstLabel([]) == []
  {
  }

  // ----- ngx_hash_add_key ------------------------------------------------------------------------------------

  /** `ngx_hash_keys_arrays_t`; `book` is what the arrays amount to. */
  class KeysArrays {
    var keys: seq<H.Key>
    var keysHash: seq<seq<Str>>
    var head: seq<W.Name>
    var headHash: seq<seq<Str>>
    var tail: seq<W.Name>
    var tailHash: seq<seq<Str>>
    ghost var book: Book
    const system: Requests

    ghost predicate Valid()
      reads this
    {
      && |keysHash| == |headHash| == |tailHash| == book.hsize
      && Buckets(keysHash, false, book.claimed)
      && Buckets(headHash, false, book.heads)
      && Buckets(tailHash, true, book.tails)
      && keys == KeysOf(book.rules) && head == HeadsOf(book.rules) && tail == TailsOf(book.rules)
    }

    /** `ngx_hash_keys_array_init` with `hsize` buckets (107, or 10007 for a large hash). */
    constructor (hsize: Size, system: Requests)
      ensures Valid() && book == EmptyBook(hsize) && this.system == system
    {
      this.system := system;
      var none: seq<seq<Str>> := seq(hsize, _ => []);
      keys, head, tail := [], [], [];
      keysHash, headHash, tailHash := none, none, none;
      book := EmptyBook(hsize);
    }

    /** An exact name, or the check and the claim of ".name" in the table of exact names. */
    method Claim(n: Str) returns (rc: Status)
      requires Valid()
      modifies this`keysHash, this`book, system
      ensures Valid()
      ensures old(system.asked) <= system.asked && (rc == Error <==> system.Refused(old(system.asked)))
      ensures rc == Ok || rc == Busy || rc == Error
      ensures rc == Busy <==> Taken(old(book), n)
      ensures book == if rc == Ok then old(book).(claimed := old(book).claimed + {n}) else old(book)
    {
      hide Buckets, Kept, H.HashKey, KeysOf, HeadsOf, TailsOf, Taken, HasEqual;
      var k := W.KeyOf(n);
      k := k % |keysHash|;
      TakenInBucket(keysHash, book, n);
      KeptPlain(n);
      var found := InList(keysHash[k], n);
      if found {
        return Busy;
      }
      var room := system.Ask();
      if room.None? {
        return Error;
      }
      PushName(keysHash, false, book.claimed, n, k);
      keysHash := keysHash[k := keysHash[k] + [n]];
      book := book.(claimed := book.claimed + {n});
      rc := Ok;
    }

    /** The check and the claim of a base among the head wildcards. */
    method ClaimHead(n: Str) returns (rc: Status)
      requires Valid() && 0 !in n
      modifies this`headHash, this`book, system
      ensures Valid()
      ensures old(system.asked) <= system.asked && (rc == Error <==> system.Refused(old(system.asked)))
      ensures rc == Ok || rc == Busy || rc == Error
      ensures rc == Busy <==> n in old(book.heads)
      ensures book == if rc == Ok then old(book).(heads := old(book).heads + {n}) else old(book)
    {
      hide Buckets, Kept, H.HashKey, KeysOf, HeadsOf, TailsOf;
      var k := W.KeyOf(n);
      NonEmpty(headHash, false, book.heads);
      k := k % |headHash|;
      InBucket(headHash, false, book.heads, n);
      KeptPlain(n);
      var found := InList(headHash[k], n);
      if found {
        return Busy;
      }
      var room := system.Ask();
      if room.None? {
        return Error;
      }
      PushName(headHash, false, book.heads, n, k);
      headHash := headHash[k := headHash[k] + [n]];
      book := book.(heads := book.heads + {n});
      rc := Ok;
    }

    /** The same among the tail wildcards, whose names are kept with the dot. */
    method ClaimTail(n: Str) returns (rc: Status)
      requires Valid() && 0 !in n
      modifies this`tailHash, this`book, system
      ensures Valid()
      ensures old(system.asked) <= system.asked && (rc == Error <==> system.Refused(old(system.asked)))
      ensures rc == Ok || rc == Busy || rc == Error
      ensures rc == Busy <==> n in old(book.tails)
      ensures book == if rc == Ok then old(book).(tails := old(book).tails + {n}) else old(book)
    {
      hide Buckets, Kept, H.HashKey, KeysOf, HeadsOf, TailsOf;
      var k := W.KeyOf(n);
      NonEmpty(tailHash, true, book.tails);
      k := k % |tailHash|;
      InBucket(tailHash, true, book.tails, n);
      KeptPlain(n);
      var found := InList(tailHash[k], n + [DOT]);
      if found {
        return Busy;
      }
      var room := system.Ask();
      if room.None? {
        return Error;
      }
      PushName(tailHash, true, book.tails, n, k);
      tailHash := tailHash[k := tailHash[k] + [n + [DOT]]];
      book := book.(tails := book.tails + {n});
      rc := Ok;
    }

    method AddExact(n: Str, value: nat) returns (rc: Status)
      requires Valid()
      modifies this, system
      ensures old(system.asked) <= system.asked && (rc == Error <==> system.Refused(old(system.asked)))
      ensures Valid() && rc != Declined && AddStep(old(book), Exact(n), value, rc, book)
    {
      hide Buckets, Kept, H.HashKey, KeysOf, HeadsOf, TailsOf;
      rc := Claim(n);
      if rc == Ok {
        var room := system.Ask();
        if room.None? {
          return Error;
        }
        var h := W.KeyOf(n);
        RulesStep(book.rules, Rule(Exact(n), value));
        keys := keys + [H.Key(Some(n), h, value)];
        book := Accept(book, Exact(n), value);
      }
    }

    /** "*.name" and ".name"; `key` is the whole lower-cased key, `skip` what precedes the name. */
    method AddHead(key: Str, skip: nat, value: nat) returns (rc: Status)
      requires Valid() && |key| > skip && (skip == 1 || (skip == 2 && key[1] == DOT)) && 0 !in key
      modifies this, system
      ensures old(system.asked) <= system.asked && (rc == Error <==> system.Refused(old(system.asked)))
      ensures Valid() && rc != Declined
      ensures AddStep(old(book), if skip == 1 then AtOrBelow(key[1..]) else Below(key[2..]), value, rc, book)
    {
      hide Buckets, W.RevLabels, H.HashKey, KeysOf, HeadsOf, TailsOf, Taken, RefusedIn;
      var n := key[skip..];
      ghost var asked := system.asked;
      if skip == 1 {
        rc := Claim(n);
        if rc != Ok {
          return;
        }
      } else {
        RefusedOne(system.grants, asked);
      }
      RefusedSplit(system.grants, asked, system.asked, system.asked);
      ghost var mid := system.asked;
      rc := StoreHead(key, skip, n, value, if skip == 1 then AtOrBelow(n) else Below(n));
      RefusedSplit(system.grants, asked, mid, system.asked);
    }

    /** The reversed name is made, its base claimed among the head wildcards, and the key recorded. */
    method StoreHead(key: Str, skip: nat, n: Str, value: nat, ghost p: Pattern) returns (rc: Status)
      requires Valid() && |key| > skip && (skip == 1 || (skip == 2 && key[1] == DOT)) && n == key[skip..] && 0 !in n
      requires p == if skip == 1 then AtOrBelow(n) else Below(n)
      modifies this, system
      ensures old(system.asked) <= system.asked && (rc == Error <==> system.Refused(old(system.asked)))
      ensures Valid() && rc != Declined
      ensures rc == Busy ==> n in old(book).heads && book == old(book)
      ensures rc == Ok ==>
        n !in old(book).heads && book == Accept(old(book).(heads := old(book).heads + {n}), p, value)
      ensures rc == Error ==> book == old(book) || book == old(book).(heads := old(book).heads + {n})
    {
      hide Buckets, W.RevLabels, H.HashKey, KeysOf, HeadsOf, TailsOf, RefusedIn;
      ghost var asked := system.asked;
      var room := system.Ask();
      RefusedOne(system.grants, asked);
      if room.None? {
        return Error;
      }
      var reversed := ReverseKey(key);
      if skip == 2 {
        RevDot(n);
        assert key[1..] == [DOT] + n;
      }
      rc := ClaimHead(n);
      RefusedSplit(system.grants, asked, asked + 1, system.asked);
      if rc == Ok {
        ghost var mid := system.asked;
        rc := PushHead(p, reversed, value);
        RefusedOne(system.grants, mid);
        RefusedSplit(system.grants, asked, mid, system.asked);
      }
    }

    /** The key is appended to the array of head wildcards. */
    method PushHead(ghost p: Pattern, reversed: Str, value: nat) returns (rc: Status)
      requires Valid() && HeadKey(Rule(p, value)) == [W.Name(reversed, value)]
      modifies this`head, this`book, system
      ensures Valid() && system.asked == old(system.asked) + 1
      ensures rc == if system.grants(old(system.asked)) == None then Error else Ok
      ensures book == if rc == Ok then Accept(old(book), p, value) else old(book)
    {
      hide Buckets, KeysOf, HeadsOf, TailsOf, W.RevLabels, H.HashKey;
      var room := system.Ask();
      if room.None? {
        return Error;
      }
      RulesStep(book.rules, Rule(p, value));
      head := head + [W.Name(reversed, value)];
      book := Accept(book, p, value);
      rc := Ok;
    }

    method AddTail(n: Str, value: nat) returns (rc: Status)
      requires Valid() && 0 !in n
      modifies this, system
      ensures old(system.asked) <= system.asked && (rc == Error <==> system.Refused(old(system.asked)))
      ensures Valid() && rc != Declined && AddStep(old(book), Prefix(n), value, rc, book)
    {
      hide Buckets, W.RevLabels, H.HashKey, KeysOf, HeadsOf, TailsOf, Taken, RefusedIn;
      ghost var asked := system.asked;
      var room := system.Ask();
      RefusedOne(system.grants, asked);
      if room.None? {
        return Error;
      }
      rc := ClaimTail(n);
      RefusedSplit(system.grants, asked, asked + 1, system.asked);
      if rc == Ok {
        ghost var mid := system.asked;
        rc := PushTail(n, value);
        RefusedOne(system.grants, mid);
        RefusedSplit(system.grants, asked, mid, system.asked);
      }
    }

    /** Records a tail wildcard. */
    method PushTail(n: Str, value: nat) returns (rc: Status)
      requires Valid()
      modifies this`tail, this`book, system
      ensures Valid() && system.asked == old(system.asked) + 1
      ensures rc == if system.grants(old(system.asked)) == None then Error else Ok
      ensures book == if rc == Ok then Accept(old(book), Prefix(n), value) else old(book)
    {
      hide Buckets, KeysOf, HeadsOf, TailsOf, W.RevLabels, H.HashKey;
      var room := system.Ask();
      if room.None? {
        return Error;
      }
      RulesStep(book.rules, Rule(Prefix(n), value));
      tail := tail + [W.Name(n, value)];
      book := Accept(book, Prefix(n), value);
      rc := Ok;
    }

    /** `ngx_hash_add_key`. */
    method AddKey(key: Str, value: nat, wildcard: bool, readonly: bool) returns (rc: Status)
      requires Valid()
      modifies this, system
      ensures Valid()
      ensures old(system.asked) <= system.asked && (rc == Error <==> system.Refused(old(system.asked)))
      ensures rc == Declined <==> wildcard && forall p | Writable(p) :: key != Text(p)
      ensures rc == Declined ==> book == old(book)
      ensures wildcard ==>
        forall p | Writable(p) && key == Text(p) :: AddStep(old(book), Recorded(p, readonly), value, rc, book)
      ensures !wildcard ==> AddStep(old(book), Recorded(Exact(key), readonly), value, rc, book)
    {
      KeyText(key);
      rc := AddClassified(key, value, wildcard, readonly);
    }

    method AddClassified(key: Str, value: nat, wildcard: bool, readonly: bool) returns (rc: Status)
      requires Valid()
      modifies this, system
      ensures Valid()
      ensures old(system.asked) <= system.asked && (rc == Error <==> system.Refused(old(system.asked)))
      ensures rc == Declined <==> Classify(key, wildcard).None?
      ensures rc == Declined ==> book == old(book)
      ensures rc != Declined ==>
        AddStep(old(book), Recorded(Classify(key, wildcard).value, readonly), value, rc, book)
    {
      hide Buckets, WellFormed, Stars, AddStep;
      if wildcard {
        var ok, stars := CheckForm(key);
        if !ok {
          return Declined;
        }
        if |key| > 1 && key[0] == DOT {
          var low := LowerStr(key);
          LoweredKey(key);
          assert low[1..] == LowerStr(key[1..]);
          rc := AddHead(low, 1, value);
          return;
        }
        if |key| > 2 {
          if key[0] == STAR && key[1] == DOT {
            var low := LowerStr(key);
            LoweredKey(key);
            assert low[2..] == LowerStr(key[2..]);
            rc := AddHead(low, 2, value);
            return;
          }
          if key[|key| - 2] == DOT && key[|key| - 1] == STAR {
            var low := LowerStr(key);
            LoweredKey(key);
            assert low[..|key| - 2] == LowerStr(key[..|key| - 2]);
            rc := AddTail(low[..|key| - 2], value);
            return;
          }
        }
        if stars > 0 {
          return Declined;
        }
      }
      rc := AddExact(if readonly then key else LowerStr(key), value);
    }
  }

  /** A well-formed key has no NUL, lower-cased or not. */
  lemma LoweredKey(key: Str)
    requires WellFormed(key)
    ensures 0 !in LowerStr(key)
  {
  }

  lemma RevDot(n: Str)
    ensures W.RevLabels([DOT] + n) == W.RevLabels(n) + [DOT]
  {
    var none: Str := [];
    RevAppend(none, n);
    assert none + [DOT] + n == [DOT] + n;
    NoDotIsLabel(none);
  }

  /** One more rule adds its key to the array it belongs to. */
  lemma RulesStep(rules: seq<Rule>, r: Rule)
    ensures KeysOf(rules + [r])
         == if r.pattern.Exact?
            then KeysOf(rules) + [H.Key(Some(r.pattern.name), H.HashKey(r.pattern.name), r.value)]
            else KeysOf(rules)
    ensures HeadsOf(rules + [r]) == if HeadKey(r) == [] then HeadsOf(rules) else HeadsOf(rules) + HeadKey(r)
    ensures TailsOf(rules + [r])
         == if r.pattern.Prefix? then TailsOf(rules) + [W.Name(r.pattern.name, r.value)] else TailsOf(rules)
  {
    assert (rules + [r])[..|rules|] == rules;
  }

  lemma KeptPlain(n: Str)
    ensures Kept(false, n) == n && Kept(true, n) == n + [DOT]
  {
  }

  lemma NonEmpty(t: seq<seq<Str>>, tail: bool, names: set<Str>)
    requires Buckets(t, tail, names)
    ensures |t| > 0
  {
  }
}
