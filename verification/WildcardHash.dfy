/** The DNS wildcard tries of ngx_hash.c.

    A key of the head trie is a name with its labels reversed: "com.example." stands for
    "*.example.com" and "com.example" for ".example.com". A key of the tail trie is the fixed part
    of "www.example.*". A value in a trie is a pointer whose two low bits are a tag. */
module WildcardHash {
  import opened Bytes
  import H = HashTable
  import opened System

  datatype Name = Name(key: Str, value: nat)

  /** `ngx_hash_wildcard_t`. */
  datatype Node = Node(table: H.Table, value: nat)

  datatype Mode = Head | Tail

  // ----- The sort order of the keys -----------------------------------------------------------

  /** '.' sorts below every other byte, and only a proper prefix sorts below that. */
  function Rank(c: Byte): int {
    if c == DOT then -1 else c
  }

  ghost predicate Less(a: Str, b: Str) {
    if b == [] then false
    else if a == [] then true
    else if a[0] == b[0] then Less(a[1..], b[1..])
    else Rank(a[0]) < Rank(b[0])
  }

  ghost predicate Sorted(names: seq<Name>) {
    forall i, j | 0 <= i < j < |names| :: Less(names[i].key, names[j].key)
  }

  /** "X" and "X." would both answer for the subdomains of X. */
  ghost predicate NoConflict(names: seq<Name>) {
    forall i, j | 0 <= i < |names| && 0 <= j < |names| :: names[j].key != names[i].key + [DOT]
  }

  /** Values are pointers to aligned data, so their two low bits are free. */
  ghost predicate GoodValue(v: nat) {
    0 < v < TWO64 && v % 4 == 0
  }

  ghost predicate GoodNames(names: seq<Name>) {
    && Sorted(names)
    && NoConflict(names)
    && forall n | n in names :: GoodValue(n.value) && IsLower(n.key)
  }

  lemma {:induction false} LessAsymmetric(a: Str, b: Str)
    requires Less(a, b)
    ensures !Less(b, a)
  {
    if a != [] && a[0] == b[0] {
      LessAsymmetric(a[1..], b[1..]);
    }
  }

  lemma {:induction false} PrefixLess(a: Str, b: Str)
    requires a < b
    ensures Less(a, b)
  {
    if a != [] {
      PrefixLess(a[1..], b[1..]);
    }
  }

  lemma {:induction false} LessStrip(x: Str, a: Str, b: Str)
    ensures Less(x + a, x + b) == Less(a, b)
  {
    if x == [] {
      assert x + a == a && x + b == b;
    } else {
      assert (x + a)[1..] == x[1..] + a && (x + b)[1..] == x[1..] + b;
      LessStrip(x[1..], a, b);
    }
  }

  // ----- Labels --------------------------------------------------------------------------------

  predicate NoDot(s: Str) {
    DOT !in s
  }

  /** The bytes before the first dot. */
  function FirstLabel(s: Str): (x: Str)
    ensures NoDot(x) && x <= s
    ensures x == s || s[|x|] == DOT
  {
    if s == [] || s[0] == DOT then [] else [s[0]] + FirstLabel(s[1..])
  }

  lemma {:induction false} FirstLabelIs(x: Str, s: Str)
    requires NoDot(x) && x <= s && (x == s || s[|x|] == DOT)
    ensures FirstLabel(s) == x
  {
    if x != [] {
      assert s[0] == x[0];
      FirstLabelIs(x[1..], s[1..]);
    }
  }

  /** Between two keys with the same first label, every key has that label: groups are contiguous. */
  lemma {:induction false} GroupsContiguous(a: Str, b: Str, c: Str)
    requires Less(a, b) && Less(b, c) && FirstLabel(a) == FirstLabel(c)
    ensures FirstLabel(b) == FirstLabel(a)
  {
    if a != [] && a[0] != DOT {
      assert c[0] == FirstLabel(c)[0] == FirstLabel(a)[0] == a[0];
      assert FirstLabel(a)[1..] == FirstLabel(a[1..]);
      assert FirstLabel(c)[1..] == FirstLabel(c[1..]);
      GroupsContiguous(a[1..], b[1..], c[1..]);
    }
  }

  // ----- The names under a label -----------------------------------------------------------------

  ghost predicate Under(k: Str, x: Str) {
    x + [DOT] < k
  }

  function Total(names: seq<Name>): nat {
    if names == [] then 0 else Total(names[..|names| - 1]) + |names[|names| - 1].key|
  }

  /** What is left of the longer names once their first label `x` and its dot are dropped. */
  ghost function Rests(names: seq<Name>, x: Str): (r: seq<Name>)
    ensures Total(r) <= Total(names)
    ensures r != [] ==> Total(r) < Total(names)
  {
    if names == [] then []
    else
      var n := names[|names| - 1];
      var init := Rests(names[..|names| - 1], x);
      if Under(n.key, x) then
        var rest := Name(n.key[|x| + 1..], n.value);
        assert (init + [rest])[..|init|] == init;
        init + [rest]
      else init
  }

  /** The value of the name, or 0. */
  ghost function ValueOf(names: seq<Name>, k: Str): nat {
    if names == [] then 0
    else
      var n := names[|names| - 1];
      if n.key == k then n.value else ValueOf(names[..|names| - 1], k)
  }

  lemma {:induction false} RestsMember(names: seq<Name>, x: Str)
    ensures forall r | r in Rests(names, x) ::
      r.key != [] && Name(x + [DOT] + r.key, r.value) in names
    ensures forall n | n in names && Under(n.key, x) ::
      Name(n.key[|x| + 1..], n.value) in Rests(names, x)
  {
    if names != [] {
      var init, n := names[..|names| - 1], names[|names| - 1];
      RestsMember(init, x);
      if Under(n.key, x) {
        assert n.key == x + [DOT] + n.key[|x| + 1..];
      }
    }
  }

  lemma {:induction false} RestsSorted(names: seq<Name>, x: Str)
    requires Sorted(names)
    ensures Sorted(Rests(names, x))
  {
    hide Less;
    if names != [] {
      var init, n := names[..|names| - 1], names[|names| - 1];
      RestsSorted(init, x);
      if Under(n.key, x) {
        RestIsLast(init, n.key, x);
      }
    }
  }

  lemma RestIsLast(names: seq<Name>, key: Str, x: Str)
    requires Under(key, x) && forall n | n in names :: Less(n.key, key)
    ensures forall i | 0 <= i < |Rests(names, x)| :: Less(Rests(names, x)[i].key, key[|x| + 1..])
  {
    hide Rests, Less;
    var rs, rest := Rests(names, x), key[|x| + 1..];
    RestsMember(names, x);
    assert key == x + [DOT] + rest;
    forall i | 0 <= i < |rs|
      ensures Less(rs[i].key, rest)
    {
      assert rs[i] in rs;
      LessStrip(x + [DOT], rs[i].key, rest);
    }
  }

  lemma RestOf(names: seq<Name>, x: Str, i: nat) returns (k: nat)
    requires i < |Rests(names, x)|
    ensures k < |names| && names[k].key == x + [DOT] + Rests(names, x)[i].key
  {
    hide Rests;
    RestsMember(names, x);
    var r := Rests(names, x)[i];
    assert r in Rests(names, x);
    k :| 0 <= k < |names| && names[k] == Name(x + [DOT] + r.key, r.value);
  }

  lemma RestsNoConflict(names: seq<Name>, x: Str)
    requires NoConflict(names)
    ensures NoConflict(Rests(names, x))
  {
    hide Rests;
    var rs := Rests(names, x);
    forall i, j | 0 <= i < |rs| && 0 <= j < |rs|
      ensures rs[j].key != rs[i].key + [DOT]
    {
      var k := RestOf(names, x, i);
      var l := RestOf(names, x, j);
      AppendAssoc(x + [DOT], rs[i].key, [DOT]);
      assert names[l].key != names[k].key + [DOT];
    }
  }

  lemma RestsGood(names: seq<Name>, x: Str)
    requires GoodNames(names)
    ensures GoodNames(Rests(names, x))
  {
    hide Sorted, NoConflict, Rests;
    RestsSorted(names, x);
    RestsNoConflict(names, x);
    RestsMember(names, x);
    forall r | r in Rests(names, x)
      ensures GoodValue(r.value) && IsLower(r.key)
    {
      var n := Name(x + [DOT] + r.key, r.value);
      assert n in names;
      assert r.key == n.key[|x| + 1..];
    }
  }

  lemma {:induction false} ValueOfMember(names: seq<Name>, k: Str)
    ensures ValueOf(names, k) != 0 ==> Name(k, ValueOf(names, k)) in names
    ensures (forall n | n in names :: n.key != k) ==> ValueOf(names, k) == 0
  {
    if names != [] {
      ValueOfMember(names[..|names| - 1], k);
    }
  }

  lemma {:induction false} ValueOfUnique(names: seq<Name>, i: nat)
    requires Sorted(names) && i < |names|
    ensures ValueOf(names, names[i].key) == names[i].value
  {
    var last := |names| - 1;
    if i < last {
      ValueOfUnique(names[..last], i);
      if names[i].key == names[last].key {
        LessAsymmetric(names[i].key, names[last].key);
      }
    }
  }

  // ----- Reference: the longest matching pattern ---------------------------------------------------

  ghost predicate EndsWithDot(p: Str) {
    p != [] && p[|p| - 1] == DOT
  }

  /** Head: `r` is a host with its labels reversed; "com.example." matches the hosts below it, and
      "com.example" the host itself too. Tail: `r` is the host; "www.example" is "www.example.*". */
  ghost predicate Match(mode: Mode, p: Str, r: Str) {
    if mode == Head && EndsWithDot(p) then p <= r
    else (mode == Head && p == r) || p + [DOT] <= r
  }

  /** Is `v` the value of the longest matching pattern, 0 when none matches? */
  ghost predicate Longest(mode: Mode, names: seq<Name>, r: Str, v: nat) {
    if v == 0 then forall n | n in names :: !Match(mode, n.key, r)
    else exists n | n in names ::
      && n.value == v && Match(mode, n.key, r)
      && forall m | m in names && Match(mode, m.key, r) :: |m.key| <= |n.key|
  }

  /** Two matching patterns of the same length are equal, so the longest one is unique. */
  lemma LongestUnique(mode: Mode, names: seq<Name>, r: Str, v: nat, w: nat)
    requires GoodNames(names)
    requires Longest(mode, names, r, v) && Longest(mode, names, r, w)
    ensures v == w
  {
    if v != 0 && w != 0 {
      var n :| n in names && n.value == v && Match(mode, n.key, r)
        && forall m | m in names && Match(mode, m.key, r) :: |m.key| <= |n.key|;
      var m :| m in names && m.value == w && Match(mode, m.key, r)
        && forall k | k in names && Match(mode, k.key, r) :: |k.key| <= |m.key|;
      MatchIsPrefix(mode, n.key, r);
      MatchIsPrefix(mode, m.key, r);
      assert n.key == m.key;
      var i :| 0 <= i < |names| && names[i] == n;
      var j :| 0 <= j < |names| && names[j] == m;
      ValueOfUnique(names, i);
      ValueOfUnique(names, j);
    }
  }

  lemma MatchIsPrefix(mode: Mode, p: Str, r: Str)
    requires Match(mode, p, r)
    ensures p <= r
  {
  }

  lemma {:induction false} FirstLabelAppend(p: Str, t: Str)
    ensures FirstLabel(p + [DOT] + t) == FirstLabel(p)
  {
    var x := FirstLabel(p);
    assert x <= p + [DOT] + t;
    FirstLabelIs(x, p + [DOT] + t);
  }

  lemma MatchSameLabel(mode: Mode, p: Str, r: Str)
    requires Match(mode, p, r)
    ensures FirstLabel(p) == FirstLabel(r)
  {
    if mode == Head && EndsWithDot(p) {
      var q := p[..|p| - 1];
      assert p == q + [DOT] + [] && r == q + [DOT] + r[|p|..];
      FirstLabelAppend(q, []);
      FirstLabelAppend(q, r[|p|..]);
    } else if p + [DOT] <= r {
      assert r == p + [DOT] + r[|p| + 1..];
      FirstLabelAppend(p, r[|p| + 1..]);
    }
  }

  /** Below a label, matching goes on with what is left of pattern and name. */
  lemma MatchUnder(mode: Mode, x: Str, p: Str, r: Str)
    requires p != []
    ensures Match(mode, x + [DOT] + p, x + [DOT] + r) <==> Match(mode, p, r)
  {
    var y := x + [DOT];
    assert (y + p)[|y|..] == p && (y + r)[|y|..] == r;
    assert (y + p) + [DOT] == y + (p + [DOT]);
    assert forall t: Str :: t <= r ==> y + t <= y + r;
    assert forall t: Str :: y + t <= y + r ==> t <= r by {
      forall t: Str | y + t <= y + r
        ensures t <= r
      {
        assert forall i | 0 <= i < |t| :: t[i] == (y + t)[|y| + i] == (y + r)[|y| + i] == r[i];
      }
    }
    assert EndsWithDot(y + p) <==> EndsWithDot(p);
  }

  lemma LongestNoLabel(mode: Mode, names: seq<Name>, r: Str)
    requires forall n | n in names :: FirstLabel(n.key) != FirstLabel(r)
    ensures Longest(mode, names, r, 0)
  {
    forall n | n in names
      ensures !Match(mode, n.key, r)
    {
      if Match(mode, n.key, r) {
        MatchSameLabel(mode, n.key, r);
      }
    }
  }

  /** The value that stands for "X" or "X." itself. */
  ghost function OwnValue(names: seq<Name>, x: Str): nat {
    if ValueOf(names, x) != 0 then ValueOf(names, x) else ValueOf(names, x + [DOT])
  }

  /** The patterns with first label `x` are "x", "x." and the ones under it. */
  lemma LabelCases(k: Str, x: Str)
    requires FirstLabel(k) == x
    ensures k == x || k == x + [DOT] || (Under(k, x) && k == x + [DOT] + k[|x| + 1..])
  {
    if k != x {
      assert k[..|x| + 1] == x + [DOT];
    }
  }

  /** Tail patterns keep their last label, so none ends with a dot. */
  ghost predicate ModeNames(mode: Mode, names: seq<Name>) {
    mode == Tail ==> forall n | n in names :: !EndsWithDot(n.key)
  }

  lemma RestsMode(mode: Mode, names: seq<Name>, x: Str)
    requires ModeNames(mode, names)
    ensures ModeNames(mode, Rests(names, x))
  {
    RestsMember(names, x);
    forall r | r in Rests(names, x) && mode == Tail
      ensures !EndsWithDot(r.key)
    {
      assert EndsWithDot(r.key) ==> EndsWithDot(x + [DOT] + r.key);
    }
  }

  lemma MatchSingle(mode: Mode, p: Str, r: Str)
    requires NoDot(r)
    ensures Match(mode, p, r) ==> mode == Head && p == r
  {
    assert (p + [DOT])[|p|] == DOT;
    assert p <= r ==> forall i | 0 <= i < |p| :: p[i] == r[i];
  }

  /** A host of one label: only the pattern equal to it matches, and no tail pattern does. */
  lemma LongestSingle(mode: Mode, names: seq<Name>, r: Str)
    requires GoodNames(names) && NoDot(r)
    ensures Longest(mode, names, r, if mode == Head then ValueOf(names, r) else 0)
  {
    ValueOfMember(names, r);
    forall n | n in names && Match(mode, n.key, r)
      ensures mode == Head && n.key == r && ValueOf(names, r) == n.value
    {
      MatchSingle(mode, n.key, r);
      var i :| 0 <= i < |names| && names[i] == n;
      ValueOfUnique(names, i);
    }
    if ValueOf(names, r) != 0 {
      assert NoDot(r) ==> !EndsWithDot(r);
    }
  }

  /** More labels, and some longer pattern under the first label matches. */
  lemma LongestBelow(mode: Mode, names: seq<Name>, x: Str, r: Str, v: nat)
    requires GoodNames(names) && NoDot(x) && v != 0
    requires Longest(mode, Rests(names, x), r, v)
    ensures Longest(mode, names, x + [DOT] + r, v)
  {
    var rs, whole := Rests(names, x), x + [DOT] + r;
    RestsMember(names, x);
    var t :| t in rs && t.value == v && Match(mode, t.key, r)
      && forall m | m in rs && Match(mode, m.key, r) :: |m.key| <= |t.key|;
    var n := Name(x + [DOT] + t.key, v);
    MatchUnder(mode, x, t.key, r);
    FirstLabelAppend(x, r);
    FirstLabelIs(x, x);
    forall m | m in names && Match(mode, m.key, whole)
      ensures |m.key| <= |n.key|
    {
      MatchSameLabel(mode, m.key, whole);
      LabelCases(m.key, x);
      if Under(m.key, x) {
        MatchUnder(mode, x, m.key[|x| + 1..], r);
        assert Name(m.key[|x| + 1..], m.value) in rs;
      }
    }
    assert n in names && Match(mode, n.key, whole);
  }

  /** More labels, and nothing under the first label matches: the label's own pattern decides. */
  lemma LongestOwn(mode: Mode, names: seq<Name>, x: Str, r: Str)
    requires GoodNames(names) && ModeNames(mode, names) && NoDot(x)
    requires Longest(mode, Rests(names, x), r, 0)
    ensures Longest(mode, names, x + [DOT] + r, OwnValue(names, x))
  {
    var whole, dotted := x + [DOT] + r, x + [DOT];
    RestsMember(names, x);
    ValueOfMember(names, x);
    ValueOfMember(names, dotted);
    FirstLabelAppend(x, r);
    FirstLabelIs(x, x);
    assert !EndsWithDot(x);
    assert dotted <= whole && EndsWithDot(dotted);
    forall n | n in names && Match(mode, n.key, whole)
      ensures n.value == OwnValue(names, x) && (n.key == x || n.key == dotted)
    {
      MatchSameLabel(mode, n.key, whole);
      LabelCases(n.key, x);
      if Under(n.key, x) {
        MatchUnder(mode, x, n.key[|x| + 1..], r);
        assert Name(n.key[|x| + 1..], n.value) in Rests(names, x);
      }
      OwnIs(names, n, x);
    }
    if OwnValue(names, x) != 0 {
      var k := if ValueOf(names, x) != 0 then x else dotted;
      assert Name(k, OwnValue(names, x)) in names;
      assert Match(mode, k, whole);
      OnlyOne(names, x);
    }
  }

  lemma OwnIs(names: seq<Name>, n: Name, x: Str)
    requires GoodNames(names) && n in names && (n.key == x || n.key == x + [DOT])
    ensures n.value == OwnValue(names, x)
  {
    var i :| 0 <= i < |names| && names[i] == n;
    ValueOfUnique(names, i);
    ValueOfMember(names, x);
    if n.key != x && ValueOf(names, x) != 0 {
      OnlyOne(names, x);
    }
  }

  lemma OnlyOne(names: seq<Name>, x: Str)
    requires GoodNames(names)
    ensures forall n, m | n in names && m in names && n.key == x :: m.key != x + [DOT]
  {
    forall n, m | n in names && m in names && n.key == x
      ensures m.key != x + [DOT]
    {
      var i :| 0 <= i < |names| && names[i] == n;
      var j :| 0 <= j < |names| && names[j] == m;
      assert names[j].key != names[i].key + [DOT];
    }
  }

  // ----- The trie in memory ------------------------------------------------------------------------

  type Nodes = map<nat, Node>
  type Contents = map<nat, seq<H.Entry>>

  /** The node that a tagged value points to. */
  function Untag(v: nat): nat {
    v - v % 4
  }

  /** A table `table` that stores `es`, with the nodes it points to, is the trie of `names`. */
  ghost predicate Rep(nodes: Nodes, contents: Contents, table: H.Table, es: seq<H.Entry>, names: seq<Name>)
    decreases Total(names), 1
  {
    && H.Represents(table, es)
    && (forall e | e in es :: e.hash == H.HashKey(e.name))
    && forall x: Str | NoDot(x) :: LabelRep(nodes, contents, names, x, H.Lookup(es, x))
  }

  /** The value stored for label `x`: NULL, data tagged 0 or 1, or a node tagged 2 or 3. */
  ghost predicate LabelRep(nodes: Nodes, contents: Contents, names: seq<Name>, x: Str, v: nat)
    decreases Total(names), 0
  {
    var rs, b, d := Rests(names, x), ValueOf(names, x), ValueOf(names, x + [DOT]);
    if rs == [] then
      v == if b != 0 then b else if d != 0 then d + 1 else 0
    else
      && v % 4 == (if b != 0 then 2 else 3)
      && Untag(v) in nodes && Untag(v) in contents
      && nodes[Untag(v)].value == OwnValue(names, x)
      && Rep(nodes, contents, nodes[Untag(v)].table, contents[Untag(v)], rs)
  }

  /** The table has what `names` say of label `x`. */
  ghost predicate Stores(nodes: Nodes, contents: Contents, table: H.Table, es: seq<H.Entry>, names: seq<Name>, x: Str)
  {
    && H.Represents(table, es) && (forall e | e in es :: e.hash == H.HashKey(e.name))
    && LabelRep(nodes, contents, names, x, H.Lookup(es, x))
  }

  lemma RepStores(nodes: Nodes, contents: Contents, table: H.Table, es: seq<H.Entry>, names: seq<Name>, x: Str)
    requires Rep(nodes, contents, table, es, names) && NoDot(x)
    ensures Stores(nodes, contents, table, es, names, x)
  {
    hide LabelRep;
  }

  ghost predicate Extends(nodes: Nodes, contents: Contents, nodes': Nodes, contents': Contents) {
    && nodes.Keys <= nodes'.Keys && contents.Keys <= contents'.Keys
    && (forall a | a in nodes :: nodes'[a] == nodes[a])
    && (forall a | a in contents :: contents'[a] == contents[a])
  }

  /** Later allocations do not disturb a trie. */
  lemma {:induction false} RepExtends(nodes: Nodes, contents: Contents, nodes': Nodes, contents': Contents,
                                      table: H.Table, es: seq<H.Entry>, names: seq<Name>)
    requires Extends(nodes, contents, nodes', contents')
    requires Rep(nodes, contents, table, es, names)
    ensures Rep(nodes', contents', table, es, names)
    decreases Total(names), 1
  {
    forall x: Str | NoDot(x)
      ensures LabelRep(nodes', contents', names, x, H.Lookup(es, x))
    {
      LabelExtends(nodes, contents, nodes', contents', names, x, H.Lookup(es, x));
    }
  }

  lemma {:induction false} LabelExtends(nodes: Nodes, contents: Contents, nodes': Nodes, contents': Contents,
                                        names: seq<Name>, x: Str, v: nat)
    requires Extends(nodes, contents, nodes', contents')
    requires LabelRep(nodes, contents, names, x, v)
    ensures LabelRep(nodes', contents', names, x, v)
    decreases Total(names), 0
  {
    if Rests(names, x) != [] {
      RepExtends(nodes, contents, nodes', contents', nodes[Untag(v)].table, contents[Untag(v)], Rests(names, x));
    }
  }

  // ----- Lookup ----------------------------------------------------------------------------------------

  /** A host with its labels in reverse order. */
  function RevLabels(name: Str): Str
    decreases |name|
  {
    var n := LastLabelStart(name);
    if n == 0 then name else name[n..] + [DOT] + RevLabels(name[..n - 1])
  }

  /** Just after the last dot, or 0. */
  function LastLabelStart(name: Str): (n: nat)
    ensures n <= |name| && NoDot(name[n..])
    ensures n > 0 ==> name[n - 1] == DOT
  {
    if name == [] || name[|name| - 1] == DOT then |name|
    else
      var n := LastLabelStart(name[..|name| - 1]);
      assert name[n..] == name[..|name| - 1][n..] + [name[|name| - 1]];
      n
  }

  /** What the two low bits of a stored value say about the names under label `x`. */
  lemma TagMeans(nodes: Nodes, contents: Contents, names: seq<Name>, x: Str, v: nat)
    requires GoodNames(names) && LabelRep(nodes, contents, names, x, v)
    ensures v % 4 >= 2 <==> Rests(names, x) != []
    ensures v % 4 < 2 ==> OwnValue(names, x) == Untag(v)
    ensures v % 2 == 1 ==> ValueOf(names, x) == 0
    ensures v % 4 == 0 ==> ValueOf(names, x) == v
    ensures v % 4 == 2 ==> ValueOf(names, x) == OwnValue(names, x) != 0
    ensures v == 0 <==> v % 4 < 2 && OwnValue(names, x) == 0
  {
    hide ValueOf, Rep, Rests, GoodNames;
    GoodOrNone(names, x);
    GoodOrNone(names, x + [DOT]);
  }

  lemma GoodOrNone(names: seq<Name>, k: Str)
    requires GoodNames(names)
    ensures ValueOf(names, k) == 0 || GoodValue(ValueOf(names, k))
  {
    hide ValueOf;
    ValueOfMember(names, k);
  }

  lemma NoSuchLabel(names: seq<Name>, x: Str)
    requires GoodNames(names) && Rests(names, x) == [] && OwnValue(names, x) == 0
    ensures forall n | n in names :: FirstLabel(n.key) != x
  {
    RestsMember(names, x);
    forall n | n in names
      ensures FirstLabel(n.key) != x
    {
      assert !Under(n.key, x);
      if FirstLabel(n.key) == x {
        LabelCases(n.key, x);
        OwnIs(names, n, x);
      }
    }
  }

  lemma {:induction false} LastLabelStartIs(name: Str, n: nat)
    requires n <= |name| && NoDot(name[n..]) && (n > 0 ==> name[n - 1] == DOT)
    ensures LastLabelStart(name) == n
  {
    if name != [] {
      var last := |name| - 1;
      assert forall i | n <= i < |name| :: name[n..][i - n] == name[i];
      if name[last] != DOT {
        assert name[..last][n..] == name[n..][..last - n];
        LastLabelStartIs(name[..last], n);
      }
    }
  }

  /** `ngx_hash_key`, one byte after the other. */
  method KeyOf(s: Str) returns (key: nat)
    ensures key == H.HashKey(s)
  {
    key := 0;
    for i := 0 to |s|
      invariant key == H.HashKey(s[..i])
    {
      assert s[..i + 1][..i] == s[..i];
      key := (key * 31 + s[i]) % TWO64;
    }
    assert s[..|s|] == s;
  }

  /** What a search from a node with value `own` may answer: the longest match; where there is none,
      NULL or the node's value. */
  ghost predicate Answers(mode: Mode, names: seq<Name>, r: Str, v: nat, own: nat) {
    Longest(mode, names, r, v) || (v == own && Longest(mode, names, r, 0))
  }

  lemma AnswerBelow(mode: Mode, names: seq<Name>, x: Str, r: Str, below: nat)
    requires GoodNames(names) && ModeNames(mode, names) && NoDot(x)
    requires Answers(mode, Rests(names, x), r, below, OwnValue(names, x))
    ensures Longest(mode, names, x + [DOT] + r, if below != 0 then below else OwnValue(names, x))
  {
    hide Longest, GoodNames, OwnValue;
    if below != 0 && Longest(mode, Rests(names, x), r, below) {
      LongestBelow(mode, names, x, r, below);
    } else {
      LongestOwn(mode, names, x, r);
    }
  }

  /** A stored value that points to a node. */
  lemma NodeAnswer(mode: Mode, nodes: Nodes, contents: Contents, names: seq<Name>, x: Str, v: nat,
                   name: Str, r: Str, below: nat, own: nat)
    requires GoodNames(names) && ModeNames(mode, names) && NoDot(x) && name == x + [DOT] + r
    requires LabelRep(nodes, contents, names, x, v) && v % 4 >= 2
    requires Untag(v) in nodes && Answers(mode, Rests(names, x), r, below, nodes[Untag(v)].value)
    ensures Answers(mode, names, name, if below != 0 then below else nodes[Untag(v)].value, own)
  {
    hide Longest, GoodNames, OwnValue, LabelRep, ModeNames, Rests;
    BelowNode(nodes, contents, names, x, v);
    AnswerBelow(mode, names, x, r, below);
  }

  /** A stored value that is data. */
  lemma DataAnswer(mode: Mode, nodes: Nodes, contents: Contents, names: seq<Name>, x: Str, v: nat,
                   name: Str, r: Str, own: nat)
    requires GoodNames(names) && ModeNames(mode, names) && NoDot(x) && name == x + [DOT] + r
    requires LabelRep(nodes, contents, names, x, v) && 0 < v && v % 4 < 2
    ensures Answers(mode, names, name, Untag(v), own)
    ensures mode == Tail ==> Untag(v) == v
  {
    TagMeans(nodes, contents, names, x, v);
    if mode == Tail {
      NoDottedTail(names, x);
    }
    LongestOwn(mode, names, x, r);
  }

  /** A host of one label. */
  lemma SingleAnswer(nodes: Nodes, contents: Contents, names: seq<Name>, name: Str, v: nat, own: nat)
    requires GoodNames(names) && NoDot(name) && LabelRep(nodes, contents, names, name, v)
    ensures v % 4 >= 2 ==> Untag(v) in nodes
    ensures v % 2 == 1 ==> Answers(Head, names, name, 0, own)
    ensures v % 4 == 2 ==> Answers(Head, names, name, nodes[Untag(v)].value, own)
    ensures v % 4 == 0 ==> Answers(Head, names, name, v, own)
  {
    hide Longest, GoodNames, LabelRep, OwnValue;
    TagMeans(nodes, contents, names, name, v);
    if v % 4 >= 2 {
      BelowNode(nodes, contents, names, name, v);
    }
    LongestSingle(Head, names, name);
  }

  /** A label that is not stored. */
  lemma NoLabelAnswer(mode: Mode, nodes: Nodes, contents: Contents, names: seq<Name>, x: Str, name: Str, own: nat)
    requires GoodNames(names) && LabelRep(nodes, contents, names, x, 0) && FirstLabel(name) == x
    ensures Answers(mode, names, name, own, own)
  {
    TagMeans(nodes, contents, names, x, 0);
    NoSuchLabel(names, x);
    LongestNoLabel(mode, names, name);
  }

  /** The scan back to the last dot, and the hash of the label after it. */
  method LastLabel(name: Str) returns (n: nat, key: nat)
    ensures n == LastLabelStart(name) && key == H.HashKey(name[n..])
  {
    n := |name|;
    while n != 0 && name[n - 1] != DOT
      invariant n <= |name| && NoDot(name[n..])
    {
      assert name[n - 1..] == [name[n - 1]] + name[n..];
      n := n - 1;
    }
    LastLabelStartIs(name, n);
    key := KeyOf(name[n..]);
  }

  lemma RevWhole(name: Str)
    ensures LastLabelStart(name) == 0 ==> name[LastLabelStart(name)..] == name && RevLabels(name) == name
  {
    hide LastLabelStart;
  }

  /** What a host of one label gets for the value of that label. */
  method OneLabelValue(nodes: Nodes, ghost contents: Contents, ghost names: seq<Name>, ghost x: Str, v: nat,
                       ghost own: nat)
    returns (r: nat)
    requires GoodNames(names) && NoDot(x) && LabelRep(nodes, contents, names, x, v)
    ensures Answers(Head, names, x, r, own)
  {
    hide Answers, GoodNames, LabelRep;
    SingleAnswer(nodes, contents, names, x, v, own);
    if v % 2 == 1 {
      return 0;
    }
    return if v % 4 >= 2 then nodes[Untag(v)].value else v;
  }

  /** `ngx_hash_find_wc_head`: the value of the longest matching pattern; where none matches it is
      NULL, or the value of the node the search started from. */
  method FindHead(nodes: Nodes, ghost contents: Contents, a: nat, name: Str, ghost names: seq<Name>)
    returns (v: nat)
    requires a in nodes && a in contents && GoodNames(names)
    requires Stores(nodes, contents, nodes[a].table, contents[a], names, FirstLabel(RevLabels(name)))
    ensures Answers(Head, names, RevLabels(name), v, nodes[a].value)
    decreases |name|
  {
    hide Answers, GoodNames, LabelRep, Rep, Rests, RevLabels, LastLabelStart, FirstLabel, H.Represents, H.Lookup,
         H.HashKey;
    FirstLabelOfRev(name);
    RevStep(name);
    var n, key := LastLabel(name);
    ghost var x, own := name[n..], nodes[a].value;
    v := H.Find(nodes[a].table, key, name[n..], contents[a]);
    if v == 0 {
      NoLabelAnswer(Head, nodes, contents, names, x, RevLabels(name), own);
      return nodes[a].value;
    }
    RevWhole(name);
    if n == 0 {
      v := OneLabelValue(nodes, contents, names, name, v, own);
      return;
    }
    ghost var r := RevLabels(name[..n - 1]);
    if v % 4 >= 2 {
      BelowNode(nodes, contents, names, x, v);
      RepStores(nodes, contents, nodes[Untag(v)].table, contents[Untag(v)], Rests(names, x), FirstLabel(r));
      var below := FindHead(nodes, contents, Untag(v), name[..n - 1], Rests(names, x));
      NodeAnswer(Head, nodes, contents, names, x, v, RevLabels(name), r, below, own);
      return if below != 0 then below else nodes[Untag(v)].value;
    }
    DataAnswer(Head, nodes, contents, names, x, v, RevLabels(name), r, own);
    return Untag(v);
  }

  lemma BelowNode(nodes: Nodes, contents: Contents, names: seq<Name>, x: Str, v: nat)
    requires GoodNames(names) && LabelRep(nodes, contents, names, x, v) && v % 4 >= 2
    ensures Untag(v) in nodes && Untag(v) in contents
    ensures nodes[Untag(v)].value == OwnValue(names, x)
    ensures GoodNames(Rests(names, x))
    ensures Rep(nodes, contents, nodes[Untag(v)].table, contents[Untag(v)], Rests(names, x))
  {
    TagMeans(nodes, contents, names, x, v);
    RestsGood(names, x);
  }

  lemma RevStep(s: Str)
    ensures var n := LastLabelStart(s);
      RevLabels(s) == if n == 0 then s else s[n..] + [DOT] + RevLabels(s[..n - 1])
  {
  }

  lemma FirstLabelOfRev(name: Str)
    ensures FirstLabel(RevLabels(name)) == name[LastLabelStart(name)..]
  {
    var n := LastLabelStart(name);
    FirstLabelIs(name[n..], RevLabels(name));
  }

  /** The scan to the first dot, and the hash of the label before it. */
  method FirstLabelOf(name: Str) returns (i: nat, key: nat)
    ensures i == |FirstLabel(name)| && name[..i] == FirstLabel(name)
    ensures key == H.HashKey(name[..i])
  {
    key := 0;
    i := 0;
    while i < |name| && name[i] != DOT
      invariant i <= |name| && NoDot(name[..i])
      invariant key == H.HashKey(name[..i])
    {
      assert name[..i + 1] == name[..i] + [name[i]];
      assert name[..i + 1][..i] == name[..i];
      key := (key * 31 + name[i]) % TWO64;
      i := i + 1;
    }
    FirstLabelIs(name[..i], name);
  }

  /** `ngx_hash_find_wc_tail`: the same for "www.example.*" and the labels from the left. */
  method FindTail(nodes: Nodes, ghost contents: Contents, a: nat, name: Str, ghost names: seq<Name>)
    returns (v: nat)
    requires a in nodes && a in contents && GoodNames(names) && ModeNames(Tail, names)
    requires Rep(nodes, contents, nodes[a].table, contents[a], names)
    ensures Answers(Tail, names, name, v, nodes[a].value)
    decreases |name|
  {
    hide GoodNames, LabelRep, Rests, FirstLabel, ModeNames, Longest, H.Represents, H.Lookup, H.HashKey;
    var i, key := FirstLabelOf(name);
    ghost var x, own := name[..i], nodes[a].value;
    if i == |name| {
      assert x == name;
      LongestSingle(Tail, names, name);
      return 0;
    }
    ghost var r := name[i + 1..];
    assert name == x + [DOT] + r;
    v := H.Find(nodes[a].table, key, name[..i], contents[a]);
    assert LabelRep(nodes, contents, names, x, v);
    if v == 0 {
      NoLabelAnswer(Tail, nodes, contents, names, x, name, own);
      return nodes[a].value;
    }
    if v % 4 >= 2 {
      BelowNode(nodes, contents, names, x, v);
      RestsMode(Tail, names, x);
      var below := FindTail(nodes, contents, Untag(v), name[i + 1..], Rests(names, x));
      NodeAnswer(Tail, nodes, contents, names, x, v, name, r, below, own);
      return if below != 0 then below else nodes[Untag(v)].value;
    }
    DataAnswer(Tail, nodes, contents, names, x, v, name, r, own);
    return v;
  }

  lemma NoDottedTail(names: seq<Name>, x: Str)
    requires GoodNames(names) && ModeNames(Tail, names)
    ensures ValueOf(names, x + [DOT]) == 0
    ensures OwnValue(names, x) == ValueOf(names, x)
  {
    assert EndsWithDot(x + [DOT]);
    ValueOfMember(names, x + [DOT]);
  }

  // ----- ngx_hash_wildcard_init ------------------------------------------------------------------------

  /** What is asked of a memory allocator. */
  ghost predicate Allocates(grants: nat -> Option<nat>) {
    && (forall k | grants(k).Some? :: GoodValue(grants(k).value))
    && forall j, k | j < k && grants(j).Some? && grants(k).Some? :: grants(j) != grants(k)
  }

  /** The addresses are among the first `n` answers. */
  ghost predicate Granted(grants: nat -> Option<nat>, n: nat, addresses: set<nat>) {
    forall a | a in addresses :: exists k | 0 <= k < n :: grants(k) == Some(a)
  }

  lemma GrantedMore(grants: nat -> Option<nat>, n: nat, m: nat, addresses: set<nat>)
    requires Granted(grants, n, addresses) && n <= m
    ensures Granted(grants, m, addresses)
  {
  }

  lemma GrantedNew(grants: nat -> Option<nat>, n: nat, addresses: set<nat>)
    requires Allocates(grants) && Granted(grants, n, addresses)
    ensures Granted(grants, n + 1, addresses)
    ensures grants(n).Some? ==>
      && GoodValue(grants(n).value) && grants(n).value !in addresses
      && Granted(grants, n + 1, addresses + {grants(n).value})
  {
  }

  /** The memory pool the nodes are allocated from. */
  class Pool {
    const system: Requests
    var nodes: Nodes
    ghost var contents: Contents

    /** The system never grants an address twice, and only aligned ones; the nodes are where it granted them. */
    ghost predicate Valid()
      reads this, system
    {
      && nodes.Keys == contents.Keys && Allocates(system.grants)
      && Granted(system.grants, system.asked, nodes.Keys)
    }

    constructor (system: Requests)
      requires Allocates(system.grants)
      ensures Valid() && nodes.Keys == {} && this.system == system
    {
      this.system := system;
      nodes := map[];
      contents := map[];
    }

    /** One allocation: refused, or an aligned address not in use. */
    method Alloc() returns (r: Option<nat>)
      requires Valid()
      modifies system
      ensures Valid() && system.asked == old(system.asked) + 1 && r == system.grants(old(system.asked))
      ensures r.Some? ==> GoodValue(r.value) && r.value !in nodes
    {
      GrantedNew(system.grants, system.asked, nodes.Keys);
      r := system.Ask();
    }

    /** `ngx_pcalloc` of a node. */
    method NewNode(table: H.Table, ghost es: seq<H.Entry>) returns (r: Option<nat>)
      requires Valid()
      modifies this, system
      ensures Valid() && system.asked == old(system.asked) + 1 && r == system.grants(old(system.asked))
      ensures r.None? ==> nodes == old(nodes) && contents == old(contents)
      ensures r.Some? ==>
        && GoodValue(r.value) && r.value !in old(nodes) && r.value !in old(contents)
        && nodes == old(nodes)[r.value := Node(table, 0)]
        && contents == old(contents)[r.value := es]
    {
      hide Allocates, Granted;
      GrantedNew(system.grants, system.asked, nodes.Keys);
      r := system.Ask();
      if r.Some? {
        nodes := nodes[r.value := Node(table, 0)];
        contents := contents[r.value := es];
        assert nodes.Keys == old(nodes.Keys) + {r.value};
      }
    }

    /** The value of a node is set. */
    method SetValue(a: nat, value: nat)
      requires Valid() && a in nodes
      modifies this`nodes
      ensures Valid() && nodes == old(nodes)[a := old(nodes)[a].(value := value)]
    {
      nodes := nodes[a := nodes[a].(value := value)];
      assert nodes.Keys == old(nodes.Keys);
    }

    /** The three allocations of one hash; without the last there is no chunk. */
    method AllocHash() returns (al: H.Allocs, chunk: nat)
      requires Valid()
      modifies system
      ensures Valid() && old(system.asked) <= system.asked && 0 < chunk
      ensures al != H.Allocs(true, true, true) ==> system.Refused(old(system.asked))
    {
      var test := Alloc();
      var buckets := Alloc();
      var elts := Alloc();
      al := H.Allocs(test.Some?, buckets.Some?, elts.Some?);
      chunk := if elts.Some? then elts.value else 1;
    }
  }

  lemma {:induction false} RestsConcat(a: seq<Name>, b: seq<Name>, x: Str)
    ensures Rests(a + b, x) == Rests(a, x) + Rests(b, x)
  {
    if b == [] {
      assert a + b == a;
    } else {
      var init, n := b[..|b| - 1], b[|b| - 1];
      assert (a + b)[..|a + b| - 1] == a + init;
      RestsConcat(a, init, x);
    }
  }

  lemma RestsNone(names: seq<Name>, x: Str)
    requires NoDot(x) && forall n | n in names :: FirstLabel(n.key) != x
    ensures Rests(names, x) == []
  {
    RestsMember(names, x);
    if Rests(names, x) != [] {
      var r := Rests(names, x)[0];
      assert r in Rests(names, x);
      assert Name(x + [DOT] + r.key, r.value) in names;
      FirstLabelAppend(x, r.key);
      FirstLabelIs(x, x);
    }
  }

  // ----- Runs of one label -------------------------------------------------------------------------------

  ghost predicate OneLabel(names: seq<Name>, n: nat, i: nat, x: Str) {
    n <= i <= |names| && forall j | n <= j < i :: FirstLabel(names[j].key) == x
  }

  /** The names of label `x` that stand together from `n` to before `i`. */
  ghost predicate IsRun(names: seq<Name>, n: nat, i: nat, x: Str) {
    && n < i && OneLabel(names, n, i, x)
    && (n > 0 ==> FirstLabel(names[n - 1].key) != x)
    && (i < |names| ==> FirstLabel(names[i].key) != x)
  }

  /** The leading names of label `x`. */
  ghost function Leading(names: seq<Name>, x: Str): seq<Name> {
    if names == [] || FirstLabel(names[0].key) != x then [] else [names[0]] + Leading(names[1..], x)
  }

  /** The first run of label `x`. */
  ghost function FirstRun(names: seq<Name>, x: Str): seq<Name> {
    if names == [] then []
    else if FirstLabel(names[0].key) == x then Leading(names, x)
    else FirstRun(names[1..], x)
  }

  /** Names of one label that stand together are sorted and free of conflicts, though all names need not be. */
  ghost predicate GoodRuns(names: seq<Name>) {
    forall n: nat, i: nat, x: Str | OneLabel(names, n, i, x) :: GoodNames(names[n..i])
  }

  lemma GoodSlice(names: seq<Name>, n: nat, i: nat)
    requires GoodNames(names) && n <= i <= |names|
    ensures GoodNames(names[n..i])
  {
    hide Less;
    var s := names[n..i];
    forall j, k | 0 <= j < |s| && 0 <= k < |s|
      ensures j < k ==> Less(s[j].key, s[k].key)
      ensures s[k].key != s[j].key + [DOT]
    {
      assert s[j] == names[n + j] && s[k] == names[n + k];
    }
    assert forall m | m in s :: m in names;
  }

  lemma GoodHasGoodRuns(names: seq<Name>)
    requires GoodNames(names)
    ensures GoodRuns(names)
  {
    hide GoodNames;
    forall n: nat, i: nat, x: Str | OneLabel(names, n, i, x)
      ensures GoodNames(names[n..i])
    {
      GoodSlice(names, n, i);
    }
  }

  lemma {:induction false} LeadingIs(names: seq<Name>, i: nat, x: Str)
    requires OneLabel(names, 0, i, x) && (i < |names| ==> FirstLabel(names[i].key) != x)
    ensures Leading(names, x) == names[..i]
  {
    if i > 0 {
      var rest := names[1..];
      assert forall j | 0 <= j < |rest| :: rest[j] == names[j + 1];
      LeadingIs(rest, i - 1, x);
      assert names[..i] == [names[0]] + rest[..i - 1];
    }
  }

  /** The run that starts at `n` is the first one when the label does not occur before. */
  lemma {:induction false} FirstRunIs(names: seq<Name>, n: nat, i: nat, x: Str)
    requires IsRun(names, n, i, x) && forall j | 0 <= j < n :: FirstLabel(names[j].key) != x
    ensures FirstRun(names, x) == names[n..i]
    decreases n
  {
    hide FirstLabel, Leading;
    if n == 0 {
      LeadingIs(names, i, x);
    } else {
      RunOfRest(names, n, i, x);
      FirstRunIs(names[1..], n - 1, i - 1, x);
      SliceOfRest(names, n, i);
    }
  }

  lemma RunOfRest(names: seq<Name>, n: nat, i: nat, x: Str)
    requires IsRun(names, n, i, x) && n > 0
    ensures IsRun(names[1..], n - 1, i - 1, x)
  {
    hide FirstLabel;
    var rest := names[1..];
    assert forall j | 0 <= j < |rest| :: rest[j] == names[j + 1];
  }

  lemma {:induction false} NoRun(names: seq<Name>, x: Str)
    requires forall j | 0 <= j < |names| :: FirstLabel(names[j].key) != x
    ensures FirstRun(names, x) == []
  {
    if names != [] {
      var rest := names[1..];
      assert forall j | 0 <= j < |rest| :: rest[j] == names[j + 1];
      NoRun(rest, x);
    }
  }

  /** The first run of a label that occurs. */
  lemma {:induction false} FindRun(names: seq<Name>, x: Str) returns (n: nat, i: nat)
    requires exists j | 0 <= j < |names| :: FirstLabel(names[j].key) == x
    ensures IsRun(names, n, i, x) && FirstRun(names, x) == names[n..i]
    ensures forall j | 0 <= j < n :: FirstLabel(names[j].key) != x
  {
    hide FirstLabel, FirstRun;
    n := 0;
    while FirstLabel(names[n].key) != x
      invariant n < |names| && forall j | 0 <= j < n :: FirstLabel(names[j].key) != x
      invariant exists j | n <= j < |names| :: FirstLabel(names[j].key) == x
      decreases |names| - n
    {
      n := n + 1;
    }
    i := n + 1;
    while i < |names| && FirstLabel(names[i].key) == x
      invariant n < i <= |names| && OneLabel(names, n, i, x)
    {
      i := i + 1;
    }
    FirstRunIs(names, n, i, x);
  }

  lemma RunIsGood(names: seq<Name>, x: Str)
    requires GoodRuns(names)
    ensures GoodNames(FirstRun(names, x))
    ensures forall m | m in FirstRun(names, x) :: m in names && FirstLabel(m.key) == x
  {
    hide FirstLabel, GoodNames;
    if j :| 0 <= j < |names| && FirstLabel(names[j].key) == x {
      var n, i := FindRun(names, x);
    } else {
      NoRun(names, x);
      NothingGood();
    }
  }

  lemma NothingGood()
    ensures GoodNames([])
  {
  }

  /** The names from `n` to `i` are all those with first label `x`. */
  ghost predicate Group(names: seq<Name>, n: nat, i: nat, x: Str)
  {
    && n < i <= |names| && NoDot(x)
    && (forall j | 0 <= j < n || i <= j < |names| :: FirstLabel(names[j].key) != x)
    && (forall j | n <= j < i :: FirstLabel(names[j].key) == x)
  }

  lemma GroupRests(names: seq<Name>, n: nat, i: nat, x: Str)
    requires Group(names, n, i, x)
    ensures Rests(names[n..i], x) == Rests(names, x)
  {
    hide Rests, FirstLabel;
    RestsNone(names[..n], x);
    RestsNone(names[i..], x);
    RestsConcat(names[..n], names[n..i], x);
    RestsConcat(names[..i], names[i..], x);
    SliceSplit(names, n, i);
  }

  /** In a group the bare name or the dotted one can only come first. */
  lemma GroupHead(names: seq<Name>, n: nat, i: nat, x: Str)
    requires GoodNames(names) && Group(names, n, i, x)
    ensures ValueOf(names, x) == if names[n].key == x then names[n].value else 0
    ensures ValueOf(names, x + [DOT]) == if names[n].key == x + [DOT] then names[n].value else 0
  {
    FirstLabelIs(x, x);
    FirstLabelIs(x, x + [DOT]);
    LabelCases(names[n].key, x);
    forall k | (k == x || k == x + [DOT]) && k != names[n].key
      ensures ValueOf(names, k) == 0
    {
      HeadIsLeast(names, n, i, x, k);
      ValueOfMember(names, k);
    }
    ValueOfUnique(names, n);
  }

  lemma HeadIsLeast(names: seq<Name>, n: nat, i: nat, x: Str, k: Str)
    requires GoodNames(names) && Group(names, n, i, x)
    requires (k == x || k == x + [DOT]) && k != names[n].key
    ensures forall m | m in names :: m.key != k
  {
    FirstLabelIs(x, k);
    LabelCases(names[n].key, x);
    forall j | 0 <= j < |names|
      ensures names[j].key != k
    {
      assert names[j].key != names[n].key + [DOT] && names[n].key != names[j].key + [DOT];
      if names[j].key == k && names[n].key != x && names[n].key != x + [DOT] {
        PrefixLess(k, names[n].key);
        LessAsymmetric(k, names[n].key);
      }
    }
  }

  /** By the order no later name returns to the label of a run. */
  lemma RunIsGroup(names: seq<Name>, n: nat, i: nat, x: Str)
    requires GoodNames(names) && IsRun(names, n, i, x)
    requires forall j | 0 <= j < n :: FirstLabel(names[j].key) != x
    ensures Group(names, n, i, x)
  {
    assert FirstLabel(names[n].key) == x;
    forall j | i <= j < |names|
      ensures FirstLabel(names[j].key) != x
    {
      if j > i && FirstLabel(names[j].key) == x {
        GroupsContiguous(names[n].key, names[i].key, names[j].key);
      }
    }
  }

  lemma RunAlone(names: seq<Name>, n: nat, i: nat, x: Str)
    requires IsRun(names, n, i, x)
    ensures Group(names[n..i], 0, i - n, x)
  {
    hide FirstLabel;
    assert FirstLabel(names[n].key) == x;
    assert forall j | 0 <= j < i - n :: names[n..i][j] == names[n + j];
  }

  /** The run has all that the names say of its label. */
  lemma RunSays(names: seq<Name>, n: nat, i: nat, x: Str)
    requires GoodNames(names) && IsRun(names, n, i, x) && Group(names, n, i, x)
    ensures Rests(names[n..i], x) == Rests(names, x) && ValueOf(names[n..i], x) == ValueOf(names, x)
    ensures ValueOf(names[n..i], x + [DOT]) == ValueOf(names, x + [DOT])
  {
    hide FirstLabel, Rests, ValueOf, GoodNames, Group, IsRun;
    RunAlone(names, n, i, x);
    RunFirst(names, n, i, x);
    GroupRests(names, n, i, x);
    GroupHead(names, n, i, x);
    GoodSlice(names, n, i);
    GroupHead(names[n..i], 0, i - n, x);
  }

  lemma RunFirst(names: seq<Name>, n: nat, i: nat, x: Str)
    requires IsRun(names, n, i, x)
    ensures n < i <= |names| && names[n..i][0] == names[n]
  {
    hide FirstLabel;
  }

  lemma SameLabel(nodes: Nodes, contents: Contents, run: seq<Name>, names: seq<Name>, x: Str, v: nat)
    requires LabelRep(nodes, contents, run, x, v) && Rests(run, x) == Rests(names, x)
    requires ValueOf(run, x) == ValueOf(names, x) && ValueOf(run, x + [DOT]) == ValueOf(names, x + [DOT])
    ensures LabelRep(nodes, contents, names, x, v)
  {
    hide Rests, ValueOf, Rep;
  }

  /** In sorted names the first run of a label says all about it. */
  lemma RunRep(nodes: Nodes, contents: Contents, names: seq<Name>, x: Str, v: nat)
    requires GoodNames(names) && NoDot(x) && LabelRep(nodes, contents, FirstRun(names, x), x, v)
    ensures LabelRep(nodes, contents, names, x, v)
  {
    hide FirstLabel, LabelRep, Rests, ValueOf, GoodNames, FirstRun, IsRun, Group;
    if j :| 0 <= j < |names| && FirstLabel(names[j].key) == x {
      var n, i := FindRun(names, x);
      RunIsGroup(names, n, i, x);
      RunFirst(names, n, i, x);
      RunSays(names, n, i, x);
      SameLabel(nodes, contents, names[n..i], names, x, v);
    } else {
      NoRun(names, x);
      UnseenLabel(nodes, contents, names, x);
      StoredOnce(nodes, contents, x, v);
    }
  }

  lemma StoredOnce(nodes: Nodes, contents: Contents, x: Str, v: nat)
    requires LabelRep(nodes, contents, [], x, v)
    ensures v == 0
  {
  }

  /** The test that ends the inner loop, for a group whose first key starts with label `x`. */
  predicate Continues(key: Str, x: Str, dot: bool) {
    if dot then x + [DOT] <= key
    else x <= key && (|key| > |x| ==> key[|x|] == DOT)
  }

  lemma ContinuesIffLabel(first: Str, key: Str, x: Str, dot: bool)
    requires NoDot(x) && Less(first, key)
    requires if dot then x + [DOT] <= first else first == x
    ensures Continues(key, x, dot) <==> FirstLabel(key) == x
    ensures Continues(key, x, dot) && key != x + [DOT] ==> Under(key, x)
    ensures dot ==> key != x + [DOT]
    ensures key != x
  {
    if FirstLabel(key) == x {
      LabelCases(key, x);
    }
    if Continues(key, x, dot) {
      FirstLabelIs(x, key);
    }
    NotBefore(first, key, x);
    if dot {
      NotBefore(first, key, x + [DOT]);
    }
  }

  lemma NotBefore(first: Str, key: Str, p: Str)
    requires Less(first, key) && p <= first
    ensures key != p
  {
    LessAsymmetric(first, key);
    if p != first {
      PrefixLess(p, first);
    }
  }

  lemma GoodPair(names: seq<Name>, i: nat, j: nat)
    requires GoodNames(names) && i < j < |names|
    ensures Less(names[i].key, names[j].key)
    ensures names[j].key != names[i].key + [DOT]
  {
  }

  lemma UnderLength(k: Str, x: Str)
    ensures Under(k, x) ==> |k| > |x| + 1
  {
  }

  /** One turn of the inner loop. */
  lemma NoneLabel(names: seq<Name>, n: nat, x: Str)
    requires n <= |names|
    ensures OneLabel(names, n, n, x)
  {
  }

  lemma OneLabelGrows(names: seq<Name>, n: nat, i: nat, x: Str)
    requires OneLabel(names, n, i, x) && i < |names| && FirstLabel(names[i].key) == x
    ensures OneLabel(names, n, i + 1, x)
  {
    hide FirstLabel;
  }

  lemma CollectStep(names: seq<Name>, n: nat, i: nat, x: Str, dot: bool)
    requires GoodRuns(names) && n < i < |names| && OneLabel(names, n, i, x) && NoDot(x)
    requires if dot then x + [DOT] <= names[n].key else names[n].key == x
    ensures Continues(names[i].key, x, dot) <==> FirstLabel(names[i].key) == x
    ensures Continues(names[i].key, x, dot) ==>
      && |names[i].key| > |x| + 1 && OneLabel(names, n, i + 1, x)
      && Rests(names[n..i + 1], x)
         == Rests(names[n..i], x) + [Name(names[i].key[|x| + 1..], names[i].value)]
  {
    hide FirstLabel, Less, Continues, Rests, GoodRuns, OneLabel, Under;
    ContinuesLabel(names[i].key, x, dot);
    if FirstLabel(names[i].key) == x {
      RunPair(names, n, i, x);
      ContinuesIffLabel(names[n].key, names[i].key, x, dot);
      UnderLength(names[i].key, x);
      RestsAdd(names, n, i, x);
      OneLabelGrows(names, n, i, x);
    }
  }

  lemma RunPair(names: seq<Name>, n: nat, i: nat, x: Str)
    requires GoodRuns(names) && n < i < |names| && OneLabel(names, n, i, x) && FirstLabel(names[i].key) == x
    ensures Less(names[n].key, names[i].key) && names[i].key != names[n].key + [DOT]
  {
    hide FirstLabel, Less, GoodNames;
    assert OneLabel(names, n, i + 1, x);
    var run := names[n..i + 1];
    assert GoodNames(run) && run[0] == names[n] && run[i - n] == names[i];
    GoodPair(run, 0, i - n);
  }

  lemma ContinuesLabel(key: Str, x: Str, dot: bool)
    requires NoDot(x)
    ensures Continues(key, x, dot) ==> FirstLabel(key) == x
  {
    if Continues(key, x, dot) {
      FirstLabelIs(x, key);
    }
  }

  lemma RestsAdd(names: seq<Name>, n: nat, i: nat, x: Str)
    requires n <= i < |names|
    ensures Under(names[i].key, x) ==> |names[i].key| > |x|
    ensures Rests(names[n..i + 1], x)
         == if Under(names[i].key, x) then Rests(names[n..i], x) + [Name(names[i].key[|x| + 1..], names[i].value)]
            else Rests(names[n..i], x)
  {
    hide Rests, Under;
    RestsSnoc(names[n..i], names[i], x);
    SliceStep(names, n, i);
  }

  lemma RestsSnoc(a: seq<Name>, m: Name, x: Str)
    ensures Under(m.key, x) ==> |m.key| > |x|
    ensures Rests(a + [m], x)
         == if Under(m.key, x) then Rests(a, x) + [Name(m.key[|x| + 1..], m.value)] else Rests(a, x)
  {
    assert (a + [m])[..|a|] == a;
  }

  /** The names of one run, and what is left of them below their common label `x`. */
  method CollectGroup(names: seq<Name>, n: nat, x: Str, dot: bool) returns (i: nat, next: seq<Name>)
    requires GoodRuns(names) && n < |names|
    requires x == FirstLabel(names[n].key) && (dot <==> |x| < |names[n].key|)
    requires n > 0 ==> FirstLabel(names[n - 1].key) != x
    ensures IsRun(names, n, i, x)
    ensures next == Rests(names[n..i], x)
  {
    hide Less, GoodRuns, Continues, Rests, FirstLabel, OneLabel;
    next := FirstRest(names, n, x, dot);
    NoneLabel(names, n, x);
    OneLabelGrows(names, n, n, x);
    var dotLen := |x| + 1;
    i := n + 1;
    while i < |names| && Continues(names[i].key, x, dot)
      invariant n < i <= |names| && next == Rests(names[n..i], x)
      invariant OneLabel(names, n, i, x)
    {
      CollectStep(names, n, i, x, dot);
      next := next + [Name(names[i].key[dotLen..], names[i].value)];
      i := i + 1;
    }
    if i < |names| {
      CollectStep(names, n, i, x, dot);
    }
  }

  /** What the first name of a group leaves. */
  method FirstRest(names: seq<Name>, n: nat, x: Str, dot: bool) returns (next: seq<Name>)
    requires n < |names|
    requires x == FirstLabel(names[n].key) && (dot <==> |x| < |names[n].key|)
    ensures next == Rests(names[n..n + 1], x)
    ensures if dot then x + [DOT] <= names[n].key else names[n].key == x
  {
    hide Rests, FirstLabel;
    LabelCases(names[n].key, x);
    RestsOfFirst(names, n, x);
    var skip := if dot then |x| + 1 else |x|;
    next := [];
    if |names[n].key| != skip {
      next := [Name(names[n].key[skip..], names[n].value)];
    }
  }

  lemma RestsOfFirst(names: seq<Name>, n: nat, x: Str)
    requires n < |names|
    ensures Rests(names[n..n + 1], x)
         == if Under(names[n].key, x) then [Name(names[n].key[|x| + 1..], names[n].value)] else []
  {
    RestsAdd(names, n, n, x);
    assert names[n..n] == [];
  }

  // ----- The build loop ------------------------------------------------------------------------------

  ghost predicate Seen(names: seq<Name>, n: nat, x: Str)
    requires n <= |names|
  {
    exists i | 0 <= i < n :: FirstLabel(names[i].key) == x
  }

  ghost predicate GoodKey(k: H.Key) {
    && k.name.Some? && IsLower(k.name.value)
    && k.keyHash == H.HashKey(k.name.value) && 0 < k.value < TWO64
  }

  /** The groups among the first `n` names are complete and stored in `curr`. */
  ghost predicate Built(nodes: Nodes, contents: Contents, names: seq<Name>, n: nat, curr: seq<H.Key>)
    requires n <= |names|
  {
    && (forall k | k in curr :: GoodKey(k))
    && (0 < n < |names| ==> FirstLabel(names[n - 1].key) != FirstLabel(names[n].key))
    && forall x: Str | NoDot(x) :: LabelBuilt(nodes, contents, names, n, curr, x)
  }

  lemma LookupStep(curr: seq<H.Key>, k: H.Key, x: Str)
    requires GoodKey(k)
    ensures H.Lookup(H.Entries(curr + [k]), x)
         == if H.Lookup(H.Entries(curr), x) != 0 then H.Lookup(H.Entries(curr), x)
            else if k.name.value == x then k.value else 0
  {
    assert (curr + [k])[..|curr|] == curr;
    LowerStrFixesLower(k.name.value);
    var es := H.Entries(curr);
    assert H.Entries(curr + [k]) == es + H.OfKey(k);
    assert (es + H.OfKey(k))[..|es|] == es;
  }

  /** What `Built` says of one label. */
  ghost predicate LabelBuilt(nodes: Nodes, contents: Contents, names: seq<Name>, n: nat, curr: seq<H.Key>, x: Str)
    requires n <= |names|
  {
    if Seen(names, n, x) then LabelRep(nodes, contents, FirstRun(names, x), x, H.Lookup(H.Entries(curr), x))
    else H.Lookup(H.Entries(curr), x) == 0
  }

  lemma LabelBuiltStep(nodes: Nodes, contents: Contents, nodes': Nodes, contents': Contents,
                       names: seq<Name>, n: nat, i: nat, curr: seq<H.Key>, k: H.Key, x: Str)
    requires GoodRuns(names) && GoodKey(k) && IsRun(names, n, i, k.name.value)
    requires LabelBuilt(nodes, contents, names, n, curr, x) && Extends(nodes, contents, nodes', contents')
    requires LabelRep(nodes', contents', names[n..i], k.name.value, k.value)
    ensures LabelBuilt(nodes', contents', names, i, curr + [k], x)
  {
    hide LabelRep, Extends, GoodRuns, FirstLabel, FirstRun, H.Lookup, H.Entries;
    LookupStep(curr, k, x);
    SeenStep(names, n, i, k.name.value, x);
    var v := H.Lookup(H.Entries(curr), x);
    if Seen(names, n, x) {
      LabelExtends(nodes, contents, nodes', contents', FirstRun(names, x), x, v);
      SeenIsStored(nodes', contents', names, n, x, v);
    } else if x == k.name.value {
      FirstRunIs(names, n, i, x);
    }
  }

  lemma SeenStep(names: seq<Name>, n: nat, i: nat, own: Str, x: Str)
    requires IsRun(names, n, i, own)
    ensures Seen(names, i, x) <==> Seen(names, n, x) || x == own
  {
    hide FirstLabel;
    assert FirstLabel(names[n].key) == own;
  }

  lemma BuiltStep(nodes: Nodes, contents: Contents, nodes': Nodes, contents': Contents,
                  names: seq<Name>, n: nat, i: nat, curr: seq<H.Key>, k: H.Key)
    requires GoodRuns(names) && n < |names| && Built(nodes, contents, names, n, curr)
    requires Extends(nodes, contents, nodes', contents')
    requires GoodKey(k) && IsRun(names, n, i, k.name.value)
    requires LabelRep(nodes', contents', names[n..i], k.name.value, k.value)
    ensures Built(nodes', contents', names, i, curr + [k])
  {
    hide LabelRep, Extends, GoodRuns, FirstLabel, GoodKey, LabelBuilt, H.Lookup, H.Entries;
    forall x: Str | NoDot(x)
      ensures LabelBuilt(nodes', contents', names, i, curr + [k], x)
    {
      LabelBuiltStep(nodes, contents, nodes', contents', names, n, i, curr, k, x);
    }
  }

  lemma SeenIsStored(nodes: Nodes, contents: Contents, names: seq<Name>, n: nat, x: Str, v: nat)
    requires GoodRuns(names) && n <= |names|
    requires Seen(names, n, x) && LabelRep(nodes, contents, FirstRun(names, x), x, v)
    ensures v != 0
  {
    hide GoodNames, FirstLabel, FirstRun;
    RunIsGood(names, x);
    var a, b := FindRun(names, x);
    var run := FirstRun(names, x);
    assert run[0] in run;
    TagMeans(nodes, contents, run, x, v);
    if v == 0 {
      NoSuchLabel(run, x);
    }
  }

  lemma NothingBuilt(nodes: Nodes, contents: Contents, names: seq<Name>)
    ensures Built(nodes, contents, names, 0, [])
  {
  }

  lemma NothingLight(cfg: H.Config, names: seq<Name>)
    ensures Light(cfg, names, 0, [])
  {
  }

  lemma BuiltFresh(nodes: Nodes, contents: Contents, names: seq<Name>, n: nat, curr: seq<H.Key>)
    requires n < |names| && Built(nodes, contents, names, n, curr)
    ensures n > 0 ==> FirstLabel(names[n - 1].key) != FirstLabel(names[n].key)
  {
    hide FirstLabel, LabelBuilt;
  }

  lemma StoredKey(k: H.Key)
    requires GoodKey(k)
    ensures forall e | e in H.OfKey(k) :: e.hash == H.HashKey(e.name) && e.name == k.name.value
  {
    LowerStrFixesLower(k.name.value);
  }

  lemma {:induction false} StoredHashes(curr: seq<H.Key>)
    requires forall k | k in curr :: GoodKey(k)
    ensures forall e | e in H.Entries(curr) :: e.hash == H.HashKey(e.name)
  {
    hide GoodKey, H.HashKey, H.OfKey;
    if curr != [] {
      StoredHashes(curr[..|curr| - 1]);
      StoredKey(curr[|curr| - 1]);
    }
  }

  lemma UnseenLabel(nodes: Nodes, contents: Contents, names: seq<Name>, x: Str)
    requires NoDot(x) && !Seen(names, |names|, x)
    ensures LabelRep(nodes, contents, names, x, 0)
  {
    forall n | n in names
      ensures FirstLabel(n.key) != x && n.key != x && n.key != x + [DOT]
    {
      FirstLabelIs(x, x);
      FirstLabelIs(x, x + [DOT]);
    }
    RestsNone(names, x);
    ValueOfMember(names, x);
    ValueOfMember(names, x + [DOT]);
  }

  /** A table that stores, for every label, what its first run says. */
  ghost predicate RunTable(nodes: Nodes, contents: Contents, table: H.Table, es: seq<H.Entry>, names: seq<Name>) {
    && H.Represents(table, es) && (forall e | e in es :: e.hash == H.HashKey(e.name))
    && forall x: Str | NoDot(x) :: LabelRep(nodes, contents, FirstRun(names, x), x, H.Lookup(es, x))
  }

  /** After the loop the table of `curr` has the first run of every label. */
  lemma BuiltIsTable(nodes: Nodes, contents: Contents, names: seq<Name>, curr: seq<H.Key>, table: H.Table)
    requires Built(nodes, contents, names, |names|, curr)
    requires H.Represents(table, H.Entries(curr))
    ensures RunTable(nodes, contents, table, H.Entries(curr), names)
  {
    hide FirstLabel, FirstRun, GoodKey, LabelRep, H.Lookup, H.Entries, H.Represents;
    StoredHashes(curr);
    forall x: Str | NoDot(x)
      ensures LabelRep(nodes, contents, FirstRun(names, x), x, H.Lookup(H.Entries(curr), x))
    {
      if !Seen(names, |names|, x) {
        NoRun(names, x);
        UnseenLabel(nodes, contents, [], x);
      }
    }
  }

  /** For sorted names that is their trie. */
  lemma TableIsRep(nodes: Nodes, contents: Contents, table: H.Table, es: seq<H.Entry>, names: seq<Name>)
    requires GoodNames(names) && RunTable(nodes, contents, table, es, names)
    ensures Rep(nodes, contents, table, es, names)
  {
    hide FirstRun, GoodNames, LabelRep, H.Lookup, H.Represents;
    forall x: Str | NoDot(x)
      ensures LabelRep(nodes, contents, names, x, H.Lookup(es, x))
    {
      RunRep(nodes, contents, names, x, H.Lookup(es, x));
    }
  }

  /** The value stored for a group that is one name. */
  lemma DataLabel(nodes: Nodes, contents: Contents, names: seq<Name>, n: nat, i: nat, x: Str)
    requires GoodNames(names) && Group(names, n, i, x) && Rests(names, x) == []
    ensures LabelRep(nodes, contents, names, x, if names[n].key == x then names[n].value else names[n].value + 1)
    ensures 0 < names[n].value < TWO64 - 3
  {
    hide Rep, Rests, ValueOf, GoodNames;
    GroupHead(names, n, i, x);
    MemberValue(names, n);
    RestsMember(names, x);
    LabelCases(names[n].key, x);
    assert !Under(names[n].key, x);
  }

  /** The value stored for a group that leads to a node. */
  lemma NodeLabel(nodes: Nodes, contents: Contents, names: seq<Name>, n: nat, i: nat, x: Str, a: nat)
    requires GoodNames(names) && Group(names, n, i, x) && Rests(names, x) != []
    requires GoodValue(a) && a in nodes && a in contents
    requires Rep(nodes, contents, nodes[a].table, contents[a], Rests(names, x))
    requires nodes[a].value == if names[n].key == x || names[n].key == x + [DOT] then names[n].value else 0
    ensures LabelRep(nodes, contents, names, x, a + if names[n].key == x then 2 else 3)
  {
    hide Rep, Rests, ValueOf, GoodNames;
    GroupHead(names, n, i, x);
    MemberValue(names, n);
  }

  lemma MemberValue(names: seq<Name>, n: nat)
    requires GoodNames(names) && n < |names|
    ensures GoodValue(names[n].value)
  {
    assert names[n] in names;
  }

  /** The trie of `names` has its root at `a`, and none of the nodes below it is the root itself. */
  ghost predicate RootRep(nodes: Nodes, contents: Contents, a: nat, names: seq<Name>) {
    && a in nodes && a in contents && GoodValue(a)
    && Rep(nodes - {a}, contents - {a}, nodes[a].table, contents[a], names)
  }

  lemma RootIsRep(nodes: Nodes, contents: Contents, a: nat, names: seq<Name>)
    requires RootRep(nodes, contents, a, names)
    ensures Rep(nodes, contents, nodes[a].table, contents[a], names)
  {
    RepExtends(nodes - {a}, contents - {a}, nodes, contents, nodes[a].table, contents[a], names);
  }

  /** Setting the value of the root keeps the trie. */
  lemma RootUpdate(nodes: Nodes, contents: Contents, a: nat, names: seq<Name>, value: nat)
    requires RootRep(nodes, contents, a, names)
    ensures var nodes' := nodes[a := Node(nodes[a].table, value)];
      Rep(nodes', contents, nodes'[a].table, contents[a], names)
  {
    var nodes' := nodes[a := Node(nodes[a].table, value)];
    RepExtends(nodes - {a}, contents - {a}, nodes', contents, nodes[a].table, contents[a], names);
  }

  /** The same for the first runs of `names`. */
  ghost predicate RunRoot(nodes: Nodes, contents: Contents, a: nat, names: seq<Name>) {
    && a in nodes && a in contents && GoodValue(a)
    && RunTable(nodes - {a}, contents - {a}, nodes[a].table, contents[a], names)
  }

  lemma NewRunRoot(nodes: Nodes, contents: Contents, nodes': Nodes, contents': Contents, a: nat,
                   table: H.Table, es: seq<H.Entry>, names: seq<Name>)
    requires RunTable(nodes, contents, table, es, names) && GoodValue(a)
    requires a !in nodes && a !in contents
    requires nodes' == nodes[a := Node(table, 0)] && contents' == contents[a := es]
    ensures RunRoot(nodes', contents', a, names)
  {
    hide RunTable;
    assert nodes' - {a} == nodes && contents' - {a} == contents;
  }

  /** What such a root stores for one label. */
  lemma RootStores(nodes: Nodes, contents: Contents, a: nat, names: seq<Name>, x: Str)
    requires RunRoot(nodes, contents, a, names) && NoDot(x)
    ensures Stores(nodes, contents, nodes[a].table, contents[a], FirstRun(names, x), x)
  {
    hide LabelRep;
    assert Extends(nodes - {a}, contents - {a}, nodes, contents);
    LabelExtends(nodes - {a}, contents - {a}, nodes, contents, FirstRun(names, x), x, H.Lookup(contents[a], x));
  }

  lemma NewRoot(nodes: Nodes, contents: Contents, nodes': Nodes, contents': Contents, a: nat,
                table: H.Table, es: seq<H.Entry>, names: seq<Name>)
    requires Rep(nodes, contents, table, es, names) && GoodValue(a)
    requires a !in nodes && a !in contents
    requires nodes' == nodes[a := Node(table, 0)] && contents' == contents[a := es]
    ensures RootRep(nodes', contents', a, names)
  {
    hide Rep;
    assert nodes' - {a} == nodes && contents' - {a} == contents;
  }

  ghost predicate GoodConfig(cfg: H.Config) {
    cfg.maxSize < TWO64 && cfg.bucketSize < TWO64
  }

  // ----- When the build succeeds ------------------------------------------------------------------

  /** The bytes the names would take in one bucket. */
  ghost function Weight(names: seq<Name>): nat {
    if names == [] then 0 else Weight(names[..|names| - 1]) + H.EltSize(names[|names| - 1].key)
  }

  /** The names are short and few enough for any bucket of the configuration. */
  ghost predicate Tame(cfg: H.Config, names: seq<Name>) {
    && 0 < cfg.maxSize && cfg.bucketSize <= H.PlaceLimit(cfg)
    && (forall n | n in names :: H.EltSize(n.key) + H.PTR <= cfg.bucketSize)
    && Weight(names) <= H.PlaceLimit(cfg) - H.PTR
  }

  lemma EltMonotone(a: Str, b: Str)
    requires |a| <= |b|
    ensures H.EltSize(a) <= H.EltSize(b)
  {
  }

  lemma {:induction false} RestsWeight(names: seq<Name>, x: Str)
    ensures Weight(Rests(names, x)) <= Weight(names)
  {
    hide H.EltSize;
    if names != [] {
      var init, n := names[..|names| - 1], names[|names| - 1];
      RestsWeight(init, x);
      var rs := Rests(init, x);
      if Under(n.key, x) {
        EltMonotone(n.key[|x| + 1..], n.key);
        assert (rs + [Name(n.key[|x| + 1..], n.value)])[..|rs|] == rs;
      }
    }
  }

  lemma RestsTame(cfg: H.Config, names: seq<Name>, x: Str)
    requires Tame(cfg, names)
    ensures Tame(cfg, Rests(names, x))
  {
    hide H.EltSize;
    RestsWeight(names, x);
    RestsMember(names, x);
    forall r | r in Rests(names, x)
      ensures H.EltSize(r.key) + H.PTR <= cfg.bucketSize
    {
      EltMonotone(r.key, x + [DOT] + r.key);
    }
  }

  lemma {:induction false} WeightGrows(names: seq<Name>, n: nat, i: nat)
    requires n <= i <= |names|
    ensures Weight(names[..n]) <= Weight(names[..i])
    ensures n < i ==> Weight(names[..n]) + H.EltSize(names[n].key) <= Weight(names[..i])
  {
    hide H.EltSize;
    if n < i {
      WeightGrows(names, n, i - 1);
      assert names[..i][..i - 1] == names[..i - 1];
    }
  }

  /** The keys of one level so far: each fits, and together they weigh no more than their names. */
  ghost predicate Light(cfg: H.Config, names: seq<Name>, n: nat, curr: seq<H.Key>)
    requires n <= |names|
  {
    Tame(cfg, names) ==>
      H.Roomy(cfg, H.Entries(curr)) && H.Size(H.Entries(curr)) <= Weight(names[..n])
  }

  lemma LightStep(cfg: H.Config, names: seq<Name>, n: nat, i: nat, curr: seq<H.Key>, k: H.Key)
    requires n < i <= |names| && Light(cfg, names, n, curr)
    requires k.name.Some? && |k.name.value| <= |names[n].key|
    ensures Light(cfg, names, i, curr + [k])
  {
    hide H.EltSize, H.Size, Weight;
    assert (curr + [k])[..|curr|] == curr;
    var e := H.OfKey(k)[0];
    assert names[n] in names;
    EltMonotone(e.name, names[n].key);
    H.SizeStep(H.Entries(curr), e);
    WeightGrows(names, n, i);
  }

  lemma {:induction false} BytesBounded(es: seq<H.Entry>, size: nat, i: nat)
    requires size > 0
    ensures H.BucketBytes(es, size, i) <= H.Size(es)
  {
    hide H.EltSize;
    if es != [] {
      var init, e := es[..|es| - 1], es[|es| - 1];
      BytesBounded(init, size, i);
      H.BucketStep(init, e, size, i);
      H.SizeStep(init, e);
      assert es == init + [e];
    }
  }

  lemma LightIsBuildable(cfg: H.Config, names: seq<Name>, curr: seq<H.Key>)
    requires Tame(cfg, names) && GoodConfig(cfg) && Light(cfg, names, |names|, curr)
    requires H.Entries(curr) != [] || H.Room(cfg) / 16 > 0
    ensures H.Buildable(cfg, |curr|, H.Entries(curr))
  {
    hide H.Roomy, H.EltSize, H.Size, H.BucketBytes, H.Entries, Weight;
    var es := H.Entries(curr);
    assert names[..|names|] == names;
    H.RoomyRoom(cfg, es);
    var size := H.ChosenSize(cfg, |curr|, es);
    forall i | 0 <= i < size
      ensures H.BucketBytes(es, size, i) <= H.PlaceLimit(cfg) - H.PTR
    {
      BytesBounded(es, size, i);
    }
  }

  /** The value of a run: its data, tagged when it stands for the subdomains only, or a node that
      holds what is left of its names. */
  method GroupValue(pool: Pool, cfg: H.Config, names: seq<Name>, x: Str, dot: bool, next: seq<Name>)
    returns (r: Option<nat>)
    requires GoodNames(names) && GoodConfig(cfg) && pool.Valid() && names != []
    requires x == FirstLabel(names[0].key) && (dot <==> |x| < |names[0].key|)
    requires Group(names, 0, |names|, x) && next == Rests(names, x)
    modifies pool, pool.system
    ensures pool.Valid() && Extends(old(pool.nodes), old(pool.contents), pool.nodes, pool.contents)
    ensures r.Some? ==> 0 < r.value < TWO64
    ensures r.Some? ==> LabelRep(pool.nodes, pool.contents, names, x, r.value)
    ensures r.None? && Tame(cfg, names) ==> pool.system.Refused(old(pool.system.asked))
    ensures old(pool.system.asked) <= pool.system.asked
    decreases Total(names), 1
  {
    hide Group, GoodNames, LabelRep, Rests, Tame, Granted, Allocates, Extends, FirstLabel;
    MemberValue(names, 0);
    KeyIsLabel(names[0].key, x);
    if |next| > 0 {
      r := NodeValue(pool, cfg, names, x, dot, next);
      return;
    }
    ExtendsRefl(pool.nodes, pool.contents);
    DataLabel(pool.nodes, pool.contents, names, 0, |names|, x);
    r := Some(if dot then names[0].value + 1 else names[0].value);
  }

  lemma KeyIsLabel(key: Str, x: Str)
    requires x == FirstLabel(key)
    ensures |x| <= |key| && (|x| < |key| <==> key != x)
  {
  }

  /** The names below the label become a trie of their own; its node takes the label's own value. */
  method NodeValue(pool: Pool, cfg: H.Config, names: seq<Name>, x: Str, dot: bool, next: seq<Name>)
    returns (r: Option<nat>)
    requires GoodNames(names) && GoodConfig(cfg) && pool.Valid() && names != []
    requires (dot <==> names[0].key != x)
    requires Group(names, 0, |names|, x) && next == Rests(names, x) && next != []
    modifies pool, pool.system
    ensures pool.Valid() && Extends(old(pool.nodes), old(pool.contents), pool.nodes, pool.contents)
    ensures r.Some? ==> 0 < r.value < TWO64
    ensures r.Some? ==> LabelRep(pool.nodes, pool.contents, names, x, r.value)
    ensures r.None? && Tame(cfg, names) ==> pool.system.Refused(old(pool.system.asked))
    ensures old(pool.system.asked) <= pool.system.asked
    decreases Total(names), 0
  {
    hide Group, GoodNames, GoodRuns, LabelRep, RootRep, RunRoot, Rests, Rep, Tame, Granted, Allocates, Extends,
         FirstLabel;
    RestsGood(names, x);
    GoodHasGoodRuns(next);
    if Tame(cfg, names) {
      RestsTame(cfg, names, x);
    }
    var w := Build(pool, cfg, next);
    if w.None? {
      return None;
    }
    var a := w.value;
    var own := if |names[0].key| == (if dot then |x| + 1 else |x|) then names[0].value else 0;
    OwnLength(names, 0, |names|, x);
    RootUpdate(pool.nodes, pool.contents, a, next, own);
    RootIn(pool.nodes, pool.contents, a, next);
    SetExtends(old(pool.nodes), old(pool.contents), pool.nodes, pool.contents, a, own);
    pool.SetValue(a, own);
    NodeLabel(pool.nodes, pool.contents, names, 0, |names|, x, a);
    GoodSum(a, dot);
    return Some(a + if dot then 3 else 2);
  }

  lemma GoodSum(a: nat, dot: bool)
    requires GoodValue(a)
    ensures 0 < a + (if dot then 3 else 2) < TWO64
  {
  }

  lemma SetExtends(nodes: Nodes, contents: Contents, nodes': Nodes, contents': Contents, a: nat, value: nat)
    requires Extends(nodes, contents, nodes', contents') && a !in nodes && a in nodes'
    ensures Extends(nodes, contents, nodes'[a := nodes'[a].(value := value)], contents')
  {
  }

  lemma RootIn(nodes: Nodes, contents: Contents, a: nat, names: seq<Name>)
    requires RootRep(nodes, contents, a, names)
    ensures a in nodes && a in contents && GoodValue(a)
  {
  }

  lemma OwnLength(names: seq<Name>, n: nat, i: nat, x: Str)
    requires Group(names, n, i, x)
    ensures |names[n].key| == (if names[n].key != x then |x| + 1 else |x|)
       <==> names[n].key == x || names[n].key == x + [DOT]
  {
    LabelCases(names[n].key, x);
  }

  /** `ngx_hash_wildcard_init`: a trie of the names, in new nodes; what was in the pool stays. Names that are not
      sorted lose all but the first run of each label. */
  method Build(pool: Pool, cfg: H.Config, names: seq<Name>) returns (r: Option<nat>)
    requires GoodRuns(names) && GoodConfig(cfg) && pool.Valid()
    modifies pool, pool.system
    ensures pool.Valid() && Extends(old(pool.nodes), old(pool.contents), pool.nodes, pool.contents)
    ensures r.Some? ==>
      && r.value !in old(pool.nodes)
      && RunRoot(pool.nodes, pool.contents, r.value, names)
      && (GoodNames(names) ==> RootRep(pool.nodes, pool.contents, r.value, names))
      && pool.nodes[r.value].value == 0
    ensures r.None? && Tame(cfg, names) && (names != [] || H.Room(cfg) / 16 > 0) ==>
      pool.system.Refused(old(pool.system.asked))
    ensures old(pool.system.asked) <= pool.system.asked
    decreases Total(names), 3
  {
    hide Group, GoodNames, GoodRuns, LabelRep, RootRep, RunRoot, RunTable, Rests, Rep, Built, Extends, Light, Tame,
         H.Buildable, Granted, Allocates, Requests.Refused;
    NothingLight(cfg, names);
    ExtendsRefl(pool.nodes, pool.contents);
    var n: nat := 0;
    var curr := [];
    NothingBuilt(pool.nodes, pool.contents, names);
    while n < |names|
      invariant n <= |names| && pool.Valid() && (n > 0 ==> curr != [])
      invariant Extends(old(pool.nodes), old(pool.contents), pool.nodes, pool.contents)
      invariant Built(pool.nodes, pool.contents, names, n, curr) && Light(cfg, names, n, curr)
      invariant old(pool.system.asked) <= pool.system.asked
    {
      ghost var nodes, contents, asked := pool.nodes, pool.contents, pool.system.asked;
      var i, k := BuildGroup(pool, cfg, names, n, curr);
      pool.system.RefusedEarlier(old(pool.system.asked), asked);
      ExtendsTrans(old(pool.nodes), old(pool.contents), nodes, contents, pool.nodes, pool.contents);
      if k.None? {
        return None;
      }
      n, curr := i, curr + [k.value];
    }
    ghost var nodes, contents, asked := pool.nodes, pool.contents, pool.system.asked;
    r := MakeRoot(pool, cfg, names, curr);
    pool.system.RefusedEarlier(old(pool.system.asked), asked);
    ExtendsTrans(old(pool.nodes), old(pool.contents), nodes, contents, pool.nodes, pool.contents);
    ExtendsKeys(old(pool.nodes), old(pool.contents), nodes, contents);
  }

  /** `ngx_hash_init` of the stored labels, in a node of its own. */
  method MakeRoot(pool: Pool, cfg: H.Config, names: seq<Name>, curr: seq<H.Key>) returns (r: Option<nat>)
    requires GoodConfig(cfg) && pool.Valid() && Light(cfg, names, |names|, curr)
    requires Built(pool.nodes, pool.contents, names, |names|, curr)
    modifies pool, pool.system
    ensures pool.Valid() && Extends(old(pool.nodes), old(pool.contents), pool.nodes, pool.contents)
    ensures r.Some? ==>
      && r.value !in old(pool.nodes)
      && RunRoot(pool.nodes, pool.contents, r.value, names)
      && (GoodNames(names) ==> RootRep(pool.nodes, pool.contents, r.value, names))
      && pool.nodes[r.value].value == 0
    ensures r.None? && Tame(cfg, names) && (curr != [] || H.Room(cfg) / 16 > 0) ==>
      pool.system.Refused(old(pool.system.asked))
    ensures old(pool.system.asked) <= pool.system.asked
  {
    hide GoodNames, RootRep, RunRoot, RunTable, Built, Extends, Light, Tame, H.Buildable, Granted, Allocates,
         Requests.Refused;
    BuiltKeys(pool.nodes, pool.contents, names, |names|, curr);
    ExtendsRefl(pool.nodes, pool.contents);
    var al, chunk := pool.AllocHash();
    var table, trap := H.Init(cfg, curr, al, chunk);
    if table.None? {
      if Tame(cfg, names) && (curr != [] || H.Room(cfg) / 16 > 0) {
        LightIsBuildable(cfg, names, curr);
      }
      return None;
    }
    BuiltIsTable(pool.nodes, pool.contents, names, curr, table.value);
    ghost var asked := pool.system.asked;
    r := AddRoot(pool, names, table.value, H.Entries(curr));
    pool.system.RefusedEarlier(old(pool.system.asked), asked);
  }

  /** The node of a table. */
  method AddRoot(pool: Pool, ghost names: seq<Name>, table: H.Table, ghost es: seq<H.Entry>) returns (r: Option<nat>)
    requires pool.Valid() && RunTable(pool.nodes, pool.contents, table, es, names)
    modifies pool, pool.system
    ensures pool.Valid() && Extends(old(pool.nodes), old(pool.contents), pool.nodes, pool.contents)
    ensures r.Some? ==>
      && r.value !in old(pool.nodes)
      && RunRoot(pool.nodes, pool.contents, r.value, names)
      && (GoodNames(names) ==> RootRep(pool.nodes, pool.contents, r.value, names))
      && pool.nodes[r.value].value == 0
    ensures r.None? ==> pool.system.Refused(old(pool.system.asked))
    ensures old(pool.system.asked) <= pool.system.asked
  {
    hide GoodNames, RootRep, RunRoot, RunTable, Rep, Extends, Granted, Allocates, Requests.Refused;
    ghost var nodes, contents := pool.nodes, pool.contents;
    ExtendsRefl(nodes, contents);
    r := pool.NewNode(table, es);
    pool.system.RefusedNow(old(pool.system.asked));
    if r.Some? {
      NewRunRoot(nodes, contents, pool.nodes, pool.contents, r.value, table, es, names);
      if GoodNames(names) {
        TableIsRep(nodes, contents, table, es, names);
        NewRoot(nodes, contents, pool.nodes, pool.contents, r.value, table, es, names);
      }
      AllocExtends(nodes, contents, nodes, contents, pool.nodes, pool.contents, r.value);
    }
  }

  /** One turn of the outer loop: the group that starts at `n`. */
  method BuildGroup(pool: Pool, cfg: H.Config, names: seq<Name>, n: nat, ghost curr: seq<H.Key>)
    returns (i: nat, r: Option<H.Key>)
    requires GoodRuns(names) && GoodConfig(cfg) && pool.Valid() && n < |names|
    requires Built(pool.nodes, pool.contents, names, n, curr)
    modifies pool, pool.system
    ensures pool.Valid() && Extends(old(pool.nodes), old(pool.contents), pool.nodes, pool.contents)
    ensures n < i <= |names|
    ensures r.Some? ==> Built(pool.nodes, pool.contents, names, i, curr + [r.value])
    ensures r.Some? && Light(cfg, names, n, curr) ==> Light(cfg, names, i, curr + [r.value])
    ensures r.None? && Tame(cfg, names) ==> pool.system.Refused(old(pool.system.asked))
    ensures old(pool.system.asked) <= pool.system.asked
    decreases Total(names), 2
  {
    hide Group, GoodNames, GoodRuns, LabelRep, Rests, Built, Extends, FirstLabel, Light, Tame, H.HashKey;
    var len, key := FirstLabelOf(names[n].key);
    var dot := len < |names[n].key|;
    BuiltFresh(pool.nodes, pool.contents, names, n, curr);
    var next;
    var x := names[n].key[..len];
    i, next := CollectGroup(names, n, x, dot);
    var run := names[n..i];
    OneRun(cfg, names, n, i, x);
    ghost var nodes, contents := pool.nodes, pool.contents;
    var v := GroupValue(pool, cfg, run, x, dot, next);
    if v.None? {
      return i, None;
    }
    var k := H.Key(Some(x), key, v.value);
    LowerPart(names[n].key, len);
    BuiltStep(nodes, contents, pool.nodes, pool.contents, names, n, i, curr, k);
    if Light(cfg, names, n, curr) {
      LightStep(cfg, names, n, i, curr, k);
    }
    r := Some(k);
  }

  /** A run is good, no longer than all names, and fits as they do. */
  lemma OneRun(cfg: H.Config, names: seq<Name>, n: nat, i: nat, x: Str)
    requires GoodRuns(names) && IsRun(names, n, i, x)
    ensures n < i <= |names| && names[n..i][0] == names[n]
    ensures GoodNames(names[n..i]) && Group(names[n..i], 0, |names[n..i]|, x)
    ensures Total(names[n..i]) <= Total(names)
    ensures Tame(cfg, names) ==> Tame(cfg, names[n..i])
    ensures IsLower(names[n].key)
  {
    hide GoodNames, FirstLabel, H.EltSize;
    RunAlone(names, n, i, x);
    SliceTotal(names, n, i);
    SliceWeight(names, n, i);
    assert names[n..i][0] in names[n..i];
    assert GoodNames(names[n..i]);
    LowerMember(names[n..i]);
    assert forall m | m in names[n..i] :: m in names;
  }

  lemma LowerPart(s: Str, len: nat)
    requires IsLower(s) && len <= |s|
    ensures IsLower(s[..len])
  {
  }

  lemma LowerMember(names: seq<Name>)
    requires GoodNames(names) && names != []
    ensures IsLower(names[0].key)
  {
    assert names[0] in names;
  }

  lemma {:induction false} SliceTotal(names: seq<Name>, n: nat, i: nat)
    requires n <= i <= |names|
    ensures Total(names[n..i]) <= Total(names)
    decreases |names|
  {
    if i < |names| {
      var init := names[..|names| - 1];
      SliceTotal(init, n, i);
      assert init[n..i] == names[n..i];
    } else if n < i {
      var init := names[..|names| - 1];
      SliceTotal(init, n, i - 1);
      SliceInit(names, n, i);
    }
  }

  lemma {:induction false} SliceWeight(names: seq<Name>, n: nat, i: nat)
    requires n <= i <= |names|
    ensures Weight(names[n..i]) <= Weight(names)
    decreases |names|
  {
    hide H.EltSize;
    if i < |names| {
      var init := names[..|names| - 1];
      SliceWeight(init, n, i);
      assert init[n..i] == names[n..i];
    } else if n < i {
      var init := names[..|names| - 1];
      SliceWeight(init, n, i - 1);
      SliceInit(names, n, i);
    }
  }

  lemma ExtendsRefl(nodes: Nodes, contents: Contents)
    ensures Extends(nodes, contents, nodes, contents)
  {
  }

  lemma ExtendsKeys(nodes: Nodes, contents: Contents, nodes': Nodes, contents': Contents)
    requires Extends(nodes, contents, nodes', contents')
    ensures nodes.Keys <= nodes'.Keys
  {
  }

  lemma ExtendsTrans(nodes: Nodes, contents: Contents, nodes': Nodes, contents': Contents,
                     nodes'': Nodes, contents'': Contents)
    requires Extends(nodes, contents, nodes', contents') && Extends(nodes', contents', nodes'', contents'')
    ensures Extends(nodes, contents, nodes'', contents'')
  {
  }

  lemma AllocExtends(nodes: Nodes, contents: Contents, nodes': Nodes, contents': Contents,
                     nodes'': Nodes, contents'': Contents, a: nat)
    requires Extends(nodes, contents, nodes', contents')
    requires a !in nodes' && a !in contents'
    requires nodes'' - {a} == nodes' && contents'' - {a} == contents'
    ensures Extends(nodes, contents, nodes'', contents'') && a !in nodes
  {
    assert forall b | b in nodes' :: b in nodes'' - {a};
    assert forall b | b in contents' :: b in contents'' - {a};
  }

  lemma BuiltKeys(nodes: Nodes, contents: Contents, names: seq<Name>, n: nat, curr: seq<H.Key>)
    requires n <= |names| && Built(nodes, contents, names, n, curr)
    ensures forall k | k in curr && k.name.Some? :: 0 < k.value < TWO64
    ensures curr != [] ==> H.Entries(curr) != []
  {
    hide FirstLabel, LabelBuilt;
    if curr != [] {
      assert curr[|curr| - 1] in curr;
    }
  }
}
