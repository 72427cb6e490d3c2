/** Host names as sequences of labels: what reversing the labels means for the host itself, and the
    comparison the wildcard keys are sorted with. */
module DnsNames {
  import opened Bytes
  import W = WildcardHash

  /** The labels in reverse order, taken off the front. */
  function RevFront(s: Str): Str
    decreases |s|
  {
    var x := W.FirstLabel(s);
    if x == s then s else RevFront(s[|x| + 1..]) + [DOT] + x
  }

  lemma {:induction false} NoDotIsLabel(s: Str)
    requires W.NoDot(s)
    ensures W.RevLabels(s) == s && RevFront(s) == s
  {
    W.LastLabelStartIs(s, 0);
    W.FirstLabelIs(s, s);
  }

  /** The last label of a name is the last label of its end. */
  lemma LastLabelOfEnd(whole: Str, d: nat, v: Str)
    requires d < |whole| && whole[d] == DOT && whole[d + 1..] == v
    ensures W.LastLabelStart(whole) == d + 1 + W.LastLabelStart(v)
    ensures whole[d + 1 + W.LastLabelStart(v)..] == v[W.LastLabelStart(v)..]
  {
    hide W.LastLabelStart, W.NoDot;
    var n := W.LastLabelStart(v);
    assert whole[d + 1 + n..] == v[n..] && (n > 0 ==> whole[d + n] == v[n - 1]);
    W.LastLabelStartIs(whole, d + 1 + n);
  }

  lemma FrontOf(u: Str, v: Str)
    ensures var whole := u + [DOT] + v; whole[..|u|] == u && whole[|u|] == DOT && whole[|u| + 1..] == v
  {
  }

  lemma FrontOfLast(whole: Str, d: nat, v: Str, n: nat)
    requires d < |whole| && whole[d] == DOT && whole[d + 1..] == v && 0 < n <= |v|
    ensures var front := whole[..d + n]; front[d] == DOT && front[d + 1..] == v[..n - 1] && front[..d] == whole[..d]
  {
  }

  /** Reversed names, put together label by label. */
  lemma Regroup(whole: Str, v: Str, last: Str, front: Str, init: Str, u: Str)
    requires whole == last + [DOT] + front && front == init + [DOT] + u && v == last + [DOT] + init
    ensures whole == v + [DOT] + u
  {
  }

  lemma {:induction false} RevAt(whole: Str, d: nat, v: Str)
    requires d < |whole| && whole[d] == DOT && whole[d + 1..] == v
    ensures W.RevLabels(whole) == W.RevLabels(v) + [DOT] + W.RevLabels(whole[..d])
    decreases |v|
  {
    hide W.LastLabelStart, W.RevLabels, W.NoDot;
    var n := W.LastLabelStart(v);
    LastLabelOfEnd(whole, d, v);
    W.RevStep(v);
    W.RevStep(whole);
    if n > 0 {
      FrontOfLast(whole, d, v, n);
      RevAt(whole[..d + n], d, v[..n - 1]);
      Regroup(W.RevLabels(whole), W.RevLabels(v), v[n..], W.RevLabels(whole[..d + n]), W.RevLabels(v[..n - 1]),
              W.RevLabels(whole[..d]));
    }
  }

  /** Reversing swaps the two sides of any dot. */
  lemma RevAppend(u: Str, v: Str)
    ensures W.RevLabels(u + [DOT] + v) == W.RevLabels(v) + [DOT] + W.RevLabels(u)
  {
    hide W.RevLabels;
    FrontOf(u, v);
    RevAt(u + [DOT] + v, |u|, v);
  }

  lemma {:induction false} RevFrontIsRev(s: Str)
    ensures W.RevLabels(s) == RevFront(s)
    decreases |s|
  {
    var x := W.FirstLabel(s);
    if x == s {
      NoDotIsLabel(s);
    } else {
      var rest := s[|x| + 1..];
      assert s == x + [DOT] + rest;
      RevAppend(x, rest);
      RevFrontIsRev(rest);
      NoDotIsLabel(x);
    }
  }

  /** Reversing twice gives the name back. */
  lemma {:induction false} RevTwice(s: Str)
    ensures W.RevLabels(W.RevLabels(s)) == s
    ensures |W.RevLabels(s)| == |s|
    decreases |s|
  {
    var n := W.LastLabelStart(s);
    NoDotIsLabel(s[n..]);
    if n == 0 {
      assert s[n..] == s;
    } else {
      var u := s[..n - 1];
      assert s == u + [DOT] + s[n..];
      RevTwice(u);
      RevAppend(s[n..], W.RevLabels(u));
    }
  }

  /** `h` is a proper subdomain of `x`. */
  predicate IsBelow(h: Str, x: Str) {
    |h| > |x| && h[|h| - |x| - 1..] == [DOT] + x
  }

  /** On reversed names, being a subdomain is having a prefix. */
  lemma BelowIsPrefix(h: Str, x: Str)
    ensures IsBelow(h, x) <==> W.RevLabels(x) + [DOT] <= W.RevLabels(h)
  {
    hide W.RevLabels;
    if IsBelow(h, x) {
      BelowHasPrefix(h, x);
    }
    if W.RevLabels(x) + [DOT] <= W.RevLabels(h) {
      PrefixIsBelow(h, x);
    }
  }

  lemma BelowHasPrefix(h: Str, x: Str)
    requires IsBelow(h, x)
    ensures W.RevLabels(x) + [DOT] <= W.RevLabels(h)
  {
    hide W.RevLabels;
    var u := h[..|h| - |x| - 1];
    AppendAssoc(u, [DOT], x);
    assert h == u + ([DOT] + x);
    RevAppend(u, x);
  }

  lemma PrefixIsBelow(h: Str, x: Str)
    requires W.RevLabels(x) + [DOT] <= W.RevLabels(h)
    ensures IsBelow(h, x)
  {
    hide W.RevLabels;
    var rx := W.RevLabels(x);
    var t := W.RevLabels(h)[|rx| + 1..];
    assert W.RevLabels(h) == rx + [DOT] + t;
    RevAppend(rx, t);
    RevTwice(h);
    RevTwice(x);
    var rt := W.RevLabels(t);
    AppendAssoc(rt, [DOT], x);
    AppendSlices(rt, [DOT] + x, 0);
  }

  lemma SameRev(h: Str, x: Str)
    ensures W.RevLabels(h) == W.RevLabels(x) <==> h == x
  {
    RevTwice(h);
    RevTwice(x);
  }

  // ----- ngx_dns_strcmp --------------------------------------------------------------------------------

  /** One character as the comparison sees it: ASCII capitals lowered, 0 at the end. */
  function CharAt(s: Str): int {
    if s == [] then 0 else Lower(s[0])
  }

  function SpaceForDot(c: int): int {
    if c == DOT then 32 else c
  }

  /** `ngx_dns_strcmp` on NUL-free strings. */
  function DnsStrcmp(a: Str, b: Str): int
    decreases |a| + |b|
  {
    var c, d := CharAt(a), CharAt(b);
    if c != d then SpaceForDot(c) - SpaceForDot(d)
    else if a != [] && b != [] then DnsStrcmp(a[1..], b[1..])
    else 0
  }

  /** At the first difference a dot stands against a byte up to the space. */
  predicate Clash(a: Str, b: Str) {
    a != [] && b != [] &&
    if a[0] == b[0] then Clash(a[1..], b[1..])
    else (a[0] == DOT && b[0] <= 32) || (b[0] == DOT && a[0] <= 32)
  }

  /** The comparison is the order the tries need exactly when the lower-cased names do not clash. */
  lemma {:induction false} DnsOrder(a: Str, b: Str)
    requires 0 !in a && 0 !in b
    ensures var x, y := LowerStr(a), LowerStr(b);
      (DnsStrcmp(a, b) < 0 <==> W.Less(x, y)) && (DnsStrcmp(a, b) == 0 <==> x == y) <==> !Clash(x, y)
  {
    var x, y := LowerStr(a), LowerStr(b);
    if a != [] && b != [] && x[0] == y[0] {
      DnsOrder(a[1..], b[1..]);
      assert x[1..] == LowerStr(a[1..]) && y[1..] == LowerStr(b[1..]);
      assert x == [x[0]] + x[1..] && y == [y[0]] + y[1..];
    }
  }

  lemma {:induction false} LessTransitive(a: Str, b: Str, c: Str)
    requires W.Less(a, b) && W.Less(b, c)
    ensures W.Less(a, c)
  {
    if a != [] && a[0] == b[0] == c[0] {
      LessTransitive(a[1..], b[1..], c[1..]);
    }
  }

  /** The comparison changes its sign with the order of its arguments. */
  lemma {:induction false} DnsAntisymmetric(a: Str, b: Str)
    ensures DnsStrcmp(b, a) == -DnsStrcmp(a, b)
    decreases |a|
  {
    if a != [] && b != [] && Lower(a[0]) == Lower(b[0]) {
      DnsAntisymmetric(a[1..], b[1..]);
    }
  }

  /** Names without control characters and spaces never clash. */
  ghost predicate Printable(s: Str) {
    forall i | 0 <= i < |s| :: s[i] > 32
  }

  lemma {:induction false} PrintableNoClash(a: Str, b: Str)
    requires Printable(a) && Printable(b)
    ensures !Clash(a, b)
  {
    if a != [] && b != [] && a[0] == b[0] {
      PrintableNoClash(a[1..], b[1..]);
    }
  }

  /** A clash can tear the names of one label apart: here the middle one has another first label than its
      neighbours. */
  lemma ClashBreaksGroups()
    ensures var a, b, c := [99], [99, 1], [99, DOT, 97];
      && Clash(b, c) && DnsStrcmp(a, b) < 0 && DnsStrcmp(b, c) < 0
      && W.FirstLabel(a) == W.FirstLabel(c) != W.FirstLabel(b)
  {
    var a: Str, b: Str, c: Str := [99], [99, 1], [99, DOT, 97];
    assert a[1..] == [] && b[1..] == [1] && c[1..] == [DOT, 97];
    assert DnsStrcmp(a, b) == DnsStrcmp([], [1]);
    assert DnsStrcmp(b, c) == DnsStrcmp([1], [DOT, 97]);
    W.FirstLabelIs(a, a);
    W.FirstLabelIs(b, b);
    W.FirstLabelIs(a, c);
  }
}
