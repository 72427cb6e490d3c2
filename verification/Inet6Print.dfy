/** The printer of IPv6 addresses of ngx_inet.c, and what the parser makes of its output. */
module Inet6Print {
  import opened Bytes
  import opened Inet
  import opened Inet6

  /** NGX_INET6_ADDRSTRLEN. */
  const ADDRSTRLEN: nat := 45

  // ----- The run of zeros that "::" replaces ------------------------------------------------------------

  datatype Run = Run(z: nat, len: nat)

  ghost predicate ZeroRun(ws: seq<Word>, z: nat, len: nat) {
    z + len <= |ws| && forall i | z <= i < z + len :: ws[i] == 0
  }

  /** Among the runs in the first `k` words, the longest of at least two zeros, and of these the first. */
  ghost predicate Best(ws: seq<Word>, k: nat, run: Option<Run>) {
    && (run.Some? ==> run.value.len >= 2 && run.value.z + run.value.len <= k && ZeroRun(ws, run.value.z, run.value.len))
    && (forall z: nat, len: nat | len >= 2 && z + len <= k && ZeroRun(ws, z, len) ::
          run.Some? && len <= run.value.len && (len == run.value.len ==> run.value.z <= z))
  }

  ghost predicate Chosen(ws: seq<Word>, run: Option<Run>) {
    Best(ws, |ws|, run)
  }

  lemma ChosenUnique(ws: seq<Word>, a: Option<Run>, b: Option<Run>)
    requires Chosen(ws, a) && Chosen(ws, b)
    ensures a == b
  {
    hide ZeroRun;
  }

  /** `n` is the length of the run that ends before word `k`; the loop's variables otherwise describe the
      runs before it. */
  ghost predicate Scanned(ws: seq<Word>, k: nat, n: nat, last: int, zero: int, max: nat) {
    && n <= k <= |ws|
    && ZeroRun(ws, k - n, n) && (k > n ==> ws[k - n - 1] != 0)
    && (n > 0 ==> last == 2 * (k - n))
    && Best(ws, k - n, RunOf(zero, max))
    && max >= 1 && (zero == -1 <==> max == 1) && (zero != -1 ==> zero >= 0 && zero % 2 == 0)
  }

  function RunOf(zero: int, max: nat): Option<Run> {
    if zero < 0 then None else Some(Run(zero / 2, max))
  }

  /** Closing the run that ends at `k`: a later run must be longer to be chosen. */
  lemma RunEnds(ws: seq<Word>, k: nat, n: nat, last: int, zero: int, max: nat)
    requires Scanned(ws, k, n, last, zero, max)
    ensures max < n ==> Best(ws, k, RunOf(last, n))
    ensures max >= n ==> Best(ws, k, RunOf(zero, max))
  {
    forall z: nat, len: nat | len >= 2 && z + len <= k && ZeroRun(ws, z, len)
      ensures z + len <= k - n || (k - n <= z && len <= n)
    {
    }
  }

  /** A non-zero word belongs to no run. */
  lemma NoRunHere(ws: seq<Word>, k: nat, run: Option<Run>)
    requires k < |ws| && ws[k] != 0 && Best(ws, k, run)
    ensures Best(ws, k + 1, run)
  {
    forall z: nat, len: nat | len >= 2 && z + len <= k + 1 && ZeroRun(ws, z, len)
      ensures z + len <= k
    {
    }
  }

  lemma ZeroStep(ws: seq<Word>, k: nat, n: nat, last: int, zero: int, max: nat)
    requires Scanned(ws, k, n, last, zero, max) && k < |ws| && ws[k] == 0
    ensures Scanned(ws, k + 1, n + 1, if n == 0 then 2 * k else last, zero, max)
  {
    hide Best;
  }

  lemma NonzeroStep(ws: seq<Word>, k: nat, n: nat, last: int, zero: int, max: nat)
    requires Scanned(ws, k, n, last, zero, max) && k < |ws| && ws[k] != 0
    ensures Scanned(ws, k + 1, 0, last, if max < n then last else zero, if max < n then n else max)
  {
    hide Best;
    RunEnds(ws, k, n, last, zero, max);
    NoRunHere(ws, k, RunOf(if max < n then last else zero, if max < n then n else max));
  }

  /** The first loop of `ngx_inet6_ntop`; `zero` is a byte index or -1. */
  method FindRun(p: seq<Byte>) returns (zero: int, max: nat)
    requires |p| == 16
    ensures zero == -1 || (0 <= zero && zero % 2 == 0)
    ensures Chosen(WordsOf(p), RunOf(zero, max))
  {
    hide Best, WordsOf, Scanned;
    ghost var ws := WordsOf(p);
    zero := -1;
    var last := -1;
    max := 1;
    var n, i := 0, 0;
    ghost var k := 0;
    NoRuns(ws);
    while i < 16
      invariant 0 <= i <= 16 && i == 2 * k
      invariant Scanned(ws, k, n, last, zero, max)
    {
      WordIsZero(p, i, k);
      if p[i] != 0 || p[i + 1] != 0 {
        NonzeroStep(ws, k, n, last, zero, max);
        if max < n {
          zero := last;
          max := n;
        }
        n := 0;
      } else {
        ZeroStep(ws, k, n, last, zero, max);
        if n == 0 {
          last := i;
        }
        n := n + 1;
      }
      i, k := i + 2, k + 1;
    }
    RunEnds(ws, 8, n, last, zero, max);
    RunShape(ws, 8, n, last, zero, max);
    if max < n {
      zero := last;
      max := n;
    }
  }

  lemma RunShape(ws: seq<Word>, k: nat, n: nat, last: int, zero: int, max: nat)
    requires Scanned(ws, k, n, last, zero, max)
    ensures zero == -1 || (0 <= zero && zero % 2 == 0)
    ensures max < n ==> 0 <= last && last % 2 == 0
  {
  }

  lemma NoRuns(ws: seq<Word>)
    ensures Scanned(ws, 0, 0, -1, -1, 1)
  {
  }

  lemma WordIsZero(p: seq<Byte>, i: nat, k: nat)
    requires |p| == 16 && k < 8 && i == 2 * k
    ensures WordsOf(p)[k] == 0 <==> p[i] == 0 && p[i + 1] == 0
  {
  }

  lemma WordBytes(p: seq<Byte>, i: nat, k: nat)
    requires |p| == 16 && k < 8 && i == 2 * k
    ensures WordsOf(p)[k] == TwoBytes(p[i], p[i + 1])
  {
  }

  // ----- What is printed -----------------------------------------------------------------------------------

  function HexChar(d: nat): Byte
    requires d < 16
  {
    if d < 10 then 48 + d else 87 + d
  }

  /** "%xd". */
  function Hex(v: nat): (r: Str)
    ensures r != [] && AllHex(r) && HexValue(r) == v
  {
    var last: Str := [HexChar(v % 16)];
    assert last[..0] == [];
    if v < 16 then last
    else
      HexStep(Hex(v / 16), HexChar(v % 16));
      Hex(v / 16) + last
  }

  /** Small hexadecimal digits, and no zero in front. */
  lemma {:induction false} HexShortest(v: nat)
    ensures forall i | 0 <= i < |Hex(v)| ::
      '0' as int <= Hex(v)[i] <= '9' as int || 'a' as int <= Hex(v)[i] <= 'f' as int
    ensures v > 0 ==> Hex(v)[0] != '0' as int
  {
    if v >= 16 {
      HexShortest(v / 16);
    }
  }

  lemma HexLength(w: Word)
    ensures IsGroup(Hex(w))
  {
    assert w < 16 ==> |Hex(w)| == 1;
    assert |Hex(w)| <= 1 + |Hex(w / 16)| || w < 16;
    HexLength2(w / 16);
  }

  lemma HexLength2(v: nat)
    requires v < 4096
    ensures |Hex(v)| <= 3
  {
    assert v < 16 ==> |Hex(v)| == 1;
    assert v >= 16 ==> |Hex(v)| == 1 + |Hex(v / 16)|;
    assert v >= 256 ==> |Hex(v / 16)| == 1 + |Hex(v / 16 / 16)|;
  }

  function Hexes(ws: seq<Word>): (r: seq<Str>)
    ensures |r| == |ws|
  {
    seq(|ws|, i requires 0 <= i < |ws| => Hex(ws[i]))
  }

  /** Does the address end in a dotted quad? */
  predicate HasTail(p: seq<Byte>, run: Option<Run>)
    requires |p| == 16
  {
    && run.Some? && run.value.z == 0
    && var max := run.value.len;
       (max == 5 && p[10] == 0xff && p[11] == 0xff) || max == 6 || (max == 7 && p[14] != 0 && p[15] != 1)
  }

  /** The last four bytes in host order. */
  function LastFour(p: seq<Byte>): nat
    requires |p| == 16
  {
    var hi: int, lo: int := WordsOf(p)[6], WordsOf(p)[7];
    hi * 65536 + lo
  }

  /** The fields behind "::". */
  function After(p: seq<Byte>, r: Run): (fs: seq<Str>)
    requires |p| == 16 && r.z + r.len <= 8
    ensures fs != []
  {
    var ws, e := WordsOf(p), r.z + r.len;
    if HasTail(p, Some(r)) then Hexes(if e <= 6 then ws[e..6] else []) + [Dotted(LastFour(p))]
    else if e == 8 then [[]]
    else Hexes(ws[e..])
  }

  /** The fields between colons. */
  function PrintedFields(p: seq<Byte>, run: Option<Run>): (fs: seq<Str>)
    requires |p| == 16 && (run.Some? ==> run.value.z + run.value.len <= 8)
    ensures fs != []
  {
    match run
    case None => Hexes(WordsOf(p))
    case Some(r) => Hexes(WordsOf(p)[..r.z]) + [[]] + After(p, r)
  }

  /** The printed address: a leading "::" has a colon more than there are between fields. */
  function Printed(p: seq<Byte>, run: Option<Run>): Str
    requires |p| == 16 && (run.Some? ==> run.value.z + run.value.len <= 8)
  {
    (if run.Some? && run.value.z == 0 then [COLON] else []) + Join(PrintedFields(p, run), COLON)
  }

  // ----- Reading it back ---------------------------------------------------------------------------------

  lemma HexesStep(ws: seq<Word>, w: Word)
    ensures Hexes(ws + [w]) == Hexes(ws) + [Hex(w)]
  {
    hide Hex;
  }

  lemma {:induction false} LeadingHexes(ws: seq<Word>)
    requires |ws| <= 7
    ensures Leading(Hexes(ws)) == Some(Partial(ws, None))
  {
    hide Hex, HexValue, IsGroup;
    if ws != [] {
      var front, w := ws[..|ws| - 1], ws[|ws| - 1];
      LeadingHexes(front);
      assert ws == front + [w];
      HexesStep(front, w);
      HexLength(w);
      LeadingStep(Hexes(front), Hex(w));
    }
  }

  lemma {:induction false} LeadingGap(a: seq<Word>, b: seq<Word>)
    requires |a| + |b| <= 7
    ensures Leading(Hexes(a) + [[]] + Hexes(b)) == Some(Partial(a + b, Some(|a|)))
    decreases |b|
  {
    hide Hex, HexValue, IsGroup;
    if b == [] {
      LeadingHexes(a);
      LeadingStep(Hexes(a), []);
      assert Hexes(a) + [[]] + Hexes(b) == Hexes(a) + [[]] && a + b == a;
    } else {
      var front, w := b[..|b| - 1], b[|b| - 1];
      LeadingGap(a, front);
      assert b == front + [w];
      HexesStep(front, w);
      HexLength(w);
      LeadingStep(Hexes(a) + [[]] + Hexes(front), Hex(w));
      AppendAssoc(Hexes(a) + [[]], Hexes(front), [Hex(w)]);
      AppendAssoc(a, front, [w]);
    }
  }

  /** The address with all ones in the last four bytes is printed with 255.255.255.255, which the parser
      takes for a failure. */
  ghost predicate Unreadable(p: seq<Byte>)
    requires |p| == 16
  {
    && (forall i | 0 <= i < 10 :: p[i] == 0)
    && (p[10] == p[11] == 0 || p[10] == p[11] == 255)
    && p[12] == p[13] == p[14] == p[15] == 255
  }

  lemma LastHex(front: seq<Word>, w: Word)
    ensures var fs := Hexes(front + [w]); fs[..|fs| - 1] == Hexes(front) && fs[|fs| - 1] == Hex(w)
  {
    HexesStep(front, w);
  }

  /** Without a run of zeros. */
  lemma PlainMeaning(ws: seq<Word>)
    requires |ws| == 8
    ensures Meaning(Hexes(ws)) == Some(ws)
  {
    hide Hex, HexValue, IsGroup, Leading, Hexes;
    var front, w := ws[..7], ws[7];
    assert ws == front + [w];
    LastHex(front, w);
    LeadingHexes(front);
    HexLength(w);
  }

  /** With words on both sides of the zeros, or only before them. */
  lemma GapMeaning(a: seq<Word>, b: seq<Word>)
    requires |a| + |b| <= 7 && b != []
    ensures Meaning(Hexes(a) + [[]] + Hexes(b)) == Some(a + Zeros(8 - |a| - |b|) + b)
  {
    hide Hex, HexValue, IsGroup, Leading, Hexes, Zeros;
    var front, w := b[..|b| - 1], b[|b| - 1];
    assert b == front + [w];
    LastHex(front, w);
    LeadingGap(a, front);
    HexLength(w);
    var fs := Hexes(a) + [[]] + Hexes(b);
    assert fs[..|fs| - 1] == Hexes(a) + [[]] + Hexes(front) && fs[|fs| - 1] == Hex(w);
    AppendAssoc(a, front, [w]);
    AppendSlices(a, b, 0);
  }

  lemma EndMeaning(a: seq<Word>)
    requires |a| <= 6
    ensures Meaning(Hexes(a) + [[]] + [[]]) == Some(a + Zeros(8 - |a|))
  {
    hide Hex, HexValue, IsGroup, Leading, Hexes;
    LeadingGap(a, []);
    var fs := Hexes(a) + [[]] + [[]];
    assert fs[..|fs| - 1] == Hexes(a) + [[]] + Hexes([]) && a + [] == a;
    assert a + Zeros(7 - |a|) + [0] == a + Zeros(8 - |a|);
    AppendSlices(a, [0], 0);
  }

  /** The first octet of a dotted quad is at most three digits. */
  lemma DottedShape(v: nat) returns (d: nat)
    requires v < TWO32
    ensures 1 <= d <= 4 && DotAt(Dotted(v), d) && AllHex(Dotted(v)[..d])
  {
    hide Dec;
    var first := Dec(v / 0x100_0000);
    d := |first|;
    DecLength(v / 0x100_0000);
    var fs := DottedFields(v);
    JoinCons(fs[0], fs[1..], DOT);
    assert fs == [fs[0]] + fs[1..];
    assert Dotted(v) == first + [DOT] + Join(fs[1..], DOT);
    assert Dotted(v)[..d] == first && Dotted(v)[d] == DOT;
  }

  lemma DecLength(v: nat)
    requires v < 256
    ensures 1 <= |Dec(v)| <= 3
  {
    assert v < 10 ==> |Dec(v)| == 1;
    assert v >= 10 ==> |Dec(v)| == 1 + |Dec(v / 10)|;
    assert v >= 100 ==> |Dec(v / 10)| == 1 + |Dec(v / 10 / 10)|;
  }

  lemma {:induction false} JoinCons(f: Str, fs: seq<Str>, sep: Byte)
    requires fs != []
    ensures Join([f] + fs, sep) == f + [sep] + Join(fs, sep)
    decreases |fs|
  {
    var gs := [f] + fs;
    assert gs[..|gs| - 1] == [f] + fs[..|fs| - 1];
    if |fs| > 1 {
      JoinCons(f, fs[..|fs| - 1], sep);
      var a, b, c := f + [sep], Join(fs[..|fs| - 1], sep), [sep];
      assert (a + b) + c + fs[|fs| - 1] == a + (b + c + fs[|fs| - 1]);
    }
  }

  /** A dotted tail is read as two words, unless all its bits are set. */
  lemma TailMeaning(b: seq<Word>, v: nat)
    requires |b| <= 1 && v < TWO32
    ensures Meaning(Hexes([]) + [[]] + (Hexes(b) + [Dotted(v)]))
         == if v == INADDR_NONE then None else Some(Zeros(6 - |b|) + b + [v / 65536, v % 65536])
  {
    hide Hex, HexValue, Leading, Hexes, Zeros, Quad, Dotted;
    var t := Dotted(v);
    var d := DottedShape(v);
    DottedRoundTrip(v);
    assert t[d] == DOT && !IsGroup(t);
    LeadingGap([], b);
    var front := Hexes([]) + [[]] + Hexes(b);
    AppendAssoc(Hexes([]) + [[]], Hexes(b), [t]);
    FrontOfSnoc(front, t);
    assert [] + b == b;
    assert v != INADDR_NONE ==> IsTail(t);
    var ws := b + [v / 65536, v % 65536];
    assert ws[..0] == [] && ws[0..] == ws;
    assert [] + Zeros(6 - |b|) + ws == Zeros(6 - |b|) + b + [v / 65536, v % 65536];
  }

  /** Zeros are what the run covers. */
  lemma RunIsZeros(ws: seq<Word>, r: Run)
    requires |ws| == 8 && ZeroRun(ws, r.z, r.len)
    ensures ws[..r.z] + Zeros(r.len) + ws[r.z + r.len..] == ws
  {
  }

  lemma LastFourSmall(p: seq<Byte>)
    requires |p| == 16
    ensures LastFour(p) < TWO32 && LastFour(p) / 65536 == WordsOf(p)[6] && LastFour(p) % 65536 == WordsOf(p)[7]
  {
    hide WordsOf;
  }

  /** The fields that are printed mean the address, unless they end in 255.255.255.255. */
  lemma PrintedMeaning(p: seq<Byte>, run: Option<Run>)
    requires |p| == 16 && Chosen(WordsOf(p), run)
    ensures Meaning(PrintedFields(p, run))
         == if HasTail(p, run) && LastFour(p) == INADDR_NONE then None else Some(WordsOf(p))
  {
    hide Meaning, WordsOf, Hexes, HasTail, LastFour, Dotted, Zeros;
    var ws := WordsOf(p);
    if run == None {
      PlainMeaning(ws);
      assert !HasTail(p, run) by { NoRunNoTail(p); }
    } else {
      var r := run.value;
      var a, e := ws[..r.z], r.z + r.len;
      RunIsZeros(ws, r);
      if HasTail(p, run) {
        TailOfRun(p, r);
      } else if e == 8 {
        EndMeaning(a);
        assert a + Zeros(r.len) + ws[8..] == a + Zeros(r.len);
        assert PrintedFields(p, run) == Hexes(a) + [[]] + [[]];
      } else {
        GapMeaning(a, ws[e..]);
      }
    }
  }

  lemma NoRunNoTail(p: seq<Byte>)
    requires |p| == 16
    ensures !HasTail(p, None)
  {
  }

  lemma TailOfRun(p: seq<Byte>, r: Run)
    requires |p| == 16 && r.z + r.len <= 8 && ZeroRun(WordsOf(p), r.z, r.len) && HasTail(p, Some(r))
    ensures Meaning(PrintedFields(p, Some(r)))
         == if LastFour(p) == INADDR_NONE then None else Some(WordsOf(p))
  {
    hide Meaning, WordsOf, Hexes, LastFour, Dotted, Zeros;
    var ws, v := WordsOf(p), LastFour(p);
    var b := if r.len <= 6 then ws[r.len..6] else [];
    LastFourSmall(p);
    TailMeaning(b, v);
    assert ws[..0] == [];
    assert ws == Zeros(6 - |b|) + b + [ws[6], ws[7]] by {
      RunIsZeros(ws, r);
      TailWordsAre(ws, r.len, b);
    }
  }

  lemma TailWordsAre(ws: seq<Word>, max: nat, b: seq<Word>)
    requires |ws| == 8 && 5 <= max <= 7 && b == if max <= 6 then ws[max..6] else []
    requires ZeroRun(ws, 0, max)
    ensures ws == Zeros(6 - |b|) + b + [ws[6], ws[7]]
  {
  }

  // ----- The text splits into the printed fields ---------------------------------------------------------

  lemma HexIsClean(w: nat)
    ensures COLON !in Hex(w)
  {
  }

  lemma {:induction false} JoinedChars(fs: seq<Str>, c: Byte, sep: Byte)
    requires forall i | 0 <= i < |fs| :: c !in fs[i]
    requires c != sep
    ensures c !in Join(fs, sep)
  {
    if |fs| > 1 {
      JoinedChars(fs[..|fs| - 1], c, sep);
    }
  }

  lemma DottedIsClean(v: nat)
    ensures COLON !in Dotted(v)
  {
    hide Dec, Join;
    var fs := DottedFields(v);
    forall i | 0 <= i < |fs|
      ensures COLON !in fs[i]
    {
      assert Digits(fs[i]);
    }
    JoinedChars(fs, COLON, DOT);
  }

  lemma FieldsAreClean(p: seq<Byte>, run: Option<Run>)
    requires |p| == 16 && (run.Some? ==> run.value.z + run.value.len <= 8)
    ensures Clean(PrintedFields(p, run), COLON)
  {
    hide Hexes, HasTail, WordsOf, Dotted, Clean;
    var ws := WordsOf(p);
    match run
    case None => HexesAreClean(ws);
    case Some(r) =>
      AfterIsClean(p, r);
      HexesAreClean(ws[..r.z]);
      CleanJoined(Hexes(ws[..r.z]), [[]]);
      CleanJoined(Hexes(ws[..r.z]) + [[]], After(p, r));
  }

  lemma CleanJoined(a: seq<Str>, b: seq<Str>)
    ensures Clean(a, COLON) && Clean(b, COLON) ==> Clean(a + b, COLON)
    ensures Clean([[]], COLON)
  {
  }

  lemma AfterIsClean(p: seq<Byte>, r: Run)
    requires |p| == 16 && r.z + r.len <= 8
    ensures Clean(After(p, r), COLON)
  {
    hide Hexes, HasTail, WordsOf, Dotted, Clean;
    var ws, e, t := WordsOf(p), r.z + r.len, Dotted(LastFour(p));
    DottedIsClean(LastFour(p));
    HexesAreClean(if e <= 6 then ws[e..6] else []);
    HexesAreClean(ws[e..]);
    assert Clean([t], COLON) by { OneClean(t); }
    CleanJoined(Hexes(if e <= 6 then ws[e..6] else []), [t]);
  }

  lemma OneClean(t: Str)
    requires COLON !in t
    ensures Clean([t], COLON)
  {
  }

  lemma HexesAreClean(ws: seq<Word>)
    ensures Clean(Hexes(ws), COLON)
  {
    hide Hex;
    forall i | 0 <= i < |ws|
      ensures COLON !in Hexes(ws)[i]
    {
      HexIsClean(ws[i]);
    }
  }

  lemma {:induction false} FirstOfJoin(fs: seq<Str>, sep: Byte)
    requires fs != [] && fs[0] != []
    ensures Join(fs, sep) != [] && Join(fs, sep)[0] == fs[0][0]
  {
    if |fs| > 1 {
      FirstOfJoin(fs[..|fs| - 1], sep);
    }
  }

  /** A leading "::" begins with an empty field, so the parser's skip of one colon is right. */
  lemma PrintedSplits(p: seq<Byte>, run: Option<Run>)
    requires |p| == 16 && Chosen(WordsOf(p), run)
    ensures Printed(p, run) != [] && Fields(Body(Printed(p, run)), COLON) == PrintedFields(p, run)
  {
    hide Fields, Join, WordsOf, HasTail, After, Hex;
    var fs := PrintedFields(p, run);
    FieldsAreClean(p, run);
    FieldsJoin(fs, COLON);
    var j := Join(fs, COLON);
    if run.Some? && run.value.z == 0 {
      assert ([COLON] + j)[1..] == j;
    } else {
      assert fs[0] == Hex(WordsOf(p)[0]);
      FirstOfJoin(fs, COLON);
      assert fs[0][0] in fs[0] && [] + j == j;
    }
  }

  /** Which tails cannot be read. */
  lemma UnreadableIff(p: seq<Byte>, run: Option<Run>)
    requires |p| == 16 && Chosen(WordsOf(p), run)
    ensures HasTail(p, run) && LastFour(p) == INADDR_NONE <==> Unreadable(p)
  {
    hide Best, WordsOf, ZeroRun;
    var ws := WordsOf(p);
    WordIsZero(p, 10, 5);
    WordBytes(p, 10, 5);
    WordBytes(p, 12, 6);
    WordBytes(p, 14, 7);
    BytesOfZeroWords(p);
    ChosenHead(ws, run);
    WordOnes(ws[6], ws[7]);
  }

  /** Which addresses are printed with a dotted end: the mapped ones, and those with twelve zero bytes in front unless
      what follows is 0, has no third byte from behind, or ends with ".x.1" behind two more zeros. */
  lemma TailIff(p: seq<Byte>, run: Option<Run>)
    requires |p| == 16 && Chosen(WordsOf(p), run)
    ensures HasTail(p, run) <==>
      && (forall i | 0 <= i < 10 :: p[i] == 0)
      && ((p[10] == 0xff && p[11] == 0xff)
          || (p[10] == 0 && p[11] == 0 && (p[12] != 0 || p[13] != 0 || (p[14] != 0 && p[15] != 1))))
  {
    hide Best, WordsOf, ZeroRun;
    var ws := WordsOf(p);
    WordIsZero(p, 10, 5);
    WordIsZero(p, 12, 6);
    WordIsZero(p, 14, 7);
    BytesOfZeroWords(p);
    HeadRun(ws, run);
  }

  /** The chosen run when it stands in front and has five words or more. */
  lemma HeadRun(ws: seq<Word>, run: Option<Run>)
    requires |ws| == 8 && Chosen(ws, run)
    ensures run.Some? && run.value.z == 0 && run.value.len >= 5 <==> ZeroRun(ws, 0, 5)
    ensures ZeroRun(ws, 0, 5) ==>
      run.value.len == if ws[5] != 0 then 5 else if ws[6] != 0 then 6 else if ws[7] != 0 then 7 else 8
  {
    if ZeroRun(ws, 0, 5) {
      var n := if ws[5] != 0 then 5 else if ws[6] != 0 then 6 else if ws[7] != 0 then 7 else 8;
      assert ZeroRun(ws, 0, n);
      var r := run.value;
      assert r.len >= n && r.z + r.len <= 8;
      assert r.z == 0;
    }
  }

  lemma WordOnes(hi: Word, lo: Word)
    ensures var a: int, b: int := hi, lo; a * 65536 + b == INADDR_NONE <==> hi == 65535 && lo == 65535
  {
  }

  lemma BytesOfZeroWords(p: seq<Byte>)
    requires |p| == 16
    ensures (forall i | 0 <= i < 10 :: p[i] == 0) <==> ZeroRun(WordsOf(p), 0, 5)
  {
    hide WordsOf;
    forall k: nat | k < 8
      ensures WordsOf(p)[k] == 0 <==> p[2 * k] == 0 && p[2 * k + 1] == 0
    {
      WordIsZero(p, 2 * k, k);
    }
    if ZeroRun(WordsOf(p), 0, 5) {
      forall i | 0 <= i < 10
        ensures p[i] == 0
      {
        assert WordsOf(p)[i / 2] == 0;
      }
    }
  }

  /** Behind five zeros and a non-zero end, the chosen run is the head of the address. */
  lemma ChosenHead(ws: seq<Word>, run: Option<Run>)
    requires |ws| == 8 && Chosen(ws, run)
    ensures ZeroRun(ws, 0, 5) && ws[6] != 0 && ws[7] != 0 ==>
      run == Some(Run(0, if ws[5] == 0 then 6 else 5))
    ensures run.Some? && run.value.z == 0 && run.value.len >= 5 ==> ZeroRun(ws, 0, 5)
    ensures run.Some? && run.value.z == 0 && run.value.len == 6 ==> ws[5] == 0
    ensures run.Some? && run.value.z == 0 && run.value.len == 7 ==> ws[6] == 0
  {
    if ZeroRun(ws, 0, 5) && ws[6] != 0 && ws[7] != 0 {
      var n := if ws[5] == 0 then 6 else 5;
      assert ZeroRun(ws, 0, n);
      assert run.value.z + run.value.len <= 6;
    }
  }

  /** What the printer writes is read back as the same address by the parser, except for
      ::255.255.255.255 and ::ffff:255.255.255.255, which the parser rejects. */
  lemma PrintThenParse(p: seq<Byte>, run: Option<Run>)
    requires |p| == 16 && Chosen(WordsOf(p), run)
    ensures Address(Printed(p, run)) == if Unreadable(p) then None else Some(WordsOf(p))
    ensures !Unreadable(p) ==> BytesOf(Address(Printed(p, run)).value) == p
  {
    hide Fields, Meaning, Printed, PrintedFields, HasTail, LastFour, WordsOf, BytesOf, Best, Unreadable;
    PrintedSplits(p, run);
    PrintedMeaning(p, run);
    UnreadableIff(p, run);
    BytesWords(p);
  }

  // ----- The printing loop -------------------------------------------------------------------------------

  /** What remains to be printed from word `k` on. */
  function Rest(p: seq<Byte>, run: Option<Run>, k: nat): Str
    requires |p| == 16 && (run.Some? ==> run.value.len >= 1)
    decreases 8 - k
  {
    if k >= (if HasTail(p, run) then 6 else 8) then if HasTail(p, run) then Dotted(LastFour(p)) else []
    else if run.Some? && k == run.value.z then [COLON] + Rest(p, run, k + run.value.len)
    else Hex(WordsOf(p)[k]) + (if k < 7 then [COLON] else []) + Rest(p, run, k + 1)
  }

  lemma HexesCons(w: Word, ws: seq<Word>)
    ensures Hexes([w] + ws) == [Hex(w)] + Hexes(ws)
  {
    hide Hex;
  }

  /** Behind the run, or when there is none, the words are joined by colons. */
  lemma {:induction false} RestIsJoin(p: seq<Byte>, run: Option<Run>, k: nat)
    requires |p| == 16 && k < 8 && !HasTail(p, run) && (run.Some? ==> run.value.len >= 1 && run.value.z < k)
    ensures Rest(p, run, k) == Join(Hexes(WordsOf(p)[k..]), COLON)
    decreases 8 - k
  {
    hide HasTail, WordsOf, Hex;
    var ws := WordsOf(p);
    assert ws[k..] == [ws[k]] + ws[k + 1..];
    HexesCons(ws[k], ws[k + 1..]);
    if k < 7 {
      RestIsJoin(p, run, k + 1);
      JoinCons(Hex(ws[k]), Hexes(ws[k + 1..]), COLON);
    } else {
      RestEnds(p, run);
      assert [Hex(ws[k])] + Hexes([]) == [Hex(ws[k])];
    }
  }

  lemma RestEnds(p: seq<Byte>, run: Option<Run>)
    requires |p| == 16 && (run.Some? ==> run.value.len >= 1) && !HasTail(p, run)
    ensures Rest(p, run, 8) == []
    ensures run == None || run.value.z != 7 ==> Rest(p, run, 7) == Hex(WordsOf(p)[7])
  {
    hide HasTail, WordsOf, Hex;
    assert Rest(p, run, 8) == [];
  }

  /** Behind the run when the address ends in a dotted quad. */
  lemma RestWithTail(p: seq<Byte>, r: Run)
    requires |p| == 16 && HasTail(p, Some(r))
    ensures Rest(p, Some(r), r.len) == Join(After(p, r), COLON)
  {
    hide WordsOf, Hex, Dotted, LastFour, HasTail;
    var ws, t := WordsOf(p), Dotted(LastFour(p));
    TailLength(p, r);
    assert Rest(p, Some(r), 6) == t && Rest(p, Some(r), 7) == t;
    if r.len == 5 {
      assert ws[5..6] == [ws[5]] + ws[6..6];
      HexesCons(ws[5], ws[6..6]);
      assert Hexes(ws[5..6]) + [t] == [Hex(ws[5])] + [t];
      JoinCons(Hex(ws[5]), [t], COLON);
      assert Join([t], COLON) == t;
    } else {
      assert After(p, r) == [t];
    }
  }

  lemma TailLength(p: seq<Byte>, r: Run)
    requires |p| == 16 && HasTail(p, Some(r))
    ensures r.z == 0 && 5 <= r.len <= 7
  {
  }

  lemma RestAfterRun(p: seq<Byte>, r: Run)
    requires |p| == 16 && r.len >= 2 && r.z + r.len <= 8
    ensures Rest(p, Some(r), r.z) == [COLON] + Join(After(p, r), COLON)
  {
    hide WordsOf, Hex, Dotted, LastFour, HasTail, Join;
    if HasTail(p, Some(r)) {
      TailLength(p, r);
      RestWithTail(p, r);
    } else if r.z + r.len == 8 {
      RestEnds(p, Some(r));
      assert Join([[]], COLON) == [] by { JoinOne([[]]); }
    } else {
      RestIsJoin(p, Some(r), r.z + r.len);
    }
  }

  /** Up to the run every word is followed by a colon. */
  lemma {:induction false} RestUpToRun(p: seq<Byte>, r: Run, k: nat)
    requires |p| == 16 && r.len >= 2 && r.z + r.len <= 8 && k <= r.z
    ensures Rest(p, Some(r), k) == Join(Hexes(WordsOf(p)[k..r.z]) + [[]] + After(p, r), COLON)
    decreases r.z - k
  {
    hide WordsOf, Hex, HasTail, Join, After;
    var ws, end := WordsOf(p), [[]] + After(p, r);
    AppendAssoc(Hexes(ws[k..r.z]), [[]], After(p, r));
    if k == r.z {
      RestAfterRun(p, r);
      JoinCons([], After(p, r), COLON);
      assert Hexes(ws[k..k]) + end == end;
      assert [] + [COLON] + Join(After(p, r), COLON) == [COLON] + Join(After(p, r), COLON);
    } else {
      RestUpToRun(p, r, k + 1);
      assert ws[k..r.z] == [ws[k]] + ws[k + 1..r.z];
      HexesCons(ws[k], ws[k + 1..r.z]);
      var more := Hexes(ws[k + 1..r.z]) + end;
      AppendAssoc(Hexes(ws[k + 1..r.z]), [[]], After(p, r));
      AppendAssoc([Hex(ws[k])], Hexes(ws[k + 1..r.z]), end);
      JoinCons(Hex(ws[k]), more, COLON);
      NoTailAhead(p, r);
    }
  }

  lemma NoTailAhead(p: seq<Byte>, r: Run)
    requires |p| == 16
    ensures r.z > 0 ==> !HasTail(p, Some(r))
  {
  }

  /** The loop prints exactly the address, with the colon of a leading "::" before it. */
  lemma RestIsPrinted(p: seq<Byte>, run: Option<Run>)
    requires |p| == 16 && Chosen(WordsOf(p), run)
    ensures Printed(p, run)
         == (if run.Some? && run.value.z == 0 then [COLON] else []) + Rest(p, run, 0)
  {
    hide WordsOf, Hex, HasTail, Join, After, Rest;
    if run == None {
      NoRunNoTail(p);
      assert WordsOf(p)[0..] == WordsOf(p);
      RestIsJoin(p, run, 0);
    } else {
      RestUpToRun(p, run.value, 0);
      assert WordsOf(p)[0..run.value.z] == WordsOf(p)[..run.value.z];
    }
  }

  /** Writes `s` behind the first `dst` bytes of the text. */
  method Append(text: array<Byte>, dst: nat, s: Str) returns (end: nat)
    requires dst + |s| <= text.Length
    modifies text
    ensures end == dst + |s| && text[..end] == old(text[..dst]) + s
  {
    ghost var front, tail := text[..dst], text[dst + |s|..];
    Copy(text, dst, s);
    end := dst + |s|;
    ghost var all := text[..];
    AppendSlices(front + s, tail, 0);
    assert text[..end] == all[..end];
  }

  /** What is printed for the word `k` and where the loop goes on. */
  lemma RestSteps(p: seq<Byte>, run: Option<Run>, k: nat, done: Str)
    requires |p| == 16 && k < (if HasTail(p, run) then 6 else 8) && (run.Some? ==> run.value.len >= 1)
    ensures run.Some? && k == run.value.z ==>
      done + Rest(p, run, k) == (done + [COLON]) + Rest(p, run, k + run.value.len)
    ensures run == None || k != run.value.z ==>
      done + Rest(p, run, k) == (done + Hex(WordsOf(p)[k]) + (if k < 7 then [COLON] else [])) + Rest(p, run, k + 1)
  {
    hide WordsOf, Hex, HasTail, Rest;
    RestUnfolds(p, run, k);
    if run.Some? && k == run.value.z {
      AppendAssoc(done, [COLON], Rest(p, run, k + run.value.len));
    } else {
      var x, c := Hex(WordsOf(p)[k]), if k < 7 then [COLON] else [];
      AppendThree(done, x, c, Rest(p, run, k + 1));
    }
  }

  lemma RestUnfolds(p: seq<Byte>, run: Option<Run>, k: nat)
    requires |p| == 16 && k < (if HasTail(p, run) then 6 else 8) && (run.Some? ==> run.value.len >= 1)
    ensures Rest(p, run, k)
         == if run.Some? && k == run.value.z then [COLON] + Rest(p, run, k + run.value.len)
            else Hex(WordsOf(p)[k]) + (if k < 7 then [COLON] else []) + Rest(p, run, k + 1)
  {
    hide WordsOf, Hex, HasTail;
  }

  lemma AppendThree(a: Str, b: Str, c: Str, d: Str)
    ensures a + (b + c + d) == (a + b + c) + d
  {
  }

  lemma RestTail(p: seq<Byte>, run: Option<Run>, k: nat)
    requires |p| == 16 && k >= (if HasTail(p, run) then 6 else 8) && (run.Some? ==> run.value.len >= 1)
    ensures Rest(p, run, k) == if HasTail(p, run) then Dotted(LastFour(p)) else []
  {
    hide WordsOf, Hex, HasTail;
  }

  /** "%ud.%ud.%ud.%ud" of the last four bytes. */
  method PrintTail(p: seq<Byte>, text: array<Byte>, dst: nat) returns (end: nat)
    requires |p| == 16 && dst + 15 <= text.Length
    modifies text
    ensures end <= dst + 15 && text[..end] == old(text[..dst]) + Dotted(LastFour(p))
  {
    hide Dec;
    DecLength(p[12]);
    DecLength(p[13]);
    DecLength(p[14]);
    DecLength(p[15]);
    var s := Dec(p[12]) + [DOT] + Dec(p[13]) + [DOT] + Dec(p[14]) + [DOT] + Dec(p[15]);
    PrintedTail(p);
    end := Append(text, dst, s);
  }

  lemma PrintedTail(p: seq<Byte>)
    requires |p| == 16
    ensures Dec(p[12]) + [DOT] + Dec(p[13]) + [DOT] + Dec(p[14]) + [DOT] + Dec(p[15]) == Dotted(LastFour(p))
  {
    hide Dec, WordsOf;
    WordBytes(p, 12, 6);
    WordBytes(p, 14, 7);
    FourBytes(p[12], p[13], p[14], p[15], LastFour(p));
    JoinFour(Dec(p[12]), Dec(p[13]), Dec(p[14]), Dec(p[15]));
  }

  lemma FourBytes(a: int, b: int, c: int, d: int, v: int)
    requires 0 <= a < 256 && 0 <= b < 256 && 0 <= c < 256 && 0 <= d < 256
    requires v == (a * 256 + b) * 65536 + (c * 256 + d)
    ensures v / 0x100_0000 == a && v / 65536 % 256 == b && v / 256 % 256 == c && v % 256 == d
  {
    assert v / 65536 == a * 256 + b && v / 256 == (a * 256 + b) * 256 + c;
  }

  lemma JoinFour(w: Str, x: Str, y: Str, z: Str)
    ensures Join([w, x, y, z], DOT) == w + [DOT] + x + [DOT] + y + [DOT] + z
  {
    var fs := [w, x, y, z];
    assert fs[..3] == [w, x, y] && [w, x, y][..2] == [w, x] && [w, x][..1] == [w];
    assert Join([w, x], DOT) == Join([w], DOT) + [DOT] + x;
    assert Join([w, x, y], DOT) == Join([w, x], DOT) + [DOT] + y;
  }

  /** "%xd" of the word at byte `i`, and a colon unless it is the last. */
  method PrintWord(p: seq<Byte>, i: nat, text: array<Byte>, dst: nat) returns (end: nat)
    requires |p| == 16 && i < 16 && i % 2 == 0 && dst + 5 <= text.Length
    modifies text
    ensures dst <= end <= dst + 5
    ensures text[..end]
         == old(text[..dst]) + Hex(WordsOf(p)[i / 2]) + (if i < 14 then [COLON] else [])
  {
    hide Hex, WordsOf;
    WordBytes(p, i, i / 2);
    HexLength(TwoBytes(p[i], p[i + 1]));
    end := Append(text, dst, Hex(TwoBytes(p[i], p[i + 1])));
    if i < 14 {
      end := Append(text, end, [COLON]);
    }
  }

  /** How much has been printed before byte `i`, at most. */
  ghost predicate Fits(run: Option<Run>, i: nat, dst: nat) {
    if run.Some? && run.value.z == 0 then
      if i == 0 then dst == 1 else i >= 2 * run.value.len && 2 * dst <= 4 + 5 * (i - 2 * run.value.len)
    else 2 * dst <= 5 * i
  }

  /** How the address begins and where its loop ends. */
  method PrintLead(p: seq<Byte>, zero: int, max: nat, text: array<Byte>) returns (n: int, dst: nat)
    requires |p| == 16 && text.Length > 0
    modifies text
    ensures zero == 0 ==> n == if HasTail(p, Some(Run(0, max))) then 12 else 16
    ensures zero != 0 ==> n == 16
    ensures dst <= text.Length && text[..dst] == if zero == 0 then [COLON] else []
  {
    n, dst := 16, 0;
    if zero == 0 {
      if (max == 5 && p[10] == 0xff && p[11] == 0xff) || max == 6 || (max == 7 && p[14] != 0 && p[15] != 1) {
        n := 12;
      }
      text[dst] := COLON;
      dst := dst + 1;
    }
  }

  /** The loop: up to byte `n`, the words and the run are printed. */
  method PrintWords(p: seq<Byte>, zero: int, max: nat, n: int, text: array<Byte>, start: nat, ghost run: Option<Run>)
    returns (dst: nat)
    requires |p| == 16 && text.Length >= ADDRSTRLEN
    requires zero >= 0 ==> zero % 2 == 0
    requires run == RunOf(zero, max) && (run.Some? ==> run.value.z + run.value.len <= 8 && run.value.len >= 2)
    requires n == if HasTail(p, run) then 12 else 16
    requires start == if zero == 0 then 1 else 0
    modifies text
    ensures dst + (if n == 12 then 15 else 0) <= text.Length
    ensures text[..dst] + (if n == 12 then Dotted(LastFour(p)) else []) == old(text[..start]) + Rest(p, run, 0)
  {
    hide WordsOf, Rest, Hex, Dotted, LastFour, HasTail;
    dst := start;
    var i := 0;
    while i < n
      invariant 0 <= i <= 16 && i % 2 == 0
      invariant dst <= text.Length && Fits(run, i, dst)
      invariant text[..dst] + Rest(p, run, i / 2) == old(text[..start]) + Rest(p, run, 0)
      decreases 16 - i
    {
      RestSteps(p, run, i / 2, text[..dst]);
      if i == zero {
        dst := Append(text, dst, [COLON]);
        i := i + (max - 1) * 2;
      } else {
        dst := PrintWord(p, i, text, dst);
      }
      i := i + 2;
    }
    RestTail(p, run, i / 2);
    RoomForTail(p, run, i, dst);
  }

  lemma RoomForTail(p: seq<Byte>, run: Option<Run>, i: nat, dst: nat)
    requires |p| == 16 && Fits(run, i, dst) && i <= 16
    ensures dst + (if HasTail(p, run) then 15 else 0) <= ADDRSTRLEN
  {
  }

  /** `ngx_inet6_ntop`: writes the printed address into a text of at least 45 bytes, and nothing into a
      shorter one. */
  method Inet6Ntop(p: seq<Byte>, text: array<Byte>) returns (len: nat, ghost run: Option<Run>)
    requires |p| == 16
    modifies text
    ensures text.Length < ADDRSTRLEN ==> len == 0 && text[..] == old(text[..])
    ensures text.Length >= ADDRSTRLEN ==>
      Chosen(WordsOf(p), run) && len <= text.Length && text[..len] == Printed(p, run)
  {
    hide Chosen, WordsOf, Printed, Rest, Hex, Best, Dotted, LastFour;
    if text.Length < ADDRSTRLEN {
      return 0, None;
    }
    var zero, max := FindRun(p);
    run := RunOf(zero, max);
    RunBounds(WordsOf(p), run);
    var n, dst := PrintLead(p, zero, max, text);
    dst := PrintWords(p, zero, max, n, text, dst, run);
    if n == 12 {
      dst := PrintTail(p, text, dst);
    }
    RestIsPrinted(p, run);
    len := dst;
  }

  lemma RunBounds(ws: seq<Word>, run: Option<Run>)
    requires |ws| == 8 && Chosen(ws, run)
    ensures run.Some? ==> run.value.z + run.value.len <= 8 && run.value.len >= 2
  {
  }
}
