/** Which IPv6 texts `ngx_inet6_addr` reads as section 2.2 of RFC 4291 wants, and which it does not. */
module Inet6Standard {
  import opened Bytes
  import opened Inet
  import opened Inet6
  import P = Inet6Print

  // ----- The pieces of a text ---------------------------------------------------------------------------

  ghost predicate Groups(fs: seq<Str>) {
    forall i | 0 <= i < |fs| :: IsGroup(fs[i])
  }

  /** "d.d.d.d": four decimal numbers below 256. */
  ghost predicate IsDotted(f: Str) {
    Quad(f).Some? && [] !in Fields(f, DOT)
  }

  ghost function PieceWords(f: Str): seq<Word> {
    if IsGroup(f) then
      GroupValue(f);
      [HexValue(f)]
    else if Quad(f).Some? then
      QuadSmall(f);
      [Quad(f).value / 65536, Quad(f).value % 65536]
    else []
  }

  ghost function AllWords(fs: seq<Str>): seq<Word> {
    if fs == [] then [] else AllWords(fs[..|fs| - 1]) + PieceWords(fs[|fs| - 1])
  }

  /** Groups, and in the last place also what stands for two words. */
  ghost predicate Pieces(fs: seq<Str>, strict: bool) {
    fs == [] ||
    (Groups(fs[..|fs| - 1])
     && (IsGroup(fs[|fs| - 1]) || if strict then IsDotted(fs[|fs| - 1]) else IsTail(fs[|fs| - 1])))
  }

  /** A text in parts: a colon in front, the pieces before and after "::", a colon behind. */
  datatype Parts = Parts(lead: bool, before: seq<Str>, gap: bool, after: seq<Str>, trail: bool) {
    function Behind(): seq<Str> {
      if trail then after + [[]] else after
    }

    function Text(): Str {
      (if lead then [58] else [])
      + (if gap then Join(before, 58) + [58, 58] + Join(Behind(), 58) else Join(Behind(), 58))
    }

    /** The words behind "::"; nothing behind a colon counts as 0. */
    ghost function Rest(): seq<Word> {
      AllWords(after) + if trail then [0] else []
    }

    ghost function Count(): nat {
      |AllWords(before)| + |Rest()|
    }

    ghost function Words(): seq<Word>
      requires Count() <= 8
    {
      AllWords(before) + Zeros(8 - Count()) + Rest()
    }
  }

  /** The text forms of section 2.2 of RFC 4291: eight pieces, or fewer with one "::" for one word or more;
      the last two words may be written as a dotted IPv4 address. */
  ghost predicate Strict(p: Parts) {
    && !p.lead && !p.trail && Groups(p.before) && Pieces(p.after, true)
    && if p.gap then p.Count() <= 7 else p.before == [] && p.Count() == 8
  }

  /** What the parser takes: also one colon in front, and one behind when there is a "::"; but not a "::" at
      the end for only one word. */
  ghost predicate Loose(p: Parts) {
    && Groups(p.before) && Pieces(p.after, false)
    && (p.lead ==> p.before != [] || !p.gap)
    && (p.trail ==> p.gap && p.after != [] && IsGroup(p.after[|p.after| - 1]))
    && if p.gap then p.Count() <= (if p.after == [] then 6 else 7) else p.before == [] && p.Count() == 8
  }

  ghost predicate StandardText(text: Str) {
    exists p: Parts :: Strict(p) && p.Text() == text
  }

  ghost predicate LooseText(text: Str) {
    exists p: Parts :: Loose(p) && p.Text() == text
  }

  /** The words that the text stands for by the standard. */
  ghost predicate StandardIs(text: Str, ws: seq<Word>) {
    exists p: Parts :: Strict(p) && p.Text() == text && p.Words() == ws
  }

  // ----- Groups in front of colons ---------------------------------------------------------------------

  lemma AllWordsStep(fs: seq<Str>, f: Str)
    ensures AllWords(fs + [f]) == AllWords(fs) + PieceWords(f)
  {
    assert (fs + [f])[..|fs|] == fs;
  }

  lemma {:induction false} GroupWords(fs: seq<Str>)
    requires Groups(fs)
    ensures |AllWords(fs)| == |fs|
  {
    if fs != [] {
      GroupWords(fs[..|fs| - 1]);
    }
  }

  lemma OneMoreGroup(p: Partial, f: Str)
    requires IsGroup(f)
    ensures OneMore(p, f) == if |p.words| < 7 then Some(p.(words := p.words + PieceWords(f))) else None
  {
  }

  lemma {:induction false} LeadingGroups(fs: seq<Str>)
    requires Groups(fs)
    ensures Leading(fs) == if |fs| <= 7 then Some(Partial(AllWords(fs), None)) else None
    ensures |AllWords(fs)| == |fs|
  {
    GroupWords(fs);
    if fs != [] {
      LeadingGroups(fs[..|fs| - 1]);
      GroupWords(fs[..|fs| - 1]);
    }
  }

  /** What groups around an empty field come to. */
  ghost function Gapped(a: seq<Str>, c: seq<Str>): Option<Partial> {
    if |a| + |c| <= 7 then Some(Partial(AllWords(a) + AllWords(c), Some(|a|))) else None
  }

  lemma {:induction false} LeadingGap(a: seq<Str>, c: seq<Str>)
    requires Groups(a) && Groups(c)
    ensures Leading(a + [[]] + c) == Gapped(a, c)
    decreases |c|
  {
    hide IsGroup, Leading, Gapped;
    if c == [] {
      GapOnly(a);
      assert a + [[]] + c == a + [[]];
    } else {
      var init, f := c[..|c| - 1], c[|c| - 1];
      LeadingGap(a, init);
      assert c == init + [f] && a + [[]] + c == (a + [[]] + init) + [f];
      GapGrows(a, init, f);
    }
  }

  lemma GapOnly(a: seq<Str>)
    requires Groups(a)
    ensures Leading(a + [[]]) == Gapped(a, [])
  {
    hide IsGroup, AllWords, Leading, OneMore;
    NoWords();
    assert AllWords(a) + [] == AllWords(a);
    LeadingGroups(a);
    LeadingStep(a, []);
    GapStarts(AllWords(a));
  }

  lemma GapGrows(a: seq<Str>, c: seq<Str>, f: Str)
    requires Groups(a) && Groups(c) && IsGroup(f) && Leading(a + [[]] + c) == Gapped(a, c)
    ensures Leading(a + [[]] + c + [f]) == Gapped(a, c + [f])
  {
    hide IsGroup, PieceWords, AllWords, Leading, OneMore;
    GroupWords(a);
    GroupWords(c);
    LeadingStep(a + [[]] + c, f);
    AllWordsStep(c, f);
    AppendAssoc(AllWords(a), AllWords(c), PieceWords(f));
    if |a| + |c| <= 7 {
      OneMoreGroup(Partial(AllWords(a) + AllWords(c), Some(|a|)), f);
    }
  }

  lemma GapStarts(ws: seq<Word>)
    ensures OneMore(Partial(ws, None), []) == Some(Partial(ws, Some(|ws|)))
  {
  }

  /** What the fields before the last colon are when they are accepted. */
  lemma {:induction false} LeadingInverse(fs: seq<Str>)
    requires Leading(fs).Some?
    ensures var p := Leading(fs).value;
      if p.gap.None? then Groups(fs) else
        p.gap.value < |fs| && fs[p.gap.value] == [] && Groups(fs[..p.gap.value]) && Groups(fs[p.gap.value + 1..])
  {
    if fs != [] {
      var init, f := fs[..|fs| - 1], fs[|fs| - 1];
      LeadingInverse(init);
      var p, q := Leading(init).value, Leading(fs).value;
      if q.gap.Some? {
        var g := q.gap.value;
        if p.gap.None? {
          LeadingGroups(init);
          assert fs[..g] == init && fs[g + 1..] == [];
        } else {
          assert fs[..g] == init[..g] && fs[g + 1..] == init[g + 1..] + [f];
        }
      }
    }
  }

  // ----- What fields in these forms mean ---------------------------------------------------------------

  ghost function LastOf(f: Str): seq<Word> {
    if f == [] then [0] else PieceWords(f)
  }

  /** What the last field must be. */
  ghost predicate GoodLast(f: Str, gap: bool) {
    (gap && f == []) || IsGroup(f) || IsTail(f)
  }

  lemma LastGroup(f: Str)
    requires IsGroup(f)
    ensures f != [] && |PieceWords(f)| == 1
  {
  }

  lemma TailIsQuad(f: Str)
    requires IsTail(f)
    ensures f != [] && !IsGroup(f) && Quad(f).Some? && PieceWords(f) == TailWords(f)
  {
    hide Quad;
    if d :| 1 <= d <= 4 && DotAt(f, d) && AllHex(f[..d]) {
      assert f[d] == DOT;
    }
  }

  lemma GapSplit(x: seq<Word>, y: seq<Word>)
    requires |x| + |y| <= 7
    ensures Expand(x + y, Some(|x|)) == Some(x + Zeros(8 - |x + y|) + y)
  {
    assert (x + y)[..|x|] == x && (x + y)[|x|..] == y;
  }

  lemma MeaningGap(a: seq<Str>, c: seq<Str>, f: Str)
    requires Groups(a) && Groups(c)
    ensures var ws, rest := AllWords(a), AllWords(c) + LastOf(f);
      Meaning(a + [[]] + c + [f])
      == if GoodLast(f, true) && |ws| + |rest| <= 7 then Some(ws + Zeros(8 - |ws + rest|) + rest) else None
  {
    hide Leading, Quad, AllWords, PieceWords, IsGroup, IsTail;
    var fs := a + [[]] + c + [f];
    assert fs[..|fs| - 1] == a + [[]] + c;
    LeadingGap(a, c);
    GroupWords(a);
    GroupWords(c);
    var ws, rest := AllWords(a), AllWords(c) + LastOf(f);
    assert AllWords(a) + AllWords(c) + LastOf(f) == ws + rest;
    LastWordsIs(f, Partial(AllWords(a) + AllWords(c), Some(|a|)));
    if |ws| + |rest| <= 7 {
      GapSplit(ws, rest);
    }
  }

  lemma LastWordsIs(f: Str, p: Partial)
    ensures LastWords(f, p, true) == if GoodLast(f, p.gap.Some?) && (IsTail(f) ==> |p.words| <= 6) then Some(LastOf(f))
                                     else None
    ensures |LastOf(f)| >= 1 || !GoodLast(f, p.gap.Some?)
    ensures IsTail(f) ==> |LastOf(f)| == 2
  {
    hide Quad, HexValue;
    if IsTail(f) {
      TailIsQuad(f);
    }
    if IsGroup(f) {
      LastGroup(f);
    }
  }

  lemma MeaningFull(g: seq<Str>, f: Str)
    requires Groups(g)
    ensures Meaning(g + [f])
         == if GoodLast(f, false) && |AllWords(g) + LastOf(f)| == 8 then Some(AllWords(g) + LastOf(f)) else None
  {
    hide Leading, Quad, AllWords, PieceWords, IsGroup, IsTail;
    var fs := g + [f];
    assert fs[..|fs| - 1] == g;
    LeadingGroups(g);
    LastWordsIs(f, Partial(AllWords(g), None));
    OneWordLast(f);
  }

  lemma OneWordLast(f: Str)
    ensures |LastOf(f)| <= 2
    ensures LastWords(f, Partial([], None), false).Some? ==> |LastWords(f, Partial([], None), false).value| == 1
  {
    hide Quad, HexValue;
  }

  // ----- The fields of a text in parts --------------------------------------------------------------------

  ghost predicate Filled(fs: seq<Str>) {
    forall i | 0 <= i < |fs| :: fs[i] != [] && COLON !in fs[i]
  }

  ghost predicate Sane(p: Parts) {
    && Filled(p.before) && Filled(p.after) && (p.trail ==> p.after != [])
    && (p.lead ==> p.before != [] || !p.gap)
    && (!p.gap ==> p.before == [] && p.after != [] && !p.trail)
  }

  lemma GroupFilled(f: Str)
    requires IsGroup(f)
    ensures f != [] && COLON !in f && DOT !in f && Quad(f) == None
  {
    if DOT !in f {
      OneField(f, DOT);
    }
  }

  lemma QuadFilled(f: Str)
    requires Quad(f).Some?
    ensures f != [] && COLON !in f && !IsGroup(f)
  {
    if COLON in f {
      QuadNoColon(f);
    }
    if IsGroup(f) {
      GroupFilled(f);
    }
  }

  lemma PiecesFilled(fs: seq<Str>, strict: bool)
    requires Pieces(fs, strict)
    ensures Filled(fs)
  {
    hide IsGroup, Quad;
    if fs != [] {
      var init, f := fs[..|fs| - 1], fs[|fs| - 1];
      forall i | 0 <= i < |init|
        ensures fs[i] != [] && COLON !in fs[i]
      {
        assert fs[i] == init[i];
        GroupFilled(init[i]);
      }
      if IsGroup(f) {
        GroupFilled(f);
      } else {
        QuadFilled(f);
      }
    }
  }

  lemma GroupsFilled(fs: seq<Str>)
    requires Groups(fs)
    ensures Filled(fs)
  {
    hide IsGroup;
    forall i | 0 <= i < |fs|
      ensures fs[i] != [] && COLON !in fs[i]
    {
      GroupFilled(fs[i]);
    }
  }

  lemma SaneParts(p: Parts)
    requires Strict(p) || Loose(p)
    ensures Sane(p)
  {
    hide IsGroup, Pieces, Groups;
    GroupsFilled(p.before);
    PiecesFilled(p.after, Strict(p));
  }

  /** A colon splits a text. */
  lemma FieldsColon(s: Str, t: Str)
    ensures Fields(s + [COLON] + t, COLON) == Fields(s, COLON) + Fields(t, COLON)
  {
    hide Fields;
    var fs, gs := Fields(s, COLON), Fields(t, COLON);
    FieldsStep(s, COLON, COLON);
    FieldsAppend(s + [COLON], t, COLON);
    EmptyMiddle(fs, gs);
  }

  /** The fields of joined pieces; nothing is one empty field. */
  ghost function Side(fs: seq<Str>): seq<Str> {
    if fs == [] then [[]] else fs
  }

  lemma JoinedFields(fs: seq<Str>)
    requires forall i | 0 <= i < |fs| :: COLON !in fs[i]
    ensures Fields(Join(fs, COLON), COLON) == Side(fs)
  {
    if fs != [] {
      FieldsJoin(fs, COLON);
    }
  }

  /** A text begins with a colon exactly when its first field is empty and not the only one. */
  lemma {:induction false} FirstColon(s: Str)
    ensures s != [] && s[0] == COLON <==> |Fields(s, COLON)| >= 2 && Fields(s, COLON)[0] == []
    ensures s == [] <==> Fields(s, COLON) == [[]]
  {
    if s != [] {
      var t, c := s[..|s| - 1], s[|s| - 1];
      FirstColon(t);
      assert t != [] ==> t[0] == s[0];
    }
  }

  /** The fields behind a colon that the parser skips. */
  ghost function Fielded(p: Parts): seq<Str> {
    if p.gap then p.before + [[]] + Side(p.Behind()) else p.Behind()
  }

  /** The text without a colon in front that stands alone. */
  function Core(p: Parts): Str {
    p.(lead := false).Text()
  }

  lemma CoreFields(p: Parts)
    requires Sane(p)
    ensures Fields(Core(p), COLON) == if p.gap then Side(p.before) + [[]] + Side(p.Behind()) else p.Behind()
  {
    hide Fields, Join;
    var b := p.Behind();
    assert forall i | 0 <= i < |b| :: COLON !in b[i];
    JoinedFields(b);
    if p.gap {
      JoinedFields(p.before);
      var x, y := Join(p.before, COLON), Join(b, COLON);
      FieldsColon(x + [COLON], y);
      FieldsStep(x, COLON, COLON);
      assert Core(p) == x + [COLON] + [COLON] + y;
    } else {
      assert Core(p) == Join(b, COLON);
    }
  }

  lemma BodyFields(p: Parts)
    requires Sane(p)
    ensures p.Text() != [] && Fields(Body(p.Text()), COLON) == Fielded(p)
    ensures p.Text()[0] == COLON <==> p.lead || (p.gap && p.before == [])
  {
    hide Fields, Core, Fielded, Sane;
    CoreBegins(p);
    LeadAndCore(p);
    if p.lead {
      BodyOfLead(p);
    } else if p.gap && p.before == [] {
      BodyOfGap(p);
    } else {
      BodyOfCore(p);
    }
  }

  lemma LeadAndCore(p: Parts)
    ensures p.Text() == if p.lead then [COLON] + Core(p) else Core(p)
  {
    hide Join;
    var text := if p.gap then Join(p.before, COLON) + [COLON, COLON] + Join(p.Behind(), COLON)
                else Join(p.Behind(), COLON);
    assert p.Text() == (if p.lead then [COLON] else []) + text;
    assert p.(lead := false).Text() == [] + text;
    assert [] + text == text;
  }

  lemma CoreBegins(p: Parts)
    requires Sane(p)
    ensures Core(p) != [] && (Core(p)[0] == COLON <==> p.gap && p.before == [])
  {
    hide Fields, Core;
    FirstColon(Core(p));
    CoreFields(p);
    assert Fields(Core(p), COLON)[0] == if p.before != [] then p.before[0] else if p.gap then [] else p.after[0];
  }

  lemma BodyOfLead(p: Parts)
    requires Sane(p) && p.lead
    ensures Body([COLON] + Core(p)) == Core(p) && Fields(Core(p), COLON) == Fielded(p)
  {
    hide Fields, Core;
    CoreFields(p);
  }

  lemma BodyOfGap(p: Parts)
    requires Sane(p) && !p.lead && p.gap && p.before == [] && Core(p) != [] && Core(p)[0] == COLON
    ensures Fields(Body(Core(p)), COLON) == Fielded(p)
  {
    hide Fields, Core;
    CoreFields(p);
    var t := Core(p)[1..];
    ColonFirst(Core(p));
    FieldsColon([], t);
    FirstColon([]);
    SameRest(Fields(t, COLON), Side(p.Behind()));
  }

  lemma ColonFirst(s: Str)
    requires s != [] && s[0] == COLON
    ensures s == [] + [COLON] + s[1..]
  {
  }

  lemma SameRest(fs: seq<Str>, side: seq<Str>)
    requires [[]] + fs == [[]] + [[]] + side
    ensures fs == [] + [[]] + side
  {
    assert ([[]] + fs)[1..] == fs && ([[]] + [[]] + side)[1..] == [[]] + side;
  }

  lemma BodyOfCore(p: Parts)
    requires Sane(p) && !p.lead && !(p.gap && p.before == []) && Core(p) != [] && Core(p)[0] != COLON
    ensures Fields(Body(Core(p)), COLON) == Fielded(p)
  {
    hide Fields, Core;
    CoreFields(p);
  }

  // ----- The parser on texts in parts ------------------------------------------------------------------

  lemma MoreZeros(ws: seq<Word>, n: nat)
    ensures ws + Zeros(n) + [0] == ws + Zeros(n + 1) + []
  {
  }

  /** A loose text is read as its words; a standard text that is not loose is refused. */
  lemma PartsRead(p: Parts)
    requires Strict(p) || Loose(p)
    ensures Address(p.Text()) == if Loose(p) then Some(p.Words()) else None
  {
    hide Fields, Join, IsGroup, Quad, Meaning, PieceWords;
    SaneParts(p);
    BodyFields(p);
    if !p.gap {
      ReadFull(p);
    } else if p.trail || p.after == [] {
      ReadEnd(p);
    } else {
      ReadGap(p);
    }
  }

  lemma ReadFull(p: Parts)
    requires (Strict(p) || Loose(p)) && !p.gap && p.after != []
    ensures Meaning(Fielded(p)) == if Loose(p) then Some(p.Words()) else None
  {
    hide IsGroup, Quad, Meaning, PieceWords;
    var c, f := p.after[..|p.after| - 1], p.after[|p.after| - 1];
    assert p.after == c + [f];
    MeaningFull(c, f);
    LastKind(f);
    assert p.Words() == AllWords(p.after);
  }

  lemma LastKind(f: Str)
    requires IsGroup(f) || IsDotted(f) || IsTail(f)
    ensures f != [] && LastOf(f) == PieceWords(f)
  {
    hide IsGroup, Quad;
    if IsGroup(f) {
      GroupFilled(f);
    } else {
      QuadFilled(f);
    }
  }

  lemma ReadGap(p: Parts)
    requires (Strict(p) || Loose(p)) && p.gap && !p.trail && p.after != []
    ensures Meaning(Fielded(p)) == if Loose(p) then Some(p.Words()) else None
  {
    hide IsGroup, Quad, Meaning, PieceWords;
    var c, f := p.after[..|p.after| - 1], p.after[|p.after| - 1];
    assert p.after == c + [f];
    assert Fielded(p) == p.before + [[]] + c + [f];
    MeaningGap(p.before, c, f);
    LastKind(f);
    assert p.Rest() == AllWords(c) + LastOf(f);
  }

  lemma ReadEnd(p: Parts)
    requires (Strict(p) || Loose(p)) && p.gap && (p.trail || p.after == [])
    ensures Meaning(Fielded(p)) == if Loose(p) then Some(p.Words()) else None
  {
    hide Strict, Loose, Meaning, Fielded;
    if p.after == [] {
      ReadGapEnd(p);
    } else {
      ReadTrail(p);
    }
  }

  lemma ReadTrail(p: Parts)
    requires (Strict(p) || Loose(p)) && p.gap && p.trail && p.after != []
    ensures Meaning(Fielded(p)) == if Loose(p) then Some(p.Words()) else None
  {
    hide IsGroup, IsTail, IsDotted, Quad, Meaning, PieceWords, AllWords;
    assert Groups(p.after);
    assert Fielded(p) == p.before + [[]] + p.after + [[]];
    MeaningGap(p.before, p.after, []);
  }

  lemma ReadGapEnd(p: Parts)
    requires (Strict(p) || Loose(p)) && p.gap && p.after == []
    ensures Meaning(Fielded(p)) == if Loose(p) then Some(p.Words()) else None
  {
    hide IsGroup, IsTail, IsDotted, Quad, Meaning, PieceWords, AllWords;
    assert !p.trail && Fielded(p) == p.before + [[]] + [] + [[]];
    MeaningGap(p.before, [], []);
    NoWords();
    GroupWords(p.before);
    assert [] + LastOf([]) == [0] && p.Rest() == [];
    if p.Count() <= 6 {
      MoreZeros(AllWords(p.before), 7 - p.Count());
    }
  }

  // ----- Every text that is read is in parts -----------------------------------------------------------

  lemma SameText(p: Parts, text: Str)
    requires Sane(p) && text != [] && Fields(Body(text), COLON) == Fielded(p)
    requires text[0] == COLON <==> p.lead || (p.gap && p.before == [])
    ensures p.Text() == text
  {
    hide Fields, Join;
    BodyFields(p);
    JoinFields(Body(text), COLON);
    JoinFields(Body(p.Text()), COLON);
    assert text == (if text[0] == COLON then [COLON] else []) + Body(text);
    assert p.Text() == (if p.Text()[0] == COLON then [COLON] else []) + Body(p.Text());
  }

  /** The parts of accepted fields. */
  lemma PartsOfFields(bf: seq<Str>, lead: bool) returns (p: Parts)
    requires bf != [] && Meaning(bf).Some? && (lead ==> |bf| < 2 || bf[0] != [])
    ensures Loose(p) && Fielded(p) == bf && p.lead == lead && Meaning(bf) == Some(p.Words())
    ensures p.gap && p.before == [] <==> |bf| >= 2 && bf[0] == []
  {
    hide IsGroup, Quad, Meaning, PieceWords, AllWords, Leading;
    var front, f := bf[..|bf| - 1], bf[|bf| - 1];
    assert bf == front + [f];
    MeaningLeads(bf);
    LeadingInverse(front);
    var gap := Leading(front).value.gap;
    if gap.None? {
      p := FullParts(front, f, lead);
    } else {
      var a, c := front[..gap.value], front[gap.value + 1..];
      assert front == a + [[]] + c;
      p := GapParts(a, c, f, lead);
    }
  }

  lemma MeaningLeads(bf: seq<Str>)
    requires bf != [] && Meaning(bf).Some?
    ensures Leading(bf[..|bf| - 1]).Some?
  {
  }

  lemma FullParts(front: seq<Str>, f: Str, lead: bool) returns (p: Parts)
    requires Groups(front) && Meaning(front + [f]).Some?
    ensures Loose(p) && Fielded(p) == front + [f] && p.lead == lead && Meaning(front + [f]) == Some(p.Words())
    ensures !p.gap && (front != [] ==> front[0] != [])
  {
    hide IsGroup, Quad, Meaning, PieceWords;
    p := Parts(lead, [], false, front + [f], false);
    MeaningFull(front, f);
    LastKind(f);
    AllWordsStep(front, f);
    GroupsFilled(front);
    ReadFull(p);
  }

  lemma GapParts(a: seq<Str>, c: seq<Str>, f: Str, lead: bool) returns (p: Parts)
    requires Groups(a) && Groups(c) && Meaning(a + [[]] + c + [f]).Some? && (lead ==> a != [])
    ensures Loose(p) && Fielded(p) == a + [[]] + c + [f] && p.lead == lead
    ensures Meaning(a + [[]] + c + [f]) == Some(p.Words())
    ensures p.gap && p.before == a && (a != [] ==> a[0] != [])
  {
    hide IsGroup, IsTail, Quad, Meaning, PieceWords, AllWords;
    MeaningGap(a, c, f);
    GroupsFilled(a);
    GroupWords(a);
    if f != [] {
      p := Parts(lead, a, true, c + [f], false);
      AllWordsStep(c, f);
      LastKind(f);
      ReadGap(p);
    } else {
      p := Parts(lead, a, true, c, c != []);
      GroupWords(c);
      ReadEnd(p);
    }
  }

  /** What is read is a loose text with these words. */
  lemma ReadInParts(text: Str) returns (p: Parts)
    requires Address(text).Some?
    ensures Loose(p) && p.Text() == text && Address(text) == Some(p.Words())
  {
    hide Fields, Join, IsGroup, Meaning;
    var body := Body(text);
    var bf := Fields(body, COLON);
    FirstColon(body);
    var lead := text[0] == COLON && (body == [] || body[0] != COLON);
    p := PartsOfFields(bf, lead);
    SaneParts(p);
    SameText(p, text);
  }

  // ----- Marks by which the texts are told apart -------------------------------------------------------

  ghost function LastField(text: Str): Str {
    var fs := Fields(text, COLON);
    fs[|fs| - 1]
  }

  /** A single colon at the beginning or at the end. */
  predicate LoneColon(text: Str) {
    text != [] &&
    ((text[0] == 58 && !(|text| > 1 && text[1] == 58))
     || (text[|text| - 1] == 58 && !(|text| > 1 && text[|text| - 2] == 58)))
  }

  /** A dotted end in which a number is missing. */
  ghost predicate EmptyOctet(text: Str) {
    DOT in LastField(text) && [] in Fields(LastField(text), DOT)
  }

  /** Seven groups and then "::". */
  ghost predicate GapOfOne(text: Str) {
    |text| >= 2 && text[|text| - 2..] == [COLON, COLON] && |Fields(text, COLON)| == 9
  }

  /** A dotted end that is all ones, or whose first number has more than four digits. */
  ghost predicate UnreadTail(text: Str) {
    var f := LastField(text);
    Quad(f).Some? && (Quad(f).value == INADDR_NONE || |Fields(f, DOT)[0]| > 4)
  }

  lemma {:induction false} LastFieldIs(u: Str, v: Str)
    requires COLON !in v && (u == [] || u[|u| - 1] == COLON)
    ensures LastField(u + v) == v
    decreases |v|
  {
    if v == [] {
      assert u + v == u;
    } else {
      var w, c := v[..|v| - 1], v[|v| - 1];
      assert u + v == (u + w) + [c] && v == w + [c];
      LastFieldIs(u, w);
      FieldsStep(u + w, c, COLON);
    }
  }

  /** How a joined text begins and ends. */
  lemma JoinEnds(fs: seq<Str>) returns (u: Str)
    requires Filled(fs) && fs != []
    ensures Join(fs, COLON) == u + fs[|fs| - 1] && (u == [] || u[|u| - 1] == COLON)
    ensures Join(fs, COLON) != [] && Join(fs, COLON)[0] != COLON
  {
    var f := fs[|fs| - 1];
    FirstColon(Join(fs, COLON));
    JoinedFields(fs);
    if |fs| == 1 {
      u := [];
    } else {
      u := Join(fs[..|fs| - 1], COLON) + [COLON];
    }
  }

  /** A text with pieces behind the last "::" ends with the last one. */
  lemma EndsWithPiece(p: Parts)
    requires Sane(p) && p.after != [] && !p.trail
    ensures LastField(p.Text()) == p.after[|p.after| - 1]
    ensures p.Text()[|p.Text()| - 1] != COLON
  {
    hide Fields, Join;
    var f, b := p.after[|p.after| - 1], p.Behind();
    var u := JoinEnds(b);
    var v := (if p.lead then [COLON] else []) + if p.gap then Join(p.before, COLON) + [COLON, COLON] else [];
    assert p.Text() == (v + u) + f;
    assert f[|f| - 1] in f;
    LastFieldIs(v + u, f);
  }

  /** A text that ends with "::". */
  lemma EndsWithGap(p: Parts)
    requires Sane(p) && p.gap && p.after == []
    ensures |p.Text()| >= 2 && p.Text()[|p.Text()| - 2..] == [COLON, COLON] && LastField(p.Text()) == []
  {
    hide Fields;
    var v := (if p.lead then [COLON] else []) + Join(p.before, COLON);
    assert p.Text() == v + [COLON, COLON];
    LastFieldIs(p.Text(), []);
    assert p.Text() + [] == p.Text();
  }

  /** A colon alone in front. */
  lemma LeadIsLone(p: Parts)
    requires Sane(p)
    ensures p.lead ==> LoneColon(p.Text())
    ensures !p.lead && p.Text()[0] == COLON ==> |p.Text()| > 1 && p.Text()[1] == COLON
  {
    CoreBegins(p);
    LeadAndCore(p);
    if !p.lead && p.gap && p.before == [] {
      GapInFront(p);
    }
  }

  lemma GapInFront(p: Parts)
    requires !p.lead && p.gap && p.before == []
    ensures p.Text() == [COLON, COLON] + Join(p.Behind(), COLON)
  {
    hide Join;
    NothingJoined();
  }

  lemma NothingJoined()
    ensures Join([], COLON) == []
  {
  }

  /** A colon alone behind. */
  lemma TrailIsLone(p: Parts)
    requires Sane(p) && p.trail
    ensures LoneColon(p.Text())
  {
    hide Fields, Join;
    var q := p.(trail := false);
    EndsWithPiece(q);
    JoinStep(p.after, 0, COLON);
    assert p.Text() == q.Text() + [COLON];
  }

  lemma StrictEnds(p: Parts)
    requires Strict(p)
    ensures !LoneColon(p.Text())
  {
    hide Fields, Join, IsGroup, Pieces;
    SaneParts(p);
    LeadIsLone(p);
    if p.after != [] {
      EndsWithPiece(p);
    } else {
      EndsWithGap(p);
      assert p.Text()[|p.Text()| - 2..][0] == COLON;
    }
  }

  lemma DotsOfGroup(f: Str)
    requires IsGroup(f) || f == []
    ensures DOT !in f && Quad(f) == None
  {
    if f == [] {
      OneField(f, DOT);
    } else {
      GroupFilled(f);
    }
  }

  lemma DotsOfQuad(f: Str)
    requires Quad(f).Some?
    ensures DOT in f
  {
    if DOT !in f {
      OneField(f, DOT);
    }
  }

  lemma StrictOctets(p: Parts)
    requires Strict(p)
    ensures !EmptyOctet(p.Text())
  {
    hide Fields, Join, Quad, IsGroup;
    SaneParts(p);
    if p.after != [] {
      EndsWithPiece(p);
      if IsGroup(p.after[|p.after| - 1]) {
        DotsOfGroup(p.after[|p.after| - 1]);
      }
    } else {
      EndsWithGap(p);
    }
  }

  /** A loose text without marks is a standard one. */
  lemma UnmarkedIsStrict(p: Parts)
    requires Loose(p) && !LoneColon(p.Text()) && !EmptyOctet(p.Text())
    ensures Strict(p)
  {
    hide Fields, Join, Quad, IsGroup;
    SaneParts(p);
    LeadIsLone(p);
    if p.trail {
      TrailIsLone(p);
    }
    if p.after != [] {
      EndsWithPiece(p);
      var f := p.after[|p.after| - 1];
      if !IsGroup(f) {
        TailIsQuad(f);
        DotsOfQuad(f);
      }
    }
  }

  lemma {:induction false} FirstOctet(f: Str)
    requires DOT in f
    ensures |Fields(f, DOT)| >= 2
    ensures var n := |Fields(f, DOT)[0]|; DotAt(f, n) && f[..n] == Fields(f, DOT)[0]
  {
    hide Fields;
    var t, c := f[..|f| - 1], f[|f| - 1];
    assert f == t + [c];
    FieldsStep(t, c, DOT);
    if DOT in t {
      FirstOctet(t);
      var n := |Fields(t, DOT)[0]|;
      assert f[..n] == t[..n] && Fields(f, DOT)[0] == Fields(t, DOT)[0];
    } else {
      OneField(t, DOT);
      assert f[..|t|] == t;
    }
  }

  /** Which dotted addresses the parser takes for one. */
  lemma TailIff(f: Str)
    requires IsDotted(f)
    ensures IsTail(f) <==> Quad(f).value != INADDR_NONE && |Fields(f, DOT)[0]| <= 4
  {
    hide Fields, QuadValue, DecValue;
    DotsOfQuad(f);
    FirstOctet(f);
    var o := Fields(f, DOT)[0];
    assert o in Fields(f, DOT) && o != [];
    assert Octets(Fields(f, DOT)) && IsOctet(o);
    assert AllHex(o);
    if d :| 1 <= d <= 4 && DotAt(f, d) && AllHex(f[..d]) {
      OneDot(f, d, |o|);
    }
  }

  lemma OneDot(f: Str, d: nat, e: nat)
    requires DotAt(f, d) && DotAt(f, e)
    ensures d == e
  {
    forall i | 0 <= i < d
      ensures f[i] != DOT
    {
      assert f[..d][i] == f[i];
    }
    forall i | 0 <= i < e
      ensures f[i] != DOT
    {
      assert f[..e][i] == f[i];
    }
  }

  /** A standard text is refused exactly when it is marked so. */
  lemma StrictIsLooseIff(p: Parts)
    requires Strict(p)
    ensures Loose(p) <==> !GapOfOne(p.Text()) && !UnreadTail(p.Text())
  {
    hide Loose, GapOfOne, UnreadTail;
    SaneParts(p);
    if p.after != [] {
      StrictEndsLoose(p);
    } else {
      StrictGapLoose(p);
    }
  }

  lemma StrictEndsLoose(p: Parts)
    requires Strict(p) && Sane(p) && p.after != []
    ensures Loose(p) <==> !UnreadTail(p.Text())
    ensures !GapOfOne(p.Text())
  {
    hide Fields, Join, Quad, IsGroup, IsDotted, IsTail;
    EndsWithPiece(p);
    LastLoose(p.after[|p.after| - 1]);
  }

  lemma StrictGapLoose(p: Parts)
    requires Strict(p) && Sane(p) && p.after == []
    ensures Loose(p) <==> !GapOfOne(p.Text())
    ensures !UnreadTail(p.Text())
  {
    hide Fields, Join, Quad, IsGroup, IsDotted, IsTail;
    LeadAndCore(p);
    CoreFields(p);
    EndsWithGap(p);
    DotsOfGroup([]);
    GroupWords(p.before);
    assert p.Text() == Core(p);
  }

  lemma LastLoose(f: Str)
    requires IsGroup(f) || IsDotted(f)
    ensures (IsGroup(f) || IsTail(f))
       <==> !(Quad(f).Some? && (Quad(f).value == INADDR_NONE || |Fields(f, DOT)[0]| > 4))
  {
    hide Fields, Quad;
    if IsGroup(f) {
      DotsOfGroup(f);
    } else {
      TailIff(f);
    }
  }

  // ----- When the parser follows the standard ----------------------------------------------------------

  /** The text is read as the standard wants it, or refused when it is no standard text. */
  ghost predicate Agrees(text: Str) {
    forall ws: seq<Word> :: StandardIs(text, ws) <==> Address(text) == Some(ws)
  }

  /** The parser takes exactly the loose texts. */
  lemma ReadIffLoose(text: Str)
    ensures Address(text).Some? <==> LooseText(text)
  {
    hide Loose;
    if Address(text).Some? {
      var p := ReadInParts(text);
    }
    if LooseText(text) {
      var p: Parts :| Loose(p) && p.Text() == text;
      PartsRead(p);
    }
  }

  lemma StrictStands(q: Parts)
    requires Strict(q)
    ensures q.Count() <= 8 && StandardText(q.Text()) && StandardIs(q.Text(), q.Words())
    ensures !LoneColon(q.Text()) && !EmptyOctet(q.Text())
    ensures Loose(q) <==> !GapOfOne(q.Text()) && !UnreadTail(q.Text())
    ensures Address(q.Text()) == if Loose(q) then Some(q.Words()) else None
  {
    StrictEnds(q);
    StrictOctets(q);
    StrictIsLooseIff(q);
    PartsRead(q);
  }

  /** An accepted text is read as the standard wants exactly when no colon stands alone at its ends and no number
      of a dotted end is missing. */
  lemma AcceptedAgreesIff(text: Str)
    requires Address(text).Some?
    ensures Agrees(text) <==> !LoneColon(text) && !EmptyOctet(text)
    ensures StandardText(text) ==> Agrees(text)
  {
    hide Loose, Strict, LoneColon, EmptyOctet, GapOfOne, UnreadTail, Address;
    var p := ReadInParts(text);
    if !LoneColon(text) && !EmptyOctet(text) {
      UnmarkedIsStrict(p);
      StrictStands(p);
    }
    forall q: Parts | Strict(q) && q.Text() == text
      ensures !LoneColon(text) && !EmptyOctet(text) && q.Count() <= 8 && Address(text) == Some(q.Words())
    {
      StrictStands(q);
    }
    assert Agrees(text) ==> StandardIs(text, Address(text).value);
  }

  /** A standard text is accepted exactly when it does not end with a "::" for one word and its dotted end,
      if it has one, is neither all ones nor starts with more than four digits. */
  lemma StandardAgreesIff(text: Str)
    requires StandardText(text)
    ensures Agrees(text) <==> Address(text).Some?
    ensures Address(text).Some? <==> !GapOfOne(text) && !UnreadTail(text)
  {
    hide Loose, Strict, GapOfOne, UnreadTail, Address;
    var q: Parts :| Strict(q) && q.Text() == text;
    StrictStands(q);
    if Address(text).Some? {
      AcceptedAgreesIff(text);
    }
  }

  /** The parser follows the standard exactly on these texts: all but loose ones with a colon alone or a number
      missing, which it takes, and standard ones with a "::" for the last word only or a dotted end that it does
      not read, which it refuses. */
  lemma AgreesIff(text: Str)
    ensures Agrees(text) <==>
      && !(LooseText(text) && (LoneColon(text) || EmptyOctet(text)))
      && !(StandardText(text) && (GapOfOne(text) || UnreadTail(text)))
  {
    hide Loose, Strict, LoneColon, EmptyOctet, GapOfOne, UnreadTail, Address, LooseText;
    ReadIffLoose(text);
    if Address(text).Some? {
      AcceptedAgreesIff(text);
    }
    if StandardText(text) {
      StandardAgreesIff(text);
    } else {
      assert forall ws: seq<Word> :: StandardIs(text, ws) ==> StandardText(text);
    }
  }

  // ----- The printer ---------------------------------------------------------------------------------------

  lemma {:induction false} HexesAre(ws: seq<Word>)
    ensures Groups(P.Hexes(ws)) && AllWords(P.Hexes(ws)) == ws
  {
    if ws != [] {
      var front, w := ws[..|ws| - 1], ws[|ws| - 1];
      assert ws == front + [w];
      HexesAre(front);
      P.HexesStep(front, w);
      P.HexLength(w);
      assert PieceWords(P.Hex(w)) == [w];
      AllWordsStep(P.Hexes(front), P.Hex(w));
    } else {
      assert P.Hexes(ws) == [];
    }
  }

  lemma DottedIs(v: nat)
    requires v < TWO32
    ensures IsDotted(Dotted(v)) && !IsGroup(Dotted(v)) && PieceWords(Dotted(v)) == [v / 65536, v % 65536]
  {
    hide Dec, Fields, Join, Quad;
    DottedRoundTrip(v);
    QuadFilled(Dotted(v));
    DottedFieldsAre(v);
    FieldsJoin(DottedFields(v), DOT);
  }

  lemma DottedFieldsAre(v: nat)
    ensures Clean(DottedFields(v), DOT) && [] !in DottedFields(v)
  {
    hide Dec;
    assert forall i | 0 <= i < 4 :: Digits(DottedFields(v)[i]);
  }

  /** The pieces that are printed behind "::". */
  ghost function PrintedAfter(p: seq<Byte>, r: P.Run): seq<Str>
    requires |p| == 16 && r.z + r.len <= 8
  {
    if r.z + r.len == 8 && !P.HasTail(p, Some(r)) then [] else P.After(p, r)
  }

  /** The pieces and zeros for the words from `z` on. */
  ghost predicate Completes(ws: seq<Word>, z: nat, fs: seq<Str>) {
    && |ws| == 8 && z <= 8 && Pieces(fs, true) && z + |AllWords(fs)| <= 7
    && ws[..z] + Zeros(8 - z - |AllWords(fs)|) + AllWords(fs) == ws
  }

  lemma PrintedAfterIs(p: seq<Byte>, r: P.Run)
    requires |p| == 16 && r.z + r.len <= 8 && r.len >= 2 && P.ZeroRun(WordsOf(p), r.z, r.len)
    ensures Completes(WordsOf(p), r.z, PrintedAfter(p, r))
  {
    hide P.Hexes, P.LastFour, Dotted, WordsOf, P.HasTail, Completes, P.ZeroRun;
    var ws, e := WordsOf(p), r.z + r.len;
    if P.HasTail(p, Some(r)) {
      TailRun(p, r);
      P.LastFourSmall(p);
      TailCompletes(ws, r.len, P.LastFour(p));
    } else {
      RestCompletes(ws, r);
    }
  }

  lemma RestCompletes(ws: seq<Word>, r: P.Run)
    requires |ws| == 8 && r.z + r.len <= 8 && r.len >= 2 && P.ZeroRun(ws, r.z, r.len)
    ensures Completes(ws, r.z, if r.z + r.len == 8 then [] else P.Hexes(ws[r.z + r.len..]))
  {
    hide P.Hexes, PieceWords, IsGroup, Pieces, Groups;
    P.RunIsZeros(ws, r);
    var e := r.z + r.len;
    HexesAre(ws[e..]);
    GroupsArePieces(P.Hexes(ws[e..]));
    if e == 8 {
      assert Pieces([], true) by { NoPieces(); }
    }
  }

  lemma NoPieces()
    ensures Pieces([], true)
  {
  }

  lemma TailCompletes(ws: seq<Word>, len: nat, v: nat)
    requires |ws| == 8 && 5 <= len <= 7 && P.ZeroRun(ws, 0, len)
    requires v < TWO32 && ws[6] == v / 65536 && ws[7] == v % 65536
    ensures Completes(ws, 0, P.Hexes(if len <= 6 then ws[len..6] else []) + [Dotted(v)])
  {
    hide P.Hexes, Dotted, PieceWords, AllWords, IsGroup, IsDotted, Groups;
    var b := if len <= 6 then ws[len..6] else [];
    var hs, last := P.Hexes(b), [ws[6], ws[7]];
    HexesAre(b);
    DottedIs(v);
    AllWordsStep(hs, Dotted(v));
    P.TailWordsAre(ws, len, b);
    AppendAssoc(Zeros(6 - |b|), b, last);
    assert (hs + [Dotted(v)])[..|hs|] == hs && ws[..0] + Zeros(6 - |b|) == Zeros(6 - |b|);
  }

  lemma TailRun(p: seq<Byte>, r: P.Run)
    requires |p| == 16 && P.HasTail(p, Some(r))
    ensures r.z == 0 && 5 <= r.len <= 7
  {
  }

  lemma GroupsArePieces(fs: seq<Str>)
    requires Groups(fs)
    ensures Pieces(fs, true)
  {
    hide IsGroup;
    if fs != [] {
      assert forall i | 0 <= i < |fs| - 1 :: fs[..|fs| - 1][i] == fs[i];
    }
  }

  lemma PlainParts(ws: seq<Word>) returns (q: Parts)
    requires |ws| == 8
    ensures Strict(q) && q.Words() == ws && Fielded(q) == P.Hexes(ws) && !q.gap
  {
    hide IsGroup, PieceWords, P.Hexes, Pieces, Groups;
    q := Parts(false, [], false, P.Hexes(ws), false);
    HexesAre(ws);
    GroupsArePieces(P.Hexes(ws));
    NoWords();
    assert Groups([]) by { NoGroups(); }
  }

  lemma NoGroups()
    ensures Groups([])
  {
  }

  lemma RunParts(p: seq<Byte>, r: P.Run) returns (q: Parts)
    requires |p| == 16 && r.z + r.len <= 8 && r.len >= 2 && P.ZeroRun(WordsOf(p), r.z, r.len)
    ensures Strict(q) && q.Words() == WordsOf(p) && Fielded(q) == P.PrintedFields(p, Some(r))
    ensures q.gap && |q.before| == r.z
  {
    hide IsGroup, PieceWords, P.Hexes, Pieces, Groups, P.ZeroRun, WordsOf, AllWords, P.HasTail;
    var ws := WordsOf(p);
    q := Parts(false, P.Hexes(ws[..r.z]), true, PrintedAfter(p, r), false);
    HexesAre(ws[..r.z]);
    PrintedAfterIs(p, r);
    assert Fielded(q) == q.before + [[]] + P.After(p, r);
    assert q.Rest() == AllWords(q.after);
  }

  /** Every address is printed in a text form of the standard for it, also those that are not read back. */
  lemma PrintedIsStandard(p: seq<Byte>, run: Option<P.Run>)
    requires |p| == 16 && P.Chosen(WordsOf(p), run)
    ensures StandardIs(P.Printed(p, run), WordsOf(p))
  {
    P.PrintedSplits(p, run);
    var q: Parts;
    if run == None {
      q := PlainParts(WordsOf(p));
    } else {
      q := RunParts(p, run.value);
    }
    PrintedBegins(p, run);
    assert Sane(q) by { SaneParts(q); }
    StrictLead(q);
    SameText(q, P.Printed(p, run));
    StrictStands(q);
  }

  lemma StrictLead(q: Parts)
    requires Strict(q)
    ensures !q.lead && (|q.before| == 0 <==> q.before == [])
  {
  }

  lemma PrintedBegins(p: seq<Byte>, run: Option<P.Run>)
    requires |p| == 16 && P.Chosen(WordsOf(p), run)
    ensures P.Printed(p, run) != [] && (P.Printed(p, run)[0] == COLON <==> run.Some? && run.value.z == 0)
  {
    hide Fields, Join, WordsOf, P.After, P.Hex;
    P.PrintedSplits(p, run);
    var fs := P.PrintedFields(p, run);
    if !(run.Some? && run.value.z == 0) {
      assert fs[0] == P.Hex(WordsOf(p)[0]);
      P.FirstOfJoin(fs, COLON);
      P.HexIsClean(WordsOf(p)[0]);
      assert fs[0][0] in fs[0] && [] + Join(fs, COLON) == Join(fs, COLON);
    }
  }

  lemma NoWords()
    ensures AllWords([]) == []
  {
  }

  // ----- Examples ------------------------------------------------------------------------------------------

  /** The numbers from 1 to `n`. */
  function Numbers(n: nat): (ws: seq<Word>)
    requires n <= 8
    ensures |ws| == n
  {
    if n == 0 then [] else Numbers(n - 1) + [n]
  }

  /** "1", "2", up to `n`. */
  function FirstDigits(n: nat): (fs: seq<Str>)
    requires n <= 8
    ensures |fs| == n
  {
    if n == 0 then [] else FirstDigits(n - 1) + [[48 + n]]
  }

  lemma OneDigit(n: nat)
    requires n <= 8
    ensures IsGroup([48 + n]) && PieceWords([48 + n]) == [n]
  {
    var f: Str := [48 + n];
    assert f[..0] == [];
    assert HexValue(f) == n;
  }

  lemma {:induction false} DigitsAre(n: nat)
    requires n <= 8
    ensures Groups(FirstDigits(n)) && AllWords(FirstDigits(n)) == Numbers(n)
  {
    hide IsGroup, PieceWords;
    if n > 0 {
      DigitsAre(n - 1);
      OneDigit(n);
      AllWordsStep(FirstDigits(n - 1), [48 + n]);
    }
  }

  /** "1:2:3:4:5:6:7::" is a standard text that is refused. */
  lemma SevenThenGap()
    ensures var text := Join(FirstDigits(7), 58) + [58, 58];
      StandardIs(text, Numbers(7) + [0]) && GapOfOne(text) && Address(text) == None
  {
    hide Fields, Join, IsGroup, Quad, AllWords, FirstDigits, Numbers, Address, UnreadTail, LoneColon, EmptyOctet;
    var p := Parts(false, FirstDigits(7), true, [], false);
    DigitsAre(7);
    NothingBehind(p);
    assert Strict(p);
    StrictStands(p);
    SaneParts(p);
    CoreFields(p);
    var text := p.Text();
    assert text[|text| - 2..] == [COLON, COLON];
  }

  lemma NothingBehind(p: Parts)
    requires p.gap && p.after == [] && !p.trail && !p.lead
    ensures p.Text() == Join(p.before, COLON) + [COLON, COLON]
    ensures AllWords([]) == [] && p.Rest() == []
    ensures |AllWords(p.before)| == 7 ==> p.Count() == 7 && p.Words() == AllWords(p.before) + [0]
  {
    hide PieceWords;
  }

  /** ":1:2:3:4:5:6:7:8" is taken, although it is no standard text. */
  lemma ColonInFront()
    ensures var text := [58] + Join(FirstDigits(8), 58); Address(text) == Some(Numbers(8)) && !StandardText(text)
  {
    hide Fields, Join, IsGroup, Quad, AllWords, FirstDigits, Numbers, Address, StandardText, LoneColon;
    var p := Parts(true, [], false, FirstDigits(8), false);
    DigitsAre(8);
    OnlyPieces(p);
    assert Loose(p);
    PartsRead(p);
    SaneParts(p);
    LeadIsLone(p);
    NotStandard(p.Text());
  }

  lemma OnlyPieces(p: Parts)
    requires p.lead && !p.gap && p.before == [] && !p.trail && |AllWords(p.after)| == 8
    ensures p.Text() == [COLON] + Join(p.after, COLON) && p.Count() == 8 && p.Words() == AllWords(p.after)
  {
    hide PieceWords;
  }

  lemma NotStandard(text: Str)
    requires LoneColon(text)
    ensures !StandardText(text)
  {
    hide Strict, LoneColon;
    forall q: Parts | Strict(q)
      ensures q.Text() != text
    {
      StrictEnds(q);
    }
  }

  /** "::1:" is taken for ::1:0. */
  lemma ColonBehind()
    ensures var text := [58, 58] + Join(FirstDigits(1), 58) + [58];
      Address(text) == Some(Zeros(6) + [1, 0]) && !StandardText(text)
  {
    var p := Parts(false, [], true, FirstDigits(1), true);
    DigitsAre(1);
    NothingJoined();
    JoinStep(FirstDigits(1), 0, COLON);
    assert Numbers(1) == [1] && AllWords([]) == [];
    assert p.Text() == [COLON, COLON] + Join(FirstDigits(1), COLON) + [COLON];
    assert Loose(p) && p.Words() == Zeros(6) + [1, 0];
    PartsRead(p);
    SaneParts(p);
    TrailIsLone(p);
    NotStandard(p.Text());
  }

  lemma QuadOfJoin(os: seq<Str>)
    requires |os| == 4 && Octets(os)
    ensures Fields(Join(os, DOT), DOT) == os && Quad(Join(os, DOT)) == Some(QuadValue(os))
  {
    hide Fields, Join, QuadValue, DecValue;
    assert Clean(os, DOT);
    FieldsJoin(os, DOT);
  }

  lemma SmallNumber(n: nat)
    requires n < 10
    ensures IsOctet([48 + n]) && DecValue([48 + n]) == n && IsOctet([]) && DecValue([]) == 0
  {
    var f: Str := [48 + n];
    assert f[..0] == [];
  }

  /** "::" before a dotted address. */
  lemma GapBefore(f: Str, hi: Word, lo: Word)
    requires Quad(f) == Some(hi * 65536 + lo)
    ensures var p := Parts(false, [], true, [f], false);
      && p.Text() == [COLON, COLON] + f && Sane(p) && p.Count() == 2 && p.Words() == Zeros(6) + [hi, lo]
      && (IsTail(f) ==> Loose(p)) && (IsDotted(f) ==> Strict(p)) && LastField(p.Text()) == f
  {
    hide Fields, Quad, IsGroup, IsDotted, IsTail;
    var p := Parts(false, [], true, [f], false);
    QuadFilled(f);
    NothingJoined();
    NoWords();
    AllWordsStep([], f);
    assert [] + [f] == [f] && [f][..0] == [];
    assert PieceWords(f) == [hi, lo];
    assert Sane(p);
    EndsWithPiece(p);
  }

  /** "::1..2.3" is taken for ::1.0.2.3. */
  lemma EmptyNumber()
    ensures var text := [COLON, COLON] + Join([[49], [], [50], [51]], DOT);
      Address(text) == Some(Zeros(6) + [256, 515]) && !StandardText(text) && EmptyOctet(text)
  {
    hide Fields, Quad, IsGroup, QuadValue, DecValue, Join, Address;
    var os: seq<Str> := [[49], [], [50], [51]];
    var f := Join(os, DOT);
    SmallNumber(1);
    SmallNumber(2);
    SmallNumber(3);
    FourOctets([49], [], [50], [51]);
    QuadOfJoin(os);
    DotsOfQuad(f);
    FirstOctet(f);
    assert DotAt(f, 1) && AllHex(f[..1]);
    assert IsTail(f);
    GapBefore(f, 256, 515);
    var p := Parts(false, [], true, [f], false);
    PartsRead(p);
    assert os[1] in os;
    forall q: Parts | Strict(q)
      ensures q.Text() != p.Text()
    {
      StrictOctets(q);
    }
  }

  /** "::00001.2.3.4" is a standard text that is refused. */
  lemma LongNumber()
    ensures var text := [COLON, COLON] + Join([[48, 48, 48, 48, 49], [50], [51], [52]], DOT);
      StandardIs(text, Zeros(6) + [258, 772]) && UnreadTail(text) && Address(text) == None
  {
    hide Fields, Quad, IsGroup, QuadValue, DecValue, Join, Address, GapOfOne, LoneColon, EmptyOctet;
    var os: seq<Str> := [[48, 48, 48, 48, 49], [50], [51], [52]];
    var f := Join(os, DOT);
    ZerosBefore();
    SmallNumber(2);
    SmallNumber(3);
    SmallNumber(4);
    FourOctets(os[0], [50], [51], [52]);
    QuadOfJoin(os);
    assert IsDotted(f);
    GapBefore(f, 258, 772);
    var p := Parts(false, [], true, [f], false);
    StrictStands(p);
    assert |os[0]| == 5;
  }

  lemma ZerosBefore()
    ensures IsOctet([48, 48, 48, 48, 49]) && DecValue([48, 48, 48, 48, 49]) == 1
  {
    SmallNumber(0);
    DecStep([48], 48);
    assert [48] + [48] == [48, 48];
    DecStep([48, 48], 48);
    assert [48, 48] + [48] == [48, 48, 48];
    DecStep([48, 48, 48], 48);
    assert [48, 48, 48] + [48] == [48, 48, 48, 48];
    DecStep([48, 48, 48, 48], 49);
    assert [48, 48, 48, 48] + [49] == [48, 48, 48, 48, 49];
  }
}
