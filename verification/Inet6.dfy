/** IPv6 text: the parser of ngx_inet.c and the addresses that its texts stand for. */
module Inet6 {
  import opened Bytes
  import opened Inet

  const COLON: Byte := 58

  type Word = x: int | 0 <= x < 65536

  // ----- What a text means ----------------------------------------------------------------------------

  predicate IsHex(c: Byte) {
    48 <= c <= 57 || 65 <= c <= 70 || 97 <= c <= 102
  }

  function HexDigit(c: Byte): (r: nat)
    requires IsHex(c)
    ensures r < 16
  {
    if c <= 57 then c - 48 else if c <= 70 then c - 55 else c - 87
  }

  /** "0" to "9" are 0 to 9, "A" to "F" and "a" to "f" are 10 to 15, and no other byte is a digit. */
  lemma HexLetters(c: Byte)
    ensures IsHex(c) <==>
      '0' as int <= c <= '9' as int || 'A' as int <= c <= 'F' as int || 'a' as int <= c <= 'f' as int
    ensures IsHex(c) && c <= '9' as int ==> HexDigit(c) == c - '0' as int
    ensures IsHex(c) && 'A' as int <= c <= 'F' as int ==> HexDigit(c) == 10 + c - 'A' as int
    ensures IsHex(c) && 'a' as int <= c ==> HexDigit(c) == 10 + c - 'a' as int
  {
  }

  ghost predicate AllHex(f: Str) {
    forall i | 0 <= i < |f| :: IsHex(f[i])
  }

  function HexValue(f: Str): nat
    requires AllHex(f)
  {
    if f == [] then 0 else HexValue(f[..|f| - 1]) * 16 + HexDigit(f[|f| - 1])
  }

  ghost predicate IsGroup(f: Str) {
    1 <= |f| <= 4 && AllHex(f)
  }

  lemma GroupValue(f: Str)
    requires AllHex(f) && |f| <= 4
    ensures HexValue(f) < 65536
  {
    if |f| >= 1 {
      ShortGroup(f[..|f| - 1]);
    }
  }

  lemma ShortGroup(f: Str)
    requires AllHex(f) && |f| <= 3
    ensures |f| == 0 ==> HexValue(f) == 0
    ensures |f| <= 1 ==> HexValue(f) < 16
    ensures |f| <= 2 ==> HexValue(f) < 256
    ensures HexValue(f) < 4096
  {
    if |f| >= 1 {
      ShortGroup(f[..|f| - 1]);
    }
  }

  lemma HexStep(f: Str, c: Byte)
    requires AllHex(f) && IsHex(c)
    ensures AllHex(f + [c]) && HexValue(f + [c]) == HexValue(f) * 16 + HexDigit(c)
  {
    assert (f + [c])[..|f|] == f;
  }

  /** The words read so far, and before which of them "::" stood. */
  datatype Partial = Partial(words: seq<Word>, gap: Option<nat>)

  /** The fields that are followed by a colon: groups, and at most one empty field for "::". */
  ghost function Leading(fs: seq<Str>): (r: Option<Partial>)
    ensures r.Some? ==> |r.value.words| <= |fs| && |r.value.words| <= 7
    ensures r.Some? && r.value.gap.Some? ==> r.value.gap.value <= |r.value.words|
  {
    if fs == [] then Some(Partial([], None))
    else
      match Leading(fs[..|fs| - 1])
      case None => None
      case Some(p) => OneMore(p, fs[|fs| - 1])
  }

  ghost function OneMore(p: Partial, f: Str): Option<Partial> {
    if f == [] then if p.gap == None then Some(p.(gap := Some(|p.words|))) else None
    else if IsGroup(f) && |p.words| < 7 then
      GroupValue(f);
      Some(p.(words := p.words + [HexValue(f)]))
    else None
  }

  /** Where a field has its first dot. */
  ghost predicate DotAt(f: Str, d: nat) {
    d < |f| && f[d] == DOT && DOT !in f[..d]
  }

  /** A dotted tail: it must look like a group up to its first dot. */
  ghost predicate IsTail(f: Str) {
    (exists d | 1 <= d <= 4 :: DotAt(f, d) && AllHex(f[..d])) && Quad(f).Some? && Quad(f).value != INADDR_NONE
  }

  ghost function TailWords(f: Str): seq<Word>
    requires IsTail(f)
  {
    QuadSmall(f);
    [Quad(f).value / 65536, Quad(f).value % 65536]
  }

  lemma QuadSmall(f: Str)
    ensures Quad(f).Some? ==> Quad(f).value < TWO32
  {
    if Quad(f).Some? {
      QuadBounds(Fields(f, DOT));
    }
  }

  /** The last field: a group, nothing after "::", or a dotted tail when a colon came before. */
  ghost function LastWords(f: Str, p: Partial, afterColon: bool): Option<seq<Word>> {
    if f == [] then if p.gap.Some? then Some([0]) else None
    else if IsGroup(f) then GroupValue(f); Some([HexValue(f)])
    else if IsTail(f) && afterColon && |p.words| <= 6 then Some(TailWords(f))
    else None
  }

  function Zeros(n: nat): (r: seq<Word>)
    ensures |r| == n
  {
    seq(n, i => 0)
  }

  /** Zeros stand for "::"; they must be at least one word. */
  ghost function Expand(words: seq<Word>, gap: Option<nat>): Option<seq<Word>>
    requires gap.Some? ==> gap.value <= |words|
  {
    if gap.Some? then
      if |words| < 8 then Some(words[..gap.value] + Zeros(8 - |words|) + words[gap.value..]) else None
    else if |words| == 8 then Some(words)
    else None
  }

  ghost function Meaning(fs: seq<Str>): (r: Option<seq<Word>>)
    requires fs != []
    ensures r.Some? ==> |r.value| == 8
  {
    match Leading(fs[..|fs| - 1])
    case None => None
    case Some(p) =>
      match LastWords(fs[|fs| - 1], p, |fs| > 1)
      case None => None
      case Some(t) => Expand(p.words + t, p.gap)
  }

  /** The text without one leading colon. */
  function Body(text: Str): Str {
    if text != [] && text[0] == COLON then text[1..] else text
  }

  /** The eight words that a text stands for. */
  ghost function Address(text: Str): (r: Option<seq<Word>>)
    ensures r.Some? ==> |r.value| == 8
  {
    if text == [] then None else Meaning(Fields(Body(text), COLON))
  }

  // ----- Words and bytes -------------------------------------------------------------------------------

  /** Network byte order. */
  function BytesOf(ws: seq<Word>): (r: seq<Byte>)
    ensures |r| == 2 * |ws|
  {
    seq(2 * |ws|, i requires 0 <= i < 2 * |ws| => if i % 2 == 0 then ws[i / 2] / 256 else ws[i / 2] % 256)
  }

  /** The high byte of each word comes first. */
  lemma NetworkOrder(ws: seq<Word>, i: nat)
    requires i < |ws|
    ensures var hi: int, lo: int := BytesOf(ws)[2 * i], BytesOf(ws)[2 * i + 1]; 256 * hi + lo == ws[i]
  {
  }

  function WordsOf(p: seq<Byte>): (r: seq<Word>)
    requires |p| % 2 == 0
    ensures |r| == |p| / 2
  {
    seq(|p| / 2, i requires 0 <= i < |p| / 2 => TwoBytes(p[2 * i], p[2 * i + 1]))
  }

  function TwoBytes(hi: int, lo: int): Word
    requires 0 <= hi < 256 && 0 <= lo < 256
  {
    hi * 256 + lo
  }

  lemma BytesWords(p: seq<Byte>)
    requires |p| % 2 == 0
    ensures BytesOf(WordsOf(p)) == p
  {
  }

  lemma BytesAppend(a: seq<Word>, b: seq<Word>)
    ensures BytesOf(a + b) == BytesOf(a) + BytesOf(b)
  {
    forall i | 0 <= i < 2 * |a + b|
      ensures BytesOf(a + b)[i] == (BytesOf(a) + BytesOf(b))[i]
    {
      if i >= 2 * |a| {
        assert (i - 2 * |a|) / 2 == i / 2 - |a| && (i - 2 * |a|) % 2 == i % 2;
      }
    }
  }

  lemma BytesZeros(n: nat)
    ensures BytesOf(Zeros(n)) == seq(2 * n, i => 0)
  {
  }

  lemma BytesOne(w: Word)
    ensures BytesOf([w]) == [w / 256, w % 256]
  {
  }

  lemma LowWord(v: nat)
    ensures v / 256 % 256 == v % 65536 / 256 && v % 256 == v % 65536 % 256
  {
    var q, r := v / 65536, v % 65536;
    var h, l := r / 256, r % 256;
    assert v == 256 * (256 * q + h) + l;
    assert v / 256 == 256 * q + h;
  }

  // ----- Texts that cannot be continued ---------------------------------------------------------------------

  lemma {:induction false} LeadingFails(fs: seq<Str>, gs: seq<Str>)
    requires Leading(fs) == None
    ensures Leading(fs + gs) == None
    decreases |gs|
  {
    if gs == [] {
      assert fs + gs == fs;
    } else {
      assert (fs + gs)[..|fs + gs| - 1] == fs + gs[..|gs| - 1];
      LeadingFails(fs, gs[..|gs| - 1]);
    }
  }

  lemma LeadingStep(fs: seq<Str>, f: Str)
    ensures Leading(fs + [f]) == match Leading(fs) case None => None case Some(p) => OneMore(p, f)
  {
    assert (fs + [f])[..|fs|] == fs;
  }

  /** Nothing that follows helps when the fields before a colon are wrong. */
  lemma WrongFields(s: Str, t: Str)
    requires var fs := Fields(s, COLON); Leading(fs) == None
    ensures Meaning(Fields(s + [COLON] + t, COLON)) == None
  {
    hide Fields, Leading, Expand, LastWords;
    var fs, gs := Fields(s, COLON), Fields(t, COLON);
    FieldsStep(s, COLON, COLON);
    FieldsAppend(s + [COLON], t, COLON);
    var all := Fields(s + [COLON] + t, COLON);
    EmptyMiddle(fs, gs);
    assert all == fs + gs;
    assert all[..|all| - 1] == fs + gs[..|gs| - 1];
    LeadingFails(fs, gs[..|gs| - 1]);
  }

  lemma EmptyMiddle(fs: seq<Str>, gs: seq<Str>)
    requires gs != []
    ensures var a := fs + [[]]; a[..|a| - 1] + [a[|a| - 1] + gs[0]] + gs[1..] == fs + gs
  {
    assert [] + gs[0] == gs[0];
  }

  /** Neither does it help when the field that has begun is wrong: no group, no dotted tail. */
  lemma WrongField(s: Str, c: Byte, t: Str)
    requires c != COLON
    requires var fs := Fields(s, COLON); Hopeless(fs[..|fs| - 1], fs[|fs| - 1] + [c])
    ensures Meaning(Fields(s + [c] + t, COLON)) == None
  {
    hide Fields, Leading, Expand, LastWords, Hopeless;
    var fs, gs := Fields(s, COLON), Fields(t, COLON);
    FieldsStep(s, c, COLON);
    FieldsAppend(s + [c], t, COLON);
    var front, bad := fs[..|fs| - 1], fs[|fs| - 1] + [c];
    var all := Fields(s + [c] + t, COLON);
    assert all == front + [bad + gs[0]] + gs[1..] by { FrontOfSnoc(front, bad); }
    HopelessField(front, bad, gs[0], gs[1..]);
  }

  lemma FrontOfSnoc(front: seq<Str>, bad: Str)
    ensures var a := front + [bad]; a[..|a| - 1] == front && a[|a| - 1] == bad
  {
  }

  /** A begun field that can become neither a group nor an acceptable dotted tail. */
  ghost predicate Hopeless(front: seq<Str>, bad: Str) {
    && bad != []
    && (forall more :: !IsGroup(bad + more))
    && (forall more :: IsTail(bad + more) ==>
          front == [] || Leading(front) == None || |Leading(front).value.words| > 6)
  }

  lemma HopelessField(front: seq<Str>, bad: Str, more: Str, rest: seq<Str>)
    requires Hopeless(front, bad)
    ensures Meaning(front + [bad + more] + rest) == None
  {
    hide IsGroup, IsTail, Leading;
    var all, f := front + [bad + more] + rest, bad + more;
    assert f != [] && !IsGroup(f);
    if rest == [] {
      assert all[..|all| - 1] == front && all[|all| - 1] == f;
    } else {
      NoGroup(front, f, rest);
    }
  }

  /** Before a colon only groups and "::" are accepted. */
  lemma NoGroup(front: seq<Str>, f: Str, rest: seq<Str>)
    requires f != [] && !IsGroup(f) && rest != []
    ensures Meaning(front + [f] + rest) == None
  {
    hide IsGroup, Leading;
    var all, tail := front + [f] + rest, rest[..|rest| - 1];
    LeadingStep(front, f);
    assert all[..|all| - 1] == (front + [f]) + tail;
    LeadingFails(front + [f], tail);
  }

  /** What makes a begun field hopeless, in the parser's terms. */
  lemma BadChar(front: seq<Str>, cur: Str, c: Byte)
    requires AllHex(cur) && |cur| <= 4
    requires if c == DOT then cur == [] else !IsHex(c) || |cur| == 4
    ensures Hopeless(front, cur + [c])
  {
    hide Quad, Leading;
    forall more
      ensures !IsGroup(cur + [c] + more)
    {
      assert (cur + [c] + more)[|cur|] == c;
    }
    forall more
      ensures !IsTail(cur + [c] + more)
    {
      var f := cur + [c] + more;
      assert f[|cur|] == c && forall i | 0 <= i < |cur| :: f[i] == cur[i];
      forall d | 1 <= d <= 4 && DotAt(f, d)
        ensures !AllHex(f[..d])
      {
        if |cur| < d {
          assert f[..d][|cur|] == c;
        }
      }
    }
  }

  lemma BadTail(front: seq<Str>, cur: Str)
    requires AllHex(cur)
    requires front == [] || Leading(front) == None || |Leading(front).value.words| > 6
    ensures Hopeless(front, cur + [DOT])
  {
    hide IsTail, Leading;
    forall more
      ensures !IsGroup(cur + [DOT] + more)
    {
      assert (cur + [DOT] + more)[|cur|] == DOT;
    }
  }

  // ----- The parser ---------------------------------------------------------------------------------------

  /** The parser's variables after the text `done`; `digit` is where the current field starts, once a colon
      was read. */
  ghost predicate Reading(done: Str, p: Partial, digit: Option<nat>, nibbles: int, word: int) {
    var fs := Fields(done, COLON);
    var front, cur := fs[..|fs| - 1], fs[|fs| - 1];
    && Leading(front) == Some(p)
    && AllHex(cur) && |cur| == nibbles <= 4 && word == HexValue(cur)
    && (digit == None <==> front == [])
    && (digit.Some? ==> digit.value <= |done| && Fields(done[..digit.value], COLON) == front + [[]])
  }

  lemma ReadingStarts()
    ensures Reading([], Partial([], None), None, 0, 0)
  {
  }

  lemma ReadingWord(done: Str, p: Partial, digit: Option<nat>, nibbles: int, word: int)
    requires Reading(done, p, digit, nibbles, word)
    ensures 0 <= word < 65536 && |p.words| <= 7 && nibbles >= 0 && (nibbles == 0 ==> word == 0)
  {
    hide Leading, HexValue;
    EmptyHex();
    var fs := Fields(done, COLON);
    GroupValue(fs[|fs| - 1]);
  }

  /** A colon ends a group or completes "::"; otherwise no text with this beginning is an address. */
  lemma ColonStep(done: Str, p: Partial, digit: Option<nat>, nibbles: int, word: int)
    requires Reading(done, p, digit, nibbles, word)
    ensures 0 <= word < 65536
    ensures nibbles > 0 && |p.words| < 7 ==>
      Reading(done + [COLON], p.(words := p.words + [word]), Some(|done| + 1), 0, 0)
    ensures nibbles == 0 && p.gap == None ==>
      Reading(done + [COLON], p.(gap := Some(|p.words|)), Some(|done| + 1), 0, 0)
    ensures (if nibbles > 0 then |p.words| == 7 else p.gap.Some?) ==> Leading(Fields(done, COLON)) == None
  {
    hide Leading, HexValue, Fields, Reading;
    var fs := Fields(done, COLON);
    var cur := fs[|fs| - 1];
    ReadingWord(done, p, digit, nibbles, word);
    ReadingParts(done, p, digit, nibbles, word);
    AfterColon(done, p);
  }

  lemma ReadingParts(done: Str, p: Partial, digit: Option<nat>, nibbles: int, word: int)
    requires Reading(done, p, digit, nibbles, word)
    ensures var fs := Fields(done, COLON);
      && Leading(fs[..|fs| - 1]) == Some(p) && AllHex(fs[|fs| - 1])
      && |fs[|fs| - 1]| == nibbles <= 4 && word == HexValue(fs[|fs| - 1])
  {
  }

  lemma AfterColon(done: Str, p: Partial)
    requires var fs := Fields(done, COLON); Leading(fs[..|fs| - 1]) == Some(p)
    ensures var fs := Fields(done, COLON);
      && Leading(fs) == OneMore(p, fs[|fs| - 1])
      && (Leading(fs).Some? ==> Reading(done + [COLON], Leading(fs).value, Some(|done| + 1), 0, 0))
  {
    hide Leading, HexValue, Fields, OneMore;
    var fs, gs := Fields(done, COLON), Fields(done + [COLON], COLON);
    FieldsStep(done, COLON, COLON);
    LeadingStep(fs[..|fs| - 1], fs[|fs| - 1]);
    assert fs[..|fs| - 1] + [fs[|fs| - 1]] == fs;
    assert gs[..|gs| - 1] == fs && gs[|gs| - 1] == [];
    assert (done + [COLON])[..|done| + 1] == done + [COLON];
    EmptyHex();
  }

  lemma EmptyHex()
    ensures AllHex([]) && HexValue([]) == 0
  {
  }

  lemma HexCharStep(done: Str, p: Partial, digit: Option<nat>, nibbles: int, word: int, c: Byte)
    requires Reading(done, p, digit, nibbles, word) && IsHex(c) && nibbles < 4
    ensures Reading(done + [c], p, digit, nibbles + 1, word * 16 + HexDigit(c))
  {
    hide Leading, HexValue, Fields, AllHex;
    var fs := Fields(done, COLON);
    assert c != COLON;
    FieldsStep(done, c, COLON);
    FrontOfSnoc(fs[..|fs| - 1], fs[|fs| - 1] + [c]);
    HexStep(fs[|fs| - 1], c);
    if digit.Some? {
      assert (done + [c])[..digit.value] == done[..digit.value];
    }
  }

  /** A character that belongs to no group, a fifth digit, or a dot without digits. */
  lemma BadStep(done: Str, p: Partial, digit: Option<nat>, nibbles: int, word: int, c: Byte, rest: Str)
    requires Reading(done, p, digit, nibbles, word) && c != COLON
    requires if c == DOT then nibbles == 0 else !IsHex(c) || nibbles == 4
    ensures Meaning(Fields(done + [c] + rest, COLON)) == None
  {
    hide Leading, HexValue, Fields, Meaning, Hopeless;
    var fs := Fields(done, COLON);
    BadChar(fs[..|fs| - 1], fs[|fs| - 1], c);
    WrongField(done, c, rest);
  }

  /** A dot before the first colon, or with fewer than two words left. */
  lemma NoRoomForTail(done: Str, p: Partial, digit: Option<nat>, nibbles: int, word: int, rest: Str)
    requires Reading(done, p, digit, nibbles, word)
    requires digit == None || |p.words| == 7
    ensures Meaning(Fields(done + [DOT] + rest, COLON)) == None
  {
    hide Leading, HexValue, Fields, Meaning, Hopeless;
    var fs := Fields(done, COLON);
    BadTail(fs[..|fs| - 1], fs[|fs| - 1]);
    WrongField(done, DOT, rest);
  }

  /** The current field is the text since `digit`. */
  lemma CurrentField(done: Str, p: Partial, d: nat, nibbles: int, word: int)
    requires Reading(done, p, Some(d), nibbles, word)
    ensures Fields(done, COLON)[|Fields(done, COLON)| - 1] == done[d..]
    ensures COLON !in done[d..]
  {
    hide Leading, HexValue, Fields, AllHex, Join;
    var fs, gs := Fields(done, COLON), Fields(done[d..], COLON);
    var front := fs[..|fs| - 1];
    assert done == done[..d] + done[d..];
    FieldsAppend(done[..d], done[d..], COLON);
    EmptyMiddle(front, gs);
    assert fs == front + gs && |gs| == 1;
    JoinFields(done[d..], COLON);
    JoinOne(gs);
  }

  lemma JoinOne(gs: seq<Str>)
    requires |gs| == 1
    ensures Join(gs, COLON) == gs[0]
  {
  }

  lemma OctetChars(fs: seq<Str>, c: Byte)
    requires Octets(fs) && c in Join(fs, DOT)
    ensures IsDigit(c) || c == DOT
  {
    if |fs| > 1 && c in Join(fs[..|fs| - 1], DOT) {
      OctetChars(fs[..|fs| - 1], c);
    }
  }

  lemma QuadNoColon(s: Str)
    requires COLON in s
    ensures Quad(s) == None
  {
    hide QuadValue;
    JoinFields(s, DOT);
    if Octets(Fields(s, DOT)) {
      OctetChars(Fields(s, DOT), COLON);
    }
  }

  /** What `body` means when its last part, from `d`, begins like a group and goes on with a dot. */
  lemma DottedTail(body: Str, front: seq<Str>, p: Partial, d: nat, cur: Str, rest: Str)
    requires d <= |body| && front != [] && Leading(front) == Some(p) && |p.words| <= 6
    requires Fields(body[..d], COLON) == front + [[]]
    requires body[d..] == cur + [DOT] + rest && 1 <= |cur| <= 4 && AllHex(cur)
    ensures var q := Quad(body[d..]);
      Meaning(Fields(body, COLON))
      == if q.Some? && q.value != INADDR_NONE then QuadSmall(body[d..]);
           Expand(p.words + [q.value / 65536, q.value % 65536], p.gap)
         else None
  {
    hide Leading, HexValue, Fields, Quad, Expand, Join;
    var tail := body[d..];
    var gs := Fields(tail, COLON);
    assert body == body[..d] + tail;
    FieldsAppend(body[..d], tail, COLON);
    EmptyMiddle(front, gs);
    assert Fields(body, COLON) == front + gs;
    assert tail[|cur|] == DOT;
    if COLON in tail {
      QuadNoColon(tail);
      JoinFields(tail, COLON);
      if |gs| == 1 {
        JoinOne(gs);
      }
      FirstField(cur, rest);
      assert front + gs == front + [gs[0]] + gs[1..];
      NoGroup(front, gs[0], gs[1..]);
    } else {
      OneField(tail, COLON);
      LastTail(front, p, tail, cur);
    }
  }

  /** Up to the first colon there is a dot, so that field is no group. */
  lemma FirstField(cur: Str, rest: Str)
    requires AllHex(cur)
    ensures var g := Fields(cur + [DOT] + rest, COLON)[0]; g != [] && !IsGroup(g)
  {
    hide Fields;
    var s := cur + [DOT];
    OneField(s, COLON);
    FieldsAppend(s, rest, COLON);
    var more := Fields(rest, COLON)[0];
    assert Fields(s + rest, COLON)[0] == s + more;
    assert (s + more)[|cur|] == DOT;
  }

  lemma LastTail(front: seq<Str>, p: Partial, tail: Str, cur: Str)
    requires front != [] && Leading(front) == Some(p) && |p.words| <= 6
    requires 1 <= |cur| <= 4 && AllHex(cur) && |cur| < |tail| && cur == tail[..|cur|] && tail[|cur|] == DOT
    ensures var q := Quad(tail);
      Meaning(front + [tail])
      == if q.Some? && q.value != INADDR_NONE then QuadSmall(tail);
           Expand(p.words + [q.value / 65536, q.value % 65536], p.gap)
         else None
  {
    hide Leading, HexValue, Fields, Quad, Expand;
    FrontOfSnoc(front, tail);
    assert DOT !in cur;
    assert DotAt(tail, |cur|);
    assert !IsGroup(tail);
  }

  /** The text ends in a group or after "::". */
  lemma TextEnds(body: Str, p: Partial, digit: Option<nat>, nibbles: int, word: int)
    requires Reading(body, p, digit, nibbles, word)
    ensures 0 <= word < 65536
    ensures Meaning(Fields(body, COLON))
         == if nibbles == 0 && p.gap == None then None else Expand(p.words + [word], p.gap)
  {
    hide Leading, HexValue, Fields, Expand;
    ReadingWord(body, p, digit, nibbles, word);
    EmptyHex();
  }

  /** Stores a 16-bit word in network order. */
  method PutWord(addr: array<Byte>, a: nat, word: nat)
    requires a + 2 <= addr.Length
    modifies addr
    ensures addr[..a + 2] == old(addr[..a]) + BytesOf([word % 65536])
  {
    hide BytesOf;
    BytesOne(word % 65536);
    LowWord(word);
    Put2(addr, a, word / 256 % 256, word % 256);
  }

  method Put2(addr: array<Byte>, a: nat, hi: Byte, lo: Byte)
    requires a + 2 <= addr.Length
    modifies addr
    ensures addr[..a + 2] == old(addr[..a]) + [hi, lo]
  {
    addr[a] := hi;
    addr[a + 1] := lo;
  }

  lemma NoBytes()
    ensures BytesOf([]) == []
  {
  }

  /** Stores the word behind the words `ws`. */
  method StoreWord(addr: array<Byte>, a: nat, word: nat, ghost ws: seq<Word>)
    requires a + 2 <= addr.Length && addr[..a] == BytesOf(ws)
    modifies addr
    ensures addr[..a + 2] == BytesOf(ws + [word % 65536])
  {
    hide BytesOf;
    PutWord(addr, a, word);
    BytesAppend(ws, [word % 65536]);
  }

  function Doubled(gap: Option<nat>): Option<nat> {
    match gap case None => None case Some(g) => Some(2 * g)
  }

  /** What is known of a loop state: the words stored so far. */
  ghost predicate Holds(addr: seq<Byte>, a: nat, n: int, zero: Option<nat>, p: Partial) {
    && |addr| == 16 && a == 2 * |p.words| <= 14 && n == 8 - |p.words|
    && addr[..a] == BytesOf(p.words)
    && zero == Doubled(p.gap) && (p.gap.Some? ==> p.gap.value <= |p.words|)
  }

  /** A dotted end of the text: its first word is stored. */
  method ReadTail(tail: Str, addr: array<Byte>, a: nat, n: int, zero: Option<nat>, ghost p: Partial)
    returns (ok: bool, v: int, ghost q: Partial)
    requires addr.Length == 16 && Holds(addr[..], a, n, zero, p) && n >= 2
    modifies addr
    ensures ok <==> Quad(tail).Some? && Quad(tail).value != INADDR_NONE
    ensures ok ==>
      && v == Quad(tail).value < TWO32 && Holds(addr[..], a + 2, n - 1, zero, q)
      && q.gap == p.gap && q.words + [v % 65536] == p.words + [v / 65536, v % 65536]
  {
    hide Quad, BytesOf;
    q := p;
    v := InetAddr(tail);
    if v == INADDR_NONE {
      return false, v, q;
    }
    StoreWord(addr, a, v / 65536, p.words);
    q := p.(words := p.words + [v / 65536]);
    assert p.words + [v / 65536, v % 65536] == p.words + [v / 65536] + [v % 65536];
    return true, v, q;
  }

  /** The loop over the text: everything but the last word is stored. A 16-byte `addr` is never overrun. */
  method ReadGroups(body: Str, addr: array<Byte>)
    returns (ok: bool, a: nat, n: int, word: int, zero: Option<nat>, ghost p: Partial)
    requires addr.Length == 16
    modifies addr
    ensures !ok ==> Meaning(Fields(body, COLON)) == None
    ensures ok ==>
      && 0 <= word && Holds(addr[..], a, n, zero, p)
      && Meaning(Fields(body, COLON)) == Expand(p.words + [word % 65536], p.gap)
  {
    hide Meaning, Fields, Reading, Expand, Quad, Leading, BytesOf;
    var i, nibbles, digit: Option<nat> := 0, 0, None;
    a, n, word, zero, p := 0, 8, 0, None, Partial([], None);
    assert body[..0] == [] && addr[..0] == BytesOf([]) by { NoBytes(); }
    ReadingStarts();
    while i < |body|
      invariant i <= |body| && Reading(body[..i], p, digit, nibbles, word)
      invariant Holds(addr[..], a, n, zero, p)
      decreases |body| - i
    {
      var c := body[i];
      ghost var done, rest := body[..i], body[i + 1..];
      SliceStep(body, 0, i);
      assert body == done + [c] + rest && body[..i + 1] == done + [c];
      i := i + 1;
      ReadingWord(done, p, digit, nibbles, word);
      if c == COLON {
        ColonStep(done, p, digit, nibbles, word);
        if nibbles > 0 {
          digit := Some(i);
          StoreWord(addr, a, word, p.words);
          a := a + 2;
          n := n - 1;
          if n > 0 {
            p := p.(words := p.words + [word]);
            nibbles, word := 0, 0;
            continue;
          }
        } else if zero == None {
          digit, zero := Some(i), Some(a);
          p := p.(gap := Some(|p.words|));
          continue;
        }
        WrongFields(done, rest);
        return false, a, n, word, zero, p;
      }
      if c == DOT && nibbles > 0 {
        if n < 2 || digit == None {
          NoRoomForTail(done, p, digit, nibbles, word, rest);
          return false, a, n, word, zero, p;
        }
        TailStarts(body, done, rest, p, digit.value, nibbles, word);
        ok, word, p := ReadTail(body[digit.value..], addr, a, n, zero, p);
        if ok {
          a := a + 2;
          n := n - 1;
        }
        return;
      }
      nibbles := nibbles + 1;
      if nibbles > 4 {
        BadStep(done, p, digit, nibbles - 1, word, c, rest);
        return false, a, n, word, zero, p;
      }
      if 48 <= c <= 57 {
        HexCharStep(done, p, digit, nibbles - 1, word, c);
        word := word * 16 + (c - 48);
        continue;
      }
      var l := if c / 32 % 2 == 0 then c + 32 else c;
      if 97 <= l <= 102 {
        HexCharStep(done, p, digit, nibbles - 1, word, c);
        word := word * 16 + (l - 97) + 10;
        continue;
      }
      BadStep(done, p, digit, nibbles - 1, word, c, rest);
      return false, a, n, word, zero, p;
    }
    assert body[..i] == body;
    TextEnds(body, p, digit, nibbles, word);
    ok := !(nibbles == 0 && zero == None);
  }

  /** `DottedTail` in the parser's terms. */
  lemma TailStarts(body: Str, done: Str, rest: Str, p: Partial, d: nat, nibbles: int, word: int)
    requires Reading(done, p, Some(d), nibbles, word) && nibbles > 0 && |p.words| <= 6
    requires body == done + [DOT] + rest
    ensures d <= |body|
    ensures var q := Quad(body[d..]);
      Meaning(Fields(body, COLON))
      == if q.Some? && q.value != INADDR_NONE then QuadSmall(body[d..]);
           Expand(p.words + [q.value / 65536, q.value % 65536], p.gap)
         else None
  {
    hide Leading, HexValue, Fields, Quad, Expand, Meaning, AllHex;
    var fs := Fields(done, COLON);
    CurrentField(done, p, d, nibbles, word);
    SlicesAt(done, d, rest);
    DottedTail(body, fs[..|fs| - 1], p, d, fs[|fs| - 1], rest);
  }

  lemma SlicesAt(done: Str, d: nat, rest: Str)
    requires d <= |done|
    ensures var body := done + [DOT] + rest; body[..d] == done[..d] && body[d..] == done[d..] + [DOT] + rest
  {
  }

  /** The bytes from `zero` to `a` move to the end of the address, last byte first. */
  method ShiftUp(addr: array<Byte>, zero: nat, a: nat, n: nat)
    requires addr.Length == 16 && zero <= a && a + n == 16
    modifies addr
    ensures addr[..zero] == old(addr[..zero]) && addr[zero + n..] == old(addr[zero..a])
  {
    ghost var was := addr[..];
    var s, d := a - 1, a - 1 + n;
    while s >= zero
      invariant zero - 1 <= s < a && d == s + n
      invariant forall j | 0 <= j <= s :: addr[j] == was[j]
      invariant forall j | d < j < 16 :: addr[j] == was[j - n]
    {
      addr[d] := addr[s];
      d := d - 1;
      s := s - 1;
    }
  }

  method Clear(addr: array<Byte>, from: nat, to: nat)
    requires from <= to <= addr.Length
    modifies addr
    ensures addr[..] == old(addr[..from]) + seq(to - from, i => 0) + old(addr[to..])
  {
    for j := from to to
      invariant forall k | 0 <= k < from || to <= k < addr.Length :: addr[k] == old(addr[k])
      invariant forall k | from <= k < j :: addr[k] == 0
    {
      addr[j] := 0;
    }
  }

  /** The shift behind "::": the bytes from `zero` to `a` move to the end of the address, and the gap is
      cleared. */
  method InsertZeros(addr: array<Byte>, zero: nat, a: nat, n: nat)
    requires addr.Length == 16 && zero <= a && a + n == 16
    modifies addr
    ensures addr[..] == old(addr[..zero]) + seq(n, i => 0) + old(addr[zero..a])
  {
    ShiftUp(addr, zero, a, n);
    Clear(addr, zero, zero + n);
  }

  lemma Expanded(ws: seq<Word>, g: nat)
    requires g <= |ws| < 8
    ensures var b, n := BytesOf(ws), 16 - 2 * |ws|;
      b[..2 * g] + seq(n, i => 0) + b[2 * g..] == BytesOf(ws[..g] + Zeros(8 - |ws|) + ws[g..])
  {
    hide BytesOf, Zeros;
    BytesAppend(ws[..g], ws[g..]);
    assert ws == ws[..g] + ws[g..];
    AppendSlices(BytesOf(ws[..g]), BytesOf(ws[g..]), 0);
    BytesAppend(ws[..g] + Zeros(8 - |ws|), ws[g..]);
    BytesAppend(ws[..g], Zeros(8 - |ws|));
    BytesZeros(8 - |ws|);
  }

  /** `ngx_inet6_addr`: accepts exactly the texts that stand for an address, and then all sixteen bytes are
      those of the address: the words before "::", zeros, the words after it. */
  method Inet6Addr(text: Str, addr: array<Byte>) returns (ok: bool)
    requires addr.Length == 16
    modifies addr
    ensures ok <==> Address(text).Some?
    ensures ok ==> addr[..] == BytesOf(Address(text).value)
  {
    hide Meaning, Fields, BytesOf;
    if |text| == 0 {
      return false;
    }
    var p := if text[0] == COLON then 1 else 0;
    assert text[p..] == Body(text);
    ghost var read: Partial;
    var a, n, word, zero;
    ok, a, n, word, zero, read := ReadGroups(text[p..], addr);
    if !ok {
      return;
    }
    ghost var ws := read.words + [word % 65536];
    StoreWord(addr, a, word, read.words);
    a := a + 2;
    n := n - 1;
    assert addr[..a] == BytesOf(ws) && n == 8 - |ws|;
    if n != 0 {
      if zero.Some? {
        n := n * 2;
        ghost var all, g := addr[..], read.gap.value;
        assert all[..a] == addr[..a] == BytesOf(ws);
        InsertZeros(addr, zero.value, a, n);
        SameParts(all, BytesOf(ws), zero.value, a);
        Expanded(ws, g);
        return true;
      }
    } else if zero == None {
      assert addr[..] == addr[..a];
      return true;
    }
    return false;
  }

  lemma SameParts(all: seq<Byte>, b: seq<Byte>, z: nat, a: nat)
    requires z <= a <= |all| && all[..a] == b
    ensures all[..z] == b[..z] && all[z..a] == b[z..]
  {
  }
}
