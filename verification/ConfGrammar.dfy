/** The language of the configuration tokenizer: blanks, comments and words in three styles, the byte that ends a
    call, and what the call then returns. */
module ConfGrammar {
  import opened Bytes
  import opened ConfScan
  import opened ConfText

  /** A byte that stands for itself, a backslash with the byte it quotes, or '$' with the '{' that follow it. */
  datatype Unit = Plain(c: Byte) | Pair(c: Byte) | Dollar(braces: nat)

  datatype Style = Bare | Single | Double

  datatype Item = Blank(c: Byte) | Comment(text: Str) | Token(style: Style, units: seq<Unit>)

  /** What ends a call: a byte, or the end of the file: behind an item, in a comment, in a word in quotes (behind a
      backslash if `lone`), or behind a backslash of a bare word. */
  datatype End =
    | Mark(c: Byte)
    | Eof
    | InComment(text: Str)
    | InQuotes(style: Style, units: seq<Unit>, lone: bool)
    | Lone

  /** Where an item stands: between tokens, right behind a bare word, or right behind a closing quote. */
  datatype Place = Gap | Behind(units: seq<Unit>) | Closed

  // ----- How it is spelled ---------------------------------------------------------------------------------

  function Braces(n: nat): Str {
    if n == 0 then [] else [123] + Braces(n - 1)
  }

  function UnitText(u: Unit): (s: Str)
    ensures s != []
  {
    match u
    case Plain(c) => [c]
    case Pair(c) => [92, c]
    case Dollar(n) => [36] + Braces(n)
  }

  function Spelled(us: seq<Unit>): Str {
    if us == [] then [] else UnitText(us[0]) + Spelled(us[1..])
  }

  function ItemText(i: Item): Str {
    match i
    case Blank(c) => [c]
    case Comment(t) => [35] + t + [10]
    case Token(style, us) =>
      if style == Bare then Spelled(us)
      else if style == Single then [39] + Spelled(us) + [39]
      else [34] + Spelled(us) + [34]
  }

  function Text(items: seq<Item>): Str {
    if items == [] then [] else ItemText(items[0]) + Text(items[1..])
  }

  /** The bytes that a word of this style may have as they are. */
  predicate Inside(style: Style, u: Unit) {
    u.Plain? ==>
      && u.c != 92 && u.c != 36
      && (style == Single ==> u.c != 39) && (style == Double ==> u.c != 34)
      && (style == Bare ==> u.c != 9 && u.c != 10 && u.c != 13 && u.c != 32 && u.c != 59 && u.c != 123)
  }

  /** A bare word does not begin like a quoted one, a comment or a closing brace. */
  predicate First(u: Unit) {
    u.Plain? ==> u.c != 34 && u.c != 39 && u.c != 35 && u.c != 125
  }

  predicate Legal(place: Place, i: Item) {
    match i
    case Blank(c) => c == 9 || c == 10 || c == 13 || c == 32
    case Comment(t) => place == Gap && 10 !in t
    case Token(style, us) =>
      && (forall u | u in us :: Inside(style, u))
      && (style == Bare ==> us != [] && First(us[0]))
      && (place == Gap || (place == Closed && style == Bare && us[0] == Plain(41)))
  }

  function Next(i: Item): Place {
    match i
    case Blank(_) => Gap
    case Comment(_) => Gap
    case Token(style, us) => if style == Bare then Behind(us) else Closed
  }

  predicate AllLegal(place: Place, items: seq<Item>)
    decreases |items|
  {
    items == [] || (Legal(place, items[0]) && AllLegal(Next(items[0]), items[1..]))
  }

  /** Where the last item leaves the text. */
  function Last(place: Place, items: seq<Item>): Place {
    if items == [] then place else Next(items[|items| - 1])
  }

  /** A call ends at ';', at '{' unless a '$' is in front of it, at '}' between tokens, behind a closing quote at
      anything but a blank or ')', and at the end of the file. */
  predicate Ends(place: Place, e: End) {
    match e
    case Mark(c) =>
      if place.Gap? then c == 59 || c == 123 || c == 125
      else if place.Behind? then
        c == 59 || (c == 123 && !(place.units != [] && place.units[|place.units| - 1].Dollar?))
      else c != 9 && c != 10 && c != 13 && c != 32 && c != 41
    case Eof => true
    case InComment(t) => place == Gap && 10 !in t
    case InQuotes(style, us, _) => place == Gap && style != Bare && forall u | u in us :: Inside(style, u)
    case Lone => place != Closed
  }

  function EndText(e: End): Str {
    match e
    case Mark(c) => [c]
    case Eof => []
    case InComment(t) => [35] + t
    case InQuotes(style, us, lone) =>
      [if style == Single then 39 else 34] + Spelled(us) + (if lone then [92] else [])
    case Lone => [92]
  }

  /** From `pos` on the file has this text, and then what ends the call. */
  ghost predicate Spells(f: Str, pos: nat, text: Str, e: End) {
    && pos + |text| + |EndText(e)| <= |f| && f[pos..pos + |text| + |EndText(e)|] == text + EndText(e)
    && (!e.Mark? ==> pos + |text| + |EndText(e)| == |f|)
  }

  // ----- What it means -----------------------------------------------------------------------------------------

  /** Backslash with a quote or a backslash is that byte, with t, r and n a tab, a return and a line feed;
      before any other byte the backslash stays. */
  function UnitValue(u: Unit): Str {
    match u
    case Plain(c) => [c]
    case Pair(c) =>
      if c == 34 || c == 39 || c == 92 then [c]
      else if c == 116 then [9]
      else if c == 114 then [13]
      else if c == 110 then [10]
      else [92, c]
    case Dollar(n) => [36] + Braces(n)
  }

  function Value(us: seq<Unit>): Str {
    if us == [] then [] else UnitValue(us[0]) + Value(us[1..])
  }

  function Words(items: seq<Item>): seq<Str> {
    if items == [] then []
    else (if items[0].Token? then [Value(items[0].units)] else []) + Words(items[1..])
  }

  /** The return code for the words and what ends the call. */
  function Code(words: seq<Str>, place: Place, e: End): Rc {
    match e
    case Mark(c) =>
      if c == 59 then if words == [] then Unexpected else Ok
      else if c == 123 then if words == [] then Unexpected else BlockStart
      else if c == 125 && place == Gap && words == [] then BlockDone
      else Unexpected
    case Eof => if words == [] then FileDone else UnexpectedEnd
    case InComment(_) => if words == [] then FileDone else UnexpectedEnd
    case InQuotes(_, _, _) => UnexpectedEnd
    case Lone => UnexpectedEnd
  }

  /** The arguments: all words but for one that the end of the file cuts off. */
  function Args(words: seq<Str>, place: Place, e: End): seq<Str> {
    if !e.Mark? && place.Behind? && words != [] then words[..|words| - 1] else words
  }

  /** Line feeds. */
  function Lines(s: Str): nat {
    if s == [] then 0 else (if s[0] == 10 then 1 else 0) + Lines(s[1..])
  }

  /** The bytes since the current token, blank or comment began, after `run` of them and the item. */
  function Run(place: Place, run: nat, i: Item): nat {
    match i
    case Blank(_) => if place == Gap then 1 else run + 1
    case Comment(_) => 1
    case Token(style, us) => if style == Bare then |Spelled(us)| else |Spelled(us)| + 1
  }

  /** The end is reached before anything fills the buffer. */
  predicate EndWithin(run: nat, e: End, limit: nat) {
    match e
    case Mark(_) => run < limit
    case Eof => run <= limit
    case InComment(t) => run < limit && |t| + 1 <= limit
    case InQuotes(_, us, lone) => run < limit && |Spelled(us)| + (if lone then 1 else 0) <= limit
    case Lone => run < limit
  }

  /** Nothing fills the buffer before another byte is read. */
  predicate Within(place: Place, run: nat, items: seq<Item>, e: End, limit: Option<nat>)
    decreases |items|
  {
    limit == None ||
    if items == [] then EndWithin(run, e, limit.value)
    else
      && run < limit.value && (items[0].Comment? ==> |items[0].text| + 1 < limit.value)
      && Within(Next(items[0]), Run(place, run, items[0]), items[1..], e, limit)
  }

  // ----- Unescaping ---------------------------------------------------------------------------------------------

  lemma {:induction false} UnescapeBraces(n: nat, rest: Str)
    ensures Unescape(Braces(n) + rest) == Braces(n) + Unescape(rest)
  {
    hide Unescape;
    if n == 0 {
      assert Braces(n) + rest == rest;
    } else {
      AppendAssoc([123], Braces(n - 1), rest);
      UnescapeKept(123, Braces(n - 1) + rest);
      UnescapeBraces(n - 1, rest);
      AppendAssoc([123], Braces(n - 1), Unescape(rest));
    }
  }

  lemma UnescapeUnit(u: Unit, rest: Str)
    requires u.Plain? ==> u.c != 92
    ensures Unescape(UnitText(u) + rest) == UnitValue(u) + Unescape(rest)
  {
    hide Unescape;
    match u {
      case Plain(c) => UnescapeKept(c, rest);
      case Pair(c) => UnescapePair(c, rest);
      case Dollar(n) => UnescapeDollar(n, rest);
    }
  }

  lemma UnescapeDollar(n: nat, rest: Str)
    ensures Unescape(([36] + Braces(n)) + rest) == ([36] + Braces(n)) + Unescape(rest)
  {
    hide Unescape, Braces;
    AppendAssoc([36], Braces(n), rest);
    UnescapeKept(36, Braces(n) + rest);
    UnescapeBraces(n, rest);
    AppendAssoc([36], Braces(n), Unescape(rest));
  }

  lemma UnescapePair(c: Byte, rest: Str)
    ensures Unescape([92, c] + rest) == UnitValue(Pair(c)) + Unescape(rest)
  {
    hide Unescape, UnitValue;
    PairSlices(c, rest);
    if c != 92 {
      UnescapeKept(c, rest);
    }
    PairValue([92, c] + rest, c, rest, Unescape(rest));
  }

  lemma PairSlices(c: Byte, rest: Str)
    ensures var s := [92, c] + rest; |s| >= 2 && s[0] == 92 && s[1] == c && s[2..] == rest && s[1..] == [c] + rest
  {
  }

  lemma PairValue(s: Str, c: Byte, rest: Str, r: Str)
    requires |s| >= 2 && s[0] == 92 && s[1] == c && s[2..] == rest && s[1..] == [c] + rest && r == Unescape(rest)
    requires c != 92 ==> Unescape([c] + rest) == [c] + r
    ensures Unescape(s) == UnitValue(Pair(c)) + r
  {
    AppendAssoc([92], [c], r);
  }

  lemma UnescapeKept(c: Byte, rest: Str)
    requires c != 92
    ensures Unescape([c] + rest) == [c] + Unescape(rest)
  {
    assert ([c] + rest)[1..] == rest;
  }

  /** What the program makes of a word is its value. */
  lemma {:induction false} UnescapeSpelled(us: seq<Unit>)
    requires forall u | u in us :: u.Plain? ==> u.c != 92
    ensures Unescape(Spelled(us)) == Value(us)
  {
    hide UnitText, UnitValue, Unescape;
    if us == [] {
      UnescapeNothing();
    } else {
      UnescapeUnit(us[0], Spelled(us[1..]));
      UnescapeSpelled(us[1..]);
    }
  }

  lemma UnescapeNothing()
    ensures Unescape([]) == []
  {
  }

  lemma {:induction false} LinesAppend(a: Str, b: Str)
    ensures Lines(a + b) == Lines(a) + Lines(b)
  {
    if a == [] {
      assert a + b == b;
    } else {
      assert (a + b)[1..] == a[1..] + b;
      LinesAppend(a[1..], b);
    }
  }

  // ----- Reading a unit ------------------------------------------------------------------------------------------

  function In(style: Style, variable: bool): Flags {
    Flags(false, false, false, variable, false, style == Single, style == Double)
  }

  const BEHIND: Flags := Flags(true, false, false, false, false, false, false)

  /** A byte that is no special one inside a token. */
  lemma PlainStep(f: Str, st: State, style: Style, v: bool)
    requires st.fl == In(style, v) && st.start <= st.pos < |f|
    requires Inside(style, Plain(f[st.pos])) || (f[st.pos] == 123 && v)
    ensures var w := v && f[st.pos] == 123;
      Step(f, st) == Go(st.(pos := st.pos + 1, line := st.line + Lines([f[st.pos]]), fl := In(style, w)))
  {
    assert [f[st.pos]][1..] == [];
  }

  lemma DollarStep(f: Str, st: State, style: Style, v: bool)
    requires st.fl == In(style, v) && st.start <= st.pos < |f| && f[st.pos] == 36
    ensures Step(f, st) == Go(st.(pos := st.pos + 1, fl := In(style, true)))
  {
  }

  lemma PairSteps(f: Str, st: State, style: Style, v: bool, n: State)
    requires st.fl == In(style, v) && st.start <= st.pos < |f| - 1 && f[st.pos] == 92
    requires n == st.(pos := st.pos + 1, fl := In(style, false).(quoted := true))
    ensures Step(f, st) == Go(n)
    ensures Step(f, n)
         == Go(st.(pos := st.pos + 2, line := st.line + Lines([f[st.pos + 1]]), fl := In(style, false)))
  {
    assert [f[st.pos + 1]][1..] == [];
  }

  lemma {:induction false} ReadBraces(f: Str, st: State, style: Style, n: nat, limit: Option<nat>)
    requires st.fl == In(style, true) && st.start <= st.pos && st.pos + n <= |f| && Room(st, 0, limit)
    requires forall i | st.pos <= i < st.pos + n :: f[i] == 123
    ensures if Room(st, n, limit) then Scan(f, st, limit) == Scan(f, st.(pos := st.pos + n), limit)
            else Scan(f, st, limit).rc == TooLong
    decreases n
  {
    hide Scan, Step;
    if n == 0 {
      assert st == st.(pos := st.pos + n);
    } else {
      PlainStep(f, st, style, true);
      NoLine(123);
      ScanOn(f, st, limit);
      if Room(st, 1, limit) {
        ReadBraces(f, st.(pos := st.pos + 1), style, n - 1, limit);
      }
    }
  }

  lemma NoLine(c: Byte)
    ensures Lines([c]) == if c == 10 then 1 else 0
  {
    assert [c][1..] == [];
  }

  lemma {:induction false} BracesAre(n: nat)
    ensures |Braces(n)| == n && Lines(Braces(n)) == 0 && forall i | 0 <= i < n :: Braces(n)[i] == 123
  {
    if n > 0 {
      BracesAre(n - 1);
      NoLine(123);
      LinesAppend([123], Braces(n - 1));
    }
  }

  lemma DollarText(n: nat)
    ensures |UnitText(Dollar(n))| == n + 1 && Lines(UnitText(Dollar(n))) == 0
    ensures UnitText(Dollar(n))[0] == 36 && forall i | 1 <= i < n + 1 :: UnitText(Dollar(n))[i] == 123
  {
    BracesAre(n);
    NoLine(36);
    LinesAppend([36], Braces(n));
  }

  lemma PairText(c: Byte)
    ensures Lines([92, c]) == Lines([c])
  {
    assert [92, c][1..] == [c];
  }

  /** Where a scan stands after a unit. */
  function Past(st: State, style: Style, t: Str, v: bool): State {
    st.(pos := st.pos + |t|, line := st.line + Lines(t), fl := In(style, v))
  }

  lemma ReadUnit(f: Str, st: State, style: Style, u: Unit, limit: Option<nat>) returns (v: bool)
    requires st.fl == In(style, st.fl.variable) && st.start <= st.pos && st.pos + |UnitText(u)| <= |f|
    requires f[st.pos..st.pos + |UnitText(u)|] == UnitText(u) && Inside(style, u) && Room(st, 0, limit)
    ensures style == Bare ==> v == u.Dollar?
    ensures if Room(st, |UnitText(u)|, limit) then Scan(f, st, limit) == Scan(f, Past(st, style, UnitText(u), v), limit)
            else Scan(f, st, limit).rc == TooLong
  {
    hide Scan, Step, Lines;
    var t := UnitText(u);
    assert forall i | 0 <= i < |t| :: f[st.pos + i] == t[i];
    ScanOn(f, st, limit);
    match u {
      case Plain(c) =>
        v := st.fl.variable && c == 123;
        PlainStep(f, st, style, st.fl.variable);
      case Pair(c) =>
        v := false;
        var n := st.(pos := st.pos + 1, fl := In(style, false).(quoted := true));
        assert f[st.pos] == t[0] == 92 && f[st.pos + 1] == t[1];
        PairSteps(f, st, style, st.fl.variable, n);
        PairText(c);
        ScanOn(f, n, limit);
      case Dollar(n) =>
        v := true;
        DollarText(n);
        DollarStep(f, st, style, st.fl.variable);
        var m := st.(pos := st.pos + 1, fl := In(style, true));
        assert f[st.pos] == t[0];
        assert forall i | m.pos <= i < m.pos + n :: f[i] == t[i - st.pos];
        if Room(st, 1, limit) {
          ReadBraces(f, m, style, n, limit);
        }
    }
  }

  /** The units of a word, up to its end. */
  lemma {:induction false} ReadUnits(f: Str, st: State, style: Style, us: seq<Unit>, limit: Option<nat>)
    returns (v: bool)
    requires st.fl == In(style, st.fl.variable) && st.start <= st.pos && st.pos + |Spelled(us)| <= |f|
    requires f[st.pos..st.pos + |Spelled(us)|] == Spelled(us) && Room(st, 0, limit)
    requires forall u | u in us :: Inside(style, u)
    ensures style == Bare && us != [] && Room(st, |Spelled(us)|, limit) ==> v == us[|us| - 1].Dollar?
    ensures us == [] ==> v == st.fl.variable
    ensures if Room(st, |Spelled(us)|, limit) then Scan(f, st, limit) == Scan(f, Past(st, style, Spelled(us), v), limit)
            else Scan(f, st, limit).rc == TooLong
    decreases |us|
  {
    hide Scan, UnitText, Inside, Lines, Spelled;
    v := st.fl.variable;
    if us == [] {
      PastNothing(st, style);
    } else {
      var t, rest := UnitText(us[0]), us[1..];
      SpelledStep(us);
      SliceParts(f, st.pos, t, Spelled(rest));
      v := ReadUnit(f, st, style, us[0], limit);
      if Room(st, |t|, limit) {
        var n := Past(st, style, t, v);
        v := ReadUnits(f, n, style, rest, limit);
        LinesAppend(t, Spelled(rest));
        assert Past(n, style, Spelled(rest), v) == Past(st, style, Spelled(us), v);
      }
    }
  }

  lemma SpelledStep(us: seq<Unit>)
    requires us != []
    ensures Spelled(us) == UnitText(us[0]) + Spelled(us[1..])
  {
  }

  lemma PastNothing(st: State, style: Style)
    requires st.fl == In(style, st.fl.variable)
    ensures Spelled([]) == [] && Past(st, style, [], st.fl.variable) == st
  {
  }

  // ----- Reading an item -----------------------------------------------------------------------------------------

  ghost predicate Stands(f: Str, st: State, place: Place) {
    && st.start <= st.pos <= |f|
    && match place
       case Gap => st.fl == FIRST
       case Closed => st.fl == BEHIND
       case Behind(us) =>
         && us != [] && st.fl == In(Bare, us[|us| - 1].Dollar?) && f[st.start..st.pos] == Spelled(us)
         && forall u | u in us :: Inside(Bare, u)
  }

  /** The scan behind an item. */
  function Reach(st: State, place: Place, i: Item): State {
    var p, line := st.pos + |ItemText(i)|, st.line + Lines(ItemText(i));
    match i
    case Blank(_) =>
      if place == Gap then State(p, st.pos, line, line, st.args, FIRST)
      else if place == Closed then st.(pos := p, line := line, fl := FIRST)
      else st.(pos := p, line := line, args := st.args + [Value(place.units)], fl := FIRST)
    case Comment(_) => State(p, p - 1, line, line, st.args, FIRST)
    case Token(style, us) =>
      if style == Bare then State(p, st.pos, line, st.line, st.args, In(Bare, us != [] && us[|us| - 1].Dollar?))
      else State(p, st.pos + 1, line, st.line, st.args + [Value(us)], BEHIND)
  }

  lemma BlankStep(f: Str, st: State, place: Place)
    requires Stands(f, st, place) && st.pos < |f|
    requires f[st.pos] == 9 || f[st.pos] == 10 || f[st.pos] == 13 || f[st.pos] == 32
    ensures Step(f, st) == Go(Reach(st, place, Blank(f[st.pos])))
  {
    hide Unescape, Value, Spelled, Inside;
    NoLine(f[st.pos]);
    if place.Behind? {
      BareValue(f, st, place.units);
    }
  }

  lemma BlankRead(f: Str, st: State, place: Place, c: Byte)
    requires Stands(f, st, place) && st.pos < |f| && f[st.pos..st.pos + 1] == [c] && Legal(place, Blank(c))
    ensures Step(f, st) == Go(Reach(st, place, Blank(c)))
  {
    hide Step, Reach, Stands;
    assert f[st.pos] == f[st.pos..st.pos + 1][0];
    BlankStep(f, st, place);
  }

  lemma BareValue(f: Str, st: State, us: seq<Unit>)
    requires Stands(f, st, Behind(us))
    ensures Unescape(f[st.start..st.pos]) == Value(us)
  {
    hide Unescape;
    UnescapeSpelled(us);
  }

  /** The first unit of a bare word is read as the others are. */
  lemma BareStart(f: Str, st: State, place: Place, c: Byte)
    requires Stands(f, st, place) && st.pos < |f| && f[st.pos] == c
    requires place == Gap || (place == Closed && c == 41)
    requires c == 92 || c == 36 || (Inside(Bare, Plain(c)) && First(Plain(c)))
    ensures Step(f, st) == Step(f, st.(start := st.pos, startLine := st.line, fl := In(Bare, false)))
  {
  }

  lemma FirstByte(us: seq<Unit>)
    requires us != [] && Inside(Bare, us[0]) && First(us[0])
    ensures Spelled(us) != []
    ensures var c := Spelled(us)[0]; c == 92 || c == 36 || (Inside(Bare, Plain(c)) && First(Plain(c)))
    ensures us[0] == Plain(41) ==> Spelled(us)[0] == 41
  {
  }

  /** A token whose first byte is at `start`. */
  function Opened(st: State, start: nat, style: Style): State {
    State(start, start, st.line, st.line, st.args, In(style, false))
  }

  lemma BareBegin(f: Str, st: State, place: Place, us: seq<Unit>, limit: Option<nat>)
    requires Stands(f, st, place) && st.pos + |Spelled(us)| <= |f|
    requires f[st.pos..st.pos + |Spelled(us)|] == Spelled(us) && Legal(place, Token(Bare, us))
    requires limit != Some(0) && limit != Some(st.pos - st.start)
    ensures Scan(f, st, limit) == Scan(f, Opened(st, st.pos, Bare), limit)
  {
    hide Scan, Step, Spelled, Inside, First;
    FirstByte(us);
    assert f[st.pos] == f[st.pos..st.pos + |Spelled(us)|][0];
    BareStart(f, st, place, f[st.pos]);
    SameStep(f, st, Opened(st, st.pos, Bare), limit);
  }

  lemma BareEnd(st: State, place: Place, us: seq<Unit>, v: bool)
    requires us != [] && v == us[|us| - 1].Dollar?
    ensures Past(Opened(st, st.pos, Bare), Bare, Spelled(us), v) == Reach(st, place, Token(Bare, us))
  {
    hide Spelled;
  }

  lemma ReadBare(f: Str, st: State, place: Place, us: seq<Unit>, limit: Option<nat>)
    requires Stands(f, st, place) && st.pos + |Spelled(us)| <= |f|
    requires f[st.pos..st.pos + |Spelled(us)|] == Spelled(us) && Legal(place, Token(Bare, us))
    requires limit != Some(0) && limit != Some(st.pos - st.start)
    ensures if limit.Some? && limit.value < |Spelled(us)| then Scan(f, st, limit).rc == TooLong
            else Scan(f, st, limit) == Scan(f, Reach(st, place, Token(Bare, us)), limit)
  {
    hide Scan, Spelled, Inside, First, Lines, Reach, Stands;
    assert st.pos <= |f| && us != [];
    BareBegin(f, st, place, us, limit);
    var v := ReadUnits(f, Opened(st, st.pos, Bare), Bare, us, limit);
    BareEnd(st, place, us, us[|us| - 1].Dollar?);
  }

  lemma SameStep(f: Str, st: State, n: State, limit: Option<nat>)
    requires st.start <= st.pos < |f| && n.start <= n.pos == st.pos && Step(f, st) == Step(f, n)
    requires limit != Some(st.pos - st.start) && limit != Some(n.pos - n.start)
    ensures Scan(f, st, limit) == Scan(f, n, limit)
  {
    hide Step;
  }

  lemma OpenStep(f: Str, st: State, style: Style)
    requires st.fl == FIRST && st.start <= st.pos < |f| && style != Bare
    requires f[st.pos] == if style == Single then 39 else 34
    ensures Step(f, st)
         == Go(st.(pos := st.pos + 1, start := st.pos + 1, startLine := st.line, fl := In(style, false)))
  {
  }

  lemma CloseStep(f: Str, st: State, style: Style, v: bool, us: seq<Unit>)
    requires st.fl == In(style, v) && st.start <= st.pos < |f| && style != Bare
    requires f[st.pos] == if style == Single then 39 else 34
    requires f[st.start..st.pos] == Spelled(us) && forall u | u in us :: Inside(style, u)
    ensures Step(f, st) == Go(st.(pos := st.pos + 1, args := st.args + [Value(us)], fl := BEHIND))
  {
    hide Unescape, Value, Spelled;
    UnescapeSpelled(us);
  }

  lemma QuotedParts(f: Str, p: nat, i: Item)
    requires i.Token? && i.style != Bare && p + |ItemText(i)| <= |f| && f[p..p + |ItemText(i)|] == ItemText(i)
    ensures var s := Spelled(i.units);
      && |ItemText(i)| == |s| + 2 && Lines(ItemText(i)) == Lines(s)
      && f[p] == f[p + |s| + 1] == (if i.style == Single then 39 else 34) && f[p + 1..p + 1 + |s|] == s
  {
    hide Spelled, Lines;
    var s, t := Spelled(i.units), ItemText(i);
    var q: Byte := if i.style == Single then 39 else 34;
    assert t == [q] + s + [q];
    SliceOfSlice(f, p, p + |t|, 1, 1 + |s|);
    assert t[1..1 + |s|] == s;
    assert f[p] == t[0] && f[p + (|s| + 1)] == t[|s| + 1];
    LinesAppend([q] + s, [q]);
    LinesAppend([q], s);
    NoLine(q);
  }

  lemma QuotedLength(i: Item)
    requires i.Token? && i.style != Bare
    ensures |ItemText(i)| == |Spelled(i.units)| + 2
  {
    hide Spelled;
  }

  lemma StringBegin(f: Str, st: State, i: Item, limit: Option<nat>)
    requires Stands(f, st, Gap) && i.Token? && i.style != Bare && st.pos < |f|
    requires f[st.pos] == if i.style == Single then 39 else 34
    requires limit != Some(st.pos - st.start)
    ensures Scan(f, st, limit) == Scan(f, Opened(st, st.pos + 1, i.style), limit)
  {
    hide Scan, Step;
    OpenStep(f, st, i.style);
    ScanOn(f, st, limit);
  }

  lemma StringEnd(f: Str, st: State, i: Item, v: bool, limit: Option<nat>)
    requires i.Token? && i.style != Bare && st.pos + |Spelled(i.units)| + 2 <= |f|
    requires Lines(ItemText(i)) == Lines(Spelled(i.units)) && forall u | u in i.units :: Inside(i.style, u)
    requires f[st.pos + 1..st.pos + 1 + |Spelled(i.units)|] == Spelled(i.units)
    requires f[st.pos + 1 + |Spelled(i.units)|] == if i.style == Single then 39 else 34
    ensures var e, n := Past(Opened(st, st.pos + 1, i.style), i.style, Spelled(i.units), v), Reach(st, Gap, i);
      if limit == Some(e.pos - e.start) then Scan(f, e, limit).rc == TooLong else Scan(f, e, limit) == Scan(f, n, limit)
  {
    hide Scan, Step, Spelled, Lines, Value, Inside, ItemText, Reach;
    var e := Past(Opened(st, st.pos + 1, i.style), i.style, Spelled(i.units), v);
    StringReach(st, i);
    CloseStep(f, e, i.style, v, i.units);
    ScanOn(f, e, limit);
  }

  lemma StringReach(st: State, i: Item)
    requires i.Token? && i.style != Bare && Lines(ItemText(i)) == Lines(Spelled(i.units))
    ensures Reach(st, Gap, i)
         == State(st.pos + |Spelled(i.units)| + 2, st.pos + 1, st.line + Lines(Spelled(i.units)), st.line,
                  st.args + [Value(i.units)], BEHIND)
  {
    hide Spelled, Lines, Value, ItemText;
    QuotedLength(i);
  }

  lemma ReadString(f: Str, st: State, i: Item, limit: Option<nat>)
    requires Stands(f, st, Gap) && Legal(Gap, i) && i.Token? && i.style != Bare
    requires st.pos + |ItemText(i)| <= |f| && f[st.pos..st.pos + |ItemText(i)|] == ItemText(i)
    requires limit != Some(st.pos - st.start)
    ensures if limit.Some? && limit.value <= |Spelled(i.units)| then Scan(f, st, limit).rc == TooLong
            else Scan(f, st, limit) == Scan(f, Reach(st, Gap, i), limit)
  {
    hide Scan, Spelled, Inside, First, Lines, ItemText, Value, Reach, Stands;
    QuotedLength(i);
    QuotedParts(f, st.pos, i);
    StandsIn(f, st, Gap);
    StringBegin(f, st, i, limit);
    StringRead(f, st, i, limit);
  }

  lemma StringRead(f: Str, st: State, i: Item, limit: Option<nat>)
    requires i.Token? && i.style != Bare && st.pos + |Spelled(i.units)| + 2 <= |f|
    requires Lines(ItemText(i)) == Lines(Spelled(i.units)) && forall u | u in i.units :: Inside(i.style, u)
    requires f[st.pos + 1..st.pos + 1 + |Spelled(i.units)|] == Spelled(i.units)
    requires f[st.pos + 1 + |Spelled(i.units)|] == if i.style == Single then 39 else 34
    ensures if limit.Some? && limit.value <= |Spelled(i.units)| then
              Scan(f, Opened(st, st.pos + 1, i.style), limit).rc == TooLong
            else Scan(f, Opened(st, st.pos + 1, i.style), limit) == Scan(f, Reach(st, Gap, i), limit)
  {
    hide Scan, Spelled, Inside, Lines, ItemText, Value, Reach;
    var m := Opened(st, st.pos + 1, i.style);
    var v := ReadUnits(f, m, i.style, i.units, limit);
    if Room(m, |Spelled(i.units)|, limit) {
      StringEnd(f, st, i, v, limit);
    }
  }

  /** A comment, which may fill the buffer. */
  lemma {:induction false} ReadComment(f: Str, st: State, n: nat, limit: Option<nat>)
    requires st.fl == FIRST.(sharp := true) && st.start <= st.pos && st.pos + n < |f|
    requires f[st.pos + n] == 10 && forall i | st.pos <= i < st.pos + n :: f[i] != 10
    requires Room(st, 0, limit)
    ensures if limit.Some? && limit.value <= st.pos + n - st.start then Scan(f, st, limit).rc == TooLong
            else
              Scan(f, st, limit)
              == Scan(f, State(st.pos + n + 1, st.pos + n, st.line + 1, st.line + 1, st.args, FIRST), limit)
    decreases n
  {
    hide Scan;
    ScanOn(f, st, limit);
    if n > 0 && limit != Some(st.pos - st.start) {
      ReadComment(f, st.(pos := st.pos + 1), n - 1, limit);
    }
  }

  lemma CommentParts(f: Str, p: nat, t: Str)
    requires 10 !in t && p + |t| + 2 <= |f| && f[p..p + |t| + 2] == ItemText(Comment(t))
    ensures f[p] == 35 && f[p + 1 + |t|] == 10 && forall i | p + 1 <= i < p + 1 + |t| :: f[i] != 10
  {
    var c := f[p..p + |t| + 2];
    assert c[0] == 35 && c[1 + |t|] == 10;
    assert f[p + (1 + |t|)] == c[1 + |t|];
    forall i | p + 1 <= i < p + 1 + |t|
      ensures f[i] != 10
    {
      assert f[i] == c[i - p] == t[i - p - 1];
    }
  }

  lemma CommentText(t: Str)
    requires 10 !in t
    ensures |ItemText(Comment(t))| == |t| + 2 && Lines(ItemText(Comment(t))) == 1
  {
    hide Lines;
    LinesAppend([35] + t, [10]);
    LinesAppend([35], t);
    NoLine(35);
    NoLine(10);
    NoLines(t);
  }

  lemma {:induction false} NoLines(t: Str)
    requires 10 !in t
    ensures Lines(t) == 0
  {
    if t != [] {
      NoLines(t[1..]);
    }
  }

  lemma SharpStep(f: Str, st: State)
    requires st.fl == FIRST && st.start <= st.pos < |f| && f[st.pos] == 35
    ensures Step(f, st)
         == Go(State(st.pos + 1, st.pos, st.line, st.line, st.args, FIRST.(sharp := true)))
  {
  }

  lemma ReadRemark(f: Str, st: State, t: Str, limit: Option<nat>)
    requires Stands(f, st, Gap) && 10 !in t && st.pos + |ItemText(Comment(t))| <= |f| && Room(st, 0, limit)
    requires f[st.pos..st.pos + |ItemText(Comment(t))|] == ItemText(Comment(t))
    requires limit.Some? ==> limit.value > 1
    requires limit != Some(st.pos - st.start)
    ensures if limit.Some? && limit.value <= |t| + 1 then Scan(f, st, limit).rc == TooLong
            else Scan(f, st, limit) == Scan(f, Reach(st, Gap, Comment(t)), limit)
  {
    hide Scan, Step, Lines, ItemText, Stands, Reach;
    CommentText(t);
    CommentParts(f, st.pos, t);
    RemarkRead(f, st, t, limit);
    RemarkEnd(st, t);
  }

  lemma RemarkRead(f: Str, st: State, t: Str, limit: Option<nat>)
    requires Stands(f, st, Gap) && st.pos + |t| + 2 <= |f| && Room(st, 0, limit)
    requires f[st.pos] == 35 && f[st.pos + 1 + |t|] == 10
    requires forall i | st.pos + 1 <= i < st.pos + 1 + |t| :: f[i] != 10
    requires limit.Some? ==> limit.value > 1
    requires limit != Some(st.pos - st.start)
    ensures var n := State(st.pos + |t| + 2, st.pos + |t| + 1, st.line + 1, st.line + 1, st.args, FIRST);
      if limit.Some? && limit.value <= |t| + 1 then Scan(f, st, limit).rc == TooLong
      else Scan(f, st, limit) == Scan(f, n, limit)
  {
    hide Scan, Step;
    RemarkBegin(f, st, limit);
    ReadComment(f, Remark(st), |t|, limit);
  }

  lemma RemarkEnd(st: State, t: Str)
    requires |ItemText(Comment(t))| == |t| + 2 && Lines(ItemText(Comment(t))) == 1
    ensures Reach(st, Gap, Comment(t))
         == State(st.pos + |t| + 2, st.pos + |t| + 1, st.line + 1, st.line + 1, st.args, FIRST)
  {
    hide ItemText, Lines;
  }

  function Remark(st: State): State {
    State(st.pos + 1, st.pos, st.line, st.line, st.args, FIRST.(sharp := true))
  }

  lemma RemarkBegin(f: Str, st: State, limit: Option<nat>)
    requires Stands(f, st, Gap) && st.pos < |f| && f[st.pos] == 35 && limit != Some(st.pos - st.start)
    ensures Scan(f, st, limit) == Scan(f, Remark(st), limit)
  {
    hide Scan, Step;
    SharpStep(f, st);
    ScanOn(f, st, limit);
  }

  /** Behind an item the scan stands where it should. */
  lemma ReachStands(f: Str, st: State, place: Place, i: Item)
    requires Stands(f, st, place) && Legal(place, i)
    requires st.pos + |ItemText(i)| <= |f| && f[st.pos..st.pos + |ItemText(i)|] == ItemText(i)
    ensures Stands(f, Reach(st, place, i), Next(i))
    ensures Reach(st, place, i).pos - Reach(st, place, i).start == Run(place, st.pos - st.start, i)
  {
    hide Spelled, Inside, Lines, Value;
  }

  /** One item: it is read, or something fills the buffer. */
  lemma ReadItem(f: Str, st: State, place: Place, i: Item, limit: Option<nat>)
    requires Stands(f, st, place) && Legal(place, i) && Room(st, 0, limit)
    requires st.pos + |ItemText(i)| <= |f| && f[st.pos..st.pos + |ItemText(i)|] == ItemText(i)
    requires ItemText(i) != [] && (limit.Some? ==> limit.value > 1)
    ensures
      if limit.Some? && (st.pos - st.start == limit.value || (i.Comment? && limit.value <= |i.text| + 1)
                         || limit.value < Run(place, st.pos - st.start, i))
      then Scan(f, st, limit).rc == TooLong
      else Scan(f, st, limit) == Scan(f, Reach(st, place, i), limit)
  {
    hide Scan, Step, Spelled, Inside, First, Lines, Value, Reach;
    ScanOn(f, st, limit);
    if limit != Some(st.pos - st.start) {
      match i {
        case Blank(c) =>
          BlankRead(f, st, place, c);
        case Comment(t) => ReadRemark(f, st, t, limit);
        case Token(style, us) =>
          if style == Bare {
            ReadBare(f, st, place, us, limit);
          } else {
            ReadString(f, st, i, limit);
          }
      }
    }
  }

  // ----- Reading a text ------------------------------------------------------------------------------------------

  /** The words that are not yet arguments. */
  function Pending(place: Place): seq<Str> {
    if place.Behind? then [Value(place.units)] else []
  }

  /** The byte that ends the call. */
  lemma ReadEnd(f: Str, st: State, place: Place, e: Byte, limit: Option<nat>)
    requires Stands(f, st, place) && st.pos < |f| && f[st.pos] == e && Ends(place, Mark(e))
    requires place == Closed ==> st.args != []
    requires limit != Some(st.pos - st.start)
    ensures var words := st.args + Pending(place);
      Scan(f, st, limit) == Outcome(Code(words, place, Mark(e)), words, st.line + Lines([e]), st.pos + 1)
  {
    hide Scan, Unescape, Value, Spelled, Inside;
    NoLine(e);
    if place.Behind? {
      BareValue(f, st, place.units);
    }
    ScanOn(f, st, limit);
    assert st.args + [] == st.args;
  }

  /** The end of the file. */
  lemma ReadEof(f: Str, st: State, place: Place, limit: Option<nat>)
    requires Stands(f, st, place) && st.pos == |f|
    requires place == Closed ==> st.args != []
    ensures var words := st.args + Pending(place);
      Scan(f, st, limit) == Outcome(Code(words, place, Eof), Args(words, place, Eof), st.line, st.pos)
  {
    hide Value, Spelled, Inside;
    assert place.Behind? ==> (st.args + Pending(place))[..|st.args|] == st.args;
    assert !place.Behind? ==> st.args + Pending(place) == st.args;
  }

  lemma TextParts(f: Str, p: nat, items: seq<Item>, e: End)
    requires items != [] && Spells(f, p, Text(items), e)
    ensures var q := p + |ItemText(items[0])|;
      && |Text(items)| == |ItemText(items[0])| + |Text(items[1..])| && q <= |f| && f[p..q] == ItemText(items[0])
      && Spells(f, q, Text(items[1..]), e)
  {
    hide ItemText, EndText;
    var a, b := ItemText(items[0]), Text(items[1..]);
    AppendAssoc(a, b, EndText(e));
    SliceParts(f, p, a, b + EndText(e));
  }

  /** Arguments, pending words and the words of the rest. */
  ghost function Total(st: State, place: Place, items: seq<Item>): seq<Str> {
    st.args + Pending(place) + Words(items)
  }

  lemma TotalStep(st: State, place: Place, items: seq<Item>)
    requires items != [] && Legal(place, items[0])
    ensures Total(Reach(st, place, items[0]), Next(items[0]), items[1..]) == Total(st, place, items)
    ensures Next(items[0]) == Closed ==> Reach(st, place, items[0]).args != []
  {
    hide Value, ItemText, Lines, Inside, Words, Spelled;
    var i, rest, n := items[0], Words(items[1..]), Reach(st, place, items[0]);
    WordsStep(items);
    if i.Token? {
      var w := [Value(i.units)];
      assert n.args + Pending(Next(i)) == st.args + w;
      AppendAssoc(st.args, w, rest);
      assert st.args + Pending(place) == st.args;
    } else {
      assert n.args + Pending(Next(i)) == st.args + Pending(place);
    }
  }

  lemma WordsStep(items: seq<Item>)
    requires items != []
    ensures Words(items)
         == if items[0].Token? then [Value(items[0].units)] + Words(items[1..]) else Words(items[1..])
  {
    hide Value;
  }

  /** The scan from a place in a text. */
  lemma {:induction false} ReadItems(f: Str, st: State, place: Place, items: seq<Item>, e: End,
                                     limit: Option<nat>)
    requires Stands(f, st, place) && AllLegal(place, items) && Ends(Last(place, items), e) && Room(st, 0, limit)
    requires (place == Closed ==> st.args != []) && Spells(f, st.pos, Text(items), e)
    requires limit.Some? ==> limit.value > 1
    ensures var words, last := Total(st, place, items), Last(place, items);
      if Within(place, st.pos - st.start, items, e, limit) then
        Scan(f, st, limit)
        == Outcome(Code(words, last, e), Args(words, last, e), st.line + Lines(Text(items) + EndText(e)),
                   st.pos + |Text(items)| + |EndText(e)|)
      else Scan(f, st, limit).rc == TooLong
    decreases |items|
  {
    hide Scan, Stands, Legal, Reach, Run, Pending, Ends, Lines, ItemText, Code, Args, Total, Value, Spells, EndText;
    StandsIn(f, st, place);
    if items == [] {
      NoItems(f, st, place, e, limit);
    } else {
      var i, rest := items[0], items[1..];
      TextParts(f, st.pos, items, e);
      ItemNonempty(place, i);
      ReadItem(f, st, place, i, limit);
      ReachStands(f, st, place, i);
      TotalStep(st, place, items);
      var n := Reach(st, place, i);
      ReachIs(st, place, i);
      StandsIn(f, n, Next(i));
      LastStep(place, items);
      if limit == None || Run(place, st.pos - st.start, i) <= limit.value {
        ReadItems(f, n, Next(i), rest, e, limit);
        AppendAssoc(ItemText(i), Text(rest), EndText(e));
        LinesAppend(ItemText(i), Text(rest) + EndText(e));
      } else {
        assert !Within(Next(i), Run(place, st.pos - st.start, i), rest, e, limit);
      }
    }
  }

  lemma ItemNonempty(place: Place, i: Item)
    requires Legal(place, i)
    ensures ItemText(i) != []
  {
  }

  lemma StandsIn(f: Str, st: State, place: Place)
    requires Stands(f, st, place)
    ensures st.start <= st.pos <= |f|
  {
  }

  lemma ReachIs(st: State, place: Place, i: Item)
    requires Legal(place, i)
    ensures Reach(st, place, i).pos == st.pos + |ItemText(i)|
    ensures Reach(st, place, i).line == st.line + Lines(ItemText(i))
  {
    hide Inside, Value, Spelled;
  }

  lemma LastStep(place: Place, items: seq<Item>)
    requires items != []
    ensures Last(place, items) == Last(Next(items[0]), items[1..])
  {
  }

  lemma NoItems(f: Str, st: State, place: Place, e: End, limit: Option<nat>)
    requires Stands(f, st, place) && Ends(place, e) && Room(st, 0, limit)
    requires (place == Closed ==> st.args != []) && Spells(f, st.pos, Text([]), e)
    requires limit.Some? ==> limit.value > 1
    ensures var words, last := Total(st, place, []), Last(place, []);
      if Within(place, st.pos - st.start, [], e, limit) then
        Scan(f, st, limit)
        == Outcome(Code(words, last, e), Args(words, last, e), st.line + Lines(Text([]) + EndText(e)),
                   st.pos + |Text([])| + |EndText(e)|)
      else Scan(f, st, limit).rc == TooLong
  {
    hide Scan, Code, Args, Lines, Ends, Pending, Stands, Total, Text, Spells, EndText;
    NoneLeft(st, place);
    EndParts(f, st.pos, e);
    StandsIn(f, st, place);
    match e {
      case Mark(c) =>
        ScanOn(f, st, limit);
        if Within(place, st.pos - st.start, [], e, limit) {
          ReadEnd(f, st, place, c, limit);
          AllGiven(st.args + Pending(place), place, e);
        }
      case Eof =>
        ReadEof(f, st, place, limit);
        NoLines([]);
      case InComment(t) => ReadInComment(f, st, place, t, limit);
      case InQuotes(style, us, lone) => ReadInQuotes(f, st, place, style, us, lone, limit);
      case Lone => ReadLone(f, st, place, limit);
    }
  }

  // ----- The end of the file inside a token or a comment ----------------------------------------------------------

  /** A comment without a line feed. */
  lemma {:induction false} ReadOpenComment(f: Str, st: State, limit: Option<nat>)
    requires st.fl == FIRST.(sharp := true) && st.start <= st.pos <= |f| && Room(st, 0, limit)
    requires forall i | st.pos <= i < |f| :: f[i] != 10
    ensures if limit.Some? && limit.value < |f| - st.start then Scan(f, st, limit).rc == TooLong
            else Scan(f, st, limit) == AtEnd(st.(pos := |f|))
    decreases |f| - st.pos
  {
    hide Scan;
    ScanEnd(f, st, limit);
    if st.pos < |f| {
      ScanOn(f, st, limit);
      if limit != Some(st.pos - st.start) {
        ReadOpenComment(f, st.(pos := st.pos + 1), limit);
      }
    } else {
      assert st == st.(pos := |f|);
    }
  }

  lemma ScanEnd(f: Str, st: State, limit: Option<nat>)
    requires st.start <= st.pos <= |f|
    ensures st.pos == |f| ==> Scan(f, st, limit) == AtEnd(st)
  {
  }

  lemma ReadInComment(f: Str, st: State, place: Place, t: Str, limit: Option<nat>)
    requires Stands(f, st, place) && Ends(place, InComment(t)) && Room(st, 0, limit)
    requires st.pos + |t| + 1 == |f| && f[st.pos..] == EndText(InComment(t))
    requires limit.Some? ==> limit.value > 1
    ensures var words, e := st.args + Pending(place), InComment(t);
      if limit == None || EndWithin(st.pos - st.start, e, limit.value) then
        Scan(f, st, limit)
        == Outcome(Code(words, place, e), Args(words, place, e), st.line + Lines(EndText(e)), st.pos + |EndText(e)|)
      else Scan(f, st, limit).rc == TooLong
  {
    hide Scan, Lines, EndText, Stands, Step, Code, Args;
    StandsIn(f, st, place);
    OpenCommentParts(f, st.pos, t);
    CommentMeans(st.args, t);
    TooLongAt(f, st, limit);
    if limit != Some(st.pos - st.start) {
      RemarkBegin(f, st, limit);
      ReadOpenComment(f, Remark(st), limit);
    }
  }

  lemma OpenCommentParts(f: Str, p: nat, t: Str)
    requires 10 !in t && |f| == p + |t| + 1 && f[p..] == EndText(InComment(t))
    ensures |EndText(InComment(t))| == |t| + 1 && Lines(EndText(InComment(t))) == 0
    ensures f[p] == 35 && forall i | p < i < |f| :: f[i] != 10
  {
    hide Lines;
    var c := f[p..];
    assert f[p] == c[0] == 35;
    assert forall i | p < i < |f| :: f[i] == c[i - p] == t[i - p - 1];
    LinesAppend([35], t);
    NoLine(35);
    NoLines(t);
  }

  lemma CommentMeans(args: seq<Str>, t: Str)
    ensures var words, e := args + Pending(Gap), InComment(t);
      Code(words, Gap, e) == (if args == [] then FileDone else UnexpectedEnd) && Args(words, Gap, e) == args
  {
  }

  /** The end of the file inside a token. */
  lemma EndInside(f: Str, st: State, limit: Option<nat>)
    requires st.start <= st.pos == |f| && !st.fl.lastSpace
    ensures Scan(f, st, limit) == Outcome(UnexpectedEnd, st.args, st.line, st.pos)
  {
  }

  /** A backslash before the end of the file. */
  lemma EndBehindBackslash(f: Str, st: State, style: Style, v: bool, limit: Option<nat>)
    requires st.fl == In(style, v) && st.start <= st.pos == |f| - 1 && f[st.pos] == 92
    ensures if limit == Some(st.pos - st.start) then Scan(f, st, limit).rc == TooLong
            else Scan(f, st, limit) == Outcome(UnexpectedEnd, st.args, st.line, |f|)
  {
    hide Scan;
    ScanOn(f, st, limit);
    EndInside(f, st.(pos := |f|, fl := In(style, false).(quoted := true)), limit);
  }

  lemma ReadInQuotes(f: Str, st: State, place: Place, style: Style, us: seq<Unit>, lone: bool, limit: Option<nat>)
    requires Stands(f, st, place) && Ends(place, InQuotes(style, us, lone)) && Room(st, 0, limit)
    requires |f| == st.pos + |EndText(InQuotes(style, us, lone))|
    requires f[st.pos..] == EndText(InQuotes(style, us, lone))
    requires limit.Some? ==> limit.value > 1
    ensures var words, e := st.args + Pending(place), InQuotes(style, us, lone);
      if limit == None || EndWithin(st.pos - st.start, e, limit.value) then
        Scan(f, st, limit)
        == Outcome(Code(words, place, e), Args(words, place, e), st.line + Lines(EndText(e)), st.pos + |EndText(e)|)
      else Scan(f, st, limit).rc == TooLong
  {
    hide Scan, Lines, Spelled, Inside, Stands, EndText;
    StandsIn(f, st, place);
    OpenParts(f, st.pos, style, us, lone);
    QuotesMean(st.args, style, us, lone);
    QuotesRead(f, st, style, us, lone, limit);
  }

  /** From `p` to its end the file has these units and perhaps a backslash. */
  ghost predicate OpenAt(f: Str, p: nat, style: Style, us: seq<Unit>, lone: bool) {
    && |f| == p + |Spelled(us)| + (if lone then 1 else 0) && (lone ==> f[|f| - 1] == 92)
    && f[p..p + |Spelled(us)|] == Spelled(us) && forall u | u in us :: Inside(style, u)
  }

  lemma QuotesRead(f: Str, st: State, style: Style, us: seq<Unit>, lone: bool, limit: Option<nat>)
    requires Stands(f, st, Gap) && style != Bare && Room(st, 0, limit) && st.pos < |f|
    requires f[st.pos] == (if style == Single then 39 else 34) && OpenAt(f, st.pos + 1, style, us, lone)
    requires limit.Some? ==> limit.value > 1
    ensures if limit.Some? && (limit.value == st.pos - st.start || limit.value < |f| - st.pos - 1) then
              Scan(f, st, limit).rc == TooLong
            else Scan(f, st, limit) == Outcome(UnexpectedEnd, st.args, st.line + Lines(Spelled(us)), |f|)
  {
    hide Scan, Lines, Spelled, Inside, Stands, Step, In, Opened, OpenAt;
    StandsIn(f, st, Gap);
    TooLongAt(f, st, limit);
    if limit != Some(st.pos - st.start) {
      StringBegin(f, st, Token(style, us), limit);
      OpenedIs(st, st.pos + 1, style);
      ReadOpenQuotes(f, Opened(st, st.pos + 1, style), st.pos + 1, style, us, lone, limit);
    }
  }

  lemma TooLongAt(f: Str, st: State, limit: Option<nat>)
    requires st.start <= st.pos < |f|
    ensures limit == Some(st.pos - st.start) ==> Scan(f, st, limit).rc == TooLong
  {
  }

  lemma OpenedIs(st: State, p: nat, style: Style)
    ensures var n := Opened(st, p, style);
      n.fl == In(style, false) && n.start == n.pos == p && n.args == st.args && n.line == st.line
  {
  }

  lemma QuotesMean(args: seq<Str>, style: Style, us: seq<Unit>, lone: bool)
    ensures var words, e := args + Pending(Gap), InQuotes(style, us, lone);
      Code(words, Gap, e) == UnexpectedEnd && Args(words, Gap, e) == args
  {
  }

  lemma OpenParts(f: Str, p: nat, style: Style, us: seq<Unit>, lone: bool)
    requires style != Bare && |f| == p + |EndText(InQuotes(style, us, lone))|
    requires f[p..] == EndText(InQuotes(style, us, lone))
    ensures var s := Spelled(us);
      && |EndText(InQuotes(style, us, lone))| == |s| + (if lone then 2 else 1)
      && Lines(EndText(InQuotes(style, us, lone))) == Lines(s)
      && f[p] == (if style == Single then 39 else 34) && f[p + 1..p + 1 + |s|] == s
      && (lone ==> f[|f| - 1] == 92)
  {
    hide Spelled, Lines;
    var s, t := Spelled(us), EndText(InQuotes(style, us, lone));
    var q: Byte := if style == Single then 39 else 34;
    var tail: Str := if lone then [92] else [];
    assert t == [q] + s + tail;
    SliceOfSlice(f, p, |f|, 1, 1 + |s|);
    assert f[p..] == f[p..|f|] && t[1..1 + |s|] == s;
    assert f[p] == t[0] && (lone ==> f[|f| - 1] == t[|t| - 1]);
    LinesAppend([q] + s, tail);
    LinesAppend([q], s);
    NoLine(q);
    NoLine(92);
    NoLines([]);
  }

  lemma ReadOpenQuotes(f: Str, st: State, p: nat, style: Style, us: seq<Unit>, lone: bool, limit: Option<nat>)
    requires st.fl == In(style, false) && st.start == st.pos == p && style != Bare
    requires OpenAt(f, p, style, us, lone)
    ensures if limit.Some? && limit.value < |f| - p then Scan(f, st, limit).rc == TooLong
            else Scan(f, st, limit) == Outcome(UnexpectedEnd, st.args, st.line + Lines(Spelled(us)), |f|)
  {
    hide Scan, Lines, Spelled, Inside;
    var v := ReadUnits(f, st, style, us, limit);
    if Room(st, |Spelled(us)|, limit) {
      var n := Past(st, style, Spelled(us), v);
      if lone {
        EndBehindBackslash(f, n, style, v, limit);
      } else {
        EndInside(f, n, limit);
      }
    }
  }

  lemma ReadLone(f: Str, st: State, place: Place, limit: Option<nat>)
    requires Stands(f, st, place) && Ends(place, Lone) && Room(st, 0, limit)
    requires st.pos == |f| - 1 && f[st.pos..] == [92]
    ensures var words := st.args + Pending(place);
      if limit == None || EndWithin(st.pos - st.start, Lone, limit.value) then
        Scan(f, st, limit)
        == Outcome(Code(words, place, Lone), Args(words, place, Lone), st.line + Lines([92]), st.pos + 1)
      else Scan(f, st, limit).rc == TooLong
  {
    hide Scan, Lines, Value, Spelled, Inside;
    NoLine(92);
    assert f[st.pos] == f[st.pos..][0];
    assert place.Behind? ==> (st.args + Pending(place))[..|st.args|] == st.args;
    assert !place.Behind? ==> st.args + Pending(place) == st.args;
    ScanOn(f, st, limit);
    if limit != Some(st.pos - st.start) {
      EndInside(f, Step(f, st).st, limit);
    }
  }

  lemma NoneLeft(st: State, place: Place)
    ensures Total(st, place, []) == st.args + Pending(place)
  {
  }

  lemma AllGiven(words: seq<Str>, place: Place, e: End)
    requires e.Mark?
    ensures Args(words, place, e) == words
  {
  }

  lemma EndParts(f: Str, p: nat, e: End)
    requires Spells(f, p, Text([]), e)
    ensures Text([]) + EndText(e) == EndText(e) && |Text([])| == 0 && p + |EndText(e)| <= |f|
    ensures if e.Mark? then p < |f| && f[p] == e.c && EndText(e) == [e.c]
            else p + |EndText(e)| == |f| && f[p..] == EndText(e)
    ensures e.Eof? ==> EndText(e) == []
    ensures e.Lone? ==> EndText(e) == [92]
    ensures e.InComment? ==> |EndText(e)| == |e.text| + 1
  {
    hide Spelled;
    assert Text([]) + EndText(e) == EndText(e);
    if e.Mark? {
      assert f[p] == f[p..p + 1][0];
    } else {
      assert f[p..] == f[p..|f|];
    }
  }

  /** Wherever blanks, comments and words stand in a file, a call that starts there returns the words, the code for
      what ends them, the number of line feeds and the position behind, unless something fills the buffer. */
  lemma SpelledIsRead(f: Str, pos: nat, line: nat, items: seq<Item>, e: End, limit: Option<nat>)
    requires AllLegal(Gap, items) && Ends(Last(Gap, items), e) && Spells(f, pos, Text(items), e)
    requires limit.Some? ==> limit.value > 1
    ensures var last := Last(Gap, items);
      if Within(Gap, 0, items, e, limit) then
        Scan(f, Begin(pos, line), limit)
        == Outcome(Code(Words(items), last, e), Args(Words(items), last, e), line + Lines(Text(items) + EndText(e)),
                   pos + |Text(items)| + |EndText(e)|)
      else Scan(f, Begin(pos, line), limit).rc == TooLong
  {
    hide Scan, Within, AllLegal, Ends, Code, Args, Text, EndText;
    assert pos <= |f|;
    ReadItems(f, Begin(pos, line), Gap, items, e, limit);
    assert Total(Begin(pos, line), Gap, items) == Words(items);
  }

  // ----- Every text is spelled -------------------------------------------------------------------------------------

  lemma {:induction false} Munch(f: Str, p: nat) returns (n: nat)
    requires p <= |f|
    ensures p + n <= |f| && f[p..p + n] == Braces(n) && (p + n < |f| ==> f[p + n] != 123)
    decreases |f| - p
  {
    n := 0;
    if p < |f| && f[p] == 123 {
      n := Munch(f, p + 1);
      n := n + 1;
      assert f[p..p + n] == [123] + f[p + 1..p + n];
    } else {
      assert f[p..p] == [];
    }
  }

  /** What stops a word of this style, unless it is a backslash at the end of the file. */
  predicate Stops(style: Style, c: Byte) {
    match style
    case Bare => c == 9 || c == 10 || c == 13 || c == 32 || c == 59 || c == 123
    case Single => c == 39
    case Double => c == 34
  }

  /** The first unit at `p`, if there is one. */
  lemma OneUnit(f: Str, p: nat, style: Style) returns (u: Unit)
    requires p < |f| && !Stops(style, f[p]) && (f[p] == 92 ==> p + 1 < |f|)
    ensures Inside(style, u) && p + |UnitText(u)| <= |f| && f[p..p + |UnitText(u)|] == UnitText(u)
    ensures u.Dollar? && p + |UnitText(u)| < |f| ==> f[p + |UnitText(u)|] != 123
    ensures u == Plain(f[p]) || f[p] == 92 || f[p] == 36
  {
    if f[p] == 92 {
      u := Pair(f[p + 1]);
      PairAt(f, p);
    } else if f[p] == 36 {
      var n := Munch(f, p + 1);
      u := Dollar(n);
      DollarAt(f, p, n);
    } else {
      u := Plain(f[p]);
    }
  }

  lemma PairAt(f: Str, p: nat)
    requires p + 1 < |f| && f[p] == 92
    ensures |UnitText(Pair(f[p + 1]))| == 2 && f[p..p + 2] == UnitText(Pair(f[p + 1]))
  {
  }

  lemma DollarAt(f: Str, p: nat, n: nat)
    requires p + 1 + n <= |f| && f[p] == 36 && f[p + 1..p + 1 + n] == Braces(n)
    ensures |UnitText(Dollar(n))| == n + 1 && f[p..p + 1 + n] == UnitText(Dollar(n))
  {
    hide Braces;
    BracesAre(n);
    assert f[p..p + 1 + n] == [36] + f[p + 1..p + 1 + n];
  }

  /** The units from `p` on, as many as there are. */
  lemma {:induction false} AllUnits(f: Str, p: nat, style: Style) returns (us: seq<Unit>, q: nat)
    requires p <= |f|
    ensures p <= q <= |f| && f[p..q] == Spelled(us) && forall u | u in us :: Inside(style, u)
    ensures q < |f| ==> Stops(style, f[q]) || (f[q] == 92 && q + 1 == |f|)
    ensures us != [] && us[|us| - 1].Dollar? && q < |f| ==> f[q] != 123
    ensures us == [] ==> q == p
    ensures us != [] ==> p < |f| && (us[0] == Plain(f[p]) || f[p] == 92 || f[p] == 36)
    decreases |f| - p
  {
    hide Stops, UnitText, Inside;
    if p == |f| || Stops(style, f[p]) || (f[p] == 92 && p + 1 == |f|) {
      us, q := [], p;
      assert f[p..p] == [];
    } else {
      var u := OneUnit(f, p, style);
      var m := p + |UnitText(u)|;
      us, q := AllUnits(f, m, style);
      SliceJoin(f, p, m, q);
      us := [u] + us;
      assert us[1..] == us[1..] && Spelled(us) == UnitText(u) + Spelled(us[1..]);
    }
  }

  lemma SpellsCons(f: Str, p: nat, i: Item, items: seq<Item>, e: End)
    requires p + |ItemText(i)| <= |f| && f[p..p + |ItemText(i)|] == ItemText(i)
    requires Spells(f, p + |ItemText(i)|, Text(items), e)
    ensures Spells(f, p, Text([i] + items), e)
  {
    hide ItemText, EndText;
    var q, t := p + |ItemText(i)|, Text(items) + EndText(e);
    assert ([i] + items)[1..] == items;
    SliceJoin(f, p, q, q + |t|);
    AppendAssoc(ItemText(i), Text(items), EndText(e));
  }

  lemma LegalCons(place: Place, i: Item, items: seq<Item>)
    requires Legal(place, i) && AllLegal(Next(i), items)
    ensures AllLegal(place, [i] + items) && Last(place, [i] + items) == Last(Next(i), items)
  {
    hide Legal;
    assert ([i] + items)[1..] == items;
  }

  /** Where the parts of a text may go on. */
  ghost predicate GoesOn(f: Str, p: nat, place: Place) {
    && p <= |f|
    && (place.Behind? && p < |f| ==>
         && (Stops(Bare, f[p]) || (f[p] == 92 && p + 1 == |f|))
         && (place.units != [] && place.units[|place.units| - 1].Dollar? ==> f[p] != 123))
  }

  /** From every position every file is spelled, so `SpelledIsRead` is about all calls. */
  lemma {:induction false} EveryText(f: Str, p: nat, place: Place) returns (items: seq<Item>, e: End)
    requires GoesOn(f, p, place)
    ensures AllLegal(place, items) && Ends(Last(place, items), e) && Spells(f, p, Text(items), e)
    decreases |f| - p
  {
    hide Ends, Spells, AllLegal, Legal, ItemText, Text, Last;
    var more, i;
    more, i, e := NextItem(f, p, place);
    NextIs(f, p, place, more, i, e);
    if more {
      items, e := EveryText(f, p + |ItemText(i)|, Next(i));
      SpellsCons(f, p, i, items, e);
      LegalCons(place, i, items);
      items := [i] + items;
    } else {
      items := [];
      NothingMore(place);
    }
  }

  lemma NextIs(f: Str, p: nat, place: Place, more: bool, i: Item, e: End)
    requires IsNext(f, p, place, more, i, e)
    ensures more ==>
      && Legal(place, i) && p < p + |ItemText(i)| <= |f| && f[p..p + |ItemText(i)|] == ItemText(i)
      && GoesOn(f, p + |ItemText(i)|, Next(i))
    ensures !more ==> Ends(place, e) && Spells(f, p, [], e)
  {
  }

  lemma NothingMore(place: Place)
    ensures AllLegal(place, []) && Last(place, []) == place && Text([]) == []
  {
  }

  /** The text goes on with an item, or ends. */
  ghost predicate IsNext(f: Str, p: nat, place: Place, more: bool, i: Item, e: End) {
    if more then
      && Legal(place, i) && p < p + |ItemText(i)| <= |f| && f[p..p + |ItemText(i)|] == ItemText(i)
      && GoesOn(f, p + |ItemText(i)|, Next(i))
    else Ends(place, e) && Spells(f, p, [], e)
  }

  lemma NextItem(f: Str, p: nat, place: Place) returns (more: bool, i: Item, e: End)
    requires GoesOn(f, p, place)
    ensures IsNext(f, p, place, more, i, e)
  {
    hide IsNext;
    i, e := Blank(32), Eof;
    more := false;
    if p == |f| {
      AtFileEnd(f, p, place, i);
    } else if f[p] == 9 || f[p] == 10 || f[p] == 13 || f[p] == 32 {
      more, i := true, Blank(f[p]);
      NextBlank(f, p, place, e);
    } else if place == Gap && f[p] == 35 {
      more, i, e := NextComment(f, p);
    } else if place == Gap && (f[p] == 34 || f[p] == 39) {
      more, i, e := NextString(f, p, if f[p] == 39 then Single else Double);
    } else if EndsAt(place, f[p]) {
      e := Mark(f[p]);
      NextMark(f, p, place, i);
    } else {
      more, i, e := NextBare(f, p, place);
    }
  }

  lemma NextBlank(f: Str, p: nat, place: Place, e: End)
    requires p < |f| && (f[p] == 9 || f[p] == 10 || f[p] == 13 || f[p] == 32)
    ensures IsNext(f, p, place, true, Blank(f[p]), e)
  {
    assert f[p..p + 1] == [f[p]];
  }

  lemma NextMark(f: Str, p: nat, place: Place, i: Item)
    requires p < |f| && EndsAt(place, f[p])
    ensures IsNext(f, p, place, false, i, Mark(f[p]))
  {
    assert f[p..p + 1] == [f[p]] == [] + [f[p]];
  }

  predicate EndsAt(place: Place, c: Byte) {
    Ends(place, Mark(c))
  }

  lemma AtFileEnd(f: Str, p: nat, place: Place, i: Item)
    requires p == |f|
    ensures IsNext(f, p, place, false, i, Eof)
  {
    assert f[p..p] == [];
  }

  lemma {:induction false} FindFeed(f: Str, p: nat) returns (q: nat)
    requires p <= |f|
    ensures p <= q <= |f| && 10 !in f[p..q] && (q < |f| ==> f[q] == 10)
    decreases |f| - p
  {
    q := p;
    if p < |f| && f[p] != 10 {
      q := FindFeed(f, p + 1);
      assert f[p..q] == [f[p]] + f[p + 1..q];
    } else {
      assert f[p..p] == [];
    }
  }

  lemma NextComment(f: Str, p: nat) returns (more: bool, i: Item, e: End)
    requires p < |f| && f[p] == 35
    ensures IsNext(f, p, Gap, more, i, e)
  {
    var q := FindFeed(f, p + 1);
    var t := f[p + 1..q];
    i, e, more := Comment(t), InComment(t), q < |f|;
    SliceJoin(f, p, p + 1, q);
    assert f[p..p + 1] == [35];
    if more {
      SliceJoin(f, p, q, q + 1);
      assert f[q..q + 1] == [10];
    } else {
      assert [] + EndText(e) == EndText(e);
    }
  }

  lemma NextString(f: Str, p: nat, style: Style) returns (more: bool, i: Item, e: End)
    requires p < |f| && style != Bare && f[p] == (if style == Single then 39 else 34)
    ensures IsNext(f, p, Gap, more, i, e)
  {
    hide Spelled, Inside, IsNext;
    var us, q := AllUnits(f, p + 1, style);
    i, e := Token(style, us), InQuotes(style, us, q < |f|);
    more := q < |f| && Stops(style, f[q]);
    if more {
      WholeString(f, p, style, us, q, e);
    } else {
      OpenString(f, p, style, us, q, i);
    }
  }

  lemma WholeString(f: Str, p: nat, style: Style, us: seq<Unit>, q: nat, e: End)
    requires p < q < |f| && style != Bare && f[p] == f[q] == (if style == Single then 39 else 34)
    requires f[p + 1..q] == Spelled(us) && forall u | u in us :: Inside(style, u)
    ensures IsNext(f, p, Gap, true, Token(style, us), e)
  {
    hide Spelled, Inside;
    ThreeSlices(f, p, q);
  }

  lemma ThreeSlices(f: Str, p: nat, q: nat)
    requires p < q < |f|
    ensures f[p..q + 1] == [f[p]] + f[p + 1..q] + [f[q]]
  {
  }

  lemma OpenString(f: Str, p: nat, style: Style, us: seq<Unit>, q: nat, i: Item)
    requires p < q <= |f| && style != Bare && f[p] == (if style == Single then 39 else 34)
    requires f[p + 1..q] == Spelled(us) && forall u | u in us :: Inside(style, u)
    requires q < |f| ==> f[q] == 92 && q + 1 == |f|
    ensures IsNext(f, p, Gap, false, i, InQuotes(style, us, q < |f|))
  {
    hide Spelled, Inside, EndText, Spells;
    OpenText(f, p, style, us, q);
    SpellsEnd(f, p, InQuotes(style, us, q < |f|));
  }

  lemma OpenText(f: Str, p: nat, style: Style, us: seq<Unit>, q: nat)
    requires p < q <= |f| && style != Bare && f[p] == (if style == Single then 39 else 34)
    requires f[p + 1..q] == Spelled(us) && (q < |f| ==> f[q] == 92 && q + 1 == |f|)
    ensures f[p..] == EndText(InQuotes(style, us, q < |f|))
  {
    hide Spelled;
    if q < |f| {
      ThreeSlices(f, p, q);
      assert f[p..q + 1] == f[p..];
    } else {
      SliceJoin(f, p, p + 1, q);
      assert f[p..p + 1] == [f[p]] && f[p..q] == f[p..];
    }
  }

  lemma SpellsEnd(f: Str, p: nat, e: End)
    requires p <= |f| && f[p..] == EndText(e) && !e.Mark?
    ensures Spells(f, p, [], e)
  {
    hide EndText;
    assert [] + EndText(e) == EndText(e);
    assert f[p..] == f[p..|f|];
  }

  lemma NextBare(f: Str, p: nat, place: Place) returns (more: bool, i: Item, e: End)
    requires GoesOn(f, p, place) && p < |f| && !EndsAt(place, f[p])
    requires f[p] != 9 && f[p] != 10 && f[p] != 13 && f[p] != 32
    requires place == Gap ==> f[p] != 35 && f[p] != 34 && f[p] != 39
    ensures IsNext(f, p, place, more, i, e)
  {
    hide Spelled;
    i, e := Blank(32), Lone;
    more := f[p] != 92 || p + 1 < |f|;
    if !more {
      assert f[p..p + 1] == [92] == [] + EndText(Lone);
    } else {
      assert !place.Behind?;
      var us, q := AllUnits(f, p, Bare);
      i := Token(Bare, us);
      BareLegal(f, p, place, us, q);
    }
  }

  lemma BareLegal(f: Str, p: nat, place: Place, us: seq<Unit>, q: nat)
    requires p < |f| && !EndsAt(place, f[p]) && place != Behind(us) && !place.Behind?
    requires f[p] != 9 && f[p] != 10 && f[p] != 13 && f[p] != 32 && (f[p] == 92 ==> p + 1 < |f|)
    requires place == Gap ==> f[p] != 35 && f[p] != 34 && f[p] != 39
    requires p <= q <= |f| && f[p..q] == Spelled(us) && forall u | u in us :: Inside(Bare, u)
    requires q < |f| ==> Stops(Bare, f[q]) || (f[q] == 92 && q + 1 == |f|)
    requires us == [] ==> q == p
    requires us != [] ==> us[0] == Plain(f[p]) || f[p] == 92 || f[p] == 36
    ensures us != [] && Legal(place, Token(Bare, us)) && q > p
  {
  }
}
