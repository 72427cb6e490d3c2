/** Writing a directive so that the tokenizer reads the same words back. */
module ConfText {
  import opened Bytes
  import opened ConfScan

  /** A word as it is written between double quotes. */
  function Escape(w: Str): Str {
    if w == [] then []
    else (if w[0] == DQUOTE || w[0] == BACKSLASH then [BACKSLASH, w[0]] else [w[0]]) + Escape(w[1..])
  }

  function Quote(w: Str): Str {
    [DQUOTE] + Escape(w) + [DQUOTE, SPACE]
  }

  /** A directive with these words. */
  function Written(words: seq<Str>): (r: Str)
    ensures r != []
  {
    if words == [] then [SEMICOLON] else Quote(words[0]) + Written(words[1..])
  }

  function LineFeeds(w: Str): nat {
    if w == [] then 0 else (if w[0] == LF then 1 else 0) + LineFeeds(w[1..])
  }

  function AllLineFeeds(words: seq<Str>): nat {
    if words == [] then 0 else LineFeeds(words[0]) + AllLineFeeds(words[1..])
  }

  /** The escaped word, its closing quote and the space behind it stay below the limit: until the next word
      starts, they count as one token. */
  predicate Fits(w: Str, limit: Option<nat>) {
    limit == None || |Escape(w)| + 2 < limit.value
  }

  lemma {:induction false} UnescapeEscape(w: Str)
    ensures Unescape(Escape(w)) == w
  {
    if w != [] {
      var e := Escape(w);
      UnescapeEscape(w[1..]);
      if w[0] == DQUOTE || w[0] == BACKSLASH {
        assert e[2..] == Escape(w[1..]);
      } else {
        assert e[1..] == Escape(w[1..]);
      }
    }
  }

  lemma SliceParts(f: Str, p: nat, a: Str, b: Str)
    requires p + |a| + |b| <= |f| && f[p..p + |a| + |b|] == a + b
    ensures f[p..p + |a|] == a && f[p + |a|..p + |a| + |b|] == b
  {
    SliceOfSlice(f, p, p + |a| + |b|, 0, |a|);
    SliceOfSlice(f, p, p + |a| + |b|, |a|, |a| + |b|);
    AppendSlices(a, b, 0);
  }

  // ----- Single steps --------------------------------------------------------------------------------

  /** One step of a scan under any limit. */
  lemma ScanOn(f: Str, st: State, limit: Option<nat>)
    requires st.start <= st.pos < |f|
    ensures limit == Some(st.pos - st.start) ==> Scan(f, st, limit).rc == TooLong
    ensures limit != Some(st.pos - st.start) && Step(f, st).Stop? ==> Scan(f, st, limit) == Step(f, st).out
    ensures limit != Some(st.pos - st.start) && Step(f, st).Go? ==>
      && Step(f, st).st.start <= Step(f, st).st.pos <= |f|
      && Scan(f, st, limit) == Scan(f, Step(f, st).st, limit)
  {
    hide Step;
    StepAdvances(f, st);
  }

  ghost predicate InQuotes(st: State) {
    st.fl == FIRST.(lastSpace := false, dq := true, variable := st.fl.variable)
  }

  /** Room left before the token is too long. */
  predicate Room(st: State, n: nat, limit: Option<nat>) {
    limit == None || st.pos + n - st.start <= limit.value
  }

  lemma PlainChar(f: Str, st: State)
    requires InQuotes(st) && st.start <= st.pos < |f|
    requires f[st.pos] != DQUOTE && f[st.pos] != BACKSLASH
    ensures Step(f, st).Go?
    ensures var n := Step(f, st).st;
      && InQuotes(n)
      && n == st.(pos := st.pos + 1, line := st.line + LineFeeds([f[st.pos]]), fl := n.fl)
  {
    assert [f[st.pos]][1..] == [];
  }

  lemma QuotedChar(f: Str, st: State)
    requires InQuotes(st) && st.start <= st.pos < |f| - 1
    requires f[st.pos] == BACKSLASH && (f[st.pos + 1] == DQUOTE || f[st.pos + 1] == BACKSLASH)
    ensures Step(f, st).Go? && Step(f, st).st.start <= Step(f, st).st.pos < |f|
    ensures Step(f, st).st == st.(pos := st.pos + 1, fl := Step(f, st).st.fl)
    ensures Step(f, Step(f, st).st).Go?
    ensures var n := Step(f, Step(f, st).st).st; InQuotes(n) && n == st.(pos := st.pos + 2, fl := n.fl)
  {
  }

  /** One character of a word, with its backslash when it has one. */
  lemma OneChar(f: Str, st: State, c: Byte, e: Str, limit: Option<nat>) returns (v: bool)
    requires InQuotes(st) && st.start <= st.pos && st.pos + |e| <= |f|
    requires e == if c == DQUOTE || c == BACKSLASH then [BACKSLASH, c] else [c]
    requires f[st.pos..st.pos + |e|] == e && Room(st, 0, limit)
    ensures InQuotes(st.(fl := st.fl.(variable := v)))
    ensures Room(st, |e|, limit) ==>
      Scan(f, st, limit)
      == Scan(f, st.(pos := st.pos + |e|, line := st.line + LineFeeds([c]), fl := st.fl.(variable := v)), limit)
    ensures !Room(st, |e|, limit) ==> Scan(f, st, limit).rc == TooLong
  {
    hide Step, Scan;
    assert e[0] == f[st.pos];
    assert [c][1..] == [];
    if |e| == 1 {
      PlainChar(f, st);
      ScanOn(f, st, limit);
      v := Step(f, st).st.fl.variable;
    } else {
      assert e[1] == f[st.pos + 1];
      QuotedChar(f, st);
      var mid := Step(f, st).st;
      ScanOn(f, st, limit);
      ScanOn(f, mid, limit);
      v := Step(f, mid).st.fl.variable;
    }
  }

  /** A word between quotes is skipped over to the closing quote. */
  lemma {:induction false} InsideQuotes(f: Str, st: State, w: Str, limit: Option<nat>) returns (v: bool)
    requires InQuotes(st) && st.start <= st.pos && st.pos + |Escape(w)| <= |f|
    requires f[st.pos..st.pos + |Escape(w)|] == Escape(w) && Room(st, 0, limit)
    ensures Room(st, |Escape(w)|, limit) ==>
      Scan(f, st, limit)
      == Scan(f, st.(pos := st.pos + |Escape(w)|, line := st.line + LineFeeds(w), fl := st.fl.(variable := v)),
              limit)
    ensures !Room(st, |Escape(w)|, limit) ==> Scan(f, st, limit).rc == TooLong
    decreases |w|
  {
    hide Scan, Escape, LineFeeds;
    v := st.fl.variable;
    if w == [] {
      NoChar();
      assert st == st.(fl := st.fl.(variable := v));
    } else {
      var e := if w[0] == DQUOTE || w[0] == BACKSLASH then [BACKSLASH, w[0]] else [w[0]];
      FirstChar(w);
      SliceParts(f, st.pos, e, Escape(w[1..]));
      var u := OneChar(f, st, w[0], e, limit);
      if Room(st, |e|, limit) {
        v := InsideQuotes(f, st.(pos := st.pos + |e|, line := st.line + LineFeeds([w[0]]),
                                 fl := st.fl.(variable := u)), w[1..], limit);
      }
    }
  }

  lemma NoChar()
    ensures Escape([]) == [] && LineFeeds([]) == 0
  {
  }

  lemma FirstChar(w: Str)
    requires w != []
    ensures Escape(w) == (if w[0] == DQUOTE || w[0] == BACKSLASH then [BACKSLASH, w[0]] else [w[0]]) + Escape(w[1..])
    ensures LineFeeds(w) == LineFeeds([w[0]]) + LineFeeds(w[1..])
  {
    assert [w[0]][1..] == [];
  }

  // ----- A word, a directive -------------------------------------------------------------------------

  lemma OpeningQuote(f: Str, st: State)
    requires st.fl == FIRST && st.start <= st.pos < |f| && f[st.pos] == DQUOTE
    ensures Step(f, st) == Go(st.(start := st.pos + 1, startLine := st.line, pos := st.pos + 1,
                                  fl := FIRST.(lastSpace := false, dq := true)))
  {
  }

  /** The closing quote and the space. */
  lemma ClosingQuote(f: Str, st: State)
    requires InQuotes(st) && st.start <= st.pos < |f| - 1 && f[st.pos] == DQUOTE && f[st.pos + 1] == SPACE
    ensures var n := Step(f, st);
      && n.Go?
      && n.st == st.(pos := st.pos + 1, args := st.args + [Unescape(f[st.start..st.pos])],
                     fl := FIRST.(lastSpace := false, needSpace := true))
      && Step(f, n.st) == Go(n.st.(pos := st.pos + 2, fl := FIRST))
  {
    hide Unescape;
  }

  /** Where a scan stands after a quoted word. */
  function After(st: State, w: Str): State {
    st.(pos := st.pos + |Escape(w)| + 3, start := st.pos + 1, line := st.line + LineFeeds(w),
        startLine := st.line, args := st.args + [w])
  }

  lemma QuoteParts(f: Str, p: nat, w: Str)
    requires p + |Quote(w)| <= |f| && f[p..p + |Quote(w)|] == Quote(w)
    ensures |Quote(w)| == |Escape(w)| + 3
    ensures f[p] == DQUOTE && f[p + 1..p + 1 + |Escape(w)|] == Escape(w)
    ensures f[p + 1 + |Escape(w)|] == DQUOTE && f[p + 2 + |Escape(w)|] == SPACE
  {
    hide Escape;
    var q, e := Quote(w), Escape(w);
    assert q[0] == DQUOTE && q[1..1 + |e|] == e && q[1 + |e|] == DQUOTE && q[2 + |e|] == SPACE;
    SliceOfSlice(f, p, p + |q|, 1, 1 + |e|);
    assert f[p] == q[0] && f[p + (1 + |e|)] == q[1 + |e|] && f[p + (2 + |e|)] == q[2 + |e|];
  }

  /** The part of a quoted word up to the closing quote. */
  lemma QuotedBody(f: Str, st: State, w: Str, limit: Option<nat>) returns (n: State)
    requires st.fl == FIRST && st.start <= st.pos && st.pos + |Quote(w)| <= |f|
    requires f[st.pos..st.pos + |Quote(w)|] == Quote(w)
    requires limit != Some(st.pos - st.start) && limit != Some(0)
    ensures InQuotes(n) && n == After(st, w).(pos := st.pos + 1 + |Escape(w)|, args := st.args, fl := n.fl)
    ensures st.pos + |Escape(w)| + 3 <= |f| && (limit == None || |Escape(w)| <= limit.value ==>
      Scan(f, st, limit) == Scan(f, n, limit))
    ensures limit.Some? && limit.value < |Escape(w)| ==> Scan(f, st, limit).rc == TooLong
  {
    hide Scan, Step, Escape, LineFeeds, Quote;
    QuoteParts(f, st.pos, w);
    OpeningQuote(f, st);
    ScanOn(f, st, limit);
    var inside := Step(f, st).st;
    var v := InsideQuotes(f, inside, w, limit);
    n := inside.(pos := inside.pos + |Escape(w)|, line := inside.line + LineFeeds(w),
                 fl := inside.fl.(variable := v));
  }

  /** A quoted word is read as the word it was written for, unless it does not fit. */
  lemma ReadQuoted(f: Str, st: State, w: Str, limit: Option<nat>)
    requires st.fl == FIRST && st.start <= st.pos && st.pos + |Quote(w)| < |f|
    requires f[st.pos..st.pos + |Quote(w)|] == Quote(w)
    requires limit != Some(st.pos - st.start) && limit != Some(0)
    ensures st.pos + |Escape(w)| + 3 < |f|
    ensures Fits(w, limit) ==> Scan(f, st, limit) == Scan(f, After(st, w), limit)
    ensures !Fits(w, limit) ==> Scan(f, st, limit).rc == TooLong
  {
    hide Scan, Step, Escape, LineFeeds, Quote, Unescape;
    QuoteParts(f, st.pos, w);
    var n := QuotedBody(f, st, w, limit);
    UnescapeEscape(w);
    ClosingQuote(f, n);
    ScanOn(f, n, limit);
    ScanOn(f, Step(f, n).st, limit);
    ScanOn(f, After(st, w), limit);
  }

  lemma WrittenParts(f: Str, p: nat, words: seq<Str>)
    requires words != [] && p + |Written(words)| <= |f| && f[p..p + |Written(words)|] == Written(words)
    ensures var q := p + |Quote(words[0])|;
      && q + |Written(words[1..])| == p + |Written(words)| && q < |f|
      && f[p..q] == Quote(words[0]) && f[q..q + |Written(words[1..])|] == Written(words[1..])
  {
    hide Quote, Written;
    FirstWord(words);
    SliceParts(f, p, Quote(words[0]), Written(words[1..]));
  }

  lemma FirstWord(words: seq<Str>)
    requires words != []
    ensures Written(words) == Quote(words[0]) + Written(words[1..]) && Written(words[1..]) != []
  {
    hide Quote;
  }

  lemma FirstAndRest<T>(args: seq<T>, words: seq<T>)
    requires words != []
    ensures args + [words[0]] + words[1..] == args + words
  {
  }

  /** A scan from between two tokens of a written directive. */
  lemma {:induction false} ReadRest(f: Str, st: State, words: seq<Str>, limit: Option<nat>)
    requires st.fl == FIRST && st.start <= st.pos && st.pos + |Written(words)| <= |f|
    requires f[st.pos..st.pos + |Written(words)|] == Written(words)
    requires st.args + words != [] && limit != Some(st.pos - st.start) && limit != Some(0)
    ensures (forall i | 0 <= i < |words| :: Fits(words[i], limit)) ==>
      Scan(f, st, limit)
      == Outcome(Ok, st.args + words, st.line + AllLineFeeds(words), st.pos + |Written(words)|)
    ensures !(forall i | 0 <= i < |words| :: Fits(words[i], limit)) ==> Scan(f, st, limit).rc == TooLong
    decreases |words|
  {
    hide Scan, Escape, LineFeeds, Quote, Step;
    if words == [] {
      Semicolon(f, st, limit);
    } else {
      var w, rest := words[0], words[1..];
      WrittenParts(f, st.pos, words);
      QuoteParts(f, st.pos, w);
      ReadQuoted(f, st, w, limit);
      if Fits(w, limit) {
        ReadRest(f, After(st, w), rest, limit);
        FirstAndRest(st.args, words);
        assert forall i | 0 <= i < |rest| :: rest[i] == words[i + 1];
        assert forall i | 1 <= i < |words| :: words[i] == rest[i - 1];
      }
    }
  }

  lemma Semicolon(f: Str, st: State, limit: Option<nat>)
    requires st.fl == FIRST && st.start <= st.pos && st.pos + |Written([])| <= |f| && st.args != []
    requires f[st.pos..st.pos + |Written([])|] == Written([]) && limit != Some(st.pos - st.start)
    ensures Scan(f, st, limit) == Outcome(Ok, st.args + [], st.line, st.pos + |Written([])|)
  {
    assert f[st.pos] == f[st.pos..st.pos + 1][0] == SEMICOLON;
    assert st.args + [] == st.args;
  }

  /** Wherever a directive is written in a file, a call that starts there returns its words, leaves the
      position behind it and counts its line feeds; with the buffer's limit, exactly when every word fits. */
  lemma WrittenIsRead(f: Str, pos: nat, line: nat, words: seq<Str>)
    requires words != [] && pos + |Written(words)| <= |f|
    requires f[pos..pos + |Written(words)|] == Written(words)
    ensures var out := Outcome(Ok, words, line + AllLineFeeds(words), pos + |Written(words)|);
      && Scan(f, Begin(pos, line), None) == out
      && ((forall i | 0 <= i < |words| :: Fits(words[i], Some(BUFFER))) ==>
            Scan(f, Begin(pos, line), Some(BUFFER)) == out)
      && (!(forall i | 0 <= i < |words| :: Fits(words[i], Some(BUFFER))) ==>
            Scan(f, Begin(pos, line), Some(BUFFER)).rc == TooLong)
  {
    hide Scan, Written;
    ReadRest(f, Begin(pos, line), words, None);
    ReadRest(f, Begin(pos, line), words, Some(BUFFER));
    assert [] + words == words;
  }

  // ----- Comments --------------------------------------------------------------------------------------

  /** A comment of `n` bytes after its '#', up to the end of the line. */
  ghost predicate CommentAt(f: Str, pos: nat, n: nat) {
    && pos + n + 1 < |f| && f[pos] == SHARP && f[pos + n + 1] == LF
    && forall i | pos < i <= pos + n :: f[i] != LF
  }

  /** Inside a comment that started at `st.start` and has `n` bytes left: it runs to the line feed unless the
      limit comes first. */
  lemma {:induction false} InComment(f: Str, st: State, n: nat, limit: nat)
    requires st.fl == FIRST.(sharp := true) && st.start <= st.pos && st.pos + n < |f|
    requires f[st.pos + n] == LF && forall i | st.pos <= i < st.pos + n :: f[i] != LF
    requires st.pos - st.start <= limit
    ensures if limit <= st.pos + n - st.start then
              Scan(f, st, Some(limit)) == Outcome(TooLong, st.args, st.startLine, st.start + limit)
            else
              Scan(f, st, Some(limit))
              == Scan(f, State(st.pos + n + 1, st.pos + n, st.line + 1, st.line + 1, st.args, FIRST), Some(limit))
    decreases n
  {
    hide Scan;
    ScanStep(f, st, limit);
    if n > 0 && limit != st.pos - st.start {
      InComment(f, st.(pos := st.pos + 1), n - 1, limit);
    }
  }

  /** Between tokens, a comment is too long exactly when it fills the buffer, its '#' included: then the call
      fails there, otherwise it goes on in the next line. */
  lemma CommentTooLongIff(f: Str, st: State, n: nat)
    requires st.fl == FIRST && st.start <= st.pos != st.start + BUFFER && CommentAt(f, st.pos, n)
    ensures var out := Scan(f, st, Some(BUFFER));
      if n + 1 >= BUFFER then out == Outcome(TooLong, st.args, st.line, st.pos + BUFFER)
      else out == Scan(f, State(st.pos + n + 2, st.pos + n + 1, st.line + 1, st.line + 1, st.args, FIRST),
                       Some(BUFFER))
  {
    hide Scan;
    ScanStep(f, st, BUFFER);
    InComment(f, Step(f, st).st, n, BUFFER);
  }
}
