/** The configuration tokenizer of ngx_conf_file.c as a machine over the whole file. */
module ConfScan {
  import opened Bytes

  const LF: Byte := 10
  const CR: Byte := 13
  const TAB: Byte := 9
  const SPACE: Byte := 32
  const DQUOTE: Byte := 34
  const SHARP: Byte := 35
  const DOLLAR: Byte := 36
  const SQUOTE: Byte := 39
  const RPAREN: Byte := 41
  const SEMICOLON: Byte := 59
  const BACKSLASH: Byte := 92
  const LBRACE: Byte := 123
  const RBRACE: Byte := 125

  /** NGX_CONF_BUFFER. */
  const BUFFER: nat := 4096

  datatype Rc = Ok | BlockStart | BlockDone | FileDone | UnexpectedEnd | Unexpected | TooLong

  /** What one call yields, and where it leaves file position and line counter. */
  datatype Outcome = Outcome(rc: Rc, args: seq<Str>, line: nat, pos: nat)

  datatype Flags = Flags(needSpace: bool, lastSpace: bool, sharp: bool, variable: bool, quoted: bool,
                         sq: bool, dq: bool)

  const FIRST := Flags(false, true, false, false, false, false, false)

  /** The local variables of a call; `start` is where the current token, space or comment began. */
  datatype State = State(pos: nat, start: nat, line: nat, startLine: nat, args: seq<Str>, fl: Flags)

  datatype Move = Go(st: State) | Stop(out: Outcome)

  predicate IsSpace(c: Byte) {
    c == SPACE || c == TAB || c == CR || c == LF
  }

  // ----- Unescaping ------------------------------------------------------------------------------------

  /** Every backslash is followed by the character it quotes. */
  ghost predicate Paired(s: Str)
    decreases |s|
  {
    s == [] ||
    if s[0] == BACKSLASH then |s| >= 2 && Paired(s[2..]) else Paired(s[1..])
  }

  /** What a backslash before `c` stands for; `None` when the backslash stays. */
  function Escaped(c: Byte): Option<Byte> {
    if c == DQUOTE || c == SQUOTE || c == BACKSLASH then Some(c)
    else if c == 116 then Some(TAB)
    else if c == 114 then Some(CR)
    else if c == 110 then Some(LF)
    else None
  }

  function Unescape(s: Str): (r: Str)
    ensures |r| <= |s|
    decreases |s|
  {
    if s == [] then []
    else if s[0] == BACKSLASH && |s| >= 2 && Escaped(s[1]).Some? then
      [Escaped(s[1]).value] + Unescape(s[2..])
    else [s[0]] + Unescape(s[1..])
  }

  // ----- One character -----------------------------------------------------------------------------------

  /** A token ends before position `p`, at a character `ch`. */
  function Word(f: Str, st: State, p: nat, ch: Byte, fl: Flags): Move
    requires st.start <= p < |f|
  {
    var args := st.args + [Unescape(f[st.start..p])];
    if ch == SEMICOLON then Stop(Outcome(Ok, args, st.line, st.pos))
    else if ch == LBRACE then Stop(Outcome(BlockStart, args, st.line, st.pos))
    else Go(st.(args := args, fl := fl))
  }

  /** A character inside a token. */
  function InToken(f: Str, st: State, p: nat, ch: Byte): Move
    requires st.start <= p < |f|
  {
    var fl := st.fl;
    if ch == LBRACE && fl.variable then Go(st)
    else if ch == BACKSLASH then Go(st.(fl := fl.(variable := false, quoted := true)))
    else if ch == DOLLAR then Go(st.(fl := fl.(variable := true)))
    else
      var fl := fl.(variable := false);
      if fl.dq then
        if ch == DQUOTE then Word(f, st, p, ch, fl.(dq := false, needSpace := true)) else Go(st.(fl := fl))
      else if fl.sq then
        if ch == SQUOTE then Word(f, st, p, ch, fl.(sq := false, needSpace := true)) else Go(st.(fl := fl))
      else if IsSpace(ch) || ch == SEMICOLON || ch == LBRACE then
        Word(f, st, p, ch, fl.(lastSpace := true))
      else Go(st.(fl := fl))
  }

  /** A character between tokens. */
  function Between(st0: State, p: nat, ch: Byte): Move {
    var st := st0.(start := p, startLine := st0.line);
    var fl := st.fl;
    if IsSpace(ch) then Go(st)
    else if ch == SEMICOLON || ch == LBRACE then
      Stop(Outcome(if st.args == [] then Unexpected else if ch == LBRACE then BlockStart else Ok,
                   st.args, st.line, st.pos))
    else if ch == RBRACE then
      Stop(Outcome(if st.args != [] then Unexpected else BlockDone, st.args, st.line, st.pos))
    else if ch == SHARP then Go(st.(fl := fl.(sharp := true)))
    else if ch == BACKSLASH then Go(st.(fl := fl.(quoted := true, lastSpace := false)))
    else if ch == DQUOTE then Go(st.(start := p + 1, fl := fl.(dq := true, lastSpace := false)))
    else if ch == SQUOTE then Go(st.(start := p + 1, fl := fl.(sq := true, lastSpace := false)))
    else if ch == DOLLAR then Go(st.(fl := fl.(variable := true, lastSpace := false)))
    else Go(st.(fl := fl.(lastSpace := false)))
  }

  /** Taking a character: a line feed is counted and ends a comment. */
  function Take(st: State, ch: Byte): State {
    if ch == LF then st.(pos := st.pos + 1, line := st.line + 1, fl := st.fl.(sharp := false))
    else st.(pos := st.pos + 1)
  }

  /** The move on a character `ch` at position `p` that has been taken. */
  function Dispatch(f: Str, st: State, p: nat, ch: Byte): Move
    requires st.start <= p < |f|
  {
    if st.fl.sharp then Go(st)
    else if st.fl.quoted then Go(st.(fl := st.fl.(quoted := false)))
    else if st.fl.needSpace then
      if IsSpace(ch) then Go(st.(fl := st.fl.(lastSpace := true, needSpace := false)))
      else if ch == SEMICOLON then Stop(Outcome(Ok, st.args, st.line, st.pos))
      else if ch == LBRACE then Stop(Outcome(BlockStart, st.args, st.line, st.pos))
      else if ch == RPAREN then Between(st.(fl := st.fl.(lastSpace := true, needSpace := false)), p, ch)
      else Stop(Outcome(Unexpected, st.args, st.line, st.pos))
    else if st.fl.lastSpace then Between(st, p, ch)
    else InToken(f, st, p, ch)
  }

  /** The machine's move on the character at `st.pos`. */
  function Step(f: Str, st: State): Move
    requires st.start <= st.pos < |f|
  {
    Dispatch(f, Take(st, f[st.pos]), st.pos, f[st.pos])
  }

  lemma StepAdvances(f: Str, st: State)
    requires st.start <= st.pos < |f|
    ensures Step(f, st).Go? ==> Step(f, st).st.pos == st.pos + 1 && Step(f, st).st.start <= st.pos + 1
  {
  }

  // ----- A whole call ------------------------------------------------------------------------------------------

  function AtEnd(st: State): Outcome {
    Outcome(if st.args != [] || !st.fl.lastSpace then UnexpectedEnd else FileDone, st.args, st.line, st.pos)
  }

  /** The scan with the whole file in one buffer; a token, space or comment that fills `limit` bytes is
      too long. */
  function Scan(f: Str, st: State, limit: Option<nat>): Outcome
    requires st.start <= st.pos <= |f|
    decreases |f| - st.pos
  {
    if st.pos == |f| then AtEnd(st)
    else if limit == Some(st.pos - st.start) then Outcome(TooLong, st.args, st.startLine, st.pos)
    else
      match Step(f, st)
      case Stop(out) => out
      case Go(next) => StepAdvances(f, st); Scan(f, next, limit)
  }

  /** One step of a scan. */
  lemma ScanStep(f: Str, st: State, limit: nat)
    requires st.start <= st.pos <= |f|
    ensures st.pos == |f| ==> Scan(f, st, Some(limit)) == AtEnd(st)
    ensures st.pos < |f| && limit == st.pos - st.start ==>
      Scan(f, st, Some(limit)) == Outcome(TooLong, st.args, st.startLine, st.pos)
    ensures st.pos < |f| && limit != st.pos - st.start && Step(f, st).Stop? ==>
      Scan(f, st, Some(limit)) == Step(f, st).out
    ensures st.pos < |f| && limit != st.pos - st.start && Step(f, st).Go? ==>
      && Step(f, st).st.start <= Step(f, st).st.pos <= |f|
      && Scan(f, st, Some(limit)) == Scan(f, Step(f, st).st, Some(limit))
  {
    hide Step;
    if st.pos < |f| {
      StepAdvances(f, st);
    }
  }

  function Begin(pos: nat, line: nat): State {
    State(pos, pos, line, line, [], FIRST)
  }

  /** A limit only cuts scans short: unless the token is too long, the outcome is that without limit. */
  lemma {:induction false} LimitOnlyCuts(f: Str, st: State, limit: nat)
    requires st.start <= st.pos <= |f|
    ensures Scan(f, st, Some(limit)).rc != TooLong ==> Scan(f, st, Some(limit)) == Scan(f, st, None)
    decreases |f| - st.pos
  {
    hide Step;
    if st.pos < |f| && limit != st.pos - st.start && Step(f, st).Go? {
      StepAdvances(f, st);
      LimitOnlyCuts(f, Step(f, st).st, limit);
    }
  }

  // ----- Complete backslash pairs ------------------------------------------------------------------------------

  lemma {:induction false} PairedAppend(a: Str, b: Str)
    requires Paired(a)
    ensures Paired(a + b) == Paired(b)
    decreases |a|
  {
    if a == [] {
      assert a + b == b;
    } else {
      var k := if a[0] == BACKSLASH then 2 else 1;
      assert (a + b)[k..] == a[k..] + b;
      PairedAppend(a[k..], b);
    }
  }

  lemma PairedSmall(c: Byte, d: Byte)
    ensures c != BACKSLASH ==> Paired([c])
    ensures Paired([BACKSLASH, d])
  {
    var one, two: Str := [c], [BACKSLASH, d];
    assert one[1..] == [] && two[2..] == [];
  }

  /** Inside a token everything up to the current position is complete pairs, but for a backslash that
      waits for its character. */
  ghost predicate TokenInv(f: Str, st: State) {
    && st.start <= st.pos <= |f|
    && (st.fl.quoted ==> !st.fl.lastSpace && !st.fl.needSpace && !st.fl.sharp
                         && st.start < st.pos && f[st.pos - 1] == BACKSLASH && Paired(f[st.start..st.pos - 1]))
    && (!st.fl.quoted && !st.fl.lastSpace && !st.fl.needSpace ==> !st.fl.sharp && Paired(f[st.start..st.pos]))
    && (st.fl.sharp ==> st.fl.lastSpace && !st.fl.needSpace)
    && (st.fl.lastSpace ==> !st.fl.needSpace)
  }

  lemma BeginInv(f: Str, pos: nat, line: nat)
    requires pos <= |f|
    ensures TokenInv(f, Begin(pos, line))
  {
  }

  lemma SliceGrows(f: Str, start: nat, p: nat)
    requires start <= p < |f|
    ensures Paired(f[start..p]) && f[p] != BACKSLASH ==> Paired(f[start..p + 1])
    ensures start < p && Paired(f[start..p - 1]) && f[p - 1] == BACKSLASH ==> Paired(f[start..p + 1])
    ensures f[p] != BACKSLASH ==> Paired(f[p..p + 1])
    ensures Paired(f[p + 1..p + 1])
  {
    hide Paired;
    PairedSmall(f[p], f[p]);
    EmptyPaired();
    assert f[p..p + 1] == [f[p]] && f[p + 1..p + 1] == [];
    SliceStep(f, start, p);
    if Paired(f[start..p]) {
      PairedAppend(f[start..p], [f[p]]);
    }
    if start < p && Paired(f[start..p - 1]) && f[p - 1] == BACKSLASH {
      SliceStep(f, start, p - 1);
      assert f[start..p + 1] == f[start..p - 1] + [BACKSLASH, f[p]];
      PairedAppend(f[start..p - 1], [BACKSLASH, f[p]]);
    }
  }

  lemma EmptyPaired()
    ensures Paired([])
  {
  }

  /** Every move keeps the invariant, so every word that is unescaped consists of complete pairs. */
  lemma StepKeepsInv(f: Str, st: State)
    requires TokenInv(f, st) && st.pos < |f|
    ensures Step(f, st).Go? ==> TokenInv(f, Step(f, st).st)
  {
    hide Paired, Unescape, InToken, Between;
    SliceGrows(f, st.start, st.pos);
    var taken := Take(st, f[st.pos]);
    if !st.fl.quoted && !taken.fl.sharp {
      BetweenKeepsInv(f, taken.(fl := taken.fl.(lastSpace := true, needSpace := false)));
    }
    if !st.fl.quoted && !st.fl.lastSpace && !st.fl.needSpace {
      InTokenKeepsInv(f, taken);
    }
  }

  lemma BetweenKeepsInv(f: Str, st: State)
    requires 0 < st.pos <= |f|
    requires !st.fl.quoted && !st.fl.needSpace && !st.fl.sharp && st.fl.lastSpace
    ensures var move := Between(st, st.pos - 1, f[st.pos - 1]); move.Go? ==> TokenInv(f, move.st)
  {
    hide Paired;
    SliceGrows(f, st.pos - 1, st.pos - 1);
    assert f[st.pos - 1..st.pos - 1] == [];
    EmptyPaired();
  }

  lemma InTokenKeepsInv(f: Str, st: State)
    requires st.start < st.pos <= |f| && Paired(f[st.start..st.pos - 1])
    requires !st.fl.quoted && !st.fl.needSpace && !st.fl.sharp && !st.fl.lastSpace
    ensures var move := InToken(f, st, st.pos - 1, f[st.pos - 1]); move.Go? ==> TokenInv(f, move.st)
  {
    hide Paired, Unescape;
    SliceGrows(f, st.start, st.pos - 1);
  }

  /** Does the move on this character end a word? */
  predicate EndsWord(f: Str, st: State)
    requires st.pos < |f|
  {
    && !st.fl.sharp && !st.fl.quoted && !st.fl.needSpace && !st.fl.lastSpace
    && !(f[st.pos] == LBRACE && st.fl.variable)
    && if st.fl.dq then f[st.pos] == DQUOTE
       else if st.fl.sq then f[st.pos] == SQUOTE
       else IsSpace(f[st.pos]) || f[st.pos] == SEMICOLON || f[st.pos] == LBRACE
  }

  /** A word is added exactly when one ends; it is the unescaped text since `start`, which consists of
      complete pairs. */
  lemma WordAdded(f: Str, st: State)
    requires TokenInv(f, st) && st.pos < |f|
    ensures var args := match Step(f, st) case Go(n) => n.args case Stop(o) => o.args;
      args == if EndsWord(f, st) then st.args + [Unescape(f[st.start..st.pos])] else st.args
    ensures EndsWord(f, st) ==> Paired(f[st.start..st.pos])
  {
    hide Paired, Unescape;
  }
}
