/** `ngx_conf_read_token` as written: a 4096-byte buffer that slides over the file, and the loop that
    unescapes a word into fresh memory. */
module ConfFile {
  import opened Bytes
  import opened ConfScan
  import opened ConfGrammar
  import opened System

  /** Outcome of a call: that of the scan, or a failed read or allocation. */
  datatype Status = Scanned(rc: Rc) | Failed

  // ----- The unescape loop -----------------------------------------------------------------------------

  /** How far the loop moves at `i`, and what it writes. */
  ghost function Taken(s: Str, i: nat): (nat, Byte)
    requires i < |s|
  {
    if s[i] == BACKSLASH && i + 1 < |s| && Escaped(s[i + 1]).Some? then (2, Escaped(s[i + 1]).value)
    else (1, s[i])
  }

  /** A backslash that stays is copied alone; what it precedes is no backslash, so the rest is still
      complete pairs. */
  lemma UnescapeStep(s: Str, i: nat)
    requires i < |s| && Paired(s[i..])
    ensures s[i] == BACKSLASH ==> i + 1 < |s|
    ensures i + Taken(s, i).0 <= |s| && Paired(s[i + Taken(s, i).0..])
    ensures Unescape(s[i..]) == [Taken(s, i).1] + Unescape(s[i + Taken(s, i).0..])
  {
    assert s[i..][1..] == s[i + 1..];
    assert |s[i..]| >= 2 ==> s[i..][2..] == s[i + 2..] && s[i + 1..][1..] == s[i + 2..];
  }

  lemma UnescapeMore(done: Str, v: Byte, rest: Str, whole: Str)
    requires whole == done + ([v] + rest)
    ensures whole == (done + [v]) + rest
  {
  }

  /** Unescapes `buf[start..end]` into an allocation of one byte more than the text: the loop stays
      inside the text and inside the allocation, and ends with a NUL. */
  method UnescapeWord(buf: array<Byte>, start: nat, end: nat) returns (dst: array<Byte>, len: nat)
    requires start <= end <= buf.Length && Paired(buf[start..end])
    ensures fresh(dst) && dst.Length == end - start + 1 && len < dst.Length
    ensures dst[..len] == Unescape(buf[start..end]) && dst[len] == 0
  {
    hide Paired, Unescape, Escaped;
    dst := new Byte[end - start + 1];
    ghost var s := buf[start..end];
    var src := start;
    len := 0;
    assert s[0..] == s;
    while src < end
      invariant start <= src <= end && len <= src - start
      invariant buf[start..end] == s && Paired(s[src - start..])
      invariant Unescape(s) == dst[..len] + Unescape(s[src - start..])
      decreases end - src
    {
      ghost var done, i := dst[..len], src - start;
      UnescapeStep(s, i);
      if buf[src] == BACKSLASH && Escaped(buf[src + 1]).Some? {
        dst[len] := Escaped(buf[src + 1]).value;
        src := src + 2;
      } else {
        dst[len] := buf[src];
        src := src + 1;
      }
      len := len + 1;
      assert dst[..len] == done + [Taken(s, i).1];
      UnescapeMore(done, Taken(s, i).1, Unescape(s[src - start..]), Unescape(s));
    }
    EmptyUnescape();
    assert s[src - start..] == [];
    dst[len] := 0;
  }

  lemma EmptyUnescape()
    ensures Unescape([]) == []
  {
  }

  /** The local variables of a call besides the machine's flags; `start` is an index of the buffer. */
  datatype Locals = Locals(start: nat, startLine: nat, fl: Flags)

  /** How one character leaves a call: with a return code, with a failed allocation, or going on. */
  datatype Next = Return(rc: Rc) | Fail | Continue(loc: Locals)

  // ----- The sliding buffer ------------------------------------------------------------------------------

  /** `ngx_conf_file_t` with its buffer: `file` is the content on disk, `offset` how much of it was read,
      `pos` and `last` the unread part of the buffer. */
  class Reader {
    const file: Str
    const buf: array<Byte>
    var pos: nat
    var last: nat
    var offset: nat
    var line: nat
    var args: seq<Str>
    const system: Requests

    ghost predicate Valid()
      reads this, buf
    {
      && buf.Length == BUFFER && pos <= last <= BUFFER && last <= offset <= |file|
      && buf[..last] == file[offset - last..offset]
    }

    /** The file position of the first buffer byte. */
    ghost function Base(): int
      reads this
    {
      offset - last
    }

    /** The file position that is read next. */
    ghost function At(): int
      reads this
    {
      offset - last + pos
    }

    /** As `ngx_conf_parse` opens a file. */
    constructor (file: Str, system: Requests)
      ensures Valid() && At() == 0 && line == 1 && this.file == file && this.system == system && fresh(buf)
    {
      this.file, this.system := file, system;
      buf := new Byte[BUFFER];
      pos, last, offset, line, args := 0, 0, 0, 1, [];
    }

    /** `ngx_read_file` into the buffer at `at`; may fail or come back short. */
    method Read(at: nat, size: nat) returns (ok: bool)
      requires buf.Length == BUFFER && at + size <= BUFFER && offset + size <= |file|
      modifies buf, system
      ensures ok ==> buf[..at + size] == old(buf[..at]) + file[offset..offset + size]
      ensures old(system.asked) <= system.asked && (!ok ==> system.Refused(old(system.asked)))
    {
      var granted := system.Ask();
      ok := granted.Some?;
      if !ok {
        return;
      }
      var chunk := file[offset..offset + size];
      ghost var kept, tail := buf[..at], buf[at + size..];
      Copy(buf, at, chunk);
      ghost var all := buf[..];
      assert all == (kept + chunk) + tail && buf[..at + size] == all[..at + size];
      AppendSlices(kept + chunk, tail, 0);
    }

    /** `ngx_memmove` of the `len` bytes from `start` to the front. */
    method MoveDown(start: nat, len: nat)
      requires start + len <= buf.Length
      modifies buf
      ensures buf[..len] == old(buf[start..start + len])
      ensures buf[len..] == old(buf[len..])
    {
      ghost var was := buf[..];
      for i := 0 to len
        invariant forall j | 0 <= j < i :: buf[j] == was[start + j]
        invariant forall j | i <= j < buf.Length :: buf[j] == was[j]
      {
        buf[i] := buf[start + i];
      }
      assert buf[..len] == was[start..start + len] && buf[len..] == was[len..];
    }

    /** Moves the unfinished token to the front: then it ends where the next read starts. */
    method KeepToken(start: nat) returns (len: nat)
      requires Valid() && start <= pos == last
      modifies buf
      ensures len == pos - start && len <= offset && buf[..len] == file[offset - len..offset]
    {
      len := pos - start;
      ghost var window := buf[..last];
      WindowTail(file, window, offset, last, start);
      assert buf[start..start + len] == window[start..];
      if len > 0 {
        MoveDown(start, len);
      }
    }

    /** The bytes behind `len` that precede the next read in the file. */
    method ReadOn(len: nat, size: nat) returns (ok: bool)
      requires buf.Length == BUFFER && len + size <= BUFFER && len <= offset && offset + size <= |file|
      requires buf[..len] == file[offset - len..offset]
      modifies buf, system
      ensures ok ==> buf[..len + size] == file[offset - len..offset + size]
      ensures old(system.asked) <= system.asked && (!ok ==> system.Refused(old(system.asked)))
    {
      hide RefusedIn;
      SliceJoin(file, offset - len, offset, offset + size);
      ok := Read(len, size);
    }

    /** Reads on behind the first `len` bytes, which precede the next read in the file. */
    method FillBehind(len: nat) returns (ok: bool)
      requires buf.Length == BUFFER && len < BUFFER && len <= offset < |file|
      requires buf[..len] == file[offset - len..offset]
      modifies this, buf, system
      ensures ok ==> Valid() && pos == len < last && Base() == old(offset) - len
      ensures ok ==> line == old(line) && args == old(args)
      ensures old(system.asked) <= system.asked && (!ok ==> system.Refused(old(system.asked)))
    {
      hide RefusedIn;
      var size := |file| - offset;
      if size > BUFFER - len {
        size := BUFFER - len;
      }
      ok := ReadOn(len, size);
      if !ok {
        return;
      }
      pos := len;
      last := pos + size;
      offset := offset + size;
    }

    /** The buffer is used up before the file is: the bytes from `start` on move to the front and the rest
        is filled from the file. */
    method Refill(start: nat) returns (ok: bool)
      requires Valid() && start <= pos == last && offset < |file| && pos - start < BUFFER
      modifies this, buf, system
      ensures ok ==> Valid() && pos < last && pos == old(pos) - start
      ensures ok ==> At() == old(At()) && Base() == old(Base()) + start
      ensures ok ==> line == old(line) && args == old(args)
      ensures old(system.asked) <= system.asked && (!ok ==> system.Refused(old(system.asked)))
    {
      var len := KeepToken(start);
      ok := FillBehind(len);
    }

    /** The state of the machine over the whole file that the buffer and the local variables stand for. */
    ghost function Machine(loc: Locals): State
      reads this
      requires 0 <= Base()
    {
      State(offset - last + pos, offset - last + loc.start, line, loc.startLine, args, loc.fl)
    }

    /** The reader agrees with the machine's move, or the system refused a request since there were `from`. */
    ghost predicate Agrees(move: Move, next: Next, from: nat)
      reads this, buf, system
    {
      && Valid()
      && match next
         case Fail => system.Refused(from)
         case Return(rc) => move == Stop(Outcome(rc, args, line, offset - last + pos))
         case Continue(loc) => loc.start <= pos && move == Go(Machine(loc))
    }

    /** Unescapes the token that ends before the character just read and appends it to the arguments. */
    method EndWord(loc: Locals, ch: Byte) returns (next: Next)
      requires Valid() && loc.start < pos && buf[pos - 1] == ch && Paired(buf[loc.start..pos - 1])
      modifies this`args, system
      ensures Agrees(Word(file, old(Machine(loc)), offset - last + pos - 1, ch, loc.fl), next, old(system.asked))
      ensures old(system.asked) <= system.asked
    {
      hide Paired, Unescape;
      var granted := system.Ask();
      if granted == None {
        return Fail;
      }
      Shown(loc.start, pos - 1);
      var dst, len := UnescapeWord(buf, loc.start, pos - 1);
      args := args + [dst[..len]];
      if ch == SEMICOLON {
        return Return(Ok);
      }
      if ch == LBRACE {
        return Return(BlockStart);
      }
      next := Continue(loc);
    }

    /** The `switch` on a character between tokens. */
    method BetweenTokens(loc0: Locals, ch: Byte) returns (next: Next)
      requires Valid() && 0 < pos && loc0.start <= pos
      ensures Agrees(Between(Machine(loc0), offset - last + pos - 1, ch), next, old(system.asked))
    {
      var loc := loc0.(start := pos - 1, startLine := line);
      if IsSpace(ch) {
        return Continue(loc);
      }
      if ch == SEMICOLON || ch == LBRACE {
        if |args| == 0 {
          return Return(Unexpected);
        }
        if ch == LBRACE {
          return Return(BlockStart);
        }
        return Return(Ok);
      }
      if ch == RBRACE {
        if |args| != 0 {
          return Return(Unexpected);
        }
        return Return(BlockDone);
      }
      if ch == SHARP {
        return Continue(loc.(fl := loc.fl.(sharp := true)));
      }
      if ch == BACKSLASH {
        return Continue(loc.(fl := loc.fl.(quoted := true, lastSpace := false)));
      }
      if ch == DQUOTE {
        return Continue(loc.(start := pos, fl := loc.fl.(dq := true, lastSpace := false)));
      }
      if ch == SQUOTE {
        return Continue(loc.(start := pos, fl := loc.fl.(sq := true, lastSpace := false)));
      }
      if ch == DOLLAR {
        return Continue(loc.(fl := loc.fl.(variable := true, lastSpace := false)));
      }
      next := Continue(loc.(fl := loc.fl.(lastSpace := false)));
    }

    /** A character inside a token. */
    method InsideToken(loc: Locals, ch: Byte) returns (next: Next)
      requires Valid() && loc.start < pos && buf[pos - 1] == ch && Paired(buf[loc.start..pos - 1])
      modifies this`args, system
      ensures Agrees(InToken(file, old(Machine(loc)), offset - last + pos - 1, ch), next, old(system.asked))
      ensures old(system.asked) <= system.asked
    {
      hide Paired, Unescape, Word, RefusedIn;
      if ch == LBRACE && loc.fl.variable {
        return Continue(loc);
      }
      if ch == BACKSLASH {
        return Continue(loc.(fl := loc.fl.(variable := false, quoted := true)));
      }
      if ch == DOLLAR {
        return Continue(loc.(fl := loc.fl.(variable := true)));
      }
      var found, fl := false, loc.fl.(variable := false);
      if fl.dq {
        if ch == DQUOTE {
          found, fl := true, fl.(dq := false, needSpace := true);
        }
      } else if fl.sq {
        if ch == SQUOTE {
          found, fl := true, fl.(sq := false, needSpace := true);
        }
      } else if IsSpace(ch) || ch == SEMICOLON || ch == LBRACE {
        found, fl := true, fl.(lastSpace := true);
      }
      if found {
        WordIgnoresFlags(file, Machine(loc), Machine(loc.(fl := fl)), offset - last + pos - 1, ch, fl);
        next := EndWord(loc.(fl := fl), ch);
        return;
      }
      next := Continue(loc.(fl := fl));
    }

    /** A character behind a closing quote. */
    method BehindQuotes(loc: Locals, ch: Byte) returns (next: Next)
      requires Valid() && 0 < pos && loc.start <= pos - 1
      requires !loc.fl.sharp && !loc.fl.quoted && loc.fl.needSpace
      ensures Agrees(Dispatch(file, Machine(loc), offset - last + pos - 1, ch), next, old(system.asked))
    {
      hide Between, InToken;
      if IsSpace(ch) {
        return Continue(loc.(fl := loc.fl.(lastSpace := true, needSpace := false)));
      }
      if ch == SEMICOLON {
        return Return(Ok);
      }
      if ch == LBRACE {
        return Return(BlockStart);
      }
      if ch == RPAREN {
        next := BetweenTokens(loc.(fl := loc.fl.(lastSpace := true, needSpace := false)), ch);
        return;
      }
      return Return(Unexpected);
    }

    /** What is done with a character that has been taken. */
    method Handle(loc: Locals, ch: Byte) returns (next: Next)
      requires Valid() && 0 < pos && loc.start <= pos - 1 && buf[pos - 1] == ch
      requires !loc.fl.sharp && !loc.fl.quoted && !loc.fl.needSpace && !loc.fl.lastSpace ==>
        Paired(buf[loc.start..pos - 1])
      modifies this`args, system
      ensures Agrees(Dispatch(file, old(Machine(loc)), offset - last + pos - 1, ch), next, old(system.asked))
      ensures old(system.asked) <= system.asked
    {
      hide Paired, Unescape, Between, InToken;
      if loc.fl.sharp {
        return Continue(loc);
      }
      if loc.fl.quoted {
        return Continue(loc.(fl := loc.fl.(quoted := false)));
      }
      if loc.fl.needSpace {
        next := BehindQuotes(loc, ch);
        return;
      }
      if loc.fl.lastSpace {
        next := BetweenTokens(loc, ch);
      } else {
        next := InsideToken(loc, ch);
      }
    }

    /** One turn of the loop after the refill: takes a character and acts on it. */
    method ReadChar(loc0: Locals) returns (next: Next)
      requires Valid() && pos < last && loc0.start <= pos
      requires TokenInv(file, Machine(loc0))
      modifies this`pos, this`line, this`args, system
      ensures Agrees(Step(file, old(Machine(loc0))), next, old(system.asked))
      ensures old(system.asked) <= system.asked
    {
      hide Paired, Dispatch, TokenInv, Agrees;
      CurrentChar(loc0);
      var ch := buf[pos];
      pos := pos + 1;
      var loc := loc0;
      if ch == LF {
        line := line + 1;
        if loc.fl.sharp {
          loc := loc.(fl := loc.fl.(sharp := false));
        }
      }
      next := Handle(loc, ch);
    }

    lemma Positions()
      requires Valid()
      ensures pos <= last <= BUFFER && last <= offset <= |file|
    {
    }

    method SetLine(startLine: nat)
      requires Valid()
      modifies this`line
      ensures Valid() && line == startLine
    {
      line := startLine;
    }

    /** The top of the loop: refills the buffer when it is used up, or ends the call at the end of the file
        and at a token that fills the buffer. */
    method NeedChar(loc: Locals) returns (stop: Option<Status>, start: nat)
      requires Valid() && loc.start <= pos
      modifies this, buf, system
      ensures stop == None ==>
        && Valid() && pos < last && start <= pos
        && old(Machine(loc)).pos < |file| && old(Machine(loc)).pos - old(Machine(loc)).start != BUFFER
        && Machine(loc.(start := start)) == old(Machine(loc))
      ensures stop == Some(Failed) ==> system.Refused(old(system.asked))
      ensures stop.Some? && stop.value.Scanned? ==>
        && Valid()
        && Outcome(stop.value.rc, args, line, At()) == Scan(file, old(Machine(loc)), Some(BUFFER))
      ensures old(system.asked) <= system.asked
    {
      hide Scan, Step, Reader.Valid;
      Positions();
      ScanStep(file, Machine(loc), BUFFER);
      start := loc.start;
      if pos >= last {
        if offset >= |file| {
          return Some(Scanned(if |args| > 0 || !loc.fl.lastSpace then UnexpectedEnd else FileDone)), start;
        }
        if pos - start == BUFFER {
          SetLine(loc.startLine);
          return Some(Scanned(TooLong)), start;
        }
        var ok := Refill(start);
        if !ok {
          return Some(Failed), start;
        }
        start := 0;
      }
      stop := None;
    }

    /** `ngx_conf_read_token`: unless a read or an allocation fails, whatever blanks, comments and words are spelled
        from the current position on, it returns the words, the code for what ends them, the number of line feeds
        and the position behind, wherever the refills fall; or the text fills the buffer. */
    method ReadToken() returns (r: Status)
      requires Valid()
      modifies this, buf, system
      ensures r == Failed ==> system.Refused(old(system.asked))
      ensures r.Scanned? ==>
        && Valid()
        && Outcome(r.rc, args, line, At()) == Scan(file, Begin(old(At()), old(line)), Some(BUFFER))
      ensures r.Scanned? ==> forall items, e |
          AllLegal(Gap, items) && Ends(Last(Gap, items), e) && Spells(file, old(At()), Text(items), e) ::
        if Within(Gap, 0, items, e, Some(4096)) then
          && r.rc == Code(Words(items), Last(Gap, items), e) && args == Args(Words(items), Last(Gap, items), e)
          && line == old(line) + Lines(Text(items) + EndText(e))
          && At() == old(At()) + |Text(items)| + |EndText(e)|
        else r.rc == TooLong
      ensures old(system.asked) <= system.asked
    {
      hide Scan, AllLegal, Ends, Last, Spells, Text, Within, Code, Words, Args, Lines, EndText, RefusedIn;
      ghost var from, first := At(), line;
      r := ScanToken();
      forall items, e | r.Scanned? && AllLegal(Gap, items) && Ends(Last(Gap, items), e)
        && Spells(file, from, Text(items), e)
        ensures if Within(Gap, 0, items, e, Some(4096)) then
            && r.rc == Code(Words(items), Last(Gap, items), e) && args == Args(Words(items), Last(Gap, items), e)
            && line == first + Lines(Text(items) + EndText(e)) && At() == from + |Text(items)| + |EndText(e)|
          else r.rc == TooLong
      {
        SpelledIsRead(file, from, first, items, e, Some(4096));
      }
    }

    /** The loop: unless a read or an allocation fails, return code, arguments, line number and file position are
        those of the scan over the whole file, wherever the refills fall. */
    method ScanToken() returns (r: Status)
      requires Valid()
      modifies this, buf, system
      ensures r == Failed ==> system.Refused(old(system.asked))
      ensures r.Scanned? ==>
        && Valid()
        && Outcome(r.rc, args, line, At()) == Scan(file, Begin(old(At()), old(line)), Some(BUFFER))
      ensures old(system.asked) <= system.asked
    {
      hide Scan, Step, TokenInv;
      args := [];
      var loc := Locals(pos, line, FIRST);
      ghost var first := Begin(At(), line);
      BeginInv(file, At(), line);
      while true
        invariant Valid() && loc.start <= pos
        invariant TokenInv(file, Machine(loc))
        invariant Scan(file, Machine(loc), Some(BUFFER)) == Scan(file, first, Some(BUFFER))
        invariant old(system.asked) <= system.asked
        decreases |file| - At()
      {
        ghost var st := Machine(loc);
        var stop, start := NeedChar(loc);
        if stop.Some? {
          return stop.value;
        }
        loc := loc.(start := start);
        ScanStep(file, st, BUFFER);
        StepKeepsInv(file, st);
        var next := ReadChar(loc);
        match next {
          case Fail => return Failed;
          case Return(rc) => return Scanned(rc);
          case Continue(l) =>
            StepAdvances(file, st);
            loc := l;
        }
      }
    }

    /** The buffer shows the file. */
    lemma Shown(i: nat, j: nat)
      requires Valid() && i <= j <= last
      ensures buf[i..j] == file[offset - last + i..offset - last + j]
    {
      var all := buf[..];
      assert buf[..last] == all[..last] && buf[i..j] == all[i..j];
      WindowSlice(file, all, offset, last, i, j);
    }

    /** So does what the machine knows of the token. */
    lemma CurrentChar(loc: Locals)
      requires Valid() && pos < last && loc.start <= pos && TokenInv(file, Machine(loc))
      ensures buf[pos] == file[offset - last + pos] && (loc.fl.sharp ==> loc.fl.lastSpace)
      ensures !loc.fl.sharp && !loc.fl.quoted && !loc.fl.needSpace && !loc.fl.lastSpace ==>
        Paired(buf[loc.start..pos])
    {
      Shown(loc.start, pos);
      Shown(pos, pos + 1);
      assert buf[pos] == buf[pos..pos + 1][0];
    }
  }

  lemma WordIgnoresFlags(f: Str, a: State, b: State, p: nat, ch: Byte, fl: Flags)
    requires a.start <= p < |f| && b == a.(fl := b.fl)
    ensures Word(f, a, p, ch, fl) == Word(f, b, p, ch, fl)
  {
  }

  lemma WindowSlice(file: Str, w: Str, offset: nat, last: nat, i: nat, j: nat)
    requires i <= j <= last <= |w| && last <= offset <= |file| && w[..last] == file[offset - last..offset]
    ensures w[i..j] == file[offset - last + i..offset - last + j]
    ensures i < last ==> w[i] == file[offset - last + i]
  {
    SliceOfSlice(w, 0, last, i, j);
    SliceOfSlice(file, offset - last, offset, i, j);
    if i < last {
      SliceOfSlice(w, 0, last, i, i + 1);
      SliceOfSlice(file, offset - last, offset, i, i + 1);
      assert w[i] == w[i..i + 1][0];
    }
  }

  lemma WindowTail(file: Str, w: Str, offset: nat, last: nat, start: nat)
    requires start <= last == |w| && last <= offset <= |file| && w == file[offset - last..offset]
    ensures w[start..] == file[offset - last + start..offset]
  {
    SliceOfSlice(file, offset - last, offset, start, last);
    assert w[start..] == w[start..last];
  }
}
