/** Buffer chains of ngx_buf.c: coalescing file buffers, accounting for sent bytes, recycling links. */
module Chains {

  /** `ngx_buf_t`; `special` buffers carry a flag and no data. */
  class Buf {
    const inMemory: bool
    const inFile: bool
    const flagged: bool
    const tag: nat
    const fd: int
    const start: int
    var pos: int
    var last: int
    var filePos: int
    var fileLast: int

    constructor (inMemory: bool, inFile: bool, flagged: bool, tag: nat, fd: int, start: int)
      ensures this.inMemory == inMemory && this.inFile == inFile && this.flagged == flagged && this.tag == tag
      ensures this.fd == fd && this.start == pos == last == start && filePos == fileLast == 0
    {
      this.inMemory, this.inFile, this.flagged, this.tag, this.fd := inMemory, inFile, flagged, tag, fd;
      this.start, pos, last, filePos, fileLast := start, start, start, 0, 0;
    }
  }

  /** `ngx_chain_t`. */
  class Link {
    const buf: Buf
    var next: Link?

    constructor (buf: Buf)
      ensures this.buf == buf && next == null
    {
      this.buf, next := buf, null;
    }
  }

  // ----- Chains -----------------------------------------------------------------------------------------------

  function At(links: seq<Link>, i: nat): Link? {
    if i < |links| then links[i] else null
  }

  ghost predicate Chain(head: Link?, links: seq<Link>)
    reads links
  {
    && head == At(links, 0)
    && (forall i, j | 0 <= i < j < |links| :: links[i] != links[j])
    && forall i | 0 <= i < |links| :: links[i].next == At(links, i + 1)
  }

  lemma ChainStep(head: Link?, links: seq<Link>, k: nat)
    requires Chain(head, links) && k < |links|
    ensures links[k].next == At(links, k + 1)
  {
  }

  lemma Head(first: Link?, links: seq<Link>)
    requires Chain(first, links)
    ensures first == At(links, 0)
  {
  }

  /** `ngx_buf_special`. */
  predicate Special(b: Buf) {
    b.flagged && !b.inMemory && !b.inFile
  }

  /** `ngx_buf_size`. */
  function Size(b: Buf): int
    reads b
  {
    if b.inMemory then b.last - b.pos else b.fileLast - b.filePos
  }

  // ----- Coalescing file buffers -------------------------------------------------------------------------

  function Times(q: int, page: nat): int {
    q * page
  }

  ghost predicate OnPage(x: int, page: nat) {
    exists q: int :: x == Times(q, page)
  }

  /** The page boundary at or above `x`. */
  function Aligned(x: int, page: nat): (r: int)
    requires page > 0
    ensures x <= r < x + page && OnPage(r, page)
  {
    Times((x + page - 1) / page, page)
  }

  /** A buffer that a file range can cover. */
  ghost predicate FileBuf(b: Buf)
    reads b
  {
    b.inFile && b.filePos <= b.fileLast
  }

  /** The first `n` buffers follow each other in one file. */
  ghost predicate Contiguous(links: seq<Link>, n: nat)
    reads set l | l in links :: l.buf
  {
    && n <= |links|
    && (forall i | 0 <= i < n :: FileBuf(links[i].buf) && links[i].buf.fd == links[0].buf.fd)
    && forall i | 0 <= i < n - 1 :: links[i].buf.fileLast == links[i + 1].buf.filePos
  }

  /** Positions in a run of buffers grow. */
  lemma {:induction false} RunGrows(links: seq<Link>, n: nat, i: nat, j: nat)
    requires Contiguous(links, n) && i < j < n
    ensures links[0].buf.filePos <= links[i].buf.fileLast <= links[j].buf.filePos <= links[j].buf.fileLast
    decreases i + j
  {
    assert FileBuf(links[i].buf) && FileBuf(links[j].buf);
    if i > 0 {
      RunGrows(links, n, 0, i);
    }
    if j > i + 1 {
      RunGrows(links, n, i, j - 1);
      assert FileBuf(links[j - 1].buf);
    }
  }

  /** The limit falls inside buffer `j`, which the run from the first buffer reaches. */
  ghost predicate LimitIn(links: seq<Link>, limit: nat, j: nat)
    reads links, set l | l in links :: l.buf
  {
    && j < |links| && Contiguous(links, j + 1)
    && (j > 0 ==> links[j].buf.filePos < links[0].buf.filePos + limit)
    && links[0].buf.filePos + limit < links[j].buf.fileLast
  }

  lemma LimitInOne(links: seq<Link>, limit: nat, i: nat, j: nat)
    requires LimitIn(links, limit, i) && LimitIn(links, limit, j)
    ensures i == j
  {
    if i < j {
      RunGrows(links, j + 1, i, j);
    } else if j < i {
      RunGrows(links, i + 1, j, i);
    }
  }

  /** Where a range ends that the limit cuts in a buffer up to `last`: on the page boundary, if the buffer
      reaches it. */
  function CutAt(at: int, last: int, page: nat): int
    requires page > 0
  {
    if Aligned(at, page) <= last then Aligned(at, page) else at
  }

  /** Buffer `i` has data, and the range of `total` bytes runs through all of it. */
  ghost predicate Covered(links: seq<Link>, total: int, i: nat)
    reads links, set l | l in links :: l.buf
  {
    && i < |links| && Contiguous(links, i + 1)
    && links[i].buf.filePos < links[i].buf.fileLast <= links[0].buf.filePos + total
  }

  /** The limit falls into a buffer that ends on the next page boundary. */
  ghost predicate PageCompletes(links: seq<Link>, limit: nat, page: nat)
    requires page > 0
    reads links, set l | l in links :: l.buf
  {
    exists j: nat :: LimitIn(links, limit, j) && Aligned(links[0].buf.filePos + limit, page) == links[j].buf.fileLast
  }

  /** What the walk over the chain has established. */
  ghost predicate Walked(links: seq<Link>, limit: nat, page: nat, total: int, k: nat, cut: bool)
    requires page > 0 && links != []
    reads links, set l | l in links :: l.buf
  {
    var from := links[0].buf.filePos;
    && k <= |links|
    && (if cut then LimitIn(links, limit, k) && from + total == CutAt(from + limit, links[k].buf.fileLast, page)
        else
          && k > 0 && Contiguous(links, k) && total <= limit && from + total == links[k - 1].buf.fileLast
          && (k < |links| && Contiguous(links, k + 1) ==> total == limit))
  }

  /** Without a cut the limit falls into no buffer. */
  lemma NotPast(links: seq<Link>, limit: nat, page: nat, total: int, k: nat, j: nat)
    requires page > 0 && links != [] && Walked(links, limit, page, total, k, false)
    ensures !LimitIn(links, limit, j)
  {
    if LimitIn(links, limit, j) {
      if j < k - 1 {
        RunGrows(links, k, j, k - 1);
      } else if j >= k {
        assert Contiguous(links, k + 1);
        assert links[k - 1].buf.fileLast == links[k].buf.filePos;
        if j > k {
          RunGrows(links, j + 1, k, j);
        }
      }
    }
  }

  lemma CutIff(links: seq<Link>, limit: nat, page: nat, total: int, k: nat, cut: bool)
    requires page > 0 && links != [] && Walked(links, limit, page, total, k, cut)
    ensures cut <==> exists j: nat :: LimitIn(links, limit, j)
    ensures forall j: nat | LimitIn(links, limit, j) :: j == k
  {
    forall j: nat | LimitIn(links, limit, j)
      ensures cut && j == k
    {
      if cut {
        LimitInOne(links, limit, j, k);
      } else {
        NotPast(links, limit, page, total, k, j);
      }
    }
  }

  lemma CoveredCut(links: seq<Link>, limit: nat, page: nat, total: int, k: nat, cut: bool)
    requires page > 0 && links != [] && Walked(links, limit, page, total, k, cut)
    ensures Covered(links, total, k) <==>
      cut && Aligned(links[0].buf.filePos + limit, page) == links[k].buf.fileLast
  {
    if !cut && k < |links| && Contiguous(links, k + 1) {
      assert links[k - 1].buf.fileLast == links[k].buf.filePos;
    }
  }

  /** The buffer that is returned is wholly covered exactly when a page boundary completes it. */
  lemma CoveredIff(links: seq<Link>, limit: nat, page: nat, total: int, k: nat, cut: bool)
    requires page > 0 && links != [] && Walked(links, limit, page, total, k, cut)
    ensures Covered(links, total, k) <==> PageCompletes(links, limit, page)
    ensures forall i: nat | i < k && links[i].buf.filePos < links[i].buf.fileLast :: Covered(links, total, i)
  {
    CutIff(links, limit, page, total, k, cut);
    CoveredCut(links, limit, page, total, k, cut);
    forall i: nat | i < k && links[i].buf.filePos < links[i].buf.fileLast
      ensures Covered(links, total, i)
    {
      var n := if cut then k + 1 else k;
      if i < n - 1 {
        RunGrows(links, n, i, n - 1);
      }
    }
  }

  /** When the run of `k` buffers goes on. */
  lemma RunStep(links: seq<Link>, k: nat)
    requires 0 < k < |links| && Contiguous(links, k)
    requires links[k].buf.inFile ==> links[k].buf.filePos <= links[k].buf.fileLast
    ensures Contiguous(links, k + 1) <==>
      links[k].buf.inFile && links[k].buf.fd == links[0].buf.fd && links[k - 1].buf.fileLast == links[k].buf.filePos
  {
    if Contiguous(links, k + 1) {
      assert links[k - 1].buf.fileLast == links[k].buf.filePos && FileBuf(links[k].buf);
    }
  }

  /** `ngx_chain_coalesce_file`: the range of `total` bytes from the first file position runs through
      consecutive buffers of one file; it exceeds the limit by less than a page, and then ends on a page
      boundary. All buffers before `rest` are covered; `rest` is not, unless a page boundary completes it. */
  method CoalesceFile(first: Link, limit: nat, page: nat, ghost links: seq<Link>)
    returns (total: int, rest: Link?, ghost k: nat, ghost cut: bool)
    requires Chain(first, links) && page > 0 && FileBuf(first.buf)
    requires forall l | l in links && l.buf.inFile :: l.buf.filePos <= l.buf.fileLast
    ensures links != [] && k <= |links| && rest == At(links, k)
    ensures 0 <= total < limit + page && (total > limit ==> OnPage(first.buf.filePos + total, page))
    ensures Walked(links, limit, page, total, k, cut)
    ensures cut <==> exists j: nat :: LimitIn(links, limit, j)
    ensures forall i: nat | i < k && links[i].buf.filePos < links[i].buf.fileLast :: Covered(links, total, i)
    ensures Covered(links, total, k) <==> PageCompletes(links, limit, page)
  {
    hide Chain, Contiguous, OnPage, Walked, LimitIn, Covered, PageCompletes;
    total, k, cut := 0, 0, false;
    Head(first, links);
    FirstRun(links);
    var cl: Link? := first;
    var fd := first.buf.fd;
    while true
      invariant links != [] && k < |links| && cl == links[k] && 0 <= total <= limit
      invariant k > 0 ==> total < limit
      invariant Contiguous(links, k + 1) && fd == links[0].buf.fd && FileBuf(cl.buf)
      invariant cl.buf.filePos == links[0].buf.filePos + total
      decreases |links| - k
    {
      var size := cl.buf.fileLast - cl.buf.filePos;
      if size > limit - total {
        size := limit - total;
        var aligned := Aligned(cl.buf.filePos + size, page);
        if aligned <= cl.buf.fileLast {
          size := aligned - cl.buf.filePos;
        }
        total := total + size;
        cut := true;
        CutWalked(links, limit, page, total, k);
        break;
      }
      total := total + size;
      var fprev := cl.buf.filePos + size;
      ChainStep(first, links, k);
      cl := cl.next;
      k := k + 1;
      if k < |links| {
        assert links[k] in links;
        RunStep(links, k);
      }
      if !(cl != null && cl.buf.inFile && total < limit && fd == cl.buf.fd && fprev == cl.buf.filePos) {
        RunWalked(links, limit, page, total, k);
        break;
      }
    }
    rest := cl;
    CutIff(links, limit, page, total, k, cut);
    CoveredIff(links, limit, page, total, k, cut);
  }

  lemma CutWalked(links: seq<Link>, limit: nat, page: nat, total: int, k: nat)
    requires page > 0 && k < |links| && Contiguous(links, k + 1)
    requires var from := links[0].buf.filePos;
      && (k > 0 ==> links[k].buf.filePos < from + limit) && from + limit < links[k].buf.fileLast
      && from + total == CutAt(from + limit, links[k].buf.fileLast, page)
    ensures Walked(links, limit, page, total, k, true)
  {
    hide Contiguous;
  }

  lemma RunWalked(links: seq<Link>, limit: nat, page: nat, total: int, k: nat)
    requires page > 0 && 0 < k <= |links| && Contiguous(links, k) && total <= limit
    requires links[0].buf.filePos + total == links[k - 1].buf.fileLast
    requires k < |links| && Contiguous(links, k + 1) ==> total == limit
    ensures Walked(links, limit, page, total, k, false)
  {
    hide Contiguous;
  }

  lemma FirstRun(links: seq<Link>)
    requires links != [] && FileBuf(links[0].buf)
    ensures Contiguous(links, 1)
  {
  }

  /** A single buffer of one page: with a limit of 100 bytes the whole page is taken, and the buffer returned
      is the covered one. */
  method CompletedByPage() returns (total: int, first: Link, rest: Link?)
    ensures total == 4096 && rest == first && first.buf.filePos == 0 && first.buf.fileLast == 4096
  {
    var b := new Buf(false, true, false, 0, 3, 0);
    b.fileLast := 4096;
    first := new Link(b);
    ghost var links, k, cut := [first], 0, false;
    assert Aligned(100, 4096) == 4096;
    assert LimitIn(links, 100, 0);
    total, rest, k, cut := CoalesceFile(first, 100, 4096, links);
    assert LimitIn(links, 100, k);
  }

  // ----- Sent bytes ---------------------------------------------------------------------------------------------

  /** Where a byte that waits to be sent is. */
  datatype Place = Memory(address: int) | File(fd: int, offset: int)

  function Pending(b: Buf): seq<Place>
    requires Sound(b)
    reads b
  {
    if b.inMemory then MemoryRange(b.pos, b.last - b.pos)
    else if b.inFile then FileRange(b.fd, b.filePos, b.fileLast - b.filePos)
    else []
  }

  function MemoryRange(from: int, n: nat): (r: seq<Place>)
    ensures |r| == n
  {
    seq(n, i => Memory(from + i))
  }

  function FileRange(fd: int, from: int, n: nat): (r: seq<Place>)
    ensures |r| == n
  {
    seq(n, i => File(fd, from + i))
  }

  lemma RangeDrops(fd: int, from: int, n: nat, k: nat)
    requires k <= n
    ensures MemoryRange(from, n)[k..] == MemoryRange(from + k, n - k)
    ensures FileRange(fd, from, n)[k..] == FileRange(fd, from + k, n - k)
  {
  }

  /** Positions in order; a buffer in memory and in a file has as much of both; one in neither has no bytes. */
  predicate Sound(b: Buf)
    reads b
  {
    && (b.inMemory ==> b.pos <= b.last)
    && (b.inFile ==> b.filePos <= b.fileLast)
    && (b.inMemory && b.inFile ==> b.last - b.pos == b.fileLast - b.filePos)
    && (!b.inMemory && !b.inFile ==> b.fileLast == b.filePos)
  }

  ghost predicate AllSound(links: seq<Link>)
    reads set l | l in links :: l.buf
  {
    forall i | 0 <= i < |links| :: Sound(links[i].buf)
  }

  ghost function Parts(links: seq<Link>): (ps: seq<seq<Place>>)
    requires AllSound(links)
    reads set l | l in links :: l.buf
    ensures |ps| == |links| && forall i | 0 <= i < |links| :: ps[i] == Pending(links[i].buf)
  {
    seq(|links|, i requires 0 <= i < |links| && AllSound(links) reads set l | l in links :: l.buf =>
      Pending(links[i].buf))
  }

  function Flatten(ps: seq<seq<Place>>): seq<Place> {
    if ps == [] then [] else ps[0] + Flatten(ps[1..])
  }

  /** The bytes of a chain that wait to be sent, in order. */
  ghost function PendingAll(links: seq<Link>): seq<Place>
    requires AllSound(links)
    reads set l | l in links :: l.buf
  {
    Flatten(Parts(links))
  }

  /** `ps` with the first `k` parts empty and `s` bytes dropped from the next. */
  ghost predicate Sent(was: seq<seq<Place>>, now: seq<seq<Place>>, k: nat, s: nat) {
    && |now| == |was| && k <= |was|
    && (forall i | 0 <= i < k :: now[i] == [])
    && (if k < |was| then s <= |was[k]| && now[k] == was[k][s..] else s == 0)
    && (forall i | k < i < |was| :: now[i] == was[i])
  }

  function Min(a: nat, b: nat): nat {
    if a < b then a else b
  }

  lemma {:induction false} SentDrops(was: seq<seq<Place>>, now: seq<seq<Place>>, k: nat, s: nat)
    requires Sent(was, now, k, s)
    ensures var n := |Flatten(was[..k])| + s; n <= |Flatten(was)| && Flatten(now) == Flatten(was)[n..]
    decreases k
  {
    hide Flatten;
    if was == [] {
      NoPlaces();
      assert now == [] && was[..k] == [];
    } else {
      var w := was[1..];
      FlattenFirst(was);
      FlattenFirst(now);
      if k == 0 {
        NoPlaces();
        assert now[1..] == w && was[..0] == [];
        DropWithin(was[0], Flatten(w), s);
      } else {
        SentRest(was, now, k, s);
        SentDrops(w, now[1..], k - 1, s);
        assert was[..k][1..] == w[..k - 1];
        FlattenFirst(was[..k]);
        DropPast(was[0], Flatten(w), |Flatten(w[..k - 1])| + s);
        assert [] + Flatten(now[1..]) == Flatten(now[1..]);
      }
    }
  }

  lemma NoPlaces()
    ensures Flatten([]) == []
  {
  }

  lemma FlattenFirst(ps: seq<seq<Place>>)
    requires ps != []
    ensures Flatten(ps) == ps[0] + Flatten(ps[1..])
  {
  }

  lemma SentRest(was: seq<seq<Place>>, now: seq<seq<Place>>, k: nat, s: nat)
    requires Sent(was, now, k, s) && was != [] && k > 0
    ensures Sent(was[1..], now[1..], k - 1, s) && now[0] == []
  {
  }

  lemma DropWithin(a: seq<Place>, b: seq<Place>, n: nat)
    requires n <= |a|
    ensures (a + b)[n..] == a[n..] + b
  {
  }

  lemma DropPast(a: seq<Place>, b: seq<Place>, n: nat)
    requires n <= |b|
    ensures (a + b)[|a| + n..] == b[n..]
  {
  }

  lemma {:induction false} FlattenStep(ps: seq<seq<Place>>, k: nat)
    requires k < |ps|
    ensures |Flatten(ps[..k + 1])| == |Flatten(ps[..k])| + |ps[k]|
  {
    if k == 0 {
      assert ps[..1] == [ps[0]] && ps[..1][1..] == [] && ps[..0] == [];
    } else {
      FlattenStep(ps[1..], k - 1);
      assert ps[..k + 1][1..] == ps[1..][..k] && ps[..k][1..] == ps[1..][..k - 1];
    }
  }

  /** The first `sent` bytes of a buffer are sent, or all. */
  method Drop(b: Buf, sent: nat)
    requires Sound(b) && sent <= Size(b)
    modifies b`pos, b`filePos
    ensures Sound(b) && |old(Pending(b))| == old(Size(b)) && Pending(b) == old(Pending(b))[sent..]
  {
    hide MemoryRange, FileRange;
    var all := sent >= Size(b);
    if b.inMemory {
      RangeDrops(b.fd, b.pos, b.last - b.pos, sent);
    } else if b.inFile {
      RangeDrops(b.fd, b.filePos, b.fileLast - b.filePos, sent);
    }
    if b.inMemory {
      b.pos := if all then b.last else b.pos + sent;
    }
    if b.inFile {
      b.filePos := if all then b.fileLast else b.filePos + sent;
    }
  }

  /** The same for buffer `k` of a chain, whose other buffers keep what they have. */
  method DropAt(b: Buf, sent: nat, ghost links: seq<Link>, ghost k: nat)
    requires AllSound(links) && k < |links| && b == links[k].buf && sent <= Size(b)
    requires forall i, j | 0 <= i < j < |links| :: links[i].buf != links[j].buf
    modifies b`pos, b`filePos
    ensures AllSound(links) && |old(Parts(links))[k]| == old(Size(b))
    ensures Parts(links) == old(Parts(links))[k := old(Parts(links))[k][sent..]]
  {
    hide Pending, Sound;
    ghost var was := Parts(links);
    assert was[k] == Pending(b) && Sound(b);
    Drop(b, sent);
    forall i | 0 <= i < |links|
      ensures Sound(links[i].buf) && Pending(links[i].buf) == if i == k then was[k][sent..] else was[i]
    {
    }
  }

  lemma SentStep(was: seq<seq<Place>>, now: seq<seq<Place>>, after: seq<seq<Place>>, k: nat, n: nat)
    requires Sent(was, now, k, 0) && k < |was| && n <= |now[k]| && after == now[k := now[k][n..]]
    ensures now[k] == was[k] && Sent(was, after, k, n) && (n == |was[k]| ==> Sent(was, after, k + 1, 0))
  {
  }

  /** The sent bytes go beyond the beginning of buffer `i` and reach its end. */
  ghost predicate Done(was: seq<seq<Place>>, bytes: nat, i: nat)
    requires i < |was|
  {
    |Flatten(was[..i])| < bytes && |Flatten(was[..i + 1])| <= bytes
  }

  ghost predicate Passed(links: seq<Link>, was: seq<seq<Place>>, bytes: nat, k: nat) {
    k <= |links| == |was| && forall i | 0 <= i < k :: NoData(links[i].buf) || Done(was, bytes, i)
  }

  /** A flag and no data. */
  ghost predicate NoData(b: Buf) {
    b.flagged && !b.inMemory && !b.inFile
  }

  /** Buffer `k` is the first that is neither special nor done. */
  ghost predicate FirstLeft(links: seq<Link>, was: seq<seq<Place>>, bytes: nat, k: nat) {
    Passed(links, was, bytes, k) && (k < |links| ==> !NoData(links[k].buf) && !Done(was, bytes, k))
  }

  lemma FirstLeftUnique(links: seq<Link>, was: seq<seq<Place>>, bytes: nat, j: nat, k: nat)
    requires FirstLeft(links, was, bytes, j) && FirstLeft(links, was, bytes, k)
    ensures j == k
  {
    hide Done, NoData;
  }

  lemma PassOne(links: seq<Link>, was: seq<seq<Place>>, bytes: nat, k: nat)
    requires Passed(links, was, bytes, k) && k < |links|
    ensures Special(links[k].buf) || Done(was, bytes, k) ==> Passed(links, was, bytes, k + 1)
    ensures !Special(links[k].buf) && !Done(was, bytes, k) ==> FirstLeft(links, was, bytes, k)
  {
    hide Done;
  }

  lemma AllPassed(links: seq<Link>, was: seq<seq<Place>>, bytes: nat)
    requires Passed(links, was, bytes, |links|)
    ensures FirstLeft(links, was, bytes, |links|)
  {
  }

  /** A buffer with data takes its share of the sent bytes; what is left goes to the next ones, unless it is
      sent in part. */
  method TakeSent(b: Buf, sent: nat, ghost links: seq<Link>, ghost k: nat, ghost was: seq<seq<Place>>)
    returns (partial: bool, left: nat)
    requires AllSound(links) && k < |links| && b == links[k].buf && !Special(b)
    requires forall i, j | 0 <= i < j < |links| :: links[i].buf != links[j].buf
    requires Sent(was, Parts(links), k, 0)
    modifies b`pos, b`filePos
    ensures AllSound(links) && |was| == |links|
    ensures partial ==> left == sent < |was[k]| && Sent(was, Parts(links), k, sent)
    ensures !partial ==> left + |was[k]| == sent && Sent(was, Parts(links), k + 1, 0)
  {
    hide Sound, Pending, Sent;
    ghost var now := Parts(links);
    assert Sound(b);
    var size := SizeOf(b);
    Finished(was, now, k, 0);
    SentStep(was, now, now[k := now[k][Min(sent, size)..]], k, Min(sent, size));
    partial := sent < size;
    DropAt(b, if partial then sent else size, links, k);
    left := if partial then sent else sent - size;
  }

  /** How much a buffer has, which its positions keep from being negative. */
  method SizeOf(b: Buf) returns (n: nat)
    requires Sound(b)
    ensures n == Size(b) && (!Special(b) ==> n == |Pending(b)|)
  {
    n := Size(b);
  }

  lemma SpecialEmpty(b: Buf)
    requires Sound(b) && Special(b)
    ensures Pending(b) == []
  {
  }

  lemma Finished(was: seq<seq<Place>>, now: seq<seq<Place>>, k: nat, s: nat)
    requires Sent(was, now, k, s)
    ensures |now| == |was| && forall i | 0 <= i < k :: now[i] == []
    ensures k <= |was| && (k == |was| ==> s == 0)
  {
  }

  /** One buffer of the walk; `stop` when it is the first left. */
  method WalkOne(b: Buf, sent: nat, ghost bytes: nat, ghost links: seq<Link>, ghost k: nat,
                 ghost was: seq<seq<Place>>) returns (stop: bool, left: nat)
    requires AllSound(links) && k < |links| && b == links[k].buf
    requires forall i, j | 0 <= i < j < |links| :: links[i].buf != links[j].buf
    requires Sent(was, Parts(links), k, 0) && sent + |Flatten(was[..k])| == bytes && Passed(links, was, bytes, k)
    modifies b`pos, b`filePos
    ensures AllSound(links) && |was| == |links|
    ensures stop ==> left == sent && Sent(was, Parts(links), k, left) && FirstLeft(links, was, bytes, k)
    ensures !stop ==>
      && Sent(was, Parts(links), k + 1, 0) && left + |Flatten(was[..k + 1])| == bytes
      && Passed(links, was, bytes, k + 1)
  {
    hide Flatten, Sent, Sound, Pending, Passed, FirstLeft;
    Finished(was, Parts(links), k, 0);
    FlattenStep(was, k);
    PassOne(links, was, bytes, k);
    if Special(b) {
      assert Sound(b);
      SpecialEmpty(b);
      SentStep(was, Parts(links), Parts(links), k, 0);
      return false, sent;
    }
    if sent == 0 {
      return true, 0;
    }
    stop, left := TakeSent(b, sent, links, k, was);
  }

  /** The walk of `ngx_chain_update_sent`: `s` bytes of buffer `k` and all of those before it are sent. */
  method Walk(first: Link?, bytes: nat, ghost links: seq<Link>, ghost bufs: set<Buf>, ghost was: seq<seq<Place>>)
    returns (rest: Link?, ghost k: nat, ghost s: nat, sent: nat)
    requires Chain(first, links) && AllSound(links) && was == Parts(links)
    requires forall i, j | 0 <= i < j < |links| :: links[i].buf != links[j].buf
    requires forall i | 0 <= i < |links| :: links[i].buf in bufs
    modifies bufs`pos, bufs`filePos
    ensures AllSound(links) && k <= |links| && rest == At(links, k) && FirstLeft(links, was, bytes, k)
    ensures Sent(was, Parts(links), k, s) && sent + |Flatten(was[..k])| == bytes
    ensures s == sent || (s == 0 && k == |was|)
  {
    hide Flatten, Chain, Sent, Sound, Pending, Passed, FirstLeft, Special, NoData, Done, AllSound;
    NonePassed(links, was, bytes);
    sent, s, k := bytes, 0, 0;
    var at := first;
    NothingSent(was);
    Head(first, links);
    while at != null
      invariant k <= |links| && at == At(links, k) && AllSound(links) && Chain(first, links)
      invariant Sent(was, Parts(links), k, 0) && sent + |Flatten(was[..k])| == bytes
      invariant Passed(links, was, bytes, k)
      decreases |links| - k
    {
      ChainStep(first, links, k);
      var stop;
      stop, sent := WalkOne(at.buf, sent, bytes, links, k, was);
      if stop {
        return at, k, sent, sent;
      }
      at := at.next;
      k := k + 1;
    }
    rest := null;
    AllPassed(links, was, bytes);
  }

  lemma NonePassed(links: seq<Link>, was: seq<seq<Place>>, bytes: nat)
    requires |was| == |links|
    ensures Passed(links, was, bytes, 0)
  {
  }

  /** `ngx_chain_update_sent`: what waits is what waited, without the first `bytes` bytes; the chain that is
      returned starts at the first buffer, special ones aside, that the sent bytes have not begun and finished. */
  method UpdateSent(first: Link?, bytes: nat, ghost links: seq<Link>) returns (rest: Link?, ghost k: nat)
    requires Chain(first, links) && AllSound(links)
    requires forall i, j | 0 <= i < j < |links| :: links[i].buf != links[j].buf
    modifies (set l | l in links :: l.buf)`pos, (set l | l in links :: l.buf)`filePos
    ensures AllSound(links)
    ensures var was := old(PendingAll(links)); PendingAll(links) == was[Min(bytes, |was|)..]
    ensures k <= |links| && rest == At(links, k) && FirstLeft(links, old(Parts(links)), bytes, k)
    ensures forall i | 0 <= i < k :: Pending(links[i].buf) == []
  {
    hide Flatten, Chain, Sent, Sound, Pending, Min, FirstLeft;
    ghost var was := Parts(links);
    ghost var s;
    var sent;
    rest, k, s, sent := Walk(first, bytes, links, set l | l in links :: l.buf, was);
    Accounted(was, Parts(links), k, s, bytes, sent);
  }

  /** At the end the sent bytes are dropped, or everything is sent. */
  lemma Accounted(was: seq<seq<Place>>, now: seq<seq<Place>>, k: nat, s: nat, bytes: nat, sent: nat)
    requires Sent(was, now, k, s) && sent + |Flatten(was[..k])| == bytes
    requires s == sent || (s == 0 && k == |was|)
    ensures Flatten(now) == Flatten(was)[Min(bytes, |Flatten(was)|)..]
    ensures |now| == |was| && forall i | 0 <= i < k :: now[i] == []
  {
    hide Flatten;
    SentDrops(was, now, k, s);
    if k == |was| {
      assert was[..k] == was;
    }
  }

  lemma NothingSent(was: seq<seq<Place>>)
    ensures Sent(was, was, 0, 0) && Flatten(was[..0]) == []
  {
  }

  // ----- Recycling ---------------------------------------------------------------------------------------------

  ghost predicate Distinct(s: seq<Link>) {
    forall i, j | 0 <= i < j < |s| :: s[i] != s[j]
  }

  /** The links with (or without) the tag among the first `k`, last first, before those of `tail`. */
  function Picked(all: seq<Link>, k: nat, tag: nat, own: bool, tail: seq<Link>): (r: seq<Link>)
    requires k <= |all|
    ensures forall x | x in r :: x in all[..k] || x in tail
  {
    if k == 0 then tail
    else
      var r := Picked(all, k - 1, tag, own, tail);
      if (all[k - 1].buf.tag == tag) == own then [all[k - 1]] + r else r
  }

  lemma ChainTail(head: Link?, links: seq<Link>)
    requires Chain(head, links) && links != []
    ensures head == links[0] && Chain(links[0].next, links[1..])
  {
  }

  lemma ChainPush(head: Link?, links: seq<Link>, cl: Link)
    requires Chain(head, links) && cl !in links && cl.next == head
    ensures Chain(cl, [cl] + links)
  {
  }

  /** Appends the chain of new output to the busy one. */
  method Join(busy: Link?, out: Link?, ghost bs: seq<Link>, ghost os: seq<Link>) returns (joined: Link?)
    requires Chain(busy, bs) && Chain(out, os) && Distinct(bs + os)
    modifies bs
    ensures Chain(joined, bs + os)
  {
    if out == null {
      assert os == [] && bs + os == bs;
      return busy;
    }
    if busy == null {
      assert bs == [] && bs + os == os;
      return out;
    }
    var cl := LastOf(busy, bs);
    NotInBoth(bs, os);
    NextLinks(busy, bs);
    assert cl in bs;
    assert forall i | 0 <= i < |os| :: os[i] != cl;
    cl.next := out;
    joined := busy;
    JoinedChain(busy, bs, out, os);
  }

  lemma NotInBoth(bs: seq<Link>, os: seq<Link>)
    requires Distinct(bs + os)
    ensures forall x | x in bs :: x !in os
    ensures forall i, j | 0 <= i < j < |bs| :: bs[i] != bs[j]
  {
    forall i, j | 0 <= i < |bs| && 0 <= j < |os|
      ensures bs[i] != os[j]
    {
      assert (bs + os)[i] == bs[i] && (bs + os)[|bs| + j] == os[j];
    }
    forall i, j | 0 <= i < j < |bs|
      ensures bs[i] != bs[j]
    {
      assert (bs + os)[i] == bs[i] && (bs + os)[j] == bs[j];
    }
  }

  lemma NextLinks(head: Link?, links: seq<Link>)
    requires Chain(head, links)
    ensures forall i | 0 <= i < |links| - 1 :: links[i].next == links[i + 1]
  {
    forall i | 0 <= i < |links| - 1
      ensures links[i].next == links[i + 1]
    {
      ChainStep(head, links, i);
    }
  }

  method LastOf(head: Link, ghost links: seq<Link>) returns (cl: Link)
    requires Chain(head, links)
    ensures links != [] && cl == links[|links| - 1]
  {
    hide Chain;
    Head(head, links);
    cl := head;
    ghost var k := 0;
    while true
      invariant k < |links| && cl == links[k]
      decreases |links| - k
    {
      ChainStep(head, links, k);
      if cl.next == null {
        return;
      }
      cl := cl.next;
      k := k + 1;
    }
  }

  lemma JoinedChain(busy: Link?, bs: seq<Link>, out: Link?, os: seq<Link>)
    requires bs != [] && Distinct(bs + os) && busy == bs[0] && Chain(out, os)
    requires forall i | 0 <= i < |bs| - 1 :: bs[i].next == bs[i + 1]
    requires bs[|bs| - 1].next == out
    ensures Chain(busy, bs + os)
  {
    var all := bs + os;
    forall i | 0 <= i < |all|
      ensures all[i].next == At(all, i + 1)
    {
      if i >= |bs| {
        ChainStep(out, os, i - |bs|);
      }
    }
  }

  /** Takes the first link off the busy chain and puts it on another one. */
  method MoveFirst(cl: Link, head: Link?, ghost links: seq<Link>, ghost rest: seq<Link>) returns (busy: Link?)
    requires Chain(cl, [cl] + rest) && Chain(head, links) && cl !in links
    modifies cl`next
    ensures Chain(busy, rest) && Chain(cl, [cl] + links)
  {
    ChainTail(cl, [cl] + rest);
    assert ([cl] + rest)[1..] == rest;
    NotFirst(cl, rest);
    assert forall i | 0 <= i < |links| :: links[i] != cl;
    busy := cl.next;
    cl.next := head;
    ChainPush(head, links, cl);
  }

  lemma NotFirst(cl: Link, rest: seq<Link>)
    requires Chain(cl, [cl] + rest)
    ensures forall i | 0 <= i < |rest| :: rest[i] != cl
  {
    forall i | 0 <= i < |rest|
      ensures rest[i] != cl
    {
      assert ([cl] + rest)[i + 1] == rest[i];
    }
  }

  lemma PickStep(all: seq<Link>, k: nat, tag: nat, own: bool, tail: seq<Link>)
    requires k < |all| && Distinct(all + tail)
    ensures var r := Picked(all, k, tag, own, tail);
      && all[k] !in r
      && Picked(all, k + 1, tag, own, tail) == if (all[k].buf.tag == tag) == own then [all[k]] + r else r
    ensures [all[k]] + all[k + 1..] == all[k..]
  {
    forall i | 0 <= i < k
      ensures all[i] != all[k]
    {
      assert (all + tail)[i] == all[i] && (all + tail)[k] == all[k];
    }
    forall i | 0 <= i < |tail|
      ensures tail[i] != all[k]
    {
      assert (all + tail)[|all| + i] == tail[i] && (all + tail)[k] == all[k];
    }
  }

  /** The three chains after the first `k` links of `all` were sorted out. */
  ghost predicate Sorted(all: seq<Link>, k: nat, free: Link?, busy: Link?, pool: Link?,
                         own: seq<Link>, others: seq<Link>)
    reads all, own, others
  {
    k <= |all| && Chain(busy, all[k..]) && Chain(free, own) && Chain(pool, others)
  }

  /** One turn of the loop; `stop` at an own buffer with data. */
  method Turn(cl: Link, free: Link?, pool: Link?, tag: nat, ghost all: seq<Link>, ghost k: nat,
              ghost own: seq<Link>, ghost others: seq<Link>)
    returns (stop: bool, free1: Link?, busy1: Link?, pool1: Link?)
    requires Sorted(all, k, free, cl, pool, own, others) && k < |all| && cl == all[k]
    requires cl !in own && cl !in others
    modifies cl`next, cl.buf
    ensures stop <==> cl.buf.tag == tag && old(Size(cl.buf)) != 0
    ensures !stop && cl.buf.tag == tag ==> Emptied(cl.buf)
    ensures stop ==> Size(cl.buf) == old(Size(cl.buf)) && Sorted(all, k, free1, busy1, pool1, own, others)
    ensures !stop ==>
      Sorted(all, k + 1, free1, busy1, pool1, if cl.buf.tag == tag then [cl] + own else own,
             if cl.buf.tag == tag then others else [cl] + others)
  {
    hide Chain;
    free1, pool1, busy1, stop := free, pool, cl, false;
    assert all[k..] == [cl] + all[k + 1..];
    if cl.buf.tag != tag {
      assert forall i | 0 <= i < |own| :: own[i] != cl;
      busy1 := MoveFirst(cl, pool, others, all[k + 1..]);
      pool1 := cl;
      return;
    }
    if Size(cl.buf) != 0 {
      stop := true;
      return;
    }
    cl.buf.pos, cl.buf.last := cl.buf.start, cl.buf.start;
    assert forall i | 0 <= i < |others| :: others[i] != cl;
    busy1 := MoveFirst(cl, free, own, all[k + 1..]);
    free1 := cl;
  }

  predicate Emptied(b: Buf)
    reads b
  {
    b.pos == b.last == b.start
  }

  /** Every link is in exactly one of the chains. */
  lemma {:induction false} NoneLost(all: seq<Link>, k: nat, tag: nat, fs: seq<Link>, ps: seq<Link>)
    requires k <= |all|
    ensures multiset(Picked(all, k, tag, true, fs)) + multiset(Picked(all, k, tag, false, ps)) + multiset(all[k..])
         == multiset(all) + multiset(fs) + multiset(ps)
  {
    if k == 0 {
      assert all[0..] == all;
    } else {
      NoneLost(all, k - 1, tag, fs, ps);
      assert all[k - 1..] == [all[k - 1]] + all[k..];
    }
  }

  lemma FirstOf(all: seq<Link>, k: nat, busy: Link?)
    requires k <= |all| && Chain(busy, all[k..])
    ensures busy == At(all, k)
  {
  }

  /** The loop of `ngx_chain_update_chains` over the joined chain `all`. */
  method SortOut(free: Link?, busy: Link?, pool: Link?, tag: nat,
                 ghost all: seq<Link>, ghost fs: seq<Link>, ghost ps: seq<Link>)
    returns (free1: Link?, busy1: Link?, pool1: Link?, ghost k: nat)
    requires Sorted(all, 0, free, busy, pool, Picked(all, 0, tag, true, fs), Picked(all, 0, tag, false, ps))
    requires Distinct(all + fs) && Distinct(all + ps)
    requires forall i, j | 0 <= i < j < |all| :: all[i].buf != all[j].buf
    modifies all, set l | l in all :: l.buf
    ensures k <= |all|
    ensures Sorted(all, k, free1, busy1, pool1, Picked(all, k, tag, true, fs), Picked(all, k, tag, false, ps))
    ensures forall i | 0 <= i < k && all[i].buf.tag == tag :: old(Size(all[i].buf)) == 0 && Emptied(all[i].buf)
    ensures k < |all| ==> all[k].buf.tag == tag && old(Size(all[k].buf)) != 0
  {
    hide Chain, Distinct, Picked;
    k := 0;
    free1, busy1, pool1 := free, busy, pool;
    while busy1 != null
      invariant k <= |all|
      invariant Sorted(all, k, free1, busy1, pool1, Picked(all, k, tag, true, fs), Picked(all, k, tag, false, ps))
      invariant forall i | 0 <= i < k && all[i].buf.tag == tag :: Emptied(all[i].buf)
      invariant forall i | 0 <= i < k && all[i].buf.tag == tag :: old(Size(all[i].buf)) == 0
      invariant forall i | k <= i < |all| :: Size(all[i].buf) == old(Size(all[i].buf))
      decreases |all| - k
    {
      FirstOf(all, k, busy1);
      ghost var own, others := Picked(all, k, tag, true, fs), Picked(all, k, tag, false, ps);
      PickStep(all, k, tag, true, fs);
      PickStep(all, k, tag, false, ps);
      var stop;
      stop, free1, busy1, pool1 := Turn(busy1, free1, pool1, tag, all, k, own, others);
      if stop {
        return;
      }
      k := k + 1;
    }
    FirstOf(all, k, busy1);
  }

  /** `ngx_chain_update_chains`: the output joins the busy chain; from its front, links of other modules go to
      the pool and own buffers without data are emptied and go to the free chain, up to the first own buffer
      with data. No link is lost. */
  method UpdateChains(free: Link?, busy: Link?, out: Link?, pool: Link?, tag: nat,
                      ghost fs: seq<Link>, ghost bs: seq<Link>, ghost os: seq<Link>, ghost ps: seq<Link>)
    returns (free1: Link?, busy1: Link?, pool1: Link?, ghost k: nat)
    requires Chain(free, fs) && Chain(busy, bs) && Chain(out, os) && Chain(pool, ps)
    requires Distinct((bs + os) + fs) && Distinct((bs + os) + ps) && Distinct(fs + ps)
    requires var all := bs + os; forall i, j | 0 <= i < j < |all| :: all[i].buf != all[j].buf
    modifies bs, os, set l | l in bs + os :: l.buf
    ensures k <= |bs + os| && Chain(busy1, (bs + os)[k..])
    ensures Chain(free1, Picked(bs + os, k, tag, true, fs))
    ensures Chain(pool1, Picked(bs + os, k, tag, false, ps))
    ensures forall i | 0 <= i < k && (bs + os)[i].buf.tag == tag ::
      var b := (bs + os)[i].buf;
      old(if b.inMemory then b.last - b.pos else b.fileLast - b.filePos) == 0 && b.pos == b.last == b.start
    ensures k < |bs + os| ==>
      var b := (bs + os)[k].buf;
      b.tag == tag && old(if b.inMemory then b.last - b.pos else b.fileLast - b.filePos) != 0
  {
    hide Chain, Distinct, Picked;
    ghost var all := bs + os;
    NotInBoth(all, fs);
    NotInBoth(all, ps);
    DistinctPart(all, fs);
    assert forall x | x in bs :: x in all;
    assert forall i | 0 <= i < |fs| :: fs[i] !in bs;
    assert forall i | 0 <= i < |ps| :: ps[i] !in bs;
    busy1 := Join(busy, out, bs, os);
    assert all[0..] == all;
    NothingPicked(all, tag, fs, ps);
    free1, busy1, pool1, k := SortOut(free, busy1, pool, tag, all, fs, ps);
  }

  lemma DistinctPart(all: seq<Link>, fs: seq<Link>)
    requires Distinct(all + fs)
    ensures Distinct(all)
  {
    NotInBoth(all, fs);
  }

  lemma NothingPicked(all: seq<Link>, tag: nat, fs: seq<Link>, ps: seq<Link>)
    ensures Picked(all, 0, tag, true, fs) == fs && Picked(all, 0, tag, false, ps) == ps
  {
  }
}
